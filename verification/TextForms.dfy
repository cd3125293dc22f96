/** Numbers and lists as text (Utils.h), and the "ip:port" form of a proxy (RedisClientPool.cpp). */
module TextForms {

  // ----- numbers -----

  function Digit(d: nat): (c: char)
    requires d < 10
    ensures IsDigit(c) && c as int - '0' as int == d
  {
    '0' + d as char
  }

  predicate IsDigit(c: char) {
    '0' <= c <= '9'
  }

  function Digits(n: nat): (s: string)
    ensures s != "" && forall i | 0 <= i < |s| :: IsDigit(s[i])
  {
    if n < 10 then [Digit(n)] else Digits(n / 10) + [Digit(n % 10)]
  }

  /** int2string */
  function Int2String(i: int): (s: string) {
    if i < 0 then "-" + Digits(-i) else Digits(i)
  }

  predicate IsSpace(c: char) {
    c == ' ' || c == '\t' || c == '\n' || c == '\r' || c == 11 as char || c == 12 as char
  }

  /** The number the digits at the front of `s` continue from `acc`. */
  function Accumulate(s: string, acc: nat): nat
    decreases |s|
  {
    if s == "" || !IsDigit(s[0]) then acc
    else Accumulate(s[1..], 10 * acc + (s[0] as int - '0' as int))
  }

  /** string2int, that is atoi: white space, one sign, digits, and whatever follows. C leaves it undefined when the
      number does not fit an int. */
  function String2Int(s: string): int
    decreases |s|
  {
    if s == "" then 0
    else if IsSpace(s[0]) then String2Int(s[1..])
    else if s[0] == '-' then 0 - Accumulate(s[1..], 0)
    else if s[0] == '+' then Accumulate(s[1..], 0)
    else Accumulate(s, 0)
  }

  lemma {:induction false} AccumulateAppend(s: string, t: string, acc: nat)
    requires forall i | 0 <= i < |s| :: IsDigit(s[i])
    ensures Accumulate(s + t, acc) == Accumulate(t, Accumulate(s, acc))
    decreases |s|
  {
    if s == "" {
      assert s + t == t;
    } else {
      assert (s + t)[1..] == s[1..] + t;
      AccumulateAppend(s[1..], t, 10 * acc + (s[0] as int - '0' as int));
    }
  }

  lemma {:induction false} AccumulateDigits(n: nat)
    ensures Accumulate(Digits(n), 0) == n
    decreases n
  {
    if n < 10 {
      assert Digits(n)[1..] == "";
    } else {
      var d := [Digit(n % 10)];
      AccumulateDigits(n / 10);
      AccumulateAppend(Digits(n / 10), d, 0);
      assert d[1..] == "";
    }
  }

  /** Parsing what int2string wrote gives the number back: for every int. */
  lemma NumberRoundTrip(i: int)
    ensures String2Int(Int2String(i)) == i
  {
    if i < 0 {
      assert Int2String(i)[1..] == Digits(-i);
      AccumulateDigits(-i);
    } else {
      assert IsDigit(Digits(i)[0]);
      AccumulateDigits(i);
    }
  }

  /** int2string writes decimal digits, the leading one not 0 unless it stands alone, after a sign for negative
      numbers. */
  lemma DecimalForm(n: nat, d: nat)
    requires d < 10
    ensures Int2String(d) == ["0123456789"[d]]
    ensures n > 0 ==> Int2String(10 * n + d) == Int2String(n) + ["0123456789"[d]]
    ensures n > 0 ==> Int2String(0 - n) == "-" + Int2String(n)
  {
    assert (10 * n + d) / 10 == n && (10 * n + d) % 10 == d;
    DigitChar(d);
  }

  lemma DigitChar(d: nat)
    requires d < 10
    ensures Digit(d) == "0123456789"[d]
  {
  }

  /** string2int reads the number at the front and nothing behind it, and allows a plus sign. */
  lemma ParsesFront(n: nat, rest: string)
    requires rest == "" || !IsDigit(rest[0])
    ensures String2Int(Int2String(n) + rest) == n
    ensures String2Int("+" + (Int2String(n) + rest)) == n
    ensures String2Int("-" + (Int2String(n) + rest)) == 0 - n
  {
    var s := Digits(n) + rest;
    DigitsThen(n, rest);
    Unsigned(s);
    Signed("+", s);
    Signed("-", s);
    assert Int2String(n) + rest == s;
  }

  lemma DigitsThen(n: nat, rest: string)
    requires rest == "" || !IsDigit(rest[0])
    ensures Accumulate(Digits(n) + rest, 0) == n
  {
    AccumulateDigits(n);
    AccumulateAppend(Digits(n), rest, 0);
  }

  lemma Unsigned(s: string)
    requires s != "" && IsDigit(s[0])
    ensures String2Int(s) == Accumulate(s, 0)
  {
  }

  lemma Signed(sign: string, s: string)
    requires sign == "-" || sign == "+"
    ensures String2Int(sign + s) == if sign == "-" then 0 - Accumulate(s, 0) else Accumulate(s, 0)
  {
    assert (sign + s)[1..] == s;
  }

  /** It skips white space in front, and gives 0 where no number stands. */
  lemma SkipsSpace(c: char, s: string)
    ensures c in " \t\n\r" || c == 11 as char || c == 12 as char ==> String2Int([c] + s) == String2Int(s)
    ensures s == "" || (s[0] !in " \t\n\r+-" && !(11 as char <= s[0] <= 12 as char) && !('0' <= s[0] <= '9'))
            ==> String2Int(s) == 0
  {
    assert ([c] + s)[1..] == s;
  }

  // ----- lists -----

  /** The place of the next delimiter from `pos` on, or the end. */
  function EndOfPart(s: string, d: char, pos: nat): (e: nat)
    requires pos <= |s|
    ensures pos <= e <= |s|
    decreases |s| - pos
  {
    if pos == |s| || s[pos] == d then pos else EndOfPart(s, d, pos + 1)
  }

  lemma {:induction false} EndMeans(s: string, d: char, pos: nat)
    requires pos <= |s|
    ensures var e := EndOfPart(s, d, pos); (e < |s| ==> s[e] == d) && forall i | pos <= i < e :: s[i] != d
    decreases |s| - pos
  {
    if pos == |s| || s[pos] == d {
    } else {
      EndMeans(s, d, pos + 1);
    }
  }

  /** Where the part after one that ends at `e` begins: behind the delimiter, if there is one. */
  function Behind(s: string, e: nat): (next: nat)
    requires e <= |s|
    ensures e <= next <= |s| && (e < |s| ==> e < next)
  {
    if e == |s| then e else e + 1
  }

  /** What getline reads from `pos` on until the text is used up; nothing follows a delimiter that ends the text. */
  function SplitFrom(s: string, d: char, pos: nat): seq<string>
    requires pos <= |s|
    decreases |s| - pos
  {
    if pos == |s| then []
    else
      var e := EndOfPart(s, d, pos);
      [s[pos..e]] + SplitFrom(s, d, Behind(s, e))
  }

  /** split */
  function Split(s: string, d: char): seq<string> {
    SplitFrom(s, d, 0)
  }

  /** The same with the parts read so far. */
  function SplitOnto(s: string, d: char, pos: nat, parts: seq<string>): seq<string>
    requires pos <= |s|
    decreases |s| - pos
  {
    if pos == |s| then parts
    else
      var e := EndOfPart(s, d, pos);
      SplitOnto(s, d, Behind(s, e), parts + [s[pos..e]])
  }

  lemma Regroup(before: seq<string>, part: string, after: seq<string>)
    ensures before + [part] + after == before + ([part] + after)
  {
  }

  lemma {:induction false} SplitOntoIs(s: string, d: char, pos: nat, parts: seq<string>)
    requires pos <= |s|
    ensures SplitOnto(s, d, pos, parts) == parts + SplitFrom(s, d, pos)
    decreases |s| - pos
  {
    if pos == |s| {
    } else {
      var e := EndOfPart(s, d, pos);
      SplitOntoIs(s, d, Behind(s, e), parts + [s[pos..e]]);
      Regroup(parts, s[pos..e], SplitFrom(s, d, Behind(s, e)));
    }
  }

  method SplitLoop(s: string, delim: char) returns (elems: seq<string>)
    ensures elems == Split(s, delim)
  {
    SplitOntoIs(s, delim, 0, []);
    elems := [];
    var pos := 0;
    while pos < |s|
      invariant pos <= |s| && SplitOnto(s, delim, pos, elems) == SplitOnto(s, delim, 0, [])
    {
      var e := EndOfPart(s, delim, pos);
      elems := elems + [s[pos..e]];
      pos := Behind(s, e);
    }
  }

  /** The text `s` stands in `all` from `at` to the end. */
  predicate EndsWith(all: string, at: nat, s: string) {
    |all| == at + |s| && forall i | 0 <= i < |s| :: all[at+i] == s[i]
  }

  /** Reading a text at the end of another one is reading it by itself. */
  lemma {:induction false} SplitShifted(all: string, at: nat, s: string, d: char, pos: nat)
    requires pos <= |s| && EndsWith(all, at, s)
    ensures SplitFrom(all, d, at + pos) == SplitFrom(s, d, pos)
    decreases |s| - pos
  {
    if pos == |s| {
    } else {
      var e := EndOfPart(s, d, pos);
      EndShifted(all, at, s, d, pos);
      SplitShifted(all, at, s, d, Behind(s, e));
      PartShifted(all, at, s, pos, e);
      SameSplit(all, at + pos, at + e, s, pos, e, d);
    }
  }

  lemma SameSplit(s: string, pos: nat, e: nat, t: string, from: nat, to: nat, d: char)
    requires pos < |s| && from < |t| && e == EndOfPart(s, d, pos) && to == EndOfPart(t, d, from)
    requires s[pos..e] == t[from..to] && SplitFrom(s, d, Behind(s, e)) == SplitFrom(t, d, Behind(t, to))
    ensures SplitFrom(s, d, pos) == SplitFrom(t, d, from)
  {
  }

  lemma PartShifted(all: string, at: nat, s: string, pos: nat, e: nat)
    requires pos <= e <= |s| && EndsWith(all, at, s)
    ensures all[at+pos..at+e] == s[pos..e] && Behind(all, at + e) == at + Behind(s, e)
  {
  }

  lemma {:induction false} EndShifted(all: string, at: nat, s: string, d: char, pos: nat)
    requires pos <= |s| && EndsWith(all, at, s)
    ensures EndOfPart(all, d, at + pos) == at + EndOfPart(s, d, pos)
    decreases |s| - pos
  {
    if pos == |s| || s[pos] == d {
    } else {
      EndShifted(all, at, s, d, pos + 1);
    }
  }

  function Join(elems: seq<string>, d: char): string {
    if elems == [] then ""
    else if |elems| == 1 then elems[0]
    else elems[0] + [d] + Join(elems[1..], d)
  }

  /** Splitting undoes joining elements free of the delimiter exactly when the last one is not empty. */
  lemma {:induction false} SplitJoinIff(elems: seq<string>, d: char)
    requires forall i | 0 <= i < |elems| :: d !in elems[i]
    ensures Split(Join(elems, d), d) == elems <==> elems == [] || elems[|elems|-1] != ""
    decreases |elems|
  {
    if elems == [] {
    } else if |elems| == 1 {
      SplitWhole(elems[0], d);
    } else {
      var rest := Join(elems[1..], d);
      SplitJoinIff(elems[1..], d);
      SplitFirst(elems[0], d, rest);
      assert elems == [elems[0]] + elems[1..];
    }
  }

  lemma SplitWhole(a: string, d: char)
    requires d !in a
    ensures Split(a, d) == if a == "" then [] else [a]
  {
    EndMeans(a, d, 0);
    assert forall i | 0 <= i < |a| :: a[i] in a;
    assert EndOfPart(a, d, 0) == |a| && a[0..|a|] == a;
    if a != "" {
      assert SplitFrom(a, d, 0) == [a] + SplitFrom(a, d, |a|);
    }
  }

  /** A first part free of the delimiter, which is `all` up to `at`. */
  lemma SplitFirstAt(all: string, at: nat, d: char, rest: string)
    requires at < |all| && all[at] == d && (forall i | 0 <= i < at :: all[i] != d) && EndsWith(all, at + 1, rest)
    ensures Split(all, d) == [all[0..at]] + Split(rest, d)
  {
    EndMeans(all, d, 0);
    assert EndOfPart(all, d, 0) == at;
    assert SplitFrom(all, d, 0) == [all[0..at]] + SplitFrom(all, d, at + 1);
    SplitShifted(all, at + 1, rest, d, 0);
    assert SplitFrom(all, d, at + 1) == SplitFrom(rest, d, 0);
    assert Split(rest, d) == SplitFrom(rest, d, 0) && Split(all, d) == SplitFrom(all, d, 0);
  }

  lemma SplitFirst(a: string, d: char, rest: string)
    requires d !in a
    ensures Split(a + [d] + rest, d) == [a] + Split(rest, d)
  {
    var s := a + [d] + rest;
    assert forall i | 0 <= i < |a| :: s[i] == a[i] && a[i] in a;
    SplitFirstAt(s, |a|, d, rest);
    assert s[0..|a|] == a;
  }

  /** Joining undoes splitting exactly when the text does not end with the delimiter. */
  lemma {:induction false} JoinSplitIff(s: string, d: char)
    ensures Join(Split(s, d), d) == s <==> s == "" || s[|s|-1] != d
    decreases |s|
  {
    var k := EndOfPart(s, d, 0);
    var a := s[..k];
    EndMeans(s, d, 0);
    assert d !in a;
    if k == |s| {
      assert a == s;
      SplitWhole(s, d);
    } else {
      var rest := s[k+1..];
      JoinSplitIff(rest, d);
      assert s == a + [d] + rest;
      SplitFirst(a, d, rest);
      if rest != "" {
        JoinFirst(a, Split(rest, d), d);
        assert rest[|rest|-1] == s[|s|-1];
        SameAfter(a + [d], Join(Split(rest, d), d), rest);
      }
    }
  }

  lemma JoinFirst(a: string, elems: seq<string>, d: char)
    requires elems != []
    ensures Join([a] + elems, d) == a + [d] + Join(elems, d)
  {
  }

  lemma SameAfter(a: string, b: string, c: string)
    ensures a + b == a + c <==> b == c
  {
    if a + b == a + c {
      assert b == (a + b)[|a|..] && c == (a + c)[|a|..];
    }
  }

  // ----- "ip:port" -----

  /** getId */
  function GetId(address: string, port: int): string {
    address + ":" + Int2String(port)
  }

  /** Splitting the id at ':' and parsing the second part gives back address and port exactly when the address has no
      colon of its own. */
  lemma IdRoundTripIff(address: string, port: int)
    ensures var parts := Split(GetId(address, port), ':');
      |parts| > 1 && parts[0] == address && String2Int(parts[1]) == port <==> ':' !in address
  {
    var id, p := GetId(address, port), Int2String(port);
    if ':' !in address {
      assert ':' !in p;
      SplitWhole(p, ':');
      SplitFirst(address, ':', p);
      NumberRoundTrip(port);
    } else {
      var i :| 0 <= i < |address| && address[i] == ':';
      assert id[i] == ':';
      var k := EndOfPart(id, ':', 0);
      EndMeans(id, ':', 0);
      assert Split(id, ':')[0] == id[0..k] && k < |address|;
    }
  }
}
