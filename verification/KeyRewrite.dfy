/** Key rewriting under a business id (CodisClient.cpp, RedisCommand): one shared store seen by many tenants. */
module KeyRewrite {
  import opened Wrappers

  datatype Value = Str(s: string) | Other(encoded: string)

  datatype Reply =
    | Nil
    | Status(s: string)
    | Bulk(s: string)
    | Integer(i: int)
    | Array(elements: seq<Reply>)
    | Error(message: string)

  type Store = map<string, Value>
  type Command = seq<string>

  /** What a command with its one key in first place does to that key: its reply and the new value, given the old. */
  type Semantics = (string, Option<Value>, seq<string>) -> (Option<Value>, Reply)

  // ----- the server -----

  function LowerChar(c: char): char {
    if 'A' <= c <= 'Z' then c - 'A' + 'a' else c
  }

  /** Command names are case-insensitive for the server. */
  function Lower(s: string): string {
    seq(|s|, i requires 0 <= i < |s| => LowerChar(s[i]))
  }

  function Get(s: Store, k: string): Reply {
    if k in s && s[k].Str? then Bulk(s[k].s) else Nil
  }

  /** MSET's assignments from argument `i` on: the last one to a key wins. */
  function SetFrom(s: Store, c: Command, i: nat): Store
    decreases |c| - i
  {
    if i + 1 >= |c| then s else SetFrom(s[c[i] := Str(c[i+1])], c, i + 2)
  }

  /** DEL's removals from argument `i` on, with the number of keys that existed. */
  function DelFrom(s: Store, c: Command, i: nat): (Store, nat)
    decreases |c| - i
  {
    if i >= |c| then (s, 0)
    else
      var (t, n) := DelFrom(s - {c[i]}, c, i + 1);
      (t, if c[i] in s then n + 1 else n)
  }

  function WithKey(s: Store, k: string, v: Option<Value>): Store {
    match v case None => s - {k} case Some(x) => s[k := x]
  }

  /** MGET: one lookup per key. */
  function Lookups(s: Store, c: Command): seq<Reply>
    requires |c| >= 2
  {
    seq(|c| - 1, i requires 0 <= i < |c| - 1 => Get(s, c[i+1]))
  }

  /** A command whose one key comes first. */
  function ExecOneKey(sem: Semantics, s: Store, c: Command): (Store, Reply)
    requires |c| >= 2
  {
    var (v, r) := sem(c[0], if c[1] in s then Some(s[c[1]]) else None, c[2..]);
    (WithKey(s, c[1], v), r)
  }

  /** The server's effect of a command of at least two words. */
  function Exec(sem: Semantics, s: Store, c: Command): (Store, Reply)
    requires |c| >= 2
  {
    var name := Lower(c[0]);
    if name == "mget" then (s, Array(Lookups(s, c)))
    else if name == "mset" then
      if |c| % 2 == 0 then (s, Error("wrong number of arguments")) else (SetFrom(s, c, 1), Status("OK"))
    else if name == "del" then
      var (t, n) := DelFrom(s, c, 1);
      (t, Integer(n))
    else ExecOneKey(sem, s, c)
  }

  /** The places of a command that the server takes as keys. */
  predicate KeyAt(c: Command, i: nat)
    requires |c| >= 2
  {
    var name := Lower(c[0]);
    if name == "mget" || name == "del" then i > 0
    else if name == "mset" then i % 2 == 1
    else i == 1
  }

  /** A command with a prefix put before each of its keys. */
  function PrefixKeys(p: string, c: Command): Command
    requires |c| >= 2
  {
    seq(|c|, i requires 0 <= i < |c| => if KeyAt(c, i) then p + c[i] else c[i])
  }

  // ----- the client -----

  function Prefix(bid: string): string {
    if bid == "" then "" else bid + "_"
  }

  /** The places the client prefixes: it knows the names in all upper or all lower case only. */
  predicate Rewrites(c: Command, i: nat)
    requires |c| >= 2
  {
    if c[0] == "MGET" || c[0] == "mget" then i > 0
    else if c[0] == "MSET" || c[0] == "mset" then i % 2 == 1
    else if c[0] == "DEL" || c[0] == "del" then i > 0
    else i == 1
  }

  function Rewritten(bid: string, c: Command): Command
    requires |c| >= 2
  {
    seq(|c|, i requires 0 <= i < |c| => if Rewrites(c, i) then Prefix(bid) + c[i] else c[i])
  }

  /** The rewriting loop of RedisCommand. */
  method RewriteCommand(bid: string, command: Command) returns (innerCommand: Command)
    requires |command| >= 2
    ensures innerCommand == Rewritten(bid, command)
    ensures |innerCommand| == |command| && forall i | 0 <= i < |command| ::
      var key := if command[0] in {"MGET", "mget", "DEL", "del"} then i > 0
                 else if command[0] in {"MSET", "mset"} then i % 2 == 1
                 else i == 1;
      innerCommand[i] == if bid != "" && key then bid + "_" + command[i] else command[i]
  {
    innerCommand := [];
    for i := 0 to |command|
      invariant innerCommand == Rewritten(bid, command)[..i]
    {
      assert Rewritten(bid, command)[..i+1] == Rewritten(bid, command)[..i] + [Rewritten(bid, command)[i]];
      assert "" + command[i] == command[i];
      if command[0] == "MGET" || command[0] == "mget" {
        if bid != "" && i > 0 {
          innerCommand := innerCommand + [bid + "_" + command[i]];
        } else {
          innerCommand := innerCommand + [command[i]];
        }
      } else if command[0] == "MSET" || command[0] == "mset" {
        if bid != "" && i % 2 == 1 {
          innerCommand := innerCommand + [bid + "_" + command[i]];
        } else {
          innerCommand := innerCommand + [command[i]];
        }
      } else if command[0] == "DEL" || command[0] == "del" {
        if bid != "" && i > 0 {
          innerCommand := innerCommand + [bid + "_" + command[i]];
        } else {
          innerCommand := innerCommand + [command[i]];
        }
      } else if i == 1 && bid != "" {
        innerCommand := innerCommand + [bid + "_" + command[i]];
      } else {
        innerCommand := innerCommand + [command[i]];
      }
    }
  }

  /** Every key gets the prefix: the name is spelled in one of the two ways the client knows, or there is only one
      key. */
  predicate WellSpelled(c: Command)
    requires |c| >= 2
  {
    var name := Lower(c[0]);
    && ((name == "mget" || name == "del") && |c| > 2 ==> c[0] in {"MGET", "mget", "DEL", "del"})
    && (name == "mset" && |c| > 3 ==> c[0] in {"MSET", "mset"})
  }

  lemma LowerSpellings()
    ensures Lower("MGET") == Lower("mget") == "mget" && Lower("MSET") == Lower("mset") == "mset"
    ensures Lower("DEL") == Lower("del") == "del"
  {
  }

  /** The client's rewriting puts the prefix before exactly the server's keys precisely for well-spelled commands. */
  lemma RewritesKeysIff(bid: string, c: Command)
    requires |c| >= 2 && bid != ""
    ensures Rewritten(bid, c) == PrefixKeys(Prefix(bid), c) <==> WellSpelled(c)
  {
    LowerSpellings();
    var r, q := Rewritten(bid, c), PrefixKeys(Prefix(bid), c);
    if !WellSpelled(c) {
      var i := if Lower(c[0]) == "mset" then 3 else 2;
      assert |r[i]| != |q[i]|;
    }
  }

  // ----- one tenant's view -----

  /** The store as seen under a prefix. */
  function View(p: string, s: Store): (v: Store)
    ensures forall k :: k in v <==> p + k in s
    ensures forall k | k in v :: v[k] == s[p + k]
  {
    var ks := set x | x in s && p <= x :: x[|p|..];
    assert forall k :: k in ks <==> p + k in s by {
      StrippedKeys(p, s);
    }
    map k | k in ks :: s[p + k]
  }

  lemma StrippedKeys(p: string, s: Store)
    ensures forall k :: k in (set x | x in s && p <= x :: x[|p|..]) <==> p + k in s
  {
    forall k ensures k in (set x | x in s && p <= x :: x[|p|..]) <==> p + k in s {
      assert (p + k)[|p|..] == k && p <= p + k;
      if k in (set x | x in s && p <= x :: x[|p|..]) {
        var x :| x in s && p <= x && x[|p|..] == k;
        assert x == p + k;
      }
    }
  }

  lemma PrefixInjective(p: string, k: string, l: string)
    ensures p + k == p + l <==> k == l
  {
    assert (p + k)[|p|..] == k && (p + l)[|p|..] == l;
  }

  lemma ViewSet(p: string, s: Store, k: string, x: Value)
    ensures View(p, s[p + k := x]) == View(p, s)[k := x]
  {
    var t, v := View(p, s[p + k := x]), View(p, s)[k := x];
    forall l ensures (l in t <==> l in v) && (l in t ==> t[l] == v[l]) {
      PrefixInjective(p, k, l);
    }
  }

  lemma ViewRemove(p: string, s: Store, k: string)
    ensures View(p, s - {p + k}) == View(p, s) - {k}
  {
  }

  /** Keys without the prefix keep their values. */
  ghost predicate OutsideKept(p: string, s: Store, t: Store) {
    forall x | !(p <= x) :: (x in s <==> x in t) && (x in s ==> s[x] == t[x])
  }

  lemma MsetPlaces(p: string, c: Command, i: nat)
    requires |c| >= 2 && Lower(c[0]) == "mset" && i % 2 == 1 && i + 1 < |c|
    ensures PrefixKeys(p, c)[i] == p + c[i] && PrefixKeys(p, c)[i+1] == c[i+1] && (i + 2) % 2 == 1
  {
  }

  lemma {:induction false} SetFromView(p: string, s: Store, c: Command, d: Command, i: nat)
    requires |c| >= 2 && Lower(c[0]) == "mset" && i % 2 == 1 && d == PrefixKeys(p, c)
    ensures View(p, SetFrom(s, d, i)) == SetFrom(View(p, s), c, i) && OutsideKept(p, s, SetFrom(s, d, i))
    decreases |c| - i
  {
    if i + 1 >= |c| {
    } else {
      MsetPlaces(p, c, i);
      ViewSet(p, s, c[i], Str(c[i+1]));
      SetFromView(p, s[p + c[i] := Str(c[i+1])], c, d, i + 2);
      OutsideComposes(p, s, c[i], Str(c[i+1]), SetFrom(s, d, i));
    }
  }

  lemma OutsideComposes(p: string, s: Store, k: string, v: Value, t: Store)
    requires OutsideKept(p, s[p + k := v], t)
    ensures OutsideKept(p, s, t)
  {
  }

  lemma DelUnfolds(s: Store, c: Command, i: nat)
    requires i < |c|
    ensures var (t, n) := DelFrom(s - {c[i]}, c, i + 1); DelFrom(s, c, i) == (t, if c[i] in s then n + 1 else n)
  {
  }

  lemma {:induction false} DelFromView(p: string, s: Store, c: Command, i: nat)
    requires |c| >= 2 && Lower(c[0]) == "del" && i > 0
    ensures var (t, n) := DelFrom(s, PrefixKeys(p, c), i);
      var (v, m) := DelFrom(View(p, s), c, i);
      View(p, t) == v && n == m && OutsideKept(p, s, t)
    decreases |c| - i
  {
    if i >= |c| {
    } else {
      var d := PrefixKeys(p, c);
      ViewRemove(p, s, c[i]);
      DelUnfolds(s, d, i);
      DelUnfolds(View(p, s), c, i);
      DelFromView(p, s - {d[i]}, c, i + 1);
    }
  }

  lemma MgetView(p: string, s: Store, c: Command)
    requires |c| >= 2 && Lower(c[0]) == "mget"
    ensures Lookups(s, PrefixKeys(p, c)) == Lookups(View(p, s), c)
  {
  }

  lemma OneKeyView(sem: Semantics, p: string, s: Store, c: Command)
    requires |c| >= 2 && Lower(c[0]) !in {"mget", "mset", "del"}
    ensures var (t, r) := ExecOneKey(sem, s, PrefixKeys(p, c));
      var (v, q) := ExecOneKey(sem, View(p, s), c);
      View(p, t) == v && r == q && OutsideKept(p, s, t)
  {
    var d := PrefixKeys(p, c);
    assert d[0] == c[0] && d[1] == p + c[1] && d[2..] == c[2..];
    var (x, _) := sem(c[0], if d[1] in s then Some(s[d[1]]) else None, d[2..]);
    match x
    case None => ViewRemove(p, s, c[1]);
    case Some(y) => ViewSet(p, s, c[1], y);
  }

  /** Running the prefixed command on the shared store and the original on the view gives the same reply and the same
      view afterwards, and touches no key outside the prefix. */
  lemma PrefixPreserves(sem: Semantics, p: string, s: Store, c: Command)
    requires |c| >= 2
    ensures var (t, r) := Exec(sem, s, PrefixKeys(p, c));
      var (v, q) := Exec(sem, View(p, s), c);
      View(p, t) == v && r == q && OutsideKept(p, s, t)
  {
    assert PrefixKeys(p, c)[0] == c[0];
    var name := Lower(c[0]);
    if name == "mget" {
      MgetView(p, s, c);
    } else if name == "mset" {
      SetFromView(p, s, c, PrefixKeys(p, c), 1);
    } else if name == "del" {
      DelFromView(p, s, c, 1);
    } else {
      OneKeyView(sem, p, s, c);
    }
  }

  // ----- exactly when rewriting preserves meaning -----

  /** The client's rewriting preserves the meaning of `c` on the store `s`. */
  ghost predicate Same(sem: Semantics, bid: string, s: Store, c: Command)
    requires |c| >= 2
  {
    var p := Prefix(bid);
    var (t, r) := Exec(sem, s, Rewritten(bid, c));
    var (v, q) := Exec(sem, View(p, s), c);
    View(p, t) == v && r == q && OutsideKept(p, s, t)
  }

  /** Every key of the command is prefixed, or it is an MSET of wrong length, which the server refuses either way. */
  predicate Harmless(c: Command)
    requires |c| >= 2
  {
    WellSpelled(c) || (Lower(c[0]) == "mset" && |c| % 2 == 0)
  }

  lemma HarmlessIsSame(sem: Semantics, bid: string, s: Store, c: Command)
    requires |c| >= 2 && (bid == "" || Harmless(c))
    ensures Same(sem, bid, s, c)
  {
    var p := Prefix(bid);
    if bid == "" {
      assert forall k: string :: "" + k == k;
      assert Rewritten(bid, c) == c;
      assert View("", s) == s;
      var t := Exec(sem, s, c).0;
      assert View("", t) == t;
    } else if WellSpelled(c) {
      RewritesKeysIff(bid, c);
      PrefixPreserves(sem, p, s, c);
    } else {
      assert Rewritten(bid, c)[0] == c[0];
    }
  }

  /** With a single stored key, DEL counts whether it is named. */
  lemma {:induction false} DelSingle(x: string, v: Value, s: Store, c: Command, i: nat)
    requires s == map[x := v] || s == map[]
    ensures DelFrom(s, c, i).1 == if s != map[] && x in Tail(c, i) then 1 else 0
    decreases |c| - i
  {
    if i >= |c| {
    } else {
      DelUnfolds(s, c, i);
      assert Tail(c, i) == [c[i]] + Tail(c, i + 1);
      assert s - {c[i]} == if s != map[] && c[i] == x then map[] else s;
      DelSingle(x, v, s - {c[i]}, c, i + 1);
    }
  }

  function Tail(c: Command, i: nat): Command {
    if i < |c| then c[i..] else []
  }

  /** The keys MSET writes from argument `i` on. */
  function KeysFrom(c: Command, i: nat): seq<string>
    decreases |c| - i
  {
    if i + 1 >= |c| then [] else [c[i]] + KeysFrom(c, i + 2)
  }

  lemma {:induction false} SetFromKeys(s: Store, c: Command, i: nat, x: string)
    ensures x in SetFrom(s, c, i) <==> x in s || x in KeysFrom(c, i)
    decreases |c| - i
  {
    if i + 1 >= |c| {
    } else {
      SetFromKeys(s[c[i] := Str(c[i+1])], c, i + 2, x);
    }
  }

  lemma {:induction false} KeysFromSame(c: Command, d: Command, i: nat)
    requires |c| == |d| && forall j | i <= j < |c| :: c[j] == d[j]
    ensures KeysFrom(c, i) == KeysFrom(d, i)
    decreases |c| - i
  {
    if i + 1 >= |c| {
    } else {
      KeysFromSame(c, d, i + 2);
    }
  }

  /** The longest and the shortest of the keys after the first. */
  lemma {:induction false} Extremes(ks: seq<string>) returns (short: string, long: string)
    requires ks != []
    ensures short in ks && long in ks && forall k | k in ks :: |short| <= |k| <= |long|
    decreases |ks|
  {
    short, long := ks[0], ks[0];
    if |ks| == 1 {
    } else {
      var a, b := Extremes(ks[1..]);
      short := if |a| < |short| then a else short;
      long := if |b| > |long| then b else long;
      assert ks == [ks[0]] + ks[1..];
    }
  }

  /** `x` is one of the keys with the prefix put before it. */
  predicate Prefixed(p: string, first: string, rest: seq<string>, x: string) {
    p <= x && (x[|p|..] == first || x[|p|..] in rest)
  }

  /** Prefixing the first key only and prefixing all keys never name the same set of keys: one of the two names a key
      the other does not. */
  lemma KeySetsDiffer(p: string, first: string, rest: seq<string>) returns (x: string)
    requires p != "" && rest != []
    ensures (x == p + first || x in rest) != Prefixed(p, first, rest, x)
  {
    var short, long := Extremes(rest);
    if long != first {
      x := p + long;
      assert x[|p|..] == long;
      PrefixInjective(p, long, first);
    } else {
      x := short;
    }
  }

  /** A misspelled command of several keys is sent with its first key prefixed and the others as they are. */
  lemma MisspelledForm(bid: string, c: Command)
    requires |c| >= 2 && bid != "" && !WellSpelled(c)
    ensures |c| > 2 && Rewritten(bid, c)[1] == Prefix(bid) + c[1] && Rewritten(bid, c)[0] == c[0]
    ensures forall i | 2 <= i < |c| :: Rewritten(bid, c)[i] == c[i]
  {
    LowerSpellings();
  }

  lemma MisspelledMget(sem: Semantics, bid: string, c: Command) returns (s: Store)
    requires |c| >= 2 && bid != "" && !WellSpelled(c) && Lower(c[0]) == "mget"
    ensures !Same(sem, bid, s, c)
  {
    MisspelledForm(bid, c);
    var p := Prefix(bid);
    s := map[p + c[2] := Str("")];
    assert c[2] !in s by { assert |p + c[2]| != |c[2]|; }
    var r, q := Lookups(s, Rewritten(bid, c)), Lookups(View(p, s), c);
    assert r[1] == Nil && q[1] == Bulk("");
  }

  lemma MisspelledDel(sem: Semantics, bid: string, c: Command) returns (s: Store)
    requires |c| >= 2 && bid != "" && !WellSpelled(c) && Lower(c[0]) == "del"
    ensures !Same(sem, bid, s, c)
  {
    MisspelledForm(bid, c);
    var p, d := Prefix(bid), Rewritten(bid, c);
    var x := KeySetsDiffer(p, c[1], c[2..]);
    s := map[x := Str("")];
    assert Tail(d, 1) == [p + c[1]] + c[2..];
    DelSingle(x, Str(""), s, d, 1);
    ViewSingle(p, x);
    DelSingleSeen(p, x, View(p, s), c);
  }

  /** DEL on a view of at most one key counts whether that key, with the prefix before it, is `x`. */
  lemma DelSingleSeen(p: string, x: string, v: Store, c: Command)
    requires |c| >= 2 && v == if p <= x then map[x[|p|..] := Str("")] else map[]
    ensures DelFrom(v, c, 1).1 == if Prefixed(p, c[1], c[2..], x) then 1 else 0
  {
    var k := if p <= x then x[|p|..] else "";
    assert p <= x <==> k in v;
    DelSingle(k, Str(""), v, c, 1);
    TailMember(c, k);
  }

  lemma TailMember(c: Command, k: string)
    requires |c| >= 2
    ensures k in Tail(c, 1) <==> k == c[1] || k in c[2..]
  {
  }

  lemma ViewSingle(p: string, x: string)
    ensures View(p, map[x := Str("")]) == if p <= x then map[x[|p|..] := Str("")] else map[]
  {
  }

  lemma MisspelledMset(sem: Semantics, bid: string, c: Command)
    requires |c| >= 2 && bid != "" && !WellSpelled(c) && Lower(c[0]) == "mset" && |c| % 2 == 1
    ensures !Same(sem, bid, map[], c)
  {
    MisspelledForm(bid, c);
    var p, d := Prefix(bid), Rewritten(bid, c);
    var rest := KeysFrom(c, 3);
    var x := KeySetsDiffer(p, c[1], rest);
    KeysFromSame(c, d, 3);
    assert KeysFrom(d, 1) == [p + c[1]] + rest && KeysFrom(c, 1) == [c[1]] + rest;
    assert View(p, map[]) == map[];
    SetFromKeys(map[], d, 1, x);
    WrittenSeen(p, x, SetFrom(map[], d, 1), SetFrom(map[], c, 1), c, rest);
  }

  /** If one store is written with a key exactly where the other's view lacks it, the two do not match. */
  lemma WrittenSeen(p: string, x: string, t: Store, v: Store, c: Command, rest: seq<string>)
    requires |c| >= 2 && v == SetFrom(map[], c, 1) && KeysFrom(c, 1) == [c[1]] + rest
    requires (x in t) != Prefixed(p, c[1], rest, x)
    ensures View(p, t) != v || !OutsideKept(p, map[], t)
  {
    if p <= x {
      var k := x[|p|..];
      assert x == p + k;
      SetFromKeys(map[], c, 1, k);
      assert k in View(p, t) <==> x in t;
    }
  }

  /** On every store, sending the rewritten command gives the original's reply and effect on the tenant's view, and
      touches nothing else, exactly when there is no business id or the command is harmless. */
  lemma RewritingPreservesIff(sem: Semantics, bid: string, c: Command)
    requires |c| >= 2
    ensures (forall s :: Same(sem, bid, s, c)) <==> (bid == "" || Harmless(c))
  {
    if bid == "" || Harmless(c) {
      forall s ensures Same(sem, bid, s, c) { HarmlessIsSame(sem, bid, s, c); }
    } else if Lower(c[0]) == "mget" {
      var s := MisspelledMget(sem, bid, c);
    } else if Lower(c[0]) == "del" {
      var s := MisspelledDel(sem, bid, c);
    } else {
      MisspelledMset(sem, bid, c);
    }
  }

  // ----- several tenants -----

  /** Neither prefix begins the other. */
  predicate Apart(p: string, q: string) {
    !(p <= q) && !(q <= p)
  }

  /** The key is visible under both prefixes. */
  predicate UnderBoth(p: string, q: string, x: string) {
    p <= x && q <= x
  }

  lemma CommonKeyComparable(p: string, q: string, x: string)
    requires UnderBoth(p, q, x)
    ensures p <= q || q <= p
  {
  }

  /** Two views share no key exactly when the prefixes are apart. */
  lemma ViewsDisjointIff(p: string, q: string)
    ensures (forall x :: !UnderBoth(p, q, x)) <==> Apart(p, q)
  {
    if p <= q {
      assert UnderBoth(p, q, q);
    } else if q <= p {
      assert UnderBoth(p, q, p);
    } else {
      forall x ensures !UnderBoth(p, q, x) {
        if UnderBoth(p, q, x) {
          CommonKeyComparable(p, q, x);
        }
      }
    }
  }

  /** Distinct business ids without underscores have prefixes apart. */
  lemma UnderscoreFreeApart(a: string, b: string)
    requires a != "" && b != "" && a != b && '_' !in a && '_' !in b
    ensures Apart(Prefix(a), Prefix(b))
  {
    if Prefix(a) <= Prefix(b) {
      UnderscoreFreeBegins(a, b);
    }
    if Prefix(b) <= Prefix(a) {
      UnderscoreFreeBegins(b, a);
    }
  }

  lemma UnderscoreFreeBegins(a: string, b: string)
    requires a != "" && b != "" && '_' !in b && Prefix(a) <= Prefix(b)
    ensures a == b
  {
    var p, q := Prefix(a), Prefix(b);
    assert q[|a|] == p[|a|] == '_';
    assert forall i | 0 <= i < |b| :: q[i] == b[i] && b[i] in b;
    assert a == p[..|a|] == q[..|a|] == b[..|a|];
  }

  /** A command on the shared store, on behalf of a tenant. */
  datatype Request = Request(bid: string, c: Command)

  /** The shared store after a run, with the replies. */
  function Shared(sem: Semantics, s: Store, run: seq<Request>): (Store, seq<Reply>)
    requires forall i | 0 <= i < |run| :: |run[i].c| >= 2
    decreases |run|
  {
    if run == [] then (s, [])
    else
      var (t, r) := Exec(sem, s, Rewritten(run[0].bid, run[0].c));
      var (u, rs) := Shared(sem, t, run[1..]);
      (u, [r] + rs)
  }

  /** A tenant's own commands, as sent, on a store of its own. */
  function Private(sem: Semantics, v: Store, run: seq<Request>, bid: string): (Store, seq<Reply>)
    requires forall i | 0 <= i < |run| :: |run[i].c| >= 2
    decreases |run|
  {
    if run == [] then (v, [])
    else if run[0].bid == bid then
      var (w, r) := Exec(sem, v, run[0].c);
      var (u, rs) := Private(sem, w, run[1..], bid);
      (u, [r] + rs)
    else Private(sem, v, run[1..], bid)
  }

  /** The replies of a run that belong to one tenant. */
  function RepliesOf(run: seq<Request>, rs: seq<Reply>, bid: string): seq<Reply>
    requires |rs| == |run|
  {
    if run == [] then []
    else if run[0].bid == bid then [rs[0]] + RepliesOf(run[1..], rs[1..], bid)
    else RepliesOf(run[1..], rs[1..], bid)
  }

  lemma SharedReplies(sem: Semantics, s: Store, run: seq<Request>)
    requires forall i | 0 <= i < |run| :: |run[i].c| >= 2
    ensures |Shared(sem, s, run).1| == |run|
    decreases |run|
  {
    if run == [] {
    } else {
      SharedReplies(sem, Exec(sem, s, Rewritten(run[0].bid, run[0].c)).0, run[1..]);
    }
  }

  /** What another tenant does outside a prefix does not show in the view under it. */
  lemma ViewUntouched(p: string, q: string, s: Store, t: Store)
    requires Apart(p, q) && OutsideKept(q, s, t)
    ensures View(p, s) == View(p, t)
  {
  }

  /** A tenant gets from the shared store the replies, and ends with the view, that its own commands alone give on a
      private store. */
  ghost predicate Isolated(sem: Semantics, s: Store, run: seq<Request>, bid: string)
    requires forall i | 0 <= i < |run| :: |run[i].c| >= 2
  {
    var (t, rs) := Shared(sem, s, run);
    |rs| == |run| && (View(Prefix(bid), t), RepliesOf(run, rs, bid)) == Private(sem, View(Prefix(bid), s), run, bid)
  }

  /** Isolation, whatever the other tenants interleave. */
  lemma {:induction false} Isolation(sem: Semantics, s: Store, run: seq<Request>, bid: string)
    requires bid != "" && forall i | 0 <= i < |run| :: |run[i].c| >= 2
    requires forall i | 0 <= i < |run| :: run[i].bid != "" && Harmless(run[i].c)
    requires forall i | 0 <= i < |run| :: run[i].bid == bid || Apart(Prefix(bid), Prefix(run[i].bid))
    ensures Isolated(sem, s, run, bid)
    decreases |run|
  {
    SharedReplies(sem, s, run);
    if run == [] {
    } else {
      var t := Exec(sem, s, Rewritten(run[0].bid, run[0].c)).0;
      SharedReplies(sem, t, run[1..]);
      Isolation(sem, t, run[1..], bid);
      if run[0].bid == bid {
        IsolationOwn(sem, s, run, bid);
      } else {
        IsolationOther(sem, s, run, bid);
      }
    }
  }

  lemma IsolationOwn(sem: Semantics, s: Store, run: seq<Request>, bid: string)
    requires bid != "" && run != [] && run[0].bid == bid && forall i | 0 <= i < |run| :: |run[i].c| >= 2
    requires Harmless(run[0].c)
    requires Isolated(sem, Exec(sem, s, Rewritten(bid, run[0].c)).0, run[1..], bid)
    ensures Isolated(sem, s, run, bid)
  {
    HarmlessIsSame(sem, bid, s, run[0].c);
    var (t, r) := Exec(sem, s, Rewritten(bid, run[0].c));
    var (u, rs) := Shared(sem, t, run[1..]);
    assert ([r] + rs)[1..] == rs;
    assert RepliesOf(run, [r] + rs, bid) == [r] + RepliesOf(run[1..], rs, bid);
  }

  lemma OthersUnseen(sem: Semantics, s: Store, req: Request, bid: string)
    requires |req.c| >= 2 && Harmless(req.c) && Apart(Prefix(bid), Prefix(req.bid))
    ensures View(Prefix(bid), Exec(sem, s, Rewritten(req.bid, req.c)).0) == View(Prefix(bid), s)
  {
    HarmlessIsSame(sem, req.bid, s, req.c);
    ViewUntouched(Prefix(bid), Prefix(req.bid), s, Exec(sem, s, Rewritten(req.bid, req.c)).0);
  }

  lemma IsolationOther(sem: Semantics, s: Store, run: seq<Request>, bid: string)
    requires bid != "" && run != [] && run[0].bid != bid && forall i | 0 <= i < |run| :: |run[i].c| >= 2
    requires run[0].bid != "" && Harmless(run[0].c) && Apart(Prefix(bid), Prefix(run[0].bid))
    requires Isolated(sem, Exec(sem, s, Rewritten(run[0].bid, run[0].c)).0, run[1..], bid)
    ensures Isolated(sem, s, run, bid)
  {
    var (t, r) := Exec(sem, s, Rewritten(run[0].bid, run[0].c));
    OthersUnseen(sem, s, run[0], bid);
    var (u, rs) := Shared(sem, t, run[1..]);
    assert ([r] + rs)[1..] == rs;
    assert RepliesOf(run, [r] + rs, bid) == RepliesOf(run[1..], rs, bid);
  }
}
