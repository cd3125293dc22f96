/** The accounting allocator (zmalloc.c, built without a malloc_size function): `used_memory` against live blocks. */
module ZMalloc {
  import opened CArithmetic

  /** What `n` lacks to the next multiple of sizeof(long). */
  function Padding(word: nat, n: nat): (d: nat)
    requires word == 4 || word == 8
    ensures d < word
  {
    if word == 8 then (if n % 8 != 0 then 8 - n % 8 else 0)
    else (if n % 4 != 0 then 4 - n % 4 else 0)
  }

  /** sizeof(long) and PREFIX_SIZE of a platform. */
  datatype Platform = Platform(word: nat, prefix: nat) {
    /** A long has 4 or 8 bytes. */
    predicate Plain() {
      word == 4 || word == 8
    }

    /** The prefix is a whole number of longs, as sizeof(size_t) and sizeof(long long) are. */
    predicate Regular() {
      Plain() && Padding(word, prefix) == 0
    }

    /** The rounding of update_zmalloc_stat_alloc, update_zmalloc_stat_free and zmalloc_size, on size_t. */
    function Round(n: nat): nat
      requires Plain()
    {
      Wrap(n + Padding(word, n))
    }

    /** zmalloc_size of a block whose header holds `size`. */
    function BlockSize(size: nat): nat
      requires Plain()
    {
      Wrap(Round(size) + prefix)
    }
  }

  /** A size is rounded to the least multiple of sizeof(long) not below it, and a block takes that and its prefix. */
  lemma RoundsUp(p: Platform, size: nat, m: nat)
    requires p.Plain() && size <= m < size + p.word && m % p.word == 0
    ensures p.Round(size) == Wrap(m) && p.BlockSize(size) == Wrap(m + p.prefix)
  {
    if p.word == 8 {
      LeastMultipleOf8(size, m);
    } else {
      LeastMultipleOf4(size, m);
    }
    WrapCongruent(m, p.prefix);
  }

  lemma LeastMultipleOf8(size: nat, m: nat)
    requires size <= m < size + 8 && m % 8 == 0
    ensures m == size + Padding(8, size)
  {
    var j, q, r := m / 8, size / 8, size % 8;
    assert m == 8 * j && size == 8 * q + r;
  }

  lemma LeastMultipleOf4(size: nat, m: nat)
    requires size <= m < size + 4 && m % 4 == 0
    ensures m == size + Padding(4, size)
  {
    var j, q, r := m / 4, size / 4, size % 4;
    assert m == 4 * j && size == 4 * q + r;
  }

  /** C's `&` on non-negative numbers, bit by bit. */
  function BitAnd(a: nat, b: nat): nat {
    if a == 0 || b == 0 then 0
    else (if a % 2 == 1 && b % 2 == 1 then 1 else 0) + 2 * BitAnd(a / 2, b / 2)
  }

  /** `n & (sizeof(long)-1)` is the remainder for both word sizes, so that the code pads by Padding. */
  lemma BitTrick(word: nat, n: nat)
    requires word == 4 || word == 8
    ensures BitAnd(n, word - 1) == n % word
    ensures Padding(word, n) == if BitAnd(n, word - 1) != 0 then word - BitAnd(n, word - 1) else 0
  {
    LowBits(n, 1, 2);
    LowBits(n, 3, 4);
    LowBits(n, 7, 8);
  }

  lemma Halves(n: nat)
    ensures n % 4 == n % 2 + 2 * (n / 2 % 2) && n % 8 == n % 2 + 2 * (n / 2 % 4)
  {
    var h := n / 2;
    Remainder4(n, h / 2, n % 2 + 2 * (h % 2));
    Remainder8(n, h / 4, n % 2 + 2 * (h % 4));
  }

  lemma Remainder4(n: nat, q: nat, r: nat)
    requires n == 4 * q + r && r < 4
    ensures n % 4 == r
  {
  }

  lemma Remainder8(n: nat, q: nat, r: nat)
    requires n == 8 * q + r && r < 8
    ensures n % 8 == r
  {
  }

  lemma LowBits(n: nat, mask: nat, size: nat)
    requires (mask == 1 && size == 2) || (mask == 3 && size == 4) || (mask == 7 && size == 8)
    ensures BitAnd(n, mask) == n % size
  {
    Halves(n);
    if n > 0 && mask > 1 {
      LowBits(n / 2, mask / 2, size / 2);
    } else {
      assert BitAnd(n / 2, 0) == 0;
    }
  }

  /** Adding whole multiples of 8 bytes, or of a long, changes no padding. */
  lemma PaddingPeriodic(word: nat, n: nat, q: nat)
    requires word == 4 || word == 8
    ensures Padding(word, n + 8 * q) == Padding(word, n)
    ensures word == 4 ==> Padding(word, n + 4 * q) == Padding(word, n)
  {
    Mod8(n, q);
    Mod4(n, q);
    Mod4(n, 2 * q);
  }

  lemma Mod8(n: nat, q: nat)
    ensures (n + 8 * q) % 8 == n % 8
  {
  }

  lemma Mod4(n: nat, q: nat)
    ensures (n + 4 * q) % 4 == n % 4
  {
  }

  /** Rounding up with a prefix added is rounding up, then adding the prefix. */
  predicate Commutes(word: nat, prefix: nat, n: nat)
    requires word == 4 || word == 8
  {
    n + prefix + Padding(word, n + prefix) == n + Padding(word, n) + prefix
  }

  /** It does so for every size exactly when the prefix is a whole number of longs: what makes it sound that zrealloc
      rounds without the prefix while zmalloc and zfree round with it. */
  lemma RoundingCommutesIff(word: nat, prefix: nat)
    requires word == 4 || word == 8
    ensures (forall n: nat :: Commutes(word, prefix, n)) <==> Padding(word, prefix) == 0
  {
    if Padding(word, prefix) == 0 {
      forall n: nat ensures Commutes(word, prefix, n) {
        PaddingPeriodic(word, n, prefix / word);
      }
    } else {
      assert !Commutes(word, prefix, 0);
    }
  }

  /** The same on size_t, where sums wrap around. */
  lemma RoundWithPrefix(p: Platform, size: nat)
    requires p.Regular()
    ensures p.Round(Wrap(size + p.prefix)) == p.BlockSize(size)
  {
    var n := size + p.prefix;
    PaddingWraps(p.word, n);
    WrapCongruent(n, Padding(p.word, n));
    PaddingPeriodic(p.word, size, p.prefix / p.word);
    WrapCongruent(size + Padding(p.word, size), p.prefix);
  }

  lemma PaddingWraps(word: nat, n: nat)
    requires word == 4 || word == 8
    ensures Padding(word, Wrap(n)) == Padding(word, n)
  {
    PaddingPeriodic(word, Wrap(n), n / SIZE_T * (SIZE_T / 8));
  }

  // ----- live blocks and their total -----

  /** Live blocks by user pointer, each with the size its header holds. */
  type Blocks = map<nat, nat>

  /** The bytes charged for all live blocks, without wrap-around. */
  ghost function Total(p: Platform, b: Blocks): (t: nat)
    requires p.Plain()
    decreases |b|
  {
    if b == map[] then 0
    else
      var k :| k in b;
      assert (b - {k}).Keys == b.Keys - {k};
      p.BlockSize(b[k]) + Total(p, b - {k})
  }

  /** The total does not depend on the order in which blocks are counted, and that of no blocks is 0. */
  lemma {:induction false} TotalWithout(p: Platform, b: Blocks, k: nat)
    requires p.Plain() && k in b
    ensures Total(p, map[]) == 0
    ensures Total(p, b) == p.BlockSize(b[k]) + Total(p, b - {k})
    decreases |b|
  {
    var j :| j in b && Total(p, b) == p.BlockSize(b[j]) + Total(p, b - {j});
    if j != k {
      assert (b - {j}).Keys == b.Keys - {j} && (b - {k}).Keys == b.Keys - {k};
      TotalWithout(p, b - {j}, k);
      TotalWithout(p, b - {k}, j);
      assert b - {j} - {k} == b - {k} - {j};
    }
  }

  lemma TotalWith(p: Platform, b: Blocks, k: nat, size: nat)
    requires p.Plain() && k !in b
    ensures Total(p, b[k := size]) == Total(p, b) + p.BlockSize(size)
  {
    TotalWithout(p, b[k := size], k);
    assert b[k := size] - {k} == b;
  }

  // ----- the allocator as a state machine -----

  const NULL := 0

  datatype State = State(blocks: Blocks, used: nat)

  /** A call together with the underlying allocator's answer: `ptr'` is the user pointer it yields, NULL when memory
      is exhausted, in which case the out-of-memory handler ends the program. */
  datatype Call =
    | Alloc(size: nat, ptr': nat)            // zmalloc and zcalloc
    | Realloc(ptr: nat, size: nat, ptr': nat)
    | Free(ptr: nat)

  /** What the caller owes (a live pointer or NULL, sizes that fit size_t) and what malloc owes (a new block). */
  predicate Proper(s: State, c: Call) {
    match c
    case Alloc(size, q) => size < SIZE_T && q !in s.blocks
    case Realloc(p, size, q) => size < SIZE_T && (p == NULL || p in s.blocks) && (q == p != NULL || q !in s.blocks)
    case Free(p) => p == NULL || p in s.blocks
  }

  function Step(p: Platform, s: State, c: Call): State
    requires p.Plain() && Proper(s, c)
  {
    match c
    case Alloc(size, q) => if q == NULL then s else Charged(p, s, size, q)
    case Realloc(ptr, size, q) =>
      if q == NULL then s
      else if ptr == NULL then Charged(p, s, size, q)
      else State((s.blocks - {ptr})[q := size], Wrap(Wrap(s.used - p.Round(s.blocks[ptr])) + p.Round(size)))
    case Free(ptr) =>
      if ptr == NULL then s
      else State(s.blocks - {ptr}, Wrap(s.used - p.Round(Wrap(s.blocks[ptr] + p.prefix))))
  }

  function Charged(p: Platform, s: State, size: nat, q: nat): State
    requires p.Plain()
  {
    State(s.blocks[q := size], Wrap(s.used + p.Round(Wrap(size + p.prefix))))
  }

  /** `used_memory` is the total of the live blocks as far as a size_t can tell. */
  ghost predicate Accounted(p: Platform, s: State) {
    && p.Plain() && s.used == Wrap(Total(p, s.blocks))
    && NULL !in s.blocks && forall b | b in s.blocks :: s.blocks[b] < SIZE_T
  }

  lemma WrapCongruent(a: int, b: int)
    ensures Wrap(Wrap(a) + b) == Wrap(a + b)
  {
  }

  /** Crediting a block just charged gives back the rest. */
  lemma Credit(rest: int, b: int)
    ensures Wrap(Wrap(b + rest) - b) == Wrap(rest)
  {
  }

  /** Crediting and charging without the prefix comes to the same as with it. */
  lemma Exchange(rest: int, oldR: int, newR: int, prefix: int)
    ensures Wrap(Wrap(Wrap(Wrap(oldR + prefix) + rest) - oldR) + newR) == Wrap(Wrap(newR + prefix) + rest)
  {
    var t := Wrap(oldR + prefix) + rest;
    WrapCongruent(t, -oldR);
    WrapCongruent(t - oldR, newR);
    WrapCongruent(oldR + prefix, rest - oldR + newR);
    WrapCongruent(newR + prefix, rest);
  }

  /** Every call keeps the account, although zrealloc charges and credits without the prefix. */
  lemma StepAccounted(p: Platform, s: State, c: Call)
    requires p.Regular() && Accounted(p, s) && Proper(s, c)
    ensures Accounted(p, Step(p, s, c))
  {
    match c
    case Alloc(size, q) => if q != NULL { ChargedAccounted(p, s, size, q); }
    case Realloc(ptr, size, q) =>
      if q != NULL {
        if ptr == NULL {
          ChargedAccounted(p, s, size, q);
        } else {
          ReallocAccounted(p, s, ptr, size, q);
        }
      }
    case Free(ptr) =>
      if ptr != NULL {
        TotalWithout(p, s.blocks, ptr);
        RoundWithPrefix(p, s.blocks[ptr]);
        Credit(Total(p, s.blocks - {ptr}), p.BlockSize(s.blocks[ptr]));
      }
  }

  lemma ChargedAccounted(p: Platform, s: State, size: nat, q: nat)
    requires p.Regular() && Accounted(p, s) && q != NULL && q !in s.blocks && size < SIZE_T
    ensures Accounted(p, Charged(p, s, size, q))
  {
    RoundWithPrefix(p, size);
    TotalWith(p, s.blocks, q, size);
    WrapCongruent(Total(p, s.blocks), p.BlockSize(size));
  }

  lemma ReallocAccounted(p: Platform, s: State, ptr: nat, size: nat, q: nat)
    requires p.Regular() && Accounted(p, s) && ptr in s.blocks && q != NULL && (q == ptr || q !in s.blocks)
    requires size < SIZE_T
    ensures var used := Wrap(Wrap(s.used - p.Round(s.blocks[ptr])) + p.Round(size));
      Accounted(p, State((s.blocks - {ptr})[q := size], used))
  {
    var rest := s.blocks - {ptr};
    TotalWithout(p, s.blocks, ptr);
    TotalWith(p, rest, q, size);
    var r, oldR, newR := Total(p, rest), p.Round(s.blocks[ptr]), p.Round(size);
    Exchange(r, oldR, newR, p.prefix);
    assert Total(p, s.blocks) == Wrap(oldR + p.prefix) + r;
    assert Total(p, rest[q := size]) == Wrap(newR + p.prefix) + r;
  }

  predicate ProperRun(p: Platform, s: State, calls: seq<Call>)
    requires p.Plain()
    decreases |calls|
  {
    calls == [] || (Proper(s, calls[0]) && ProperRun(p, Step(p, s, calls[0]), calls[1..]))
  }

  function Run(p: Platform, s: State, calls: seq<Call>): State
    requires p.Plain() && ProperRun(p, s, calls)
    decreases |calls|
  {
    if calls == [] then s else Run(p, Step(p, s, calls[0]), calls[1..])
  }

  /** What the account means, while the total fits a size_t: it is the total, and neither the credit of zfree, with the
      prefix, nor that of zrealloc, without it, takes more than is there. */
  ghost predicate Exact(p: Platform, s: State)
    requires p.Plain()
  {
    && (Total(p, s.blocks) < SIZE_T ==>
         && s.used == Total(p, s.blocks)
         && (forall ptr | ptr in s.blocks :: p.BlockSize(s.blocks[ptr]) <= s.used)
         && (forall ptr | ptr in s.blocks && p.Round(s.blocks[ptr]) + p.prefix < SIZE_T ::
               p.Round(s.blocks[ptr]) <= s.used))
    && (s.blocks == map[] ==> s.used == 0)
  }

  lemma AccountedIsExact(p: Platform, s: State)
    requires Accounted(p, s)
    ensures Exact(p, s)
  {
    var t := Total(p, s.blocks);
    WrapSmall(t);
    forall ptr | ptr in s.blocks ensures p.BlockSize(s.blocks[ptr]) <= t {
      WithinTotal(p, s.blocks, ptr);
    }
    forall ptr | ptr in s.blocks && p.Round(s.blocks[ptr]) + p.prefix < SIZE_T
      ensures p.Round(s.blocks[ptr]) <= p.BlockSize(s.blocks[ptr]) <= t
    {
      WithinTotal(p, s.blocks, ptr);
      WrapSmall(p.Round(s.blocks[ptr]) + p.prefix);
    }
  }

  lemma WithinTotal(p: Platform, b: Blocks, k: nat)
    requires p.Plain() && k in b
    ensures p.BlockSize(b[k]) <= Total(p, b)
  {
  }

  /** Over any run `used_memory` equals the total of the live blocks; while that fits a size_t it equals it exactly,
      a release never takes more than is charged, and with nothing live it is 0. */
  lemma {:induction false} RunAccounted(p: Platform, s: State, calls: seq<Call>)
    requires p.Regular() && Accounted(p, s) && ProperRun(p, s, calls)
    ensures Accounted(p, Run(p, s, calls)) && Exact(p, Run(p, s, calls))
    ensures Run(p, s, calls).used == Wrap(Total(p, Run(p, s, calls).blocks))
    decreases |calls|
  {
    if calls == [] {
      AccountedIsExact(p, s);
    } else {
      StepAccounted(p, s, calls[0]);
      RunAccounted(p, Step(p, s, calls[0]), calls[1..]);
    }
  }

  /** The call yields the block. */
  predicate Yields(c: Call, q: nat) {
    !c.Free? && c.ptr' == q
  }

  /** The call ends the block's life: zfree, or a zrealloc that moves it. */
  predicate Ends(c: Call, q: nat) {
    !c.Alloc? && c.ptr == q && (c.Realloc? ==> c.ptr' != NULL && c.ptr' != q)
  }

  /** The `k`-th call is the last that yields the block, and none ends it later. */
  predicate YieldsLast(k: nat, calls: seq<Call>, q: nat) {
    && k < |calls| && Yields(calls[k], q)
    && forall j | k < j < |calls| :: !Yields(calls[j], q) && !Ends(calls[j], q)
  }

  predicate Untouched(calls: seq<Call>, q: nat) {
    forall c | c in calls :: !Yields(c, q) && !Ends(c, q)
  }

  /** Over any run a block is live exactly when a call yielded it that no later one ended, or it was live before and no
      call touched it; its header holds the size that the last call that yielded it was asked for. */
  lemma HeadersAreSizesAsked(p: Platform, s: State, calls: seq<Call>, q: nat)
    requires p.Plain() && ProperRun(p, s, calls) && q != NULL
    ensures q in Run(p, s, calls).blocks
      <==> (q in s.blocks && Untouched(calls, q)) || exists k: nat :: YieldsLast(k, calls, q)
    ensures q in s.blocks && Untouched(calls, q) ==> Run(p, s, calls).blocks[q] == s.blocks[q]
    ensures forall k: nat | YieldsLast(k, calls, q) :: Run(p, s, calls).blocks[q] == calls[k].size
  {
    if q in s.blocks && Untouched(calls, q) {
      UntouchedStays(p, s, calls, q);
    }
    forall k: nat | YieldsLast(k, calls, q)
      ensures q in Run(p, s, calls).blocks && Run(p, s, calls).blocks[q] == calls[k].size
    {
      YieldedStays(p, s, calls, q, k);
    }
    if q in Run(p, s, calls).blocks {
      LiveWasYielded(p, s, calls, q);
    }
  }

  lemma {:induction false} UntouchedStays(p: Platform, s: State, calls: seq<Call>, q: nat)
    requires p.Plain() && ProperRun(p, s, calls) && q != NULL && q in s.blocks && Untouched(calls, q)
    ensures q in Run(p, s, calls).blocks && Run(p, s, calls).blocks[q] == s.blocks[q]
    decreases |calls|
  {
    if calls == [] {
    } else {
      StepMeans(p, s, calls[0], q);
      UntouchedStays(p, Step(p, s, calls[0]), calls[1..], q);
    }
  }

  lemma {:induction false} YieldedStays(p: Platform, s: State, calls: seq<Call>, q: nat, k: nat)
    requires p.Plain() && ProperRun(p, s, calls) && q != NULL && YieldsLast(k, calls, q)
    ensures q in Run(p, s, calls).blocks && Run(p, s, calls).blocks[q] == calls[k].size
    decreases |calls|
  {
    if k == 0 {
      StepMeans(p, s, calls[0], q);
      UntouchedStays(p, Step(p, s, calls[0]), calls[1..], q);
    } else {
      YieldsLastShift(k - 1, calls, q);
      YieldedStays(p, Step(p, s, calls[0]), calls[1..], q, k - 1);
    }
  }

  lemma {:induction false} LiveWasYielded(p: Platform, s: State, calls: seq<Call>, q: nat)
    requires p.Plain() && ProperRun(p, s, calls) && q != NULL && q in Run(p, s, calls).blocks
    ensures (q in s.blocks && Untouched(calls, q)) || exists k: nat :: YieldsLast(k, calls, q)
    decreases |calls|
  {
    if calls == [] {
    } else {
      var c, rest := calls[0], calls[1..];
      LiveWasYielded(p, Step(p, s, c), rest, q);
      if k: nat :| YieldsLast(k, rest, q) {
        YieldsLastShift(k, calls, q);
        assert YieldsLast(k + 1, calls, q);
      } else {
        StepMeans(p, s, c, q);
        assert calls == [c] + rest;
        assert Yields(c, q) ==> YieldsLast(0, calls, q);
      }
    }
  }

  /** What one call does to one block. */
  lemma StepMeans(p: Platform, s: State, c: Call, q: nat)
    requires p.Plain() && Proper(s, c) && q != NULL
    ensures var b := Step(p, s, c).blocks;
      && (q in b <==> Yields(c, q) || (q in s.blocks && !Ends(c, q)))
      && (Yields(c, q) ==> b[q] == c.size)
      && (q in s.blocks && !Yields(c, q) && !Ends(c, q) ==> b[q] == s.blocks[q])
  {
  }

  lemma YieldsLastShift(k: nat, calls: seq<Call>, q: nat)
    requires calls != []
    ensures YieldsLast(k, calls[1..], q) <==> YieldsLast(k + 1, calls, q)
  {
    var rest := calls[1..];
    assert forall j | 0 <= j < |rest| :: rest[j] == calls[j+1];
    assert forall j | 0 < j < |calls| :: calls[j] == rest[j-1];
  }

  /** The allocator: block headers in memory and the global counter. */
  class ZHeap {
    const p: Platform
    var blocks: Blocks
    var used: nat

    ghost predicate Valid()
      reads this
    {
      p.Regular() && Accounted(p, TheState())
    }

    ghost function TheState(): State
      reads this
    {
      State(blocks, used)
    }

    constructor (p: Platform)
      requires p.Regular()
      ensures Valid() && this.p == p && blocks == map[] && used == 0
    {
      this.p, blocks, used := p, map[], 0;
    }

    /** update_zmalloc_stat_alloc */
    method StatAlloc(n: nat)
      requires p.Plain()
      modifies this`used
      ensures used == Wrap(old(used) + p.Round(n))
    {
      var m := n;
      BitTrick(p.word, m);
      if BitAnd(m, p.word - 1) != 0 {
        m := Wrap(m + (p.word - BitAnd(m, p.word - 1)));
      }
      used := Wrap(used + m);
      WrapCongruent(n, old(used));
    }

    /** update_zmalloc_stat_free */
    method StatFree(n: nat)
      requires p.Plain() && n < SIZE_T
      modifies this`used
      ensures used == Wrap(old(used) - p.Round(n))
    {
      var m := n;
      BitTrick(p.word, m);
      if BitAnd(m, p.word - 1) != 0 {
        m := Wrap(m + (p.word - BitAnd(m, p.word - 1)));
      }
      used := Wrap(used - m);
    }

    /** zmalloc, and zcalloc as far as accounting goes; malloc answers `q`. The result is NULL only when memory is
        exhausted, where the program ends. */
    method Malloc(size: nat, q: nat) returns (r: nat)
      requires Valid() && Proper(TheState(), Alloc(size, q))
      modifies this
      ensures Valid() && TheState() == Step(p, old(TheState()), Alloc(size, q)) && r == q
      ensures blocks == if q == NULL then old(blocks) else old(blocks)[q := size]
      ensures used == Wrap(Total(p, blocks))
    {
      StepAccounted(p, TheState(), Alloc(size, q));
      if q == NULL {
        return NULL;
      }
      blocks := blocks[q := size];
      StatAlloc(Wrap(size + p.prefix));
      return q;
    }

    /** zrealloc */
    method Resize(ptr: nat, size: nat, q: nat) returns (r: nat)
      requires Valid() && Proper(TheState(), Realloc(ptr, size, q))
      modifies this
      ensures Valid() && TheState() == Step(p, old(TheState()), Realloc(ptr, size, q)) && r == q
      ensures blocks == if q == NULL then old(blocks) else (old(blocks) - {ptr})[q := size]
      ensures used == Wrap(Total(p, blocks))
    {
      StepAccounted(p, TheState(), Realloc(ptr, size, q));
      if ptr == NULL {
        r := Malloc(size, q);
        return;
      }
      var oldsize := blocks[ptr];
      if q == NULL {
        return NULL;
      }
      blocks := (blocks - {ptr})[q := size];
      StatFree(oldsize);
      StatAlloc(size);
      return q;
    }

    /** zmalloc_size */
    method SizeOf(ptr: nat) returns (n: nat)
      requires Valid() && ptr in blocks
      ensures n == p.BlockSize(blocks[ptr])
      ensures Total(p, blocks) < SIZE_T ==> n <= used
    {
      AccountedIsExact(p, TheState());
      var size := blocks[ptr];
      BitTrick(p.word, size);
      if BitAnd(size, p.word - 1) != 0 {
        size := Wrap(size + (p.word - BitAnd(size, p.word - 1)));
      }
      WrapCongruent(blocks[ptr], p.prefix);
      n := Wrap(size + p.prefix);
    }

    /** zfree */
    method Release(ptr: nat)
      requires Valid() && Proper(TheState(), Free(ptr))
      modifies this
      ensures Valid() && TheState() == Step(p, old(TheState()), Free(ptr))
      ensures blocks == old(blocks) - {ptr}
      ensures used == Wrap(Total(p, blocks))
    {
      StepAccounted(p, TheState(), Free(ptr));
      if ptr == NULL {
        return;
      }
      var oldsize := blocks[ptr];
      StatFree(Wrap(oldsize + p.prefix));
      blocks := blocks - {ptr};
    }
  }
}
