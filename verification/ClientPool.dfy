/** The pool of synchronous connections (RedisClientPool.cpp). */
module ClientPool {
  import opened CArithmetic
  import opened Sequences

  // ----- the pool as a state machine -----

  /** Connections waiting in the queue, those lent out, and those freed, in order; `used` is the size_t counter, and
      the last three count what happened. */
  datatype Pool<T> = Pool(queue: seq<T>, lent: set<T>, freed: seq<T>,
                          used: nat, created: nat, reused: nat, returned: nat) {

    /** Every connection is in exactly one place, and freed at most once. */
    ghost predicate Valid() {
      && Distinct(queue) && Distinct(freed)
      && (forall c | c in queue :: c !in lent && c !in freed)
      && (forall c | c in lent :: c !in freed)
    }

    /** The counter goes up for new connections only and down for every return. */
    ghost predicate Counted() {
      |lent| == created + reused - returned && used == Wrap(created - returned)
    }

    predicate Known(c: T) {
      c in queue || c in lent || c in freed
    }
  }

  /** What can happen: a borrow skips and frees `k` errored connections and lends the next, or frees the whole queue
      and then lends a new connection, or fails, possibly freeing one that connected with an error; a connection is
      returned; the pool is destroyed. */
  datatype Event<T> =
    | Reuse(k: nat)
    | Connect(c: T)
    | NoConnection
    | FailedConnection(c: T)
    | Return(c: T)
    | Destroy

  predicate Allowed<T(==)>(p: Pool<T>, e: Event<T>) {
    match e
    case Reuse(k) => k < |p.queue|
    case Connect(c) => !p.Known(c)
    case FailedConnection(c) => !p.Known(c)
    case Return(c) => c in p.lent
    case _ => true
  }

  function Step<T(==)>(p: Pool<T>, e: Event<T>): Pool<T>
    requires Allowed(p, e)
  {
    match e
    case Reuse(k) =>
      p.(queue := p.queue[k+1..], lent := p.lent + {p.queue[k]}, freed := p.freed + p.queue[..k],
         reused := p.reused + 1)
    case Connect(c) =>
      p.(queue := [], lent := p.lent + {c}, freed := p.freed + p.queue,
         used := Wrap(p.used + 1), created := p.created + 1)
    case NoConnection => p.(queue := [], freed := p.freed + p.queue)
    case FailedConnection(c) => p.(queue := [], freed := p.freed + p.queue + [c])
    case Return(c) =>
      p.(queue := p.queue + [c], lent := p.lent - {c}, used := Wrap(p.used - 1), returned := p.returned + 1)
    case Destroy => p.(queue := [], freed := p.freed + p.queue)
  }

  function Empty<T>(): Pool<T> {
    Pool([], {}, [], 0, 0, 0, 0)
  }

  lemma EmptyValid<T>()
    ensures Empty<T>().Valid()
  {
  }

  lemma ReuseValid<T>(p: Pool<T>, k: nat)
    requires p.Valid() && k < |p.queue|
    ensures Step(p, Reuse(k)).Valid()
  {
    var c := p.queue[k];
    DistinctSlices(p.queue, k);
    DistinctSlices(p.queue, k + 1);
    DistinctConcat(p.freed, p.queue[..k]);
    assert c in p.queue[k..] && c in p.queue[..k+1];
    assert forall d | d in p.queue[..k] :: d in p.queue[..k+1];
  }

  lemma ReturnValid<T>(p: Pool<T>, c: T)
    requires p.Valid() && c in p.lent
    ensures Step(p, Return(c)).Valid()
  {
  }

  lemma Increment(n: int)
    ensures Wrap(Wrap(n) + 1) == Wrap(n + 1)
  {
  }

  lemma Decrement(n: int)
    ensures Wrap(Wrap(n) - 1) == Wrap(n - 1)
  {
  }

  /** Every step keeps each connection in one place: never queued and lent, never lent twice, never freed twice. */
  lemma StepValid<T>(p: Pool<T>, e: Event<T>)
    requires p.Valid() && Allowed(p, e)
    ensures Step(p, e).Valid()
  {
    match e
    case Reuse(k) => ReuseValid(p, k);
    case Return(c) => ReturnValid(p, c);
    case Connect(c) =>
      DistinctConcat(p.freed, p.queue);
    case FailedConnection(c) =>
      DistinctConcat(p.freed, p.queue);
      DistinctConcat(p.freed + p.queue, [c]);
    case _ => DistinctConcat(p.freed, p.queue);
  }

  lemma StepCounted<T>(p: Pool<T>, e: Event<T>)
    requires p.Valid() && p.Counted() && Allowed(p, e)
    ensures Step(p, e).Counted()
  {
    match e
    case Reuse(k) => assert p.queue[k] in p.queue;
    case Return(c) => Decrement(p.created - p.returned);
    case Connect(c) => Increment(p.created - p.returned);
    case _ =>
  }

  predicate AllowedRun<T(==)>(p: Pool<T>, es: seq<Event<T>>)
    decreases |es|
  {
    es == [] || (Allowed(p, es[0]) && AllowedRun(Step(p, es[0]), es[1..]))
  }

  function Run<T(==)>(p: Pool<T>, es: seq<Event<T>>): Pool<T>
    requires AllowedRun(p, es)
    decreases |es|
  {
    if es == [] then p else Run(Step(p, es[0]), es[1..])
  }

  /** Over any run in which only lent connections are returned the pool stays valid, what was freed stays freed, and
      no connection ever leaves the pool's knowledge. */
  lemma {:induction false} RunValid<T>(p: Pool<T>, es: seq<Event<T>>)
    requires p.Valid() && p.Counted() && AllowedRun(p, es)
    ensures Run(p, es).Valid() && Run(p, es).Counted() && p.freed <= Run(p, es).freed
    ensures forall c | p.Known(c) :: Run(p, es).Known(c)
    decreases |es|
  {
    if es == [] {
    } else {
      StepValid(p, es[0]);
      StepCounted(p, es[0]);
      StepKnows(p, es[0]);
      RunValid(Step(p, es[0]), es[1..]);
    }
  }

  /** In particular this holds of every run of a new pool. */
  lemma NewPoolValid<T>(es: seq<Event<T>>)
    requires AllowedRun(Empty<T>(), es)
    ensures Run(Empty<T>(), es).Valid() && Run(Empty<T>(), es).Counted()
  {
    EmptyValid<T>();
    RunValid(Empty<T>(), es);
  }

  lemma StepKnows<T>(p: Pool<T>, e: Event<T>)
    requires Allowed(p, e)
    ensures p.freed <= Step(p, e).freed && forall c | p.Known(c) :: Step(p, e).Known(c)
  {
  }

  /** The connection an event hands out, if any. */
  predicate Lends<T(==)>(p: Pool<T>, e: Event<T>, c: T) {
    (e.Reuse? && e.k < |p.queue| && p.queue[e.k] == c) || e == Connect(c)
  }

  /** Until it is returned, a lent connection is neither lent again nor freed, whatever else happens. */
  lemma {:induction false} NotLentTwice<T>(p: Pool<T>, es: seq<Event<T>>, c: T, e: Event<T>)
    requires p.Valid() && c in p.lent && AllowedRun(p, es) && Return(c) !in es && Allowed(Run(p, es), e)
    ensures c in Run(p, es).lent && c !in Run(p, es).freed && !Lends(Run(p, es), e, c)
    decreases |es|
  {
    if es == [] {
      if e.Reuse? {
        assert p.queue[e.k] in p.queue;
      }
    } else {
      StepValid(p, es[0]);
      assert es[0] in es;
      NotLentTwice(Step(p, es[0]), es[1..], c, e);
    }
  }

  /** What an event takes off the front of the queue. */
  function Taken<T(==)>(p: Pool<T>, e: Event<T>): seq<T>
    requires Allowed(p, e)
  {
    match e
    case Reuse(k) => p.queue[..k+1]
    case Return(_) => []
    case _ => p.queue
  }

  function AllTaken<T(==)>(p: Pool<T>, es: seq<Event<T>>): seq<T>
    requires AllowedRun(p, es)
    decreases |es|
  {
    if es == [] then [] else Taken(p, es[0]) + AllTaken(Step(p, es[0]), es[1..])
  }

  /** The connections returned, in the order of their return. */
  function Returned<T>(es: seq<Event<T>>): seq<T> {
    if es == [] then [] else (if es[0].Return? then [es[0].c] else []) + Returned(es[1..])
  }

  /** First in, first out: over any run what left the queue, followed by what is in it, is what was in it followed by
      what was returned, in order. */
  lemma {:induction false} QueueIsFifo<T>(p: Pool<T>, es: seq<Event<T>>)
    requires AllowedRun(p, es)
    ensures AllTaken(p, es) + Run(p, es).queue == p.queue + Returned(es)
    decreases |es|
  {
    if es == [] {
    } else {
      var q := Step(p, es[0]);
      QueueIsFifo(q, es[1..]);
      StepIsFifo(p, es[0]);
      Regroup(Taken(p, es[0]), AllTaken(q, es[1..]), Run(q, es[1..]).queue, q.queue, Returned(es[1..]),
              p.queue, if es[0].Return? then [es[0].c] else []);
    }
  }

  lemma Regroup<T>(a: seq<T>, b: seq<T>, c: seq<T>, d: seq<T>, e: seq<T>, f: seq<T>, g: seq<T>)
    requires b + c == d + e && a + d == f + g
    ensures (a + b) + c == f + (g + e)
  {
    assert (a + b) + c == a + (b + c);
    assert a + (d + e) == (a + d) + e;
    assert f + (g + e) == (f + g) + e;
  }

  /** One event takes from the front and puts to the back; of what a reuse takes it frees all but the last, which it
      lends. */
  lemma StepIsFifo<T>(p: Pool<T>, e: Event<T>)
    requires Allowed(p, e)
    ensures Taken(p, e) + Step(p, e).queue == p.queue + if e.Return? then [e.c] else []
    ensures e.Reuse? ==>
      && Step(p, e).lent == p.lent + {p.queue[e.k]}
      && Step(p, e).freed + [p.queue[e.k]] == p.freed + Taken(p, e)
  {
    if e.Reuse? {
      assert p.queue[..e.k] + [p.queue[e.k]] == p.queue[..e.k+1];
    }
  }

  /** The counter `used_` is the number of lent connections exactly when none was ever handed out again (up to the
      size of size_t): reuse does not count it up, while every return counts it down. */
  lemma UsedIsLentIff<T>(p: Pool<T>)
    requires p.Counted() && |p.lent| < SIZE_T
    ensures p.used == |p.lent| <==> p.reused % SIZE_T == 0
  {
  }

  // ----- the pool in memory -----

  const REDIS_OK := 0

  /** redisContext, as far as the pool looks at it. */
  class RedisContext {
    var err: int

    constructor (err: int)
      ensures this.err == err
    {
      this.err := err;
    }
  }

  /** What redisConnect yields: nothing, a context with an error, or a connection. */
  datatype Connecting = Nothing | WithError(err: int) | Connected

  /** The position of the first connection without error, or the length. */
  function FirstGood(s: seq<RedisContext>): (k: nat)
    reads s
    ensures k <= |s| && (k < |s| ==> s[k].err == REDIS_OK)
    ensures forall i | 0 <= i < k :: s[i].err != REDIS_OK
  {
    if s == [] || s[0].err == REDIS_OK then 0 else 1 + FirstGood(s[1..])
  }

  class RedisClientPool {
    const password: string
    var unUsed: seq<RedisContext>
    var used: nat
    ghost var freed: seq<RedisContext>
    ghost var state: Pool<RedisContext>

    /** The fields are those of a valid pool; `freed` is the log of redisFree. */
    ghost predicate Valid()
      reads this
    {
      state.Valid() && state.queue == unUsed && state.used == used && state.freed == freed
    }

    constructor (password: string)
      ensures Valid() && state == Empty()
    {
      EmptyValid<RedisContext>();
      this.password, unUsed, used, freed, state := password, [], 0, [], Empty();
    }

    /** redisFree, which a connection must reach at most once. */
    method RedisFree(item: RedisContext)
      requires item !in freed
      modifies this`freed
      ensures freed == old(freed) + [item]
    {
      freed := freed + [item];
    }

    /** create: a new connection, or null when there is none; one that failed is freed. A pool with a password sends
        AUTH on whatever redisConnect gave, so it must have given something. */
    method Create(c: Connecting) returns (rt: RedisContext?, ghost failed: seq<RedisContext>)
      requires c == Nothing ==> password == ""
      requires c.WithError? ==> c.err != REDIS_OK
      modifies this`freed
      ensures rt != null ==> fresh(rt) && rt.err == REDIS_OK
      ensures rt != null <==> c.Connected?
      ensures |failed| == (if c.WithError? then 1 else 0) && forall x | x in failed :: fresh(x)
      ensures freed == old(freed) + failed
    {
      rt, failed := null, [];
      match c
      case Nothing =>
      case WithError(err) =>
        var ret := new RedisContext(err);
        RedisFree(ret);
        failed := [ret];
      case Connected =>
        rt := new RedisContext(REDIS_OK);
    }

    /** borrowItem: skips and frees exactly the errored front of the queue and lends the first good connection, or a
        new one when there is none. */
    method BorrowItem(c: Connecting) returns (rt: RedisContext?, ghost e: Event<RedisContext>)
      requires Valid() && (c == Nothing ==> password == "") && (c.WithError? ==> c.err != REDIS_OK)
      modifies this
      ensures Valid() && Allowed(old(state), e) && state == Step(old(state), e)
      ensures rt != null ==> rt.err == REDIS_OK && Lends(old(state), e, rt)
      ensures var k := old(FirstGood(unUsed));
        if k < |old(unUsed)| then
          && rt == old(unUsed)[k] && e == Reuse(k)
          && unUsed == old(unUsed)[k+1..] && freed == old(freed) + old(unUsed)[..k] && used == old(used)
        else match c
          case Connected => rt != null && fresh(rt) && e.Connect? && e.c == rt
          case WithError(_) => rt == null && e.FailedConnection? && fresh(e.c)
          case Nothing => rt == null && e == NoConnection
      ensures old(FirstGood(unUsed)) == |old(unUsed)| ==>
        && unUsed == [] && used == (if c.Connected? then Wrap(old(used) + 1) else old(used))
        && freed == old(freed) + old(unUsed) + if c.WithError? then [e.c] else []
    {
      ghost var s := state;
      rt := SkipErrored();
      if rt == null {
        ghost var failed;
        rt, failed := Create(c);
        assert forall x | x in failed :: x !in s.queue && x !in s.lent && x !in s.freed;
        if rt != null {
          assert rt !in s.queue && rt !in s.lent && rt !in s.freed;
          used := Wrap(used + 1);
          e := Connect(rt);
        } else {
          assert failed == [] || (failed == [failed[0]] && failed[0] in failed);
          e := if failed != [] then FailedConnection(failed[0]) else NoConnection;
        }
      } else {
        e := Reuse(FirstGood(s.queue));
      }
      StepValid(s, e);
      state := Step(s, e);
    }

    /** The loop of borrowItem: takes the errored front and the first good connection off the queue, and frees the
        former one by one. */
    method SkipErrored() returns (rt: RedisContext?)
      requires Distinct(unUsed) && forall x | x in unUsed :: x !in freed
      modifies this`unUsed, this`freed
      ensures var q := old(unUsed);
        var k := FirstGood(q);
        && freed == old(freed) + q[..k]
        && if k < |q| then rt == q[k] && unUsed == q[k+1..] else rt == null && unUsed == []
    {
      rt := null;
      ghost var i := 0;
      while unUsed != []
        invariant i <= |old(unUsed)| && unUsed == old(unUsed)[i..] && rt == null
        invariant forall j | 0 <= j < i :: old(unUsed)[j].err != REDIS_OK
        invariant freed == old(freed) + old(unUsed)[..i]
        decreases |unUsed|
      {
        rt := unUsed[0];
        unUsed := unUsed[1..];
        if rt.err == REDIS_OK {
          break;
        } else {
          assert rt == old(unUsed)[i] && rt in old(unUsed);
          RedisFree(rt);
          rt := null;
          i := i + 1;
        }
      }
    }

    /** returnItem */
    method ReturnItem(item: RedisContext)
      requires Valid() && item in state.lent
      modifies this
      ensures Valid() && state == Step(old(state), Return(item))
      ensures unUsed == old(unUsed) + [item] && freed == old(freed) && used == Wrap(old(used) - 1)
    {
      StepValid(state, Return(item));
      state := Step(state, Return(item));
      unUsed := unUsed + [item];
      used := Wrap(used - 1);
    }

    /** ~RedisClientPool: every queued connection is freed, each once; lent ones are not touched. */
    method Close()
      requires Valid()
      modifies this
      ensures Valid() && state == Step(old(state), Destroy)
      ensures unUsed == [] && freed == old(freed) + old(unUsed) && used == old(used)
    {
      for i := 0 to |unUsed|
        invariant unUsed == old(unUsed) && used == old(used) && state == old(state)
        invariant freed == old(freed) + unUsed[..i]
      {
        assert unUsed[i] in unUsed;
        RedisFree(unUsed[i]);
      }
      StepValid(state, Destroy);
      state := Step(state, Destroy);
      unUsed := [];
    }
  }
}
