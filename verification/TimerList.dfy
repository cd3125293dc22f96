/** Time events of ae.c: an unsorted singly linked list whose newest node is the head. */
module TimerList {
  import opened CArithmetic
  import opened EventTypes
  import opened Sequences

  /** The abstract value of a time event. */
  datatype Timer = Timer(id: int, sec: int, ms: int)

  /** aeAddMillisecondsToNow: `now` is the clock in milliseconds, the result a (sec, ms) deadline. */
  function AddMilliseconds(now: nat, milliseconds: int): (when: (int, int)) {
    var sec := now / 1000 + TruncDiv(milliseconds, 1000);
    var ms := now % 1000 + TruncMod(milliseconds, 1000);
    if ms >= 1000 then (sec + 1, ms - 1000) else (sec, ms)
  }

  function Deadline(id: int, now: nat, milliseconds: int): Timer {
    var (sec, ms) := AddMilliseconds(now, milliseconds);
    Timer(id, sec, ms)
  }

  /** A deadline belongs to its timer and denotes the instant asked for. */
  lemma DeadlineDenotes(id: int, now: nat, milliseconds: int)
    ensures var d := Deadline(id, now, milliseconds);
      d.id == id && d.sec * 1000 + d.ms == now + milliseconds && -1000 < d.ms < 1000
  {
    AddMillisecondsDenotes(now, milliseconds);
  }

  /** The comparison that decides whether a deadline has come. */
  predicate Due(sec: int, ms: int, now: nat) {
    now / 1000 > sec || (now / 1000 == sec && now % 1000 >= ms)
  }

  /** A deadline always denotes the instant asked for, and its ms part stays below a second in size. */
  lemma AddMillisecondsDenotes(now: nat, milliseconds: int)
    ensures var (sec, ms) := AddMilliseconds(now, milliseconds);
      sec * 1000 + ms == now + milliseconds && -1000 < ms < 1000
  {
  }

  /** The due test is the comparison of instants, at every clock reading, exactly when the ms part did not go
      negative, which only a negative delay can cause. */
  lemma DueIsExactIff(now: nat, milliseconds: int)
    requires now + milliseconds >= 0
    ensures var (sec, ms) := AddMilliseconds(now, milliseconds);
      (forall t: nat :: Due(sec, ms, t) <==> now + milliseconds <= t)
      <==> now % 1000 + TruncMod(milliseconds, 1000) >= 0
  {
    AddMillisecondsDenotes(now, milliseconds);
    var (sec, ms) := AddMilliseconds(now, milliseconds);
    if ms < 0 {
      var t: nat := now + milliseconds;
      assert !Due(sec, ms, t);
    } else {
      forall t: nat ensures Due(sec, ms, t) <==> now + milliseconds <= t {
        assert t == t / 1000 * 1000 + t % 1000;
      }
    }
  }

  /** A reading of the clock never makes a due timer not due again later on. */
  lemma DueMonotone(sec: int, ms: int, t: nat, u: nat)
    requires t <= u && Due(sec, ms, t)
    ensures Due(sec, ms, u)
  {
  }

  /** At one instant, a timer put off by `milliseconds` is due again exactly when that is not positive: the condition
      under which the restarting timer pass would meet it again and again. */
  lemma DueAgainIff(now: nat, milliseconds: int)
    ensures var (sec, ms) := AddMilliseconds(now, milliseconds); Due(sec, ms, now) <==> milliseconds <= 0
  {
  }

  /** A timer put off by more than the clock window is not due anywhere in the window. */
  lemma RescheduledNotDue(now: nat, milliseconds: int, hi: nat)
    requires milliseconds > 0 && now + milliseconds > hi
    ensures var (sec, ms) := AddMilliseconds(now, milliseconds); !Due(sec, ms, hi)
  {
  }

  /** The order on deadlines used by the search. */
  predicate Earlier(a: Timer, b: Timer) {
    a.sec < b.sec || (a.sec == b.sec && a.ms < b.ms)
  }

  /** For regular deadlines that is the order of instants. */
  lemma EarlierIsSooner(a: Timer, b: Timer)
    requires 0 <= a.ms < 1000 && 0 <= b.ms < 1000
    ensures Earlier(a, b) <==> a.sec * 1000 + a.ms < b.sec * 1000 + b.ms
  {
  }

  class TimeEvent {
    const id: int
    var whenSec: int
    var whenMs: int
    var next: TimeEvent?

    constructor (id: int, whenSec: int, whenMs: int, next: TimeEvent?)
      ensures this.id == id && this.whenSec == whenSec && this.whenMs == whenMs && this.next == next
    {
      this.id, this.whenSec, this.whenMs, this.next := id, whenSec, whenMs, next;
    }

    function Value(): Timer
      reads this`whenSec, this`whenMs
    {
      Timer(id, whenSec, whenMs)
    }
  }

  // ----- the list as a value -----

  /** The timers listed, newest first, and the next id. */
  datatype TimerState = TimerState(list: seq<Timer>, nextId: int)

  function Values(s: seq<TimeEvent>): (r: seq<Timer>)
    reads s
    ensures |r| == |s| && forall i | 0 <= i < |s| :: r[i] == s[i].Value()
  {
    seq(|s|, i requires 0 <= i < |s| reads s => s[i].Value())
  }

  /** The place of the first timer with the id, or the length. */
  function FirstAt(list: seq<Timer>, id: int): (k: nat)
    ensures k <= |list| && (k < |list| ==> list[k].id == id)
    ensures forall i | 0 <= i < k :: list[i].id != id
  {
    if list == [] || list[0].id == id then 0 else 1 + FirstAt(list[1..], id)
  }

  /** The list without its first timer of the id. */
  function Drop(list: seq<Timer>, id: int): seq<Timer> {
    var k := FirstAt(list, id);
    if k < |list| then WithoutAt(list, k) else list
  }

  /** The list with a new deadline for its first timer of the id. */
  function PutOff(list: seq<Timer>, id: int, deadline: Timer): seq<Timer> {
    var k := FirstAt(list, id);
    if k < |list| then list[k := deadline] else list
  }

  /** The list with every deadline's seconds set to 0. */
  function AllForced(list: seq<Timer>): (r: seq<Timer>)
    ensures |r| == |list| && forall i | 0 <= i < |list| :: r[i] == list[i].(sec := 0)
  {
    seq(|list|, i requires 0 <= i < |list| => list[i].(sec := 0))
  }

  /** What one operation of a callback makes of the timers. */
  function AfterOp(t: TimerState, op: Op): TimerState {
    match op
    case CreateTimer(now, milliseconds, mallocOk) =>
      TimerState(if mallocOk then [Deadline(t.nextId, now, milliseconds)] + t.list else t.list, t.nextId + 1)
    case DeleteTimer(id) => t.(list := Drop(t.list, id))
    case _ => t
  }

  /** What a script of operations makes of the timers. */
  function AfterOps(t: TimerState, ops: seq<Op>): TimerState
    decreases |ops|
  {
    if ops == [] then t else AfterOps(AfterOp(t, ops[0]), ops[1..])
  }

  /** Ids strictly decrease along the list and lie below the next id. */
  predicate Ordered(t: TimerState) {
    && (forall i, j | 0 <= i < j < |t.list| :: t.list[i].id > t.list[j].id)
    && (forall x | x in t.list :: x.id < t.nextId)
  }

  predicate Lists(list: seq<Timer>, id: int) {
    exists x :: x in list && x.id == id
  }

  lemma InOrder(t: TimerState, x: Timer, y: Timer)
    requires Ordered(t) && x in t.list && y in t.list && x.id == y.id
    ensures x == y
  {
  }

  /** In a list in order, taking out an id leaves exactly the timers with another id. */
  lemma DropMeans(t: TimerState, id: int)
    requires Ordered(t)
    ensures Ordered(t.(list := Drop(t.list, id)))
    ensures forall x :: x in Drop(t.list, id) <==> x in t.list && x.id != id
  {
    var k := FirstAt(t.list, id);
    if k < |t.list| {
      var cut := WithoutAt(t.list, k);
      forall x ensures x in cut <==> x in t.list && x.id != id {
        if x in t.list && x.id != id {
          var i :| 0 <= i < |t.list| && t.list[i] == x;
          assert cut[if i < k then i else i - 1] == x;
        }
      }
    }
  }

  /** Putting off a listed timer replaces its deadline and nothing else. */
  lemma PutOffMeans(t: TimerState, id: int, deadline: Timer)
    requires Ordered(t) && deadline.id == id
    ensures Ordered(t.(list := PutOff(t.list, id, deadline)))
    ensures forall x: Timer | x.id != id :: x in PutOff(t.list, id, deadline) <==> x in t.list
    ensures forall x: Timer | x.id == id :: x in PutOff(t.list, id, deadline) <==> x == deadline && Lists(t.list, id)
  {
    var k := FirstAt(t.list, id);
    if k < |t.list| {
      var put := t.list[k := deadline];
      assert t.list[k] in t.list && put[k] in put;
      forall x: Timer | x.id != id ensures x in put <==> x in t.list {
        if x in t.list {
          var i :| 0 <= i < |t.list| && t.list[i] == x;
          assert put[i] == x;
        }
      }
    }
  }

  /** What one operation means: a new timer comes first, with the next id and the instant asked for; a deletion takes
      exactly its id; nothing else changes. */
  lemma AfterOpMeans(t: TimerState, op: Op)
    requires Ordered(t)
    ensures var u := AfterOp(t, op);
      && Ordered(u)
      && u.nextId == (if op.CreateTimer? then t.nextId + 1 else t.nextId)
      && (op.CreateTimer? && op.mallocOk ==>
            && |u.list| == |t.list| + 1 && u.list[1..] == t.list && u.list[0].id == t.nextId
            && u.list[0].sec * 1000 + u.list[0].ms == op.now + op.milliseconds)
      && (op.DeleteTimer? ==> forall x :: x in u.list <==> x in t.list && x.id != op.id)
      && (!op.DeleteTimer? && !(op.CreateTimer? && op.mallocOk) ==> u.list == t.list)
  {
    if op.CreateTimer? {
      DeadlineDenotes(t.nextId, op.now, op.milliseconds);
      assert op.mallocOk ==> forall x | x in AfterOp(t, op).list :: x in t.list || x.id == t.nextId;
    } else if op.DeleteTimer? {
      DropMeans(t, op.id);
    }
  }

  /** A script goes operation by operation. */
  lemma AfterOpsByOne(t: TimerState, op: Op)
    ensures AfterOps(t, []) == t && AfterOps(t, [op]) == AfterOp(t, op)
  {
    assert [op][1..] == [];
  }

  lemma {:induction false} AfterOpsAppend(t: TimerState, a: seq<Op>, b: seq<Op>)
    ensures AfterOps(t, a + b) == AfterOps(AfterOps(t, a), b)
    decreases |a|
  {
    if a == [] {
      assert a + b == b;
    } else {
      assert (a + b)[1..] == a[1..] + b;
      AfterOpsAppend(AfterOp(t, a[0]), a[1..], b);
    }
  }

  /** A script keeps the order, never takes an id back, and does not bring back a timer that is not listed. */
  lemma {:induction false} AfterOpsOrdered(t: TimerState, ops: seq<Op>)
    requires Ordered(t)
    ensures var u := AfterOps(t, ops);
      Ordered(u) && u.nextId >= t.nextId && forall x | x in u.list && x.id < t.nextId :: x in t.list
    decreases |ops|
  {
    if ops == [] {
    } else {
      var u := AfterOp(t, ops[0]);
      AfterOpMeans(t, ops[0]);
      AfterOpsOrdered(u, ops[1..]);
      forall x | x in AfterOps(t, ops).list && x.id < t.nextId ensures x in t.list {
        assert x in u.list;
        if ops[0].CreateTimer? && ops[0].mallocOk {
          assert u.list == [u.list[0]] + t.list;
        }
      }
    }
  }

  /** The first of the earliest deadlines. */
  predicate Nearest(list: seq<Timer>, at: nat) {
    NearestOf(list, |list|, at)
  }

  lemma NearestIsSoonest(list: seq<Timer>, at: nat)
    requires Nearest(list, at)
    ensures (forall i | 0 <= i < |list| :: 0 <= list[i].ms < 1000) ==>
      forall i | 0 <= i < |list| ::
        && list[at].sec * 1000 + list[at].ms <= list[i].sec * 1000 + list[i].ms
        && (i < at ==> list[at].sec * 1000 + list[at].ms < list[i].sec * 1000 + list[i].ms)
  {
    if forall i | 0 <= i < |list| :: 0 <= list[i].ms < 1000 {
      forall i | 0 <= i < |list| ensures
        && list[at].sec * 1000 + list[at].ms <= list[i].sec * 1000 + list[i].ms
        && (i < at ==> list[at].sec * 1000 + list[at].ms < list[i].sec * 1000 + list[i].ms)
      {
        EarlierIsSooner(list[i], list[at]);
        EarlierIsSooner(list[at], list[i]);
      }
    }
  }

  /** The same among the first `n`. */
  predicate NearestOf(list: seq<Timer>, n: nat, at: nat) {
    && at < n <= |list|
    && (forall i | 0 <= i < n :: !Earlier(list[i], list[at]))
    && (forall i | 0 <= i < at :: Earlier(list[at], list[i]))
  }

  /** Ids strictly decrease along the list. */
  ghost predicate Descending(s: seq<TimeEvent>) {
    forall i, j | 0 <= i < j < |s| :: s[i].id > s[j].id
  }

  class TimerQueue {
    var head: TimeEvent?
    var nextId: int
    var lastTime: nat
    ghost var spine: seq<TimeEvent>
    ghost var nodes: set<TimeEvent>

    /** The list is acyclic, its ids strictly decrease from the head and lie below the next id, and every ms part
        stays below a second in size. */
    ghost predicate Valid()
      reads this, nodes
    {
      && (forall i | 0 <= i < |spine| :: spine[i] in nodes)
      && head == Link(0)
      && Linked(spine)
      && Descending(spine)
      && (forall n | n in nodes :: 0 <= n.id < nextId)
      && (forall n | n in nodes :: -1000 < n.whenMs < 1000)
      && nextId >= 0
    }

    ghost function Link(i: nat): TimeEvent?
      reads this
      requires i <= |spine|
    {
      if i < |spine| then spine[i] else null
    }

    ghost function State(): TimerState
      reads this`spine, this`nextId, spine
    {
      TimerState(Values(spine), nextId)
    }

    /** The deadlines of all nodes, as a value. */
    ghost function When(): map<TimeEvent, (int, int)>
      reads this`nodes, nodes`whenSec, nodes`whenMs
    {
      map n | n in nodes :: (n.whenSec, n.whenMs)
    }

    constructor (now: nat)
      ensures Valid() && spine == [] && nodes == {} && nextId == 0 && lastTime == now / 1000
    {
      head, nextId, lastTime, spine, nodes := null, 0, now / 1000, [], {};
    }

    /** aeCreateTimeEvent. The id is spent even when malloc fails. */
    method CreateTimeEvent(now: nat, milliseconds: int, mallocOk: bool) returns (id: int)
      requires Valid()
      modifies this`nextId, this`head, this`spine, this`nodes
      ensures Valid() && old(nodes) <= nodes && forall n | n in nodes :: n in old(nodes) || fresh(n)
      ensures nextId == old(nextId) + 1 && id == if mallocOk then old(nextId) else AE_ERR
      ensures !mallocOk ==> spine == old(spine)
      ensures mallocOk ==> |spine| == |old(spine)| + 1 && spine == [spine[0]] + old(spine) && fresh(spine[0])
      ensures mallocOk ==> spine[0].id == id && spine[0].whenSec * 1000 + spine[0].whenMs == now + milliseconds
      ensures State() == AfterOp(old(State()), CreateTimer(now, milliseconds, mallocOk))
    {
      id := nextId;
      nextId := nextId + 1;
      if !mallocOk {
        return AE_ERR;
      }
      ghost var was, list := spine, State().list;
      var te := Push(id, now, milliseconds);
      DeadlineDenotes(id, now, milliseconds);
      ValuesCons(te, was, list);
      assert State().list == [Deadline(id, now, milliseconds)] + list;
    }

    /** The new node becomes the head. */
    method Push(id: int, now: nat, milliseconds: int) returns (te: TimeEvent)
      requires Valid() && 0 <= id < nextId && forall n | n in spine :: n.id < id
      modifies this`head, this`spine, this`nodes
      ensures Valid() && fresh(te) && nodes == old(nodes) + {te} && spine == [te] + old(spine)
      ensures te.Value() == Deadline(id, now, milliseconds)
    {
      var (sec, ms) := AddMilliseconds(now, milliseconds);
      AddMillisecondsDenotes(now, milliseconds);
      te := new TimeEvent(id, sec, ms, head);
      head := te;
      spine, nodes := [te] + spine, nodes + {te};
    }

    /** aeDeleteTimeEvent: succeeds exactly on a listed id, unlinks that node alone and keeps the rest in order. */
    method DeleteTimeEvent(id: int) returns (r: int)
      requires Valid()
      modifies this`head, this`spine, nodes`next
      ensures Valid()
      ensures r == if FirstAt(old(State().list), id) < |old(State().list)| then AE_OK else AE_ERR
      ensures forall n :: n in spine <==> n in old(spine) && n.id != id
      ensures State() == AfterOp(old(State()), DeleteTimer(id))
    {
      var prev, te, k := Find(id);
      if te == null {
        return AE_ERR;
      }
      Remove(prev, te, k);
      return AE_OK;
    }

    /** The node at position `k` leaves the list, with its deadline. */
    method Remove(prev: TimeEvent?, te: TimeEvent, ghost k: nat)
      requires Valid()
      requires k < |spine| && te == spine[k] && prev == if k > 0 then spine[k-1] else null
      modifies this`head, this`spine, nodes`next
      ensures Valid()
      ensures forall n :: n in spine <==> n in old(spine) && n.id != te.id
      ensures State().list == WithoutAt(old(State().list), k)
    {
      ghost var was, list := spine, State().list;
      Unlink(prev, te, k);
      ValuesWithout(was, list, k);
    }

    /** The walk of aeDeleteTimeEvent: the first node with the id, its predecessor, and its position. */
    method Find(id: int) returns (prev: TimeEvent?, te: TimeEvent?, ghost k: nat)
      requires Valid()
      ensures k == FirstAt(State().list, id) && te == Link(k)
      ensures te == null ==> forall n | n in spine :: n.id != id
      ensures prev == if k > 0 then spine[k-1] else null
    {
      prev, te, k := null, head, 0;
      while te != null && te.id != id
        invariant 0 <= k <= |spine| && te == Link(k)
        invariant prev == if k > 0 then spine[k-1] else null
        invariant forall i | 0 <= i < k :: spine[i].id != id
        decreases |spine| - k
      {
        prev := te;
        te := te.next;
        k := k + 1;
      }
      FirstIs(State().list, id, k);
    }

    /** Unlinking the node at position `k` takes it, and it alone, out of the list. */
    method Unlink(prev: TimeEvent?, te: TimeEvent, ghost k: nat)
      requires Valid()
      requires k < |spine| && te == spine[k] && prev == if k > 0 then spine[k-1] else null
      modifies this`head, this`spine, nodes`next
      ensures Valid()
      ensures forall n :: n in spine <==> n in old(spine) && n.id != te.id
      ensures spine == WithoutAt(old(spine), k)
    {
      ghost var was := spine;
      Bypass(prev, te, k);
      spine := WithoutAt(was, k);
      CutMembers(was, k);
      CutIsLinked(was, k);
    }

    /** The assignment itself: the head, or the node before position `k`, now points past it. */
    method Bypass(prev: TimeEvent?, te: TimeEvent, ghost k: nat)
      requires Valid()
      requires k < |spine| && te == spine[k] && prev == if k > 0 then spine[k-1] else null
      modifies this`head, nodes`next
      ensures Skips(spine, k)
      ensures head == if k > 0 then old(head) else if 1 < |spine| then spine[1] else null
    {
      assert forall i | 0 <= i < |spine| && i != k - 1 :: spine[i] != prev;
      if prev == null {
        head := te.next;
      } else {
        prev.next := te.next;
      }
    }

    /** aeSearchNearestTimer */
    method SearchNearestTimer() returns (nearest: TimeEvent?, ghost at: nat)
      requires Valid()
      ensures nearest == null <==> spine == []
      ensures nearest != null ==> Nearest(State().list, at) && nearest == spine[at]
      ensures nearest != null && (forall n | n in spine :: n.whenMs >= 0) ==>
        forall i | 0 <= i < |spine| ::
          && nearest.whenSec * 1000 + nearest.whenMs <= spine[i].whenSec * 1000 + spine[i].whenMs
          && (i < at ==> nearest.whenSec * 1000 + nearest.whenMs < spine[i].whenSec * 1000 + spine[i].whenMs)
    {
      var te := head;
      nearest, at := null, 0;
      ghost var k, list := 0, State().list;
      while te != null
        invariant 0 <= k <= |spine| && te == Link(k)
        invariant nearest == null <==> k == 0
        invariant nearest != null ==> at < k && nearest == spine[at] && NearestOf(list, k, at)
        decreases |spine| - k
      {
        if nearest == null || te.whenSec < nearest.whenSec ||
           (te.whenSec == nearest.whenSec && te.whenMs < nearest.whenMs) {
          nearest, at := te, k;
        }
        te := te.next;
        k := k + 1;
      }
      if nearest != null {
        NearestIsSoonest(list, at);
        assert forall i | 0 <= i < |spine| :: list[i] == spine[i].Value();
      }
    }

    /** The clock-skew branch of processTimeEvents: every deadline's seconds become 0. */
    method ForceAll()
      requires Valid()
      modifies nodes`whenSec
      ensures Valid()
      ensures forall n | n in spine :: n.whenSec == 0
      ensures State() == TimerState(AllForced(old(State().list)), nextId)
    {
      var te := head;
      ghost var k := 0;
      while te != null
        invariant 0 <= k <= |spine| && te == Link(k)
        invariant forall i | 0 <= i < k :: spine[i].whenSec == 0
        decreases |spine| - k
      {
        te.whenSec := 0;
        te := te.next;
        k := k + 1;
      }
    }
  }

  /** Cutting one node out of a list with decreasing ids leaves exactly the nodes with another id. */
  lemma CutMembers(s: seq<TimeEvent>, k: nat)
    requires k < |s| && Descending(s)
    ensures Descending(WithoutAt(s, k))
    ensures forall n :: n in WithoutAt(s, k) <==> n in s && n.id != s[k].id
  {
    var t := WithoutAt(s, k);
    forall n | n in s && n.id != s[k].id ensures n in t {
      var i :| 0 <= i < |s| && s[i] == n;
      assert t[if i < k then i else i - 1] == n;
    }
  }

  lemma ValuesCons(te: TimeEvent, s: seq<TimeEvent>, list: seq<Timer>)
    requires |list| == |s| && forall i | 0 <= i < |s| :: list[i] == s[i].Value()
    ensures Values([te] + s) == [te.Value()] + list
  {
  }

  lemma ValuesWithout(s: seq<TimeEvent>, list: seq<Timer>, k: nat)
    requires k < |s| == |list| && forall i | 0 <= i < |s| :: list[i] == s[i].Value()
    ensures Values(WithoutAt(s, k)) == WithoutAt(list, k)
  {
  }

  lemma FirstIs(list: seq<Timer>, id: int, k: nat)
    requires k <= |list| && forall i | 0 <= i < k :: list[i].id != id
    requires k < |list| ==> list[k].id == id
    ensures FirstAt(list, id) == k
  {
  }

  /** Each node points to its successor in the sequence. */
  ghost predicate Linked(s: seq<TimeEvent>)
    reads s
  {
    forall i {:trigger s[i].next} | 0 <= i < |s| :: s[i].next == if i + 1 < |s| then s[i+1] else null
  }

  /** Like Linked, except that the node before position `k` already points past it. */
  ghost predicate Skips(s: seq<TimeEvent>, k: nat)
    reads s
    requires k < |s|
  {
    && (forall i {:trigger s[i].next} | 0 <= i < |s| && i != k - 1 :: s[i].next == if i + 1 < |s| then s[i+1] else null)
    && (k > 0 ==> s[k-1].next == if k + 1 < |s| then s[k+1] else null)
  }

  lemma CutIsLinked(s: seq<TimeEvent>, k: nat)
    requires k < |s| && Skips(s, k)
    ensures Linked(WithoutAt(s, k))
  {
  }
}
