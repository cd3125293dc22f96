/** One timer pass: what its callbacks and their settling make of the loop, as a value, and the invariant that carries
    the pass to its end. */
module TimerPass {
  import opened EventTypes
  import opened FileRuns
  import opened Sequences
  import opened TimerList

  // ----- the state of the loop as a value -----

  /** Timers, file table, history and stop flag. */
  datatype Snapshot = Snapshot(timers: TimerState, files: World, history: seq<Step>, stop: bool)

  /** The state after one operation of a callback. */
  function AfterPublicOp(m: Snapshot, op: Op): Snapshot {
    var s := OpSteps(m.files, op);
    Snapshot(AfterOp(m.timers, op), Replay(m.files, s), m.history + s, m.stop || op.Stop?)
  }

  /** Operations on timers leave the files alone, and the other way round. */
  lemma OpActsApart(m: Snapshot, op: Op)
    ensures !(op.CreateFile? || op.DeleteFile?) ==>
      AfterPublicOp(m, op) == Snapshot(AfterOp(m.timers, op), m.files, m.history, m.stop || op.Stop?)
    ensures !(op.CreateTimer? || op.DeleteTimer?) ==> AfterOp(m.timers, op) == m.timers
  {
    assert m.history + [] == m.history;
  }

  /** The state after a callback's script. */
  function AfterScript(m: Snapshot, ops: seq<Op>): Snapshot
    decreases |ops|
  {
    if ops == [] then m else AfterScript(AfterPublicOp(m, ops[0]), ops[1..])
  }

  /** A script acts on timers and files apart. */
  lemma {:induction false} ScriptActsApart(m: Snapshot, ops: seq<Op>)
    ensures AfterScript(m, ops) == Went(m, OpsSteps(m.files, ops), ops)
    decreases |ops|
  {
    if ops == [] {
    } else {
      var n, s := AfterPublicOp(m, ops[0]), OpSteps(m.files, ops[0]);
      var t := OpsSteps(n.files, ops[1..]);
      ScriptActsApart(n, ops[1..]);
      Append(m.files, s, t);
      Associative(m.history, s, t);
      assert Stop in ops <==> ops[0].Stop? || Stop in ops[1..];
    }
  }

  /** The state after the steps `s` on the files and the operations `ops` on the timers. */
  function Went(m: Snapshot, s: seq<Step>, ops: seq<Op>): Snapshot {
    Snapshot(AfterOps(m.timers, ops), Replay(m.files, s), m.history + s, m.stop || Stop in ops)
  }

  /** That is: the steps are replayed and recorded, and the operations fold over the timers. */
  lemma WentMeans(m: Snapshot, s: seq<Step>, ops: seq<Op>)
    ensures var n := Went(m, s, ops);
      && n.files == Replay(m.files, s) && n.history == m.history + s
      && n.timers == AfterOps(m.timers, ops) && n.stop == (m.stop || Stop in ops)
  {
  }

  lemma WentOn(m: Snapshot, s: seq<Step>, a: seq<Op>, t: seq<Step>, b: seq<Op>)
    ensures Went(Went(m, s, a), t, b) == Went(m, s + t, a + b)
  {
    AfterOpsAppend(m.timers, a, b);
    Append(m.files, s, t);
    Associative(m.history, s, t);
  }

  // ----- the callbacks of a pass -----

  /** The end of the due branch: a timer that asks for no more is deleted, another gets the deadline it asked for,
      counted from the clock reading `at`. */
  function Settled(list: seq<Timer>, id: int, retval: int, at: nat): seq<Timer> {
    if retval == AE_NOMORE then Drop(list, id) else PutOff(list, id, Deadline(id, at, retval))
  }

  /** One callback of a pass: the call, its script, and the settling of its timer. */
  function Fire(m: Snapshot, id: int, r: Reaction, at: nat): Snapshot {
    var n := AfterScript(m.(history := m.history + [Ticked(id)]), r.ops);
    n.(timers := n.timers.(list := Settled(n.timers.list, id, r.retval, at)))
  }

  lemma SettledFires(m: Snapshot, n: Snapshot, end: Snapshot, id: int, r: Reaction, at: nat)
    requires n == AfterScript(m.(history := m.history + [Ticked(id)]), r.ops)
    requires end == n.(timers := TimerState(Settled(n.timers.list, id, r.retval, at), n.timers.nextId))
    ensures end == Fire(m, id, r, at)
  {
  }

  /** The id is listed and its timer is due. */
  predicate ListedAndDue(list: seq<Timer>, id: int, now: nat) {
    var k := FirstAt(list, id);
    k < |list| && Due(list[k].sec, list[k].ms, now)
  }

  /** The record of a pass: the ids of the timers fired, in order, the clock reading each was settled at, and the states
      before, between and after. */
  datatype Log = Log(fired: seq<int>, clock: seq<nat>, path: seq<Snapshot>) {
    predicate Shaped() {
      |clock| == |fired| && |path| == |fired| + 1
    }

    function Last(): Snapshot
      requires Shaped()
    {
      path[|fired|]
    }
  }

  /** The k-th callback: its timer is listed and due, and the next state is what the callback makes of this one. */
  predicate Fires(log: Log, react: (int, nat) -> Reaction, lo: nat, hi: nat, k: nat)
    requires log.Shaped() && k < |log.fired|
  {
    && lo <= log.clock[k] <= hi
    && ListedAndDue(log.path[k].timers.list, log.fired[k], hi)
    && log.path[k+1] == Fire(log.path[k], log.fired[k], react(log.fired[k], k), log.clock[k])
  }

  predicate PassPath(log: Log, react: (int, nat) -> Reaction, lo: nat, hi: nat) {
    log.Shaped() && forall k | 0 <= k < |log.fired| :: Fires(log, react, lo, hi, k)
  }

  /** The ids that the callbacks of a pass deleted. */
  function Gone(react: (int, nat) -> Reaction, fired: seq<int>): set<int> {
    if fired == [] then {}
    else
      var n := |fired| - 1;
      Gone(react, fired[..n]) + DeletedIds(react(fired[n], n).ops)
  }

  lemma {:induction false} GoneMeans(react: (int, nat) -> Reaction, fired: seq<int>, id: int)
    ensures id in Gone(react, fired)
      <==> exists k :: 0 <= k < |fired| && id in DeletedIds(react(fired[k], k).ops)
    decreases |fired|
  {
    if fired == [] {
    } else {
      var n := |fired| - 1;
      GoneMeans(react, fired[..n], id);
      if k :| 0 <= k < |fired| && id in DeletedIds(react(fired[k], k).ops) {
        assert k < n ==> fired[..n][k] == fired[k];
      }
      if k :| 0 <= k < n && id in DeletedIds(react(fired[..n][k], k).ops) {
        assert fired[..n][k] == fired[k];
      }
    }
  }

  /** The record with one more callback. */
  function Extended(log: Log, id: int, r: Reaction, at: nat): Log
    requires log.Shaped()
  {
    Log(log.fired + [id], log.clock + [at], log.path + [Fire(log.Last(), id, r, at)])
  }

  lemma LogExtends(log: Log, react: (int, nat) -> Reaction, lo: nat, hi: nat, id: int, at: nat)
    requires PassPath(log, react, lo, hi) && lo <= at <= hi && ListedAndDue(log.Last().timers.list, id, hi)
    ensures var r := react(id, |log.fired|);
      var more := Extended(log, id, r, at);
      && PassPath(more, react, lo, hi) && more.path[0] == log.path[0] && more.Last() == Fire(log.Last(), id, r, at)
      && Gone(react, more.fired) == Gone(react, log.fired) + DeletedIds(r.ops)
  {
    var n := |log.fired|;
    var more := Extended(log, id, react(id, n), at);
    forall k | 0 <= k < n + 1 ensures Fires(more, react, lo, hi, k) {
      if k < n {
        assert Fires(log, react, lo, hi, k);
      }
    }
    assert more.fired[..n] == log.fired;
  }

  /** The timer at position `k` fires. */
  lemma FirstFires(log: Log, react: (int, nat) -> Reaction, lo: nat, hi: nat, k: nat, now: nat, at: nat)
    requires PassPath(log, react, lo, hi) && lo <= at <= hi && now <= hi && k < |log.Last().timers.list|
    requires var list := log.Last().timers.list;
      Due(list[k].sec, list[k].ms, now) && forall i | 0 <= i < k :: list[i].id != list[k].id
    ensures var id := log.Last().timers.list[k].id;
      var r := react(id, |log.fired|);
      var more := Extended(log, id, r, at);
      && PassPath(more, react, lo, hi) && more.path[0] == log.path[0] && more.Last() == Fire(log.Last(), id, r, at)
      && Gone(react, more.fired) == Gone(react, log.fired) + DeletedIds(r.ops)
  {
    var list := log.Last().timers.list;
    DueMonotone(list[k].sec, list[k].ms, now, hi);
    FirstIs(list, list[k].id, k);
    LogExtends(log, react, lo, hi, list[k].id, at);
  }

  function DeletedBy(op: Op): set<int> {
    if op.DeleteTimer? then {op.id} else {}
  }

  /** The timer ids a script deletes. */
  function DeletedIds(ops: seq<Op>): set<int> {
    if ops == [] then {} else DeletedBy(ops[0]) + DeletedIds(ops[1..])
  }

  lemma {:induction false} DeletedIdsMean(ops: seq<Op>, id: int)
    ensures id in DeletedIds(ops) <==> exists i :: 0 <= i < |ops| && ops[i] == DeleteTimer(id)
    decreases |ops|
  {
    if ops == [] {
    } else {
      DeletedIdsMean(ops[1..], id);
      if i :| 0 <= i < |ops[1..]| && ops[1..][i] == DeleteTimer(id) {
        assert ops[i+1] == DeleteTimer(id);
      }
      if i :| 0 < i < |ops| && ops[i] == DeleteTimer(id) {
        assert ops[1..][i-1] == DeleteTimer(id);
      }
    }
  }

  // ----- what one callback means -----

  /** On files, history and stop flag: the call, then the script. */
  lemma FireOnFiles(m: Snapshot, id: int, r: Reaction, at: nat)
    ensures var n, s := Fire(m, id, r, at), OpsSteps(m.files, r.ops);
      && n.files == Replay(m.files, s) && n.history == m.history + [Ticked(id)] + s
      && n.stop == (m.stop || Stop in r.ops)
  {
    ScriptActsApart(m.(history := m.history + [Ticked(id)]), r.ops);
  }

  /** On timers: what the script leaves, except that the one fired is gone if it asked for no more, and otherwise, if
      it is still listed, stands with the instant it asked for. */
  lemma FireOnTimers(m: Snapshot, id: int, r: Reaction, at: nat)
    requires Ordered(m.timers)
    ensures var n, t := Fire(m, id, r, at).timers, AfterOps(m.timers, r.ops);
      && Ordered(n) && n.nextId == t.nextId
      && (forall x: Timer | x.id != id :: x in n.list <==> x in t.list)
      && (Lists(n.list, id) <==> r.retval != AE_NOMORE && Lists(t.list, id))
      && (forall x | x in n.list && x.id == id :: x.sec * 1000 + x.ms == at + r.retval)
  {
    var t := AfterOps(m.timers, r.ops);
    ScriptActsApart(m.(history := m.history + [Ticked(id)]), r.ops);
    AfterOpsOrdered(m.timers, r.ops);
    if r.retval == AE_NOMORE {
      DropMeans(t, id);
    } else {
      var d := Deadline(id, at, r.retval);
      DeadlineDenotes(id, at, r.retval);
      PutOffMeans(t, id, d);
      assert Lists(t.list, id) ==> d in PutOff(t.list, id, d);
    }
  }

  lemma {:induction false} PathOrdered(log: Log, react: (int, nat) -> Reaction, lo: nat, hi: nat, k: nat)
    requires PassPath(log, react, lo, hi) && Ordered(log.path[0].timers) && k <= |log.fired|
    ensures Ordered(log.path[k].timers) && log.path[k].timers.nextId >= log.path[0].timers.nextId
    decreases k
  {
    if k == 0 {
    } else {
      PathOrdered(log, react, lo, hi, k - 1);
      assert Fires(log, react, lo, hi, k - 1);
      var r := react(log.fired[k-1], k - 1);
      FireOnTimers(log.path[k-1], log.fired[k-1], r, log.clock[k-1]);
      AfterOpsOrdered(log.path[k-1].timers, r.ops);
    }
  }

  /** An id of the past that is not listed stays so. */
  lemma {:induction false} AbsentStays(log: Log, react: (int, nat) -> Reaction, lo: nat, hi: nat, k: nat, id: int)
    requires PassPath(log, react, lo, hi) && Ordered(log.path[0].timers) && k <= |log.fired|
    requires id < log.path[k].timers.nextId && !Lists(log.path[k].timers.list, id)
    ensures !Lists(log.Last().timers.list, id)
    decreases |log.fired| - k
  {
    if k == |log.fired| {
    } else {
      PathOrdered(log, react, lo, hi, k);
      assert Fires(log, react, lo, hi, k);
      var m, other, r := log.path[k].timers, log.fired[k], react(log.fired[k], k);
      assert m.list[FirstAt(m.list, other)] in m.list && other != id;
      FireOnTimers(log.path[k], other, r, log.clock[k]);
      AfterOpsOrdered(m, r.ops);
      AbsentStays(log, react, lo, hi, k + 1, id);
    }
  }

  /** A timer whose callback asked for no more is not listed at the end, and one that asked to be put off stands at
      the end, if no callback deletes it, with the instant it asked for. */
  lemma FiredEnds(log: Log, react: (int, nat) -> Reaction, lo: nat, hi: nat, k: nat)
    requires PassPath(log, react, lo, hi) && Ordered(log.path[0].timers) && k < |log.fired|
    requires forall i, j | 0 <= i < j < |log.fired| :: log.fired[i] != log.fired[j]
    ensures var id, retval, list := log.fired[k], react(log.fired[k], k).retval, log.Last().timers.list;
      && (retval == AE_NOMORE ==> !Lists(list, id))
      && (retval != AE_NOMORE && (forall j | k <= j < |log.fired| :: id !in DeletedIds(react(log.fired[j], j).ops)) ==>
            exists x :: x in list && x.id == id && lo + retval <= x.sec * 1000 + x.ms <= hi + retval)
  {
    PathOrdered(log, react, lo, hi, k);
    assert Fires(log, react, lo, hi, k);
    var m, id, r := log.path[k].timers, log.fired[k], react(log.fired[k], k);
    assert m.list[FirstAt(m.list, id)] in m.list;
    if r.retval == AE_NOMORE {
      FireOnTimers(log.path[k], id, r, log.clock[k]);
      AfterOpsOrdered(m, r.ops);
      AbsentStays(log, react, lo, hi, k + 1, id);
    } else if forall j | k <= j < |log.fired| :: id !in DeletedIds(react(log.fired[j], j).ops) {
      PutOffIsListed(log, react, lo, hi, k);
      DeadlineDenotes(id, log.clock[k], r.retval);
    }
  }

  // ----- what becomes of one timer -----

  lemma DropKeeps(list: seq<Timer>, id: int, x: Timer)
    requires x in list && x.id != id
    ensures x in Drop(list, id)
  {
    var i :| 0 <= i < |list| && list[i] == x;
    var k := FirstAt(list, id);
    if k < |list| {
      assert WithoutAt(list, k)[if i < k then i else i - 1] == x;
    }
  }

  lemma PutOffKeeps(list: seq<Timer>, id: int, deadline: Timer, x: Timer)
    requires x in list && x.id != id
    ensures x in PutOff(list, id, deadline)
  {
    var i :| 0 <= i < |list| && list[i] == x;
    assert i < |PutOff(list, id, deadline)| && PutOff(list, id, deadline)[i] == x;
  }

  /** A script keeps every timer it does not delete by id. */
  lemma {:induction false} ScriptKeeps(t: TimerState, ops: seq<Op>, x: Timer)
    requires x in t.list && x.id !in DeletedIds(ops)
    ensures x in AfterOps(t, ops).list
    decreases |ops|
  {
    if ops == [] {
    } else {
      if ops[0].DeleteTimer? {
        DropKeeps(t.list, ops[0].id, x);
      }
      ScriptKeeps(AfterOp(t, ops[0]), ops[1..], x);
    }
  }

  lemma FireKeeps(m: Snapshot, id: int, r: Reaction, at: nat, x: Timer)
    requires x in m.timers.list && x.id != id && x.id !in DeletedIds(r.ops)
    ensures x in Fire(m, id, r, at).timers.list
  {
    var n := m.(history := m.history + [Ticked(id)]);
    ScriptActsApart(n, r.ops);
    ScriptKeeps(n.timers, r.ops, x);
    var list := AfterOps(n.timers, r.ops).list;
    if r.retval == AE_NOMORE {
      DropKeeps(list, id, x);
    } else {
      PutOffKeeps(list, id, Deadline(id, at, r.retval), x);
    }
  }

  /** Nothing is lost: a timer listed at some point of the pass, new or old, with the deadline it has there, is still
      listed at the end, unless it fires later on or a later callback deletes it. */
  lemma {:induction false} TimerSurvives(log: Log, react: (int, nat) -> Reaction, lo: nat, hi: nat, k: nat, x: Timer)
    requires PassPath(log, react, lo, hi) && k <= |log.fired| && x in log.path[k].timers.list
    requires forall j | k <= j < |log.fired| ::
      log.fired[j] != x.id && x.id !in DeletedIds(react(log.fired[j], j).ops)
    ensures x in log.Last().timers.list
    decreases |log.fired| - k
  {
    if k >= |log.fired| {
    } else {
      assert Fires(log, react, lo, hi, k);
      FireKeeps(log.path[k], log.fired[k], react(log.fired[k], k), log.clock[k], x);
      TimerSurvives(log, react, lo, hi, k + 1, x);
    }
  }

  /** A timer put off is listed at the end with the deadline it asked for, counted from a clock reading in the window,
      unless a callback deletes it. */
  lemma PutOffIsListed(log: Log, react: (int, nat) -> Reaction, lo: nat, hi: nat, k: nat)
    requires PassPath(log, react, lo, hi) && k < |log.fired| && react(log.fired[k], k).retval != AE_NOMORE
    requires forall i, j | 0 <= i < j < |log.fired| :: log.fired[i] != log.fired[j]
    requires forall j | k <= j < |log.fired| :: log.fired[k] !in DeletedIds(react(log.fired[j], j).ops)
    ensures lo <= log.clock[k] <= hi
    ensures Deadline(log.fired[k], log.clock[k], react(log.fired[k], k).retval) in log.Last().timers.list
    ensures exists x | x in log.Last().timers.list ::
      x.id == log.fired[k] && x.sec * 1000 + x.ms == log.clock[k] + react(log.fired[k], k).retval
  {
    assert Fires(log, react, lo, hi, k);
    var m, id, r, at := log.path[k], log.fired[k], react(log.fired[k], k), log.clock[k];
    var x := m.timers.list[FirstAt(m.timers.list, id)];
    var n := m.(history := m.history + [Ticked(id)]);
    ScriptActsApart(n, r.ops);
    ScriptKeeps(n.timers, r.ops, x);
    var list, i := AfterOps(n.timers, r.ops).list, FirstAt(AfterOps(n.timers, r.ops).list, id);
    assert i < |list|;
    assert PutOff(list, id, Deadline(id, at, r.retval))[i] == Deadline(id, at, r.retval);
    TimerSurvives(log, react, lo, hi, k + 1, Deadline(id, at, r.retval));
    DeadlineDenotes(id, at, r.retval);
  }

  // ----- what a pass achieves, on values -----

  /** From timers `t0` a pass within the clock window [lo, hi] has come to `t1`, firing some and deleting others in its
      callbacks: each timer fired once at most, was listed at the start and due, and newest first under a still clock;
      every timer due at the start fired or was deleted; no timer of the start is due any more; and a timer neither
      fired nor deleted is still there with its deadline. */
  predicate Passed(t0: TimerState, t1: TimerState, fired: seq<int>, gone: set<int>, lo: nat, hi: nat) {
    && (forall i, j | 0 <= i < j < |fired| :: fired[i] != fired[j] && (lo == hi ==> fired[i] > fired[j]))
    && (forall id | id in fired :: exists x :: x in t0.list && x.id == id && Due(x.sec, x.ms, hi))
    && (forall x | x in t0.list && Due(x.sec, x.ms, lo) :: x.id in fired || x.id in gone)
    && (forall x | x in t1.list && x.id < t0.nextId :: !Due(x.sec, x.ms, lo))
    && (forall x | x in t0.list && x.id !in fired && x.id !in gone :: x in t1.list)
  }

  /** The timers a pass starts with: when the clock was found to run backwards, their seconds are 0. */
  function Begun(m: Snapshot, backwards: bool): Snapshot {
    if backwards then m.(timers := m.timers.(list := AllForced(m.timers.list))) else m
  }

  /** A pass starts from the timers as they are while the clock has not stepped back, and otherwise from the same timers
      in second 0; the rest of the state is as it was. */
  lemma BegunMeans(m: Snapshot, backwards: bool)
    ensures var n := Begun(m, backwards);
      && n.files == m.files && n.history == m.history && n.stop == m.stop && n.timers.nextId == m.timers.nextId
      && |n.timers.list| == |m.timers.list|
      && forall i | 0 <= i < |m.timers.list| ::
           n.timers.list[i] == if backwards then m.timers.list[i].(sec := 0) else m.timers.list[i]
    ensures !backwards ==> Begun(m, backwards) == m
    ensures Ordered(m.timers) ==> Ordered(Begun(m, backwards).timers)
  {
    var n := Begun(m, backwards).timers.list;
    forall x | x in n && Ordered(m.timers) ensures x.id < m.timers.nextId {
      var i :| 0 <= i < |n| && n[i] == x;
      assert m.timers.list[i] in m.timers.list;
    }
  }

  /** What a pass without a step back of the clock comes to, in terms of the timers before it: whatever fires was due;
      whatever was due fires or is deleted by a callback; whatever was not due and is not deleted stays. */
  lemma ForwardPass(m: Snapshot, log: Log, react: (int, nat) -> Reaction, lo: nat, hi: nat)
    requires log.Shaped() && log.path[0] == Begun(m, false) && Ordered(m.timers)
    requires Passed(log.path[0].timers, log.Last().timers, log.fired, Gone(react, log.fired), lo, hi)
    ensures forall id | id in log.fired :: exists x :: x in m.timers.list && x.id == id && Due(x.sec, x.ms, hi)
    ensures forall x | x in m.timers.list && Due(x.sec, x.ms, lo) ::
      x.id in log.fired || exists k :: 0 <= k < |log.fired| && x.id in DeletedIds(react(log.fired[k], k).ops)
    ensures forall x | x in m.timers.list && !Due(x.sec, x.ms, hi)
      && (forall k | 0 <= k < |log.fired| :: x.id !in DeletedIds(react(log.fired[k], k).ops)) ::
      x in log.Last().timers.list
  {
    BegunMeans(m, false);
    forall x | x in m.timers.list ensures x.id in Gone(react, log.fired)
      <==> exists k :: 0 <= k < |log.fired| && x.id in DeletedIds(react(log.fired[k], k).ops)
    {
      GoneMeans(react, log.fired, x.id);
    }
    forall x | x in m.timers.list && !Due(x.sec, x.ms, hi) ensures x.id !in log.fired {
      if x.id in log.fired {
        var y :| y in m.timers.list && y.id == x.id && Due(y.sec, y.ms, hi);
        InOrder(m.timers, x, y);
      }
    }
  }

  /** After a step back of the clock, from second 1 on, every timer fires or is deleted by a callback. */
  lemma BackwardPass(m: Snapshot, log: Log, react: (int, nat) -> Reaction, lo: nat, hi: nat)
    requires log.Shaped() && log.path[0] == Begun(m, true)
    requires Passed(log.path[0].timers, log.Last().timers, log.fired, Gone(react, log.fired), lo, hi)
    ensures forall id | id in log.fired :: exists x :: x in m.timers.list && x.id == id
    ensures lo >= 1000 ==> forall x | x in m.timers.list ::
      x.id in log.fired || exists k :: 0 <= k < |log.fired| && x.id in DeletedIds(react(log.fired[k], k).ops)
  {
    var forced := log.path[0].timers.list;
    forall id | id in log.fired ensures exists x :: x in m.timers.list && x.id == id {
      var y :| y in forced && y.id == id;
      var i :| 0 <= i < |forced| && forced[i] == y;
      assert m.timers.list[i] in m.timers.list && m.timers.list[i].id == id;
    }
    forall x | x in m.timers.list && lo >= 1000 ensures
      x.id in log.fired || exists k :: 0 <= k < |log.fired| && x.id in DeletedIds(react(log.fired[k], k).ops)
    {
      BackwardsFiresAll(m, log.Last().timers, react, log.fired, lo, hi, x);
    }
  }

  /** A timer due at the start has fired or one of the callbacks of the pass deleted it. */
  lemma DueFiredOrDeleted(t0: TimerState, t1: TimerState, react: (int, nat) -> Reaction, fired: seq<int>,
                          lo: nat, hi: nat, x: Timer)
    requires Passed(t0, t1, fired, Gone(react, fired), lo, hi) && x in t0.list && Due(x.sec, x.ms, lo)
    ensures x.id in fired || exists k :: 0 <= k < |fired| && x.id in DeletedIds(react(fired[k], k).ops)
    ensures fired != []
  {
    GoneMeans(react, fired, x.id);
  }

  /** When the clock was found to run backwards, from second 1 on, every timer has fired or one of the callbacks of the
      pass deleted it. */
  lemma BackwardsFiresAll(m: Snapshot, t1: TimerState, react: (int, nat) -> Reaction, fired: seq<int>,
                          lo: nat, hi: nat, x: Timer)
    requires Passed(Begun(m, true).timers, t1, fired, Gone(react, fired), lo, hi) && lo >= 1000
    requires x in m.timers.list
    ensures x.id in fired || exists k :: 0 <= k < |fired| && x.id in DeletedIds(react(fired[k], k).ops)
  {
    var i :| 0 <= i < |m.timers.list| && m.timers.list[i] == x;
    var forced := AllForced(m.timers.list);
    assert forced[i] in forced && forced[i].id == x.id;
    DueFiredOrDeleted(Begun(m, true).timers, t1, react, fired, lo, hi, forced[i]);
  }

  /** A pass that begins with a due timer fires at least one, whether or not the deadlines were forced. */
  lemma DueMeansFired(m: Snapshot, backwards: bool, t1: TimerState, react: (int, nat) -> Reaction, fired: seq<int>,
                      lo: nat, hi: nat, at: nat)
    requires Passed(Begun(m, backwards).timers, t1, fired, Gone(react, fired), lo, hi)
    requires at < |m.timers.list| && (m.timers.list[at].sec >= 0 || lo >= 1000)
    requires Due(m.timers.list[at].sec, m.timers.list[at].ms, lo)
    ensures fired != []
  {
    var list := Begun(m, backwards).timers.list;
    assert list[at] in list;
    DueFiredOrDeleted(Begun(m, backwards).timers, t1, react, fired, lo, hi, list[at]);
  }

  // ----- one iteration of the walk, and a pass that cannot end -----

  /** Where the walk stands: the timers and the position in their list. */
  datatype Point = Point(timers: TimerState, pos: nat)

  /** One iteration of the loop of processTimeEvents at clock reading `now`. */
  function Iterate(m: Point, maxId: int, r: Reaction, now: nat, at: nat): Point
    requires m.pos < |m.timers.list|
  {
    var x := m.timers.list[m.pos];
    if x.id <= maxId && Due(x.sec, x.ms, now) then
      var t := AfterOps(m.timers, r.ops);
      Point(t.(list := Settled(t.list, x.id, r.retval, at)), 0)
    else m.(pos := m.pos + 1)
  }

  /** An iteration that finds a due timer does to the timers what Fire does. */
  lemma FireIterates(m: Snapshot, pos: nat, maxId: int, r: Reaction, now: nat, at: nat)
    requires pos < |m.timers.list|
    ensures var x := m.timers.list[pos];
      x.id <= maxId && Due(x.sec, x.ms, now) ==>
        Iterate(Point(m.timers, pos), maxId, r, now, at) == Point(Fire(m, x.id, r, at).timers, 0)
  {
    var x := m.timers.list[pos];
    ScriptActsApart(m.(history := m.history + [Ticked(x.id)]), r.ops);
  }

  /** The walk comes to the end of the list within `n` iterations under a clock that stands still. */
  predicate EndsWithin(m: Point, maxId: int, react: (int, nat) -> Reaction, calls: nat, now: nat, n: nat)
    decreases n
  {
    m.pos >= |m.timers.list|
    || (n > 0
        && var x := m.timers.list[m.pos];
           var due := x.id <= maxId && Due(x.sec, x.ms, now);
           EndsWithin(Iterate(m, maxId, react(x.id, calls), now, now), maxId, react,
                      if due then calls + 1 else calls, now, n - 1))
  }

  /** A timer of the pass still to come that is due. */
  predicate Ahead(m: Point, id: int, now: nat, i: nat) {
    m.pos <= i < |m.timers.list| && m.timers.list[i].id == id && Due(m.timers.list[i].sec, m.timers.list[i].ms, now)
  }

  /** A callback that always returns a value below 1 other than AE_NOMORE keeps the pass from ever ending, whatever else
      the callbacks do, as long as none deletes its timer. */
  lemma {:induction false} NeverEnds(m: Point, maxId: int, react: (int, nat) -> Reaction, calls: nat, now: nat, n: nat,
                                     id: int, i: nat)
    requires id <= maxId && Ahead(m, id, now, i)
    requires forall k :: react(id, k).retval <= 0 && react(id, k).retval != AE_NOMORE
    requires forall j, k :: id !in DeletedIds(react(j, k).ops)
    ensures !EndsWithin(m, maxId, react, calls, now, n)
    decreases n
  {
    if n == 0 {
    } else {
      var x := m.timers.list[m.pos];
      var r := react(x.id, calls);
      var next := Iterate(m, maxId, r, now, now);
      if x.id <= maxId && Due(x.sec, x.ms, now) {
        var i' := StaysAhead(m, r, now, id, i);
        NeverEnds(next, maxId, react, calls + 1, now, n - 1, id, i');
      } else {
        NeverEnds(next, maxId, react, calls, now, n - 1, id, i);
      }
    }
  }

  lemma StaysAhead(m: Point, r: Reaction, now: nat, id: int, i: nat) returns (i': nat)
    requires Ahead(m, id, now, i) && id !in DeletedIds(r.ops)
    requires m.timers.list[m.pos].id == id ==> r.retval <= 0 && r.retval != AE_NOMORE
    ensures var t := AfterOps(m.timers, r.ops);
      Ahead(Point(t.(list := Settled(t.list, m.timers.list[m.pos].id, r.retval, now)), 0), id, now, i')
  {
    var x, fired := m.timers.list[i], m.timers.list[m.pos].id;
    var t := AfterOps(m.timers, r.ops);
    ScriptKeeps(m.timers, r.ops, x);
    var list := Settled(t.list, fired, r.retval, now);
    if fired == id {
      DueAgainIff(now, r.retval);
      i' := FirstAt(t.list, id);
      assert i' < |t.list|;
    } else {
      if r.retval == AE_NOMORE {
        DropKeeps(t.list, fired, x);
      } else {
        PutOffKeeps(t.list, fired, Deadline(fired, now, r.retval), x);
      }
      i' :| 0 <= i' < |list| && list[i'] == x;
    }
  }

  // ----- the list of nodes during a pass -----

  type Deadlines = map<TimeEvent, (int, int)>

  predicate DueAt(d: Deadlines, n: TimeEvent, t: nat) {
    n in d && Due(d[n].0, d[n].1, t)
  }

  /** The timers of a list of nodes with the deadlines `when`. */
  function ListOf(s: seq<TimeEvent>, when: Deadlines): (r: seq<Timer>)
    requires forall n | n in s :: n in when
    ensures |r| == |s| && forall i | 0 <= i < |s| :: r[i] == Timer(s[i].id, when[s[i]].0, when[s[i]].1)
  {
    seq(|s|, i requires 0 <= i < |s| => Timer(s[i].id, when[s[i]].0, when[s[i]].1))
  }

  /** How callbacks may change the timer list: listed timers stay unless deleted by id, and what is new has an id
      from `next0` on. */
  predicate Changed(s0: seq<TimeEvent>, next0: int, s1: seq<TimeEvent>, next1: int, gone: set<int>) {
    && (forall n | n in s0 :: n in s1 <==> n.id !in gone)
    && (forall n | n in s1 :: n in s0 || n.id >= next0)
    && next1 >= next0
  }

  lemma Compose(s0: seq<TimeEvent>, next0: int, s1: seq<TimeEvent>, next1: int, s2: seq<TimeEvent>, next2: int,
                gone1: set<int>, gone2: set<int>)
    requires Changed(s0, next0, s1, next1, gone1) && Changed(s1, next1, s2, next2, gone2)
    requires forall n | n in s0 :: n.id < next0
    ensures Changed(s0, next0, s2, next2, gone1 + gone2)
  {
  }

  /** What a pass starts from and the clock window it runs in. */
  datatype Start = Start(spine: seq<TimeEvent>, when: Deadlines, nextId: int, lo: nat, hi: nat)

  /** What a pass has done: the ids fired, in order, and the ids its callbacks deleted. */
  datatype Done = Done(fired: seq<int>, deleted: set<int>)

  predicate Old(p: Start, n: TimeEvent) {
    n.id < p.nextId
  }

  /** Old timers still listed were there at the start; those fired are not due again, the rest keep their deadline. */
  ghost predicate Listed(p: Start, spine: seq<TimeEvent>, when: Deadlines, d: Done) {
    && (forall n | n in spine :: n in when)
    && (forall n | n in spine && Old(p, n) :: n in p.spine)
    && (forall n | n in spine && Old(p, n) && n.id in d.fired :: !DueAt(when, n, p.hi))
    && (forall n | n in spine && Old(p, n) && n.id !in d.fired :: n in p.when && when[n] == p.when[n])
    && (forall n | n in p.spine :: n in spine || n.id in d.fired || n.id in d.deleted)
  }

  /** Only timers present and due fired, each at most once, and nothing was deleted before the first fired. */
  ghost predicate FiredWell(p: Start, d: Done) {
    && (d.fired == [] ==> d.deleted == {})
    && (forall i, j | 0 <= i < j < |d.fired| :: d.fired[i] != d.fired[j])
    && (forall id | id in d.fired :: exists n :: n in p.spine && n.id == id)
    && (forall n | n in p.spine && n.id in d.fired :: DueAt(p.when, n, p.hi))
  }

  /** Timers fire newest first: what is newer than the last one fired is not due. */
  ghost predicate NewestFirst(p: Start, spine: seq<TimeEvent>, when: Deadlines, fired: seq<int>) {
    && (forall i, j | 0 <= i < j < |fired| :: fired[i] > fired[j])
    && (fired != [] ==> forall n | n in spine && Old(p, n) && n.id > fired[|fired|-1] :: !DueAt(when, n, p.lo))
  }

  /** The first `k` timers of the list are new or not due. */
  ghost predicate Walked(p: Start, spine: seq<TimeEvent>, when: Deadlines, k: nat) {
    k <= |spine| && forall i | 0 <= i < k && Old(p, spine[i]) :: !DueAt(when, spine[i], p.lo)
  }

  function Unfired(p: Start, d: Done): (r: set<int>) {
    (set n | n in p.spine :: n.id) - (set id | id in d.fired)
  }

  /** Firing the timer at position `k`: the invariant is kept and there is one less timer left to fire. */
  lemma FireKeepsListed(p: Start, s0: seq<TimeEvent>, w0: Deadlines, next0: int, k: nat, d: Done,
                        s1: seq<TimeEvent>, w1: Deadlines, next1: int, gone: set<int>, retire: bool)
    requires next0 >= p.nextId && Descending(s0) && (forall n | n in s0 :: n.id < next0)
    requires Listed(p, s0, w0, d) && k < |s0| && Old(p, s0[k])
    requires Changed(s0, next0, s1, next1, gone + if retire then {s0[k].id} else {})
    requires forall n | n in s1 :: n in w1
    requires forall n | n in s0 && n != s0[k] :: n in w1 && w1[n] == w0[n]
    requires !retire ==> !DueAt(w1, s0[k], p.hi)
    ensures Listed(p, s1, w1, Done(d.fired + [s0[k].id], d.deleted + gone))
  {
  }

  lemma FireIsFirst(p: Start, spine: seq<TimeEvent>, when: Deadlines, d: Done, k: nat)
    requires Listed(p, spine, when, d) && k < |spine| && Old(p, spine[k]) && DueAt(when, spine[k], p.hi)
    ensures spine[k].id !in d.fired && spine[k] in p.spine && DueAt(p.when, spine[k], p.hi)
    ensures |Unfired(p, Done(d.fired + [spine[k].id], {}))| < |Unfired(p, d)|
  {
    var id := spine[k].id;
    var ids := set n | n in p.spine :: n.id;
    assert id in ids;
    assert Unfired(p, Done(d.fired + [id], {})) == Unfired(p, d) - {id};
  }

  lemma FireKeepsFired(p: Start, d: Done, te: TimeEvent, deleted: set<int>)
    requires FiredWell(p, d) && Descending(p.spine)
    requires te.id !in d.fired && te in p.spine && DueAt(p.when, te, p.hi)
    ensures FiredWell(p, Done(d.fired + [te.id], deleted))
  {
  }

  lemma FireKeepsOrder(p: Start, s0: seq<TimeEvent>, w0: Deadlines, next0: int, k: nat, fired: seq<int>,
                       s1: seq<TimeEvent>, w1: Deadlines, next1: int, gone: set<int>)
    requires p.lo == p.hi && next0 >= p.nextId && Descending(s0)
    requires NewestFirst(p, s0, w0, fired) && Walked(p, s0, w0, k)
    requires k < |s0| && Old(p, s0[k]) && DueAt(w0, s0[k], p.hi) && s0[k].id !in fired
    requires Changed(s0, next0, s1, next1, gone)
    requires forall n | n in s0 && n != s0[k] :: n in w0 && n in w1 && w1[n] == w0[n]
    ensures NewestFirst(p, s1, w1, fired + [s0[k].id])
  {
  }

  /** What holds between two iterations of the pass, standing before the timer at position `k`. */
  ghost predicate PassInvariant(p: Start, spine: seq<TimeEvent>, when: Deadlines, nextId: int, k: nat, d: Done) {
    && Descending(p.spine)
    && nextId >= p.nextId
    && Listed(p, spine, when, d)
    && FiredWell(p, d)
    && (p.lo == p.hi ==> NewestFirst(p, spine, when, d.fired))
    && Walked(p, spine, when, k)
  }

  /** What the end of the walk means. */
  ghost predicate Complete(p: Start, spine: seq<TimeEvent>, when: Deadlines, d: Done) {
    && (forall n | n in spine && Old(p, n) :: n in p.spine && !DueAt(when, n, p.lo))
    && (forall n | n in p.spine && DueAt(p.when, n, p.lo) :: n.id in d.fired || n.id in d.deleted)
  }

  /** What a finished pass has achieved. */
  ghost predicate Achieved(p: Start, spine: seq<TimeEvent>, when: Deadlines, d: Done) {
    && Listed(p, spine, when, d)
    && FiredWell(p, d)
    && (p.lo == p.hi ==> NewestFirst(p, spine, when, d.fired))
    && Complete(p, spine, when, d)
  }

  lemma PassBegins(p: Start, when: Deadlines)
    requires Descending(p.spine) && forall n | n in p.spine :: n in p.when && n in when && when[n] == p.when[n]
    ensures PassInvariant(p, p.spine, when, p.nextId, 0, Done([], {}))
  {
  }

  lemma PassSkips(p: Start, spine: seq<TimeEvent>, when: Deadlines, nextId: int, k: nat, d: Done)
    requires PassInvariant(p, spine, when, nextId, k, d) && k < |spine|
    requires !Old(p, spine[k]) || !DueAt(when, spine[k], p.lo)
    ensures PassInvariant(p, spine, when, nextId, k + 1, d)
  {
  }

  lemma PassFires(p: Start, s0: seq<TimeEvent>, w0: Deadlines, next0: int, k: nat, d: Done,
                  s1: seq<TimeEvent>, w1: Deadlines, next1: int, gone: set<int>, retired: set<int>)
    requires PassInvariant(p, s0, w0, next0, k, d) && Descending(s0) && (forall n | n in s0 :: n.id < next0)
    requires k < |s0| && Old(p, s0[k]) && DueAt(w0, s0[k], p.hi)
    requires Changed(s0, next0, s1, next1, gone + retired) && (retired == {} || retired == {s0[k].id})
    requires forall n | n in s1 :: n in w1
    requires forall n | n in s0 && n != s0[k] :: n in w1 && w1[n] == w0[n]
    requires retired == {} ==> !DueAt(w1, s0[k], p.hi)
    ensures var e := Done(d.fired + [s0[k].id], d.deleted + gone);
      PassInvariant(p, s1, w1, next1, 0, e) && |Unfired(p, e)| < |Unfired(p, d)|
  {
    FireIsFirst(p, s0, w0, d, k);
    FireKeepsListed(p, s0, w0, next0, k, d, s1, w1, next1, gone, retired != {});
    FireKeepsFired(p, d, s0[k], d.deleted + gone);
    if p.lo == p.hi {
      FireKeepsOrder(p, s0, w0, next0, k, d.fired, s1, w1, next1, gone + retired);
    }
  }

  lemma PassEnds(p: Start, spine: seq<TimeEvent>, when: Deadlines, nextId: int, d: Done)
    requires PassInvariant(p, spine, when, nextId, |spine|, d)
    requires forall n | n in p.spine :: Old(p, n)
    ensures Achieved(p, spine, when, d)
  {
  }

  /** What a finished pass has achieved, on values. */
  lemma PassedOf(p: Start, spine: seq<TimeEvent>, when: Deadlines, d: Done, next1: int)
    requires Achieved(p, spine, when, d) && forall n | n in p.spine :: n in p.when && Old(p, n)
    ensures Passed(TimerState(ListOf(p.spine, p.when), p.nextId), TimerState(ListOf(spine, when), next1),
                   d.fired, d.deleted, p.lo, p.hi)
  {
    var l0, l1 := ListOf(p.spine, p.when), ListOf(spine, when);
    forall id | id in d.fired ensures exists x :: x in l0 && x.id == id && Due(x.sec, x.ms, p.hi) {
      var n :| n in p.spine && n.id == id;
      var i :| 0 <= i < |p.spine| && p.spine[i] == n;
      assert l0[i] in l0;
    }
    forall x | x in l0 && x.id !in d.fired && x.id !in d.deleted ensures x in l1 {
      var i :| 0 <= i < |l0| && l0[i] == x;
      assert p.spine[i] in spine && Old(p, p.spine[i]);
      var j :| 0 <= j < |spine| && spine[j] == p.spine[i];
      assert l1[j] == x;
    }
  }
}
