/** The event loop of ae.c: callbacks, the timer pass, and one iteration of polling, dispatching and firing. */
module EventLoop {
  import opened EventTypes
  import opened FileRuns
  import opened FileTable
  import opened PollTimeout
  import opened TimerList
  import opened TimerPass

  /** The timer a pass deletes itself because its callback asked for no more. */
  function Retired(id: int, retval: int): set<int> {
    if retval == AE_NOMORE then {id} else {}
  }

  /** What the k-th to the (m-1)-th handler calls do, one after the other. */
  function OpsBetween(react: nat -> Reaction, k: nat, m: nat): seq<Op>
    requires k <= m
  {
    if k == m then [] else OpsBetween(react, k, m - 1) + react(m - 1).ops
  }

  lemma OpsOfOne(react: nat -> Reaction, k: nat)
    ensures OpsBetween(react, k, k) == [] && OpsBetween(react, k, k + 1) == react(k).ops
  {
  }

  lemma {:induction false} OpsBetweenAppend(react: nat -> Reaction, k: nat, l: nat, m: nat)
    requires k <= l <= m
    ensures OpsBetween(react, k, m) == OpsBetween(react, k, l) + OpsBetween(react, l, m)
    decreases m
  {
    if l >= m {
    } else {
      OpsBetweenAppend(react, k, l, m - 1);
    }
  }

  /** What dispatching a poll result makes of the loop. */
  function Polled(m: Snapshot, reported: seq<Fired>, react: nat -> Reaction): Snapshot
    requires forall i | 0 <= i < |reported| :: reported[i].fd < |m.files.events|
  {
    var (s, k) := DispatchRun(m.files, reported, react, 0);
    Went(m, s, OpsBetween(react, 0, k))
  }

  /** Read half and write half make up what one fired descriptor does. */
  lemma BothSides(m: Snapshot, v: Snapshot, u: Snapshot, f: Fired, react: nat -> Reaction, k: nat, k1: nat, k2: nat)
    requires f.fd < |m.files.events| == |v.files.events|
    requires var rs := ReadSteps(m.files, f, react, k);
      && k1 == (if rs != [] then k + 1 else k) && v == Went(m, rs, OpsBetween(react, k, k1))
      && var ws := WriteSteps(v.files, f, rs != [], react, k1);
         k2 == (if ws != [] then k1 + 1 else k1) && u == Went(v, ws, OpsBetween(react, k1, k2))
    ensures var (s, n) := FireSteps(m.files, f, react, k); k2 == n && u == Went(m, s, OpsBetween(react, k, k2))
  {
    var rs := ReadSteps(m.files, f, react, k);
    OpsBetweenAppend(react, k, k1, k2);
    WentOn(m, rs, OpsBetween(react, k, k1), WriteSteps(v.files, f, rs != [], react, k1), OpsBetween(react, k1, k2));
  }

  lemma NothingPolled(m: Snapshot, react: nat -> Reaction)
    ensures Polled(m, [], react) == m
  {
    assert m.history + [] == m.history;
  }

  /** The contract of a timer callback: it asks for no rescheduling, or for one that reaches beyond the clock window,
      and then it has not deleted its own timer. With a constant clock the window is one instant and any value of at
      least 1 reaches beyond it. */
  predicate Disciplined(id: int, r: Reaction, lo: nat, hi: nat) {
    r.retval != AE_NOMORE ==> r.retval > hi - lo && id !in DeletedIds(r.ops)
  }

  ghost predicate DisciplinedTimers(react: (int, nat) -> Reaction, lo: nat, hi: nat) {
    forall id, k :: WellFormedOps(react(id, k).ops) && Disciplined(id, react(id, k), lo, hi)
  }

  /** The flags of aeProcessEvents. */
  datatype Flags = Flags(fileEvents: bool, timeEvents: bool, dontWait: bool)

  /** `tvp`: how long the poll may sleep. */
  datatype Wait = Forever | AtMost(tv: Timeval)

  /** How long the poll sleeps, with the timers `list` and the clock at `now`: for the nearest timer, not at all, or for
      ever. */
  ghost predicate Chosen(tvp: Wait, flags: Flags, list: seq<Timer>, now: nat) {
    if flags.timeEvents && !flags.dontWait && list != []
    then exists at: nat :: Nearest(list, at) && tvp == AtMost(TimeoutFor(list[at], now))
    else tvp == if flags.dontWait then AtMost(Timeval(0, 0)) else Forever
  }

  /** When no deadline is in the past, the sleep chosen ends at a deadline and after none. */
  lemma SleepEndsInTime(tvp: Wait, flags: Flags, list: seq<Timer>, now: nat)
    requires Chosen(tvp, flags, list, now) && flags.timeEvents && !flags.dontWait && list != []
    requires forall x | x in list :: 0 <= x.ms < 1000 && x.sec * 1000 + x.ms >= now
    ensures tvp.AtMost? && 0 <= tvp.tv.sec && 0 <= tvp.tv.usec < 1_000_000
    ensures forall x | x in list :: now * 1000 + tvp.tv.sec * 1_000_000 + tvp.tv.usec <= (x.sec * 1000 + x.ms) * 1000
    ensures exists x | x in list :: now * 1000 + tvp.tv.sec * 1_000_000 + tvp.tv.usec == (x.sec * 1000 + x.ms) * 1000
  {
    var at: nat :| Nearest(list, at) && tvp == AtMost(TimeoutFor(list[at], now));
    assert list[at] in list;
    NearestIsSoonest(list, at);
    TimeoutIsExact(list[at], now);
  }

  /** A registration, on the table and on the record of the loop. */
  lemma CreateActs(m: Snapshot, t: Table, op: Op, n: Snapshot)
    requires t.Good() && m.files == t.TheWorld() && op.CreateFile? && op.WellFormed()
    requires n.files == Created(t, op).TheWorld() && n.history == m.history + OpSteps(m.files, op)
    requires n.timers == m.timers && n.stop == m.stop
    ensures n == AfterPublicOp(m, op)
  {
    OpActsApart(m, op);
    CreatedGood(t, op);
  }

  lemma DeleteActs(m: Snapshot, t: Table, op: Op, n: Snapshot)
    requires t.Good() && m.files == t.TheWorld() && op.DeleteFile? && op.WellFormed()
    requires n.files == Deleted(t, op.fd, op.mask).TheWorld() && n.history == m.history + OpSteps(m.files, op)
    requires n.timers == m.timers && n.stop == m.stop
    ensures n == AfterPublicOp(m, op)
  {
    OpActsApart(m, op);
    DeletedGood(t, op.fd, op.mask);
  }

  class EventLoop {
    const timers: TimerQueue
    const files: FileTable
    var stop: bool

    ghost predicate Valid()
      reads this, timers, timers.nodes, files, files.events
    {
      timers.Valid() && files.Valid()
    }

    /** The state of the loop as a value. */
    ghost function Now(): Snapshot
      reads this`stop, timers, timers.spine, files, files.events
    {
      Snapshot(timers.State(), files.Abs().TheWorld(), files.history, stop)
    }

    /** aeCreateEventLoop */
    constructor (setsize: nat, epoll: bool, garbage: FileEvent, now: nat)
      ensures Valid() && fresh(timers) && fresh(timers.nodes)
      ensures fresh(files) && fresh(files.events) && fresh(files.fired)
      ensures !stop && timers.spine == [] && timers.nextId == 0 && timers.lastTime == now / 1000
      ensures files.events.Length == setsize && files.maxfd == -1 && files.api.Epoll? == epoll
    {
      timers := new TimerQueue(now);
      files := new FileTable(setsize, epoll, garbage);
      stop := false;
    }

    /** No node is lost sight of, and the clock reading of the last pass stays. */
    twostate predicate Grown()
      reads timers
    {
      && old(timers.nodes) <= timers.nodes && (forall n | n in timers.nodes :: n in old(timers.nodes) || fresh(n))
      && timers.lastTime == old(timers.lastTime)
    }

    /** What the loop did to the list of nodes since the old state. */
    twostate predicate TimersChanged(gone: set<int>)
      reads timers
    {
      Grown() && Changed(old(timers.spine), old(timers.nextId), timers.spine, timers.nextId, gone)
    }

    method DoCreateFile(op: Op)
      requires Valid() && op.WellFormed() && op.CreateFile?
      modifies files, files.events
      ensures Valid() && Now() == AfterPublicOp(old(Now()), op)
    {
      ghost var m, t := Now(), files.Abs();
      match op
      case CreateFile(fd, mask, proc, data, kernelOk) =>
        var _ := files.CreateFileEvent(fd, mask, proc, data, kernelOk);
      CreateActs(m, t, op, Now());
    }

    method DoDeleteFile(op: Op)
      requires Valid() && op.WellFormed() && op.DeleteFile?
      modifies files, files.events
      ensures Valid() && Now() == AfterPublicOp(old(Now()), op)
    {
      ghost var m, t := Now(), files.Abs();
      match op
      case DeleteFile(fd, mask) => files.DeleteFileEvent(fd, mask);
      DeleteActs(m, t, op, Now());
    }

    method DoCreateTimer(op: Op)
      requires Valid() && op.CreateTimer?
      modifies timers
      ensures Valid() && TimersChanged({}) && Now() == AfterPublicOp(old(Now()), op)
    {
      OpActsApart(Now(), op);
      var _ := timers.CreateTimeEvent(op.now, op.milliseconds, op.mallocOk);
    }

    method DoDeleteTimer(op: Op)
      requires Valid() && op.DeleteTimer?
      modifies timers, timers.nodes`next
      ensures Valid() && TimersChanged({op.id}) && Now() == AfterPublicOp(old(Now()), op)
    {
      OpActsApart(Now(), op);
      var _ := timers.DeleteTimeEvent(op.id);
    }

    /** aeStop */
    method DoStop()
      modifies this`stop
      ensures stop && Now() == AfterPublicOp(old(Now()), Stop)
    {
      OpActsApart(Now(), Stop);
      stop := true;
    }

    /** Any public operation. */
    method DoOp(op: Op)
      requires Valid() && op.WellFormed()
      modifies this`stop, timers, timers.nodes`next, files, files.events
      ensures Valid() && TimersChanged(DeletedBy(op))
      ensures Now() == AfterPublicOp(old(Now()), op)
    {
      if op.Stop? {
        DoStop();
      } else if op.CreateTimer? {
        DoCreateTimer(op);
      } else if op.DeleteTimer? {
        DoDeleteTimer(op);
      } else if op.CreateFile? {
        DoCreateFile(op);
      } else {
        DoDeleteFile(op);
      }
    }

    /** A callback's body: any sequence of public operations. */
    method RunOps(ops: seq<Op>)
      requires Valid() && WellFormedOps(ops)
      modifies this`stop, timers, timers.nodes`next, files, files.events
      ensures Valid() && TimersChanged(DeletedIds(ops))
      ensures Now() == AfterScript(old(Now()), ops)
    {
      if ops != [] {
        ghost var s0, n0 := timers.spine, timers.nextId;
        DoOp(ops[0]);
        ghost var s1, n1 := timers.spine, timers.nextId;
        RunOps(ops[1..]);
        Compose(s0, n0, s1, n1, timers.spine, timers.nextId, DeletedBy(ops[0]), DeletedIds(ops[1..]));
      }
    }

    // ----- the timer pass -----

    /** The end of the due branch: the timer is put off, from a reading `at` of the clock, or deleted. */
    method Settle(te: TimeEvent, retval: int, lo: nat, hi: nat) returns (ghost at: nat)
      requires timers.Valid() && te in timers.nodes && lo <= hi
      requires retval != AE_NOMORE ==> retval > hi - lo && te in timers.spine
      modifies timers`head, timers`spine, timers.nodes`next, te`whenSec, te`whenMs
      ensures timers.Valid() && lo <= at <= hi
      ensures timers.State() == TimerState(Settled(old(timers.State().list), te.id, retval, at), timers.nextId)
      ensures Changed(old(timers.spine), timers.nextId, timers.spine, timers.nextId, Retired(te.id, retval))
      ensures retval != AE_NOMORE ==> !Due(te.whenSec, te.whenMs, hi)
    {
      if retval != AE_NOMORE {
        at := SetDeadline(te, retval, lo, hi);
      } else {
        at := lo;
        var _ := timers.DeleteTimeEvent(te.id);
      }
    }

    /** aeAddMillisecondsToNow on a listed timer. */
    method SetDeadline(te: TimeEvent, retval: int, lo: nat, hi: nat) returns (ghost at: nat)
      requires timers.Valid() && te in timers.spine && lo <= hi && retval > hi - lo
      modifies te`whenSec, te`whenMs
      ensures timers.Valid() && lo <= at <= hi && !Due(te.whenSec, te.whenMs, hi)
      ensures timers.State().list == PutOff(old(timers.State().list), te.id, Deadline(te.id, at, retval))
    {
      ghost var list := timers.State().list;
      var now: nat :| lo <= now <= hi;  // aeGetTime
      AddMillisecondsDenotes(now, retval);
      RescheduledNotDue(now, retval, hi);
      var (sec, ms) := AddMilliseconds(now, retval);
      te.whenSec, te.whenMs := sec, ms;
      assert timers.Valid();
      ValuesPutOff(timers.spine, list, te);
      at := now;
    }

    /** te->timeProc */
    method RunCallback(id: int, ops: seq<Op>)
      requires Valid() && WellFormedOps(ops)
      modifies this`stop, timers, timers.nodes`next, files, files.events
      ensures Valid() && TimersChanged(DeletedIds(ops))
      ensures var m := old(Now()); Now() == AfterScript(m.(history := m.history + [Ticked(id)]), ops)
    {
      files.LogCall(Ticked(id));
      RunOps(ops);
    }

    /** The due branch of the timer pass: run the callback, then settle its timer. */
    method FireTimer(te: TimeEvent, r: Reaction, lo: nat, hi: nat) returns (ghost at: nat)
      requires Valid() && te in timers.spine && lo <= hi
      requires WellFormedOps(r.ops) && Disciplined(te.id, r, lo, hi)
      modifies this`stop, timers, timers.nodes`next, te`whenSec, te`whenMs, files, files.events
      ensures Valid() && lo <= at <= hi
      ensures TimersChanged(DeletedIds(r.ops) + Retired(te.id, r.retval))
      ensures r.retval != AE_NOMORE ==> !Due(te.whenSec, te.whenMs, hi)
      ensures Now() == Fire(old(Now()), te.id, r, at)
    {
      RunCallback(te.id, r.ops);
      ghost var s1, n1, m := timers.spine, timers.nextId, Now();
      at := Settle(te, r.retval, lo, hi);
      SettledFires(old(Now()), m, Now(), te.id, r, at);
      Compose(old(timers.spine), old(timers.nextId), s1, n1, timers.spine, timers.nextId,
              DeletedIds(r.ops), Retired(te.id, r.retval));
    }

    /** The pass stands before `te`, at position `k` of the list. */
    ghost predicate Standing(p: Start, te: TimeEvent?, k: nat, d: Done)
      reads timers, timers.nodes
    {
      && timers.Valid() && k <= |timers.spine| && te == timers.Link(k)
      && PassInvariant(p, timers.spine, timers.When(), timers.nextId, k, d)
    }

    /** The pass so far is on record. */
    ghost predicate OnRecord(log: Log, react: (int, nat) -> Reaction, lo: nat, hi: nat, d: Done)
      reads this`stop, timers, timers.spine, files, files.events
    {
      && PassPath(log, react, lo, hi) && log.Last() == Now()
      && d == Done(log.fired, Gone(react, log.fired))
    }

    lemma NothingFired(react: (int, nat) -> Reaction, lo: nat, hi: nat)
      ensures OnRecord(Log([], [], [Now()]), react, lo, hi, Done([], {}))
    {
    }

    /** The clock-skew test. */
    method TestClock(now: nat)
      requires timers.Valid()
      modifies timers`lastTime, timers.nodes`whenSec
      ensures timers.Valid() && timers.lastTime == now
      ensures timers.State() == Begun(old(Now()), now < old(timers.lastTime)).timers
    {
      if now < timers.lastTime {
        timers.ForceAll();
      }
      timers.lastTime := now;
    }

    /** The start of the pass. */
    method BeginPass(now: nat, ghost lo: nat, ghost hi: nat) returns (ghost p: Start)
      requires timers.Valid()
      modifies timers`lastTime, timers.nodes`whenSec
      ensures timers.lastTime == now
      ensures p == Start(timers.spine, timers.When(), timers.nextId, lo, hi)
      ensures timers.State() == Begun(old(Now()), now < old(timers.lastTime)).timers
      ensures Standing(p, timers.head, 0, Done([], {}))
    {
      TestClock(now);
      p := Start(timers.spine, timers.When(), timers.nextId, lo, hi);
      PassBegins(p, timers.When());
    }

    /** One iteration of the pass that finds a due timer. */
    method PassFire(te: TimeEvent, r: Reaction, lo: nat, hi: nat, ghost p: Start, ghost k: nat, ghost d: Done)
      returns (ghost e: Done, ghost at: nat)
      requires Valid() && lo == p.lo <= p.hi == hi
      requires PassInvariant(p, timers.spine, timers.When(), timers.nextId, k, d)
      requires k < |timers.spine| && te == timers.spine[k] && Old(p, te) && Due(te.whenSec, te.whenMs, p.hi)
      requires WellFormedOps(r.ops) && Disciplined(te.id, r, p.lo, p.hi)
      modifies this`stop, timers, timers.nodes, files, files.events
      ensures files.Valid() && Grown() && lo <= at <= hi
      ensures e == Done(d.fired + [te.id], d.deleted + DeletedIds(r.ops))
      ensures Standing(p, timers.head, 0, e) && |Unfired(p, e)| < |Unfired(p, d)|
      ensures Now() == Fire(old(Now()), te.id, r, at)
    {
      ghost var s0, w0, n0 := timers.spine, timers.When(), timers.nextId;
      at := FireTimer(te, r, lo, hi);
      PassFires(p, s0, w0, n0, k, d, timers.spine, timers.When(), timers.nextId,
                DeletedIds(r.ops), Retired(te.id, r.retval));
      e := Done(d.fired + [te.id], d.deleted + DeletedIds(r.ops));
    }

    /** An iteration that passes over a new timer or one not due. */
    lemma PassSkip(te: TimeEvent, now: nat, p: Start, k: nat, d: Done)
      requires timers.Valid() && PassInvariant(p, timers.spine, timers.When(), timers.nextId, k, d)
      requires k < |timers.spine| && te == timers.spine[k] && p.lo <= now
      requires !Old(p, te) || !Due(te.whenSec, te.whenMs, now)
      ensures Standing(p, te.next, k + 1, d)
    {
    }

    /** One iteration of the loop of processTimeEvents, at clock reading `now`. */
    method PassStep(te: TimeEvent, r: Reaction, maxId: int, now: nat, lo: nat, hi: nat,
                    ghost p: Start, ghost k: nat, ghost d: Done)
      returns (due: bool, next: TimeEvent?, ghost k': nat, ghost d': Done, ghost at: nat)
      requires files.Valid() && Standing(p, te, k, d) && maxId == p.nextId - 1
      requires lo == p.lo <= now <= p.hi == hi && WellFormedOps(r.ops) && Disciplined(te.id, r, lo, hi)
      modifies this`stop, timers, timers.nodes, files, files.events
      ensures files.Valid() && Standing(p, next, k', d') && Grown() && lo <= at <= hi
      ensures due == (te.id <= maxId && old(Due(te.whenSec, te.whenMs, now)))
      ensures due ==> k' == 0 && Now() == Fire(old(Now()), te.id, r, at)
      ensures due ==> d' == Done(d.fired + [te.id], d.deleted + DeletedIds(r.ops)) && |Unfired(p, d')| < |Unfired(p, d)|
      ensures !due ==> d' == d && k' == k + 1 && Now() == old(Now()) && timers.spine == old(timers.spine)
    {
      if te.id <= maxId && Due(te.whenSec, te.whenMs, now) {
        DueMonotone(te.whenSec, te.whenMs, now, hi);
        d', at := PassFire(te, r, lo, hi, p, k, d);
        return true, timers.head, 0, d', at;
      } else {
        PassSkip(te, now, p, k, d);
        return false, te.next, k + 1, d, lo;
      }
    }

    /** One iteration, put on record: it does to the timers and the position what Iterate says. */
    method WalkOn(te: TimeEvent, react: (int, nat) -> Reaction, processed: nat, maxId: int, lo: nat, hi: nat,
                  ghost p: Start, ghost k: nat, ghost d: Done, ghost log: Log)
      returns (due: bool, next: TimeEvent?, ghost k': nat, ghost d': Done, ghost log': Log,
               ghost now: nat, ghost at: nat)
      requires files.Valid() && Standing(p, te, k, d) && maxId == p.nextId - 1 && lo == p.lo <= p.hi == hi
      requires DisciplinedTimers(react, lo, hi) && OnRecord(log, react, lo, hi, d) && processed == |log.fired|
      modifies this`stop, timers, timers.nodes, files, files.events
      ensures files.Valid() && Standing(p, next, k', d') && Grown()
      ensures OnRecord(log', react, lo, hi, d') && log'.path[0] == log.path[0]
      ensures |log'.fired| == if due then processed + 1 else processed
      ensures due ==> |Unfired(p, d')| < |Unfired(p, d)|
      ensures !due ==> d' == d && k' == k + 1 && timers.spine == old(timers.spine)
      ensures lo <= now <= hi && lo <= at <= hi && k < |old(timers.State().list)|
      ensures Point(timers.State(), k')
        == Iterate(Point(old(timers.State()), k), maxId, react(te.id, processed), now, at)
    {
      var clock: nat :| lo <= clock <= hi;  // aeGetTime
      now, log' := clock, log;
      ghost var m := Now();
      assert m.timers.list[k] == te.Value() && forall i | 0 <= i < k :: m.timers.list[i].id != te.id;
      due, next, k', d', at := PassStep(te, react(te.id, processed), maxId, clock, lo, hi, p, k, d);
      FireIterates(m, k, maxId, react(te.id, processed), now, at);
      if due {
        FirstFires(log, react, lo, hi, k, now, at);
        log' := Extended(log, te.id, react(te.id, processed), at);
      }
    }

    /** The loop of processTimeEvents: it restarts from the head after every callback. */
    method Walk(react: (int, nat) -> Reaction, lo: nat, hi: nat, ghost p: Start)
      returns (processed: nat, ghost log: Log)
      requires files.Valid() && Standing(p, timers.head, 0, Done([], {})) && lo == p.lo <= p.hi == hi
      requires p == Start(timers.spine, timers.When(), timers.nextId, lo, hi) && DisciplinedTimers(react, lo, hi)
      modifies this`stop, timers, timers.nodes, files, files.events
      ensures Valid() && Grown()
      ensures PassPath(log, react, lo, hi) && log.path[0] == old(Now()) && log.Last() == Now()
      ensures processed == |log.fired|
      ensures Achieved(p, timers.spine, timers.When(), Done(log.fired, Gone(react, log.fired)))
    {
      ghost var m0 := Now();
      processed, log := 0, Log([], [], [m0]);
      NothingFired(react, lo, hi);
      var te := timers.head;
      var maxId := timers.nextId - 1;
      ghost var k, d := 0, Done([], {});
      while te != null
        invariant files.Valid() && Grown() && Standing(p, te, k, d)
        invariant OnRecord(log, react, lo, hi, d) && log.path[0] == m0 && processed == |log.fired|
        decreases |Unfired(p, d)|, |timers.spine| - k
      {
        var due;
        ghost var now, at;
        due, te, k, d, log, now, at := WalkOn(te, react, processed, maxId, lo, hi, p, k, d, log);
        if due {
          processed := processed + 1;
        }
      }
      PassEnds(p, timers.spine, timers.When(), timers.nextId, d);
    }

    /** The pass from the test of the clock to the end of the walk. */
    method TestAndWalk(react: (int, nat) -> Reaction, lo: nat, hi: nat) returns (processed: nat, ghost log: Log)
      requires Valid() && lo <= hi && DisciplinedTimers(react, lo, hi)
      modifies this`stop, timers, timers.nodes, files, files.events
      ensures Valid() && lo / 1000 <= timers.lastTime <= hi / 1000
      ensures PassPath(log, react, lo, hi) && log.Last() == Now() && processed == |log.fired|
      ensures log.path[0] == Begun(old(Now()), timers.lastTime < old(timers.lastTime))
      ensures Passed(log.path[0].timers, Now().timers, log.fired, Gone(react, log.fired), lo, hi)
    {
      var time: nat :| lo <= time <= hi;  // time(NULL), in milliseconds
      ghost var p := BeginPass(time / 1000, lo, hi);
      SameList(timers.spine, timers.When());
      processed, log := Walk(react, lo, hi, p);
      SameList(timers.spine, timers.When());
      PassedOf(p, timers.spine, timers.When(), Done(log.fired, Gone(react, log.fired)), timers.nextId);
    }

    /** processTimeEvents. `react` is what the callbacks do, by timer id and call number; every reading of the clock
        falls into [lo, hi]. The pass ends. Its record begins with the state at the start, each state is what the
        callback of a due timer makes of the one before, and the last is the state at the end. The result counts the
        calls. What the pass achieves is said by Passed and, in terms of the timers before the call, below: each fires
        once at most; none of the start is due at the end; while the clock has not stepped back, what fires was due,
        what was due fires or is deleted by a callback, and the others stay; after a step back everything fires or is
        deleted; whoever asked for no more is gone, and whoever asked for a delay has it. */
    method ProcessTimeEvents(react: (int, nat) -> Reaction, lo: nat, hi: nat) returns (processed: nat, ghost log: Log)
      requires Valid() && lo <= hi && DisciplinedTimers(react, lo, hi)
      modifies this`stop, timers, timers.nodes, files, files.events
      ensures Valid() && lo / 1000 <= timers.lastTime <= hi / 1000
      ensures PassPath(log, react, lo, hi) && log.Last() == Now() && processed == |log.fired|
      ensures log.path[0] == Begun(old(Now()), timers.lastTime < old(timers.lastTime))
      ensures Passed(log.path[0].timers, Now().timers, log.fired, Gone(react, log.fired), lo, hi)
      ensures forall i, j | 0 <= i < j < |log.fired| :: log.fired[i] != log.fired[j]
      ensures forall x | x in timers.State().list && x.id < old(timers.nextId) :: !Due(x.sec, x.ms, lo)
      ensures timers.lastTime >= old(timers.lastTime) ==>
        && log.path[0] == old(Now())
        && (forall id | id in log.fired ::
              exists x | x in old(timers.State().list) :: x.id == id && Due(x.sec, x.ms, hi))
        && (forall x | x in old(timers.State().list) && Due(x.sec, x.ms, lo) ::
              x.id in log.fired || exists k :: 0 <= k < |log.fired| && x.id in DeletedIds(react(log.fired[k], k).ops))
        && (forall x | x in old(timers.State().list) && !Due(x.sec, x.ms, hi)
                       && (forall k | 0 <= k < |log.fired| :: x.id !in DeletedIds(react(log.fired[k], k).ops)) ::
              x in timers.State().list)
      ensures timers.lastTime < old(timers.lastTime) ==>
        && log.path[0].files == old(Now()).files && log.path[0].history == old(Now()).history
        && (forall id | id in log.fired :: exists x | x in old(timers.State().list) :: x.id == id)
        && (lo >= 1000 ==> forall x | x in old(timers.State().list) ::
              x.id in log.fired || exists k :: 0 <= k < |log.fired| && x.id in DeletedIds(react(log.fired[k], k).ops))
      ensures forall k | 0 <= k < |log.fired| && react(log.fired[k], k).retval == AE_NOMORE ::
        forall x | x in timers.State().list :: x.id != log.fired[k]
      ensures forall k | 0 <= k < |log.fired| && react(log.fired[k], k).retval != AE_NOMORE
          && (forall j | k <= j < |log.fired| :: log.fired[k] !in DeletedIds(react(log.fired[j], j).ops)) ::
        exists x | x in timers.State().list :: x.id == log.fired[k]
          && lo + react(log.fired[k], k).retval <= x.sec * 1000 + x.ms <= hi + react(log.fired[k], k).retval
    {
      ghost var m0 := Now();
      InOrderNow();
      processed, log := TestAndWalk(react, lo, hi);
      BegunMeans(m0, timers.lastTime < old(timers.lastTime));
      if timers.lastTime >= old(timers.lastTime) {
        ForwardPass(m0, log, react, lo, hi);
      } else {
        BackwardPass(m0, log, react, lo, hi);
      }
      AllFiredEnd(log, react, lo, hi);
    }

    lemma InOrderNow()
      requires timers.Valid()
      ensures Ordered(timers.State())
    {
      var list := timers.State().list;
      forall x | x in list ensures x.id < timers.nextId {
        var i :| 0 <= i < |list| && list[i] == x;
        assert timers.spine[i] in timers.nodes;
      }
    }

    // ----- polling and dispatching -----

    /** A handler call: `data` and `proc` are what the table holds at that instant. */
    method CallHandler(fd: nat, dir: Dir, reported: Mask, r: Reaction)
      requires Valid() && WellFormedOps(r.ops) && fd < files.events.Length
      requires Has(files.events[fd].mask, dir) && Has(reported, dir)
      modifies this`stop, timers, timers.nodes`next, files, files.events
      ensures Valid() && Grown()
      ensures var fe := old(files.events[fd]);
        var s := [Called(fd, dir, Proc(fe, dir), fe.data, reported)] + OpsSteps(old(Now()).files, r.ops);
        Now() == Went(old(Now()), s, r.ops)
    {
      ghost var m := Now();
      ghost var call := Called(fd, dir, Proc(files.events[fd], dir), files.events[fd].data, reported);
      CallSplits(m.files, m.history, call, OpsSteps(m.files, r.ops));
      files.LogCall(call);
      ScriptActsApart(Now(), r.ops);
      RunOps(r.ops);
    }

    /** The read half of the dispatch of one fired descriptor. */
    method ReadSide(f: Fired, react: nat -> Reaction, k: nat) returns (rfired: bool)
      requires Valid() && WellFormedReactions(react) && f.fd < files.events.Length
      modifies this`stop, timers, timers.nodes`next, files, files.events
      ensures Valid() && Grown()
      ensures var s := ReadSteps(old(Now()).files, f, react, k);
        rfired == (s != []) && Now() == Went(old(Now()), s, OpsBetween(react, k, if rfired then k + 1 else k))
    {
      OpsOfOne(react, k);
      rfired := false;
      if files.events[f.fd].mask.And(f.mask).readable {
        rfired := true;
        CallHandler(f.fd, Read, f.mask, react(k));
      }
    }

    /** The write half; a function that has just run as read handler is not run again. */
    method WriteSide(f: Fired, rfired: bool, react: nat -> Reaction, k: nat) returns (called: bool)
      requires Valid() && WellFormedReactions(react) && f.fd < files.events.Length
      modifies this`stop, timers, timers.nodes`next, files, files.events
      ensures Valid() && Grown()
      ensures var s := WriteSteps(old(Now()).files, f, rfired, react, k);
        called == (s != []) && Now() == Went(old(Now()), s, OpsBetween(react, k, if called then k + 1 else k))
    {
      OpsOfOne(react, k);
      called := false;
      if files.events[f.fd].mask.And(f.mask).writable {
        if !rfired || files.events[f.fd].wproc != files.events[f.fd].rproc {
          called := true;
          CallHandler(f.fd, Write, f.mask, react(k));
        }
      }
    }

    /** The body of the dispatch loop for one fired descriptor; `k` handlers have been called before. */
    method HandleFired(f: Fired, react: nat -> Reaction, k: nat) returns (k': nat)
      requires Valid() && WellFormedReactions(react) && f.fd < files.events.Length
      modifies this`stop, timers, timers.nodes`next, files, files.events
      ensures Valid() && Grown()
      ensures var (s, k1) := FireSteps(old(Now()).files, f, react, k);
        k' == k1 && Now() == Went(old(Now()), s, OpsBetween(react, k, k1))
    {
      ghost var m := Now();
      var rfired := ReadSide(f, react, k);
      var k1 := if rfired then k + 1 else k;
      ghost var v := Now();
      var called := WriteSide(f, rfired, react, k1);
      k' := if called then k1 + 1 else k1;
      BothSides(m, v, Now(), f, react, k, k1, k');
    }

    /** A dispatch that began with `m0` has come to stage `m`. */
    ghost predicate At(m: Stage, m0: Snapshot, react: nat -> Reaction)
      reads this`stop, timers, timers.spine, files, files.events
    {
      var ops := OpsBetween(react, 0, m.k);
      Now() == Snapshot(AfterOps(m0.timers, ops), m.w, m.h, m0.stop || Stop in ops)
    }

    /** One iteration of the dispatch loop: from one stage of the path to the next. */
    method HandleNext(f: Fired, react: nat -> Reaction, k: nat, ghost j: nat, ghost path: seq<Stage>,
                      ghost reported: seq<Fired>, ghost m0: Snapshot) returns (k': nat)
      requires Valid() && WellFormedReactions(react)
      requires Path(path, reported, react) && j < |reported| && f == reported[j]
      requires At(path[j], m0, react) && k == path[j].k
      modifies this`stop, timers, timers.nodes`next, files, files.events
      ensures Valid() && Grown() && At(path[j+1], m0, react) && k' == path[j+1].k
    {
      assert Follows(path, reported, react, j);
      k' := HandleFired(f, react, k);
      OpsBetweenAppend(react, 0, k, k');
      AfterOpsAppend(m0.timers, OpsBetween(react, 0, k), OpsBetween(react, k, k'));
    }

    /** The dispatch loop of aeProcessEvents over `fired[..numevents]`, which holds `reported`. */
    method DispatchLoop(numevents: nat, react: nat -> Reaction, ghost path: seq<Stage>, ghost reported: seq<Fired>)
      requires Valid() && WellFormedReactions(react) && numevents == |reported| <= files.fired.Length
      requires Path(path, reported, react) && forall i | 0 <= i < numevents :: files.fired[i] == reported[i]
      requires path[0] == Stage(files.Abs().TheWorld(), files.history, 0)
      modifies this`stop, timers, timers.nodes`next, files, files.events
      ensures Valid() && Grown() && At(path[numevents], old(Now()), react)
    {
      var k := 0;
      for j := 0 to numevents
        invariant Valid() && Grown() && At(path[j], old(Now()), react) && k == path[j].k
      {
        k := HandleNext(files.fired[j], react, k, j, path, reported, old(Now()));
      }
    }

    /** Dispatching a poll result makes of the loop what Polled says. */
    method Dispatch(numevents: nat, ghost reported: seq<Fired>, react: nat -> Reaction)
      requires Valid() && WellFormedReactions(react) && numevents == |reported| <= files.fired.Length
      requires forall i | 0 <= i < numevents :: files.fired[i] == reported[i] && reported[i].fd < files.events.Length
      modifies this`stop, timers, timers.nodes`next, files, files.events
      ensures Valid() && Grown() && Now() == Polled(old(Now()), reported, react)
    {
      ghost var path := PathOf(Stage(files.Abs().TheWorld(), files.history, 0), reported, react);
      DispatchLoop(numevents, react, path, reported);
    }

    /** The first branch of aeProcessEvents: how long to sleep. */
    method ChooseWait(flags: Flags, now: nat) returns (tvp: Wait)
      requires timers.Valid()
      ensures Chosen(tvp, flags, timers.State().list, now)
      ensures flags.dontWait ==> tvp == AtMost(Timeval(0, 0))
      ensures !flags.dontWait && (!flags.timeEvents || timers.spine == []) ==> tvp == Forever
      ensures flags.timeEvents && !flags.dontWait && timers.spine != [] ==> exists at: nat ::
        Nearest(timers.State().list, at) && tvp == AtMost(TimeoutFor(timers.State().list[at], now))
      ensures var list := timers.State().list;
        flags.timeEvents && !flags.dontWait && list != []
        && (forall x | x in list :: 0 <= x.ms < 1000 && x.sec * 1000 + x.ms >= now) ==>
          && tvp.AtMost? && 0 <= tvp.tv.sec && 0 <= tvp.tv.usec < 1_000_000
          && (forall x | x in list ::
                now * 1000 + tvp.tv.sec * 1_000_000 + tvp.tv.usec <= (x.sec * 1000 + x.ms) * 1000)
          && (exists x | x in list ::
                now * 1000 + tvp.tv.sec * 1_000_000 + tvp.tv.usec == (x.sec * 1000 + x.ms) * 1000)
    {
      tvp := WaitFor(flags, now);
      ghost var list := timers.State().list;
      if flags.timeEvents && !flags.dontWait && list != []
         && forall x | x in list :: 0 <= x.ms < 1000 && x.sec * 1000 + x.ms >= now
      {
        SleepEndsInTime(tvp, flags, list, now);
      }
    }

    /** The computation itself. */
    method WaitFor(flags: Flags, now: nat) returns (tvp: Wait)
      requires timers.Valid()
      ensures Chosen(tvp, flags, timers.State().list, now)
    {
      var shortest: TimeEvent? := null;
      ghost var at := 0;
      if flags.timeEvents && !flags.dontWait {
        shortest, at := timers.SearchNearestTimer();
      }
      if shortest != null {
        var sec := shortest.whenSec - now / 1000;
        var usec;
        if shortest.whenMs < now % 1000 {
          usec := (shortest.whenMs + 1000 - now % 1000) * 1000;
          sec := sec - 1;
        } else {
          usec := (shortest.whenMs - now % 1000) * 1000;
        }
        if sec < 0 { sec := 0; }
        if usec < 0 { usec := 0; }
        tvp := AtMost(Timeval(sec, usec));
        assert tvp == AtMost(TimeoutFor(timers.State().list[at], now));
      } else if flags.dontWait {
        tvp := AtMost(Timeval(0, 0));
      } else {
        tvp := Forever;
      }
    }

    /** aeProcessEvents polls when a descriptor is registered, whatever the flags, or when it may sleep for timers. */
    predicate Polls(flags: Flags)
      reads this, files
    {
      files.maxfd != -1 || (flags.timeEvents && !flags.dontWait)
    }

    /** What `fired[]` holds after the poll, if there is one. */
    ghost function Reported(flags: Flags, answer: KernelAnswer): seq<Fired>
      reads this, files, files.events
      requires files.Valid()
    {
      if Polls(flags) then PollResult(files.events[..], files.maxfd, answer) else []
    }

    /** Polling and dispatching: the second branch of aeProcessEvents. */
    method PollAndDispatch(answer: KernelAnswer, react: nat -> Reaction, ghost reported: seq<Fired>)
      returns (numevents: nat)
      requires Valid() && WellFormedReactions(react) && KernelContract(files.api, files.events.Length, answer)
      requires reported == PollResult(files.events[..], files.maxfd, answer)
      requires forall i | 0 <= i < |reported| :: reported[i].fd < files.events.Length
      modifies this`stop, timers, timers.nodes`next, files, files.events, files.fired
      ensures Valid() && Grown() && numevents == |reported|
      ensures Now() == Polled(old(Now()), reported, react)
    {
      numevents := files.ApiPoll(answer);
      Dispatch(numevents, reported, react);
    }

    lemma ReportedFits(flags: Flags, answer: KernelAnswer)
      requires files.Valid() && KernelContract(files.api, files.events.Length, answer)
      ensures forall i | 0 <= i < |Reported(flags, answer)| :: Reported(flags, answer)[i].fd < files.events.Length
    {
      PollResultFits(files.events[..], files.maxfd, files.api, answer);
    }

    /** Choosing how long to sleep, then polling and dispatching: the body of the second branch. */
    method SleepAndPoll(flags: Flags, now: nat, answer: KernelAnswer, react: nat -> Reaction,
                        ghost reported: seq<Fired>)
      returns (numevents: nat, tvp: Wait)
      requires Valid() && WellFormedReactions(react) && KernelContract(files.api, files.events.Length, answer)
      requires reported == PollResult(files.events[..], files.maxfd, answer)
      requires forall i | 0 <= i < |reported| :: reported[i].fd < files.events.Length
      modifies this`stop, timers, timers.nodes`next, files, files.events, files.fired
      ensures Valid() && Grown() && numevents == |reported|
      ensures Chosen(tvp, flags, old(timers.State().list), now)
      ensures Now() == Polled(old(Now()), reported, react)
    {
      tvp := ChooseWait(flags, now);
      numevents := PollAndDispatch(answer, react, reported);
    }

    /** The test of the second branch, and the branch. */
    method PollIfAwake(flags: Flags, now: nat, answer: KernelAnswer, react: nat -> Reaction)
      returns (numevents: nat, tvp: Wait)
      requires Valid() && WellFormedReactions(react) && KernelContract(files.api, files.events.Length, answer)
      modifies this`stop, timers, timers.nodes`next, files, files.events, files.fired
      ensures Valid() && Grown() && numevents == |old(Reported(flags, answer))|
      ensures old(Polls(flags)) ==> Chosen(tvp, flags, old(timers.State().list), now)
      ensures var reported := old(Reported(flags, answer));
        && (forall i | 0 <= i < |reported| :: reported[i].fd < |old(Now()).files.events|)
        && Now() == Polled(old(Now()), reported, react)
    {
      ReportedFits(flags, answer);
      numevents, tvp := 0, Forever;
      if Polls(flags) {
        numevents, tvp := SleepAndPoll(flags, now, answer, react, Reported(flags, answer));
      } else {
        NothingPolled(Now(), react);
      }
    }

    /** Whether a descriptor is registered shows in maxfd. */
    lemma RegisteredIff()
      requires files.Valid()
      ensures files.maxfd != -1 <==> exists fd: nat :: fd < files.events.Length && !files.events[fd].mask.IsNone()
    {
      var evs := files.events[..];
      assert forall fd: nat | fd < files.events.Length :: evs[fd] == files.events[fd];
    }

    /** The poll phase of aeProcessEvents: it polls when a descriptor is registered or when it may sleep for timers, and
        the state goes through the dispatch of what the kernel reported; the sleep ends at the nearest deadline. */
    method PollPhase(flags: Flags, now: nat, answer: KernelAnswer, react: nat -> Reaction)
      returns (numevents: nat, tvp: Wait, ghost awake: bool)
      requires Valid() && WellFormedReactions(react) && KernelContract(files.api, files.events.Length, answer)
      modifies this`stop, timers, timers.nodes`next, files, files.events, files.fired
      ensures Valid() && Grown()
      ensures awake <==>
        || (exists fd: nat :: fd < files.events.Length && !old(files.events[fd]).mask.IsNone())
        || (flags.timeEvents && !flags.dontWait)
      ensures awake ==>
        var w, reported := old(Now()).files, old(PollResult(files.events[..], files.maxfd, answer));
        && (forall i | 0 <= i < |reported| :: reported[i].fd < |w.events|)
        && numevents == |reported|
        && Chosen(tvp, flags, old(timers.State().list), now)
        && var (s, calls) := DispatchRun(w, reported, react, 0);
           Now() == Went(old(Now()), s, OpsBetween(react, 0, calls))
      ensures !awake ==> numevents == 0 && Now() == old(Now())
      ensures numevents == 0 ==> timers.State() == old(timers.State())
      ensures (flags.timeEvents && !flags.dontWait && old(timers.State().list) != []
               && forall x | x in old(timers.State().list) :: 0 <= x.ms < 1000 && x.sec * 1000 + x.ms >= now) ==>
        && tvp.AtMost?
        && (forall x | x in old(timers.State().list) ::
              now * 1000 + tvp.tv.sec * 1_000_000 + tvp.tv.usec <= (x.sec * 1000 + x.ms) * 1000)
        && (exists x | x in old(timers.State().list) ::
              now * 1000 + tvp.tv.sec * 1_000_000 + tvp.tv.usec == (x.sec * 1000 + x.ms) * 1000)
    {
      RegisteredIff();
      awake := Polls(flags);
      ghost var list := timers.State().list;
      NothingPolled(Now(), react);
      numevents, tvp := PollIfAwake(flags, now, answer, react);
      if flags.timeEvents && !flags.dontWait && list != []
         && forall x | x in list :: 0 <= x.ms < 1000 && x.sec * 1000 + x.ms >= now
      {
        SleepEndsInTime(tvp, flags, list, now);
      }
    }

    /** aeProcessEvents: `now` is the clock before the poll, [lo, hi] the window of the timer pass after it. Unless both
        kinds of events are switched off, the loop polls when a descriptor is registered or when it may sleep for
        timers, and dispatches what the kernel reported, which leads to `mid`; then, if asked to, it makes a timer
        pass. The result counts fired descriptors and timers. The sleep chosen ends at the nearest deadline. When
        nothing was reported and the poll slept the time chosen out, at least one timer fires. */
    method ProcessEvents(flags: Flags, now: nat, answer: KernelAnswer, fileReact: nat -> Reaction,
                         timerReact: (int, nat) -> Reaction, lo: nat, hi: nat)
      returns (processed: nat, tvp: Wait, ghost awake: bool, ghost mid: Snapshot, ghost log: Log)
      requires Valid() && WellFormedReactions(fileReact) && KernelContract(files.api, files.events.Length, answer)
      requires lo <= hi && DisciplinedTimers(timerReact, lo, hi)
      modifies this`stop, timers, timers.nodes, files, files.events, files.fired
      ensures Valid()
      ensures !flags.timeEvents && !flags.fileEvents ==> processed == 0 && Now() == old(Now())
      // the poll phase
      ensures awake <==>
        && (flags.timeEvents || flags.fileEvents)
        && ((exists fd: nat :: fd < files.events.Length && !old(files.events[fd]).mask.IsNone())
            || (flags.timeEvents && !flags.dontWait))
      ensures awake ==>
        var w, reported := old(Now()).files, old(PollResult(files.events[..], files.maxfd, answer));
        && (forall i | 0 <= i < |reported| :: reported[i].fd < |w.events|)
        && processed == |reported| + |log.fired|
        && Chosen(tvp, flags, old(timers.State().list), now)
        && var (s, calls) := DispatchRun(w, reported, fileReact, 0);
           mid == Went(old(Now()), s, OpsBetween(fileReact, 0, calls))
      ensures !awake ==> processed == |log.fired| && mid == old(Now())
      ensures (flags.timeEvents && !flags.dontWait && old(timers.State().list) != []
               && forall x | x in old(timers.State().list) :: 0 <= x.ms < 1000 && x.sec * 1000 + x.ms >= now) ==>
        && tvp.AtMost?
        && (forall x | x in old(timers.State().list) ::
              now * 1000 + tvp.tv.sec * 1_000_000 + tvp.tv.usec <= (x.sec * 1000 + x.ms) * 1000)
        && (exists x | x in old(timers.State().list) ::
              now * 1000 + tvp.tv.sec * 1_000_000 + tvp.tv.usec == (x.sec * 1000 + x.ms) * 1000)
      // the timer phase
      ensures !flags.timeEvents && flags.fileEvents ==> log.fired == [] && Now() == mid
      ensures flags.timeEvents ==> Completed(log, mid, old(timers.lastTime), timerReact, lo, hi)
      ensures flags.timeEvents ==>
        forall x | x in timers.State().list && x.id < mid.timers.nextId :: !Due(x.sec, x.ms, lo)
      ensures flags.timeEvents && timers.lastTime >= old(timers.lastTime) ==>
        && log.path[0] == mid
        && (forall id | id in log.fired :: exists x | x in mid.timers.list :: x.id == id && Due(x.sec, x.ms, hi))
        && (forall x | x in mid.timers.list && Due(x.sec, x.ms, lo) :: x.id in log.fired
              || exists k :: 0 <= k < |log.fired| && x.id in DeletedIds(timerReact(log.fired[k], k).ops))
      ensures flags.timeEvents && timers.lastTime < old(timers.lastTime) ==>
        log.path[0].files == mid.files && log.path[0].history == mid.history
      ensures flags.timeEvents && !flags.dontWait && processed == |log.fired| ==>
        forall x | x in old(timers.State().list) && SleptOut(x, now, lo, old(files.api.Epoll?)) :: log.fired != []
    {
      if !flags.timeEvents && !flags.fileEvents {
        return 0, Forever, false, Now(), Log([], [], []);
      }
      ghost var epoll := files.api.Epoll?;
      processed, tvp, awake := PollPhase(flags, now, answer, fileReact);
      mid := Now();
      var fired;
      fired, log := TimerPhase(flags, timerReact, lo, hi, now, epoll);
      processed := processed + fired;
    }

    /** The timer phase of aeProcessEvents; `now` is when the poll began. */
    method TimerPhase(flags: Flags, react: (int, nat) -> Reaction, lo: nat, hi: nat, ghost now: nat, ghost epoll: bool)
      returns (fired: nat, ghost log: Log)
      requires Valid() && lo <= hi && DisciplinedTimers(react, lo, hi)
      modifies this`stop, timers, timers.nodes, files, files.events
      ensures Valid() && fired == |log.fired|
      ensures !flags.timeEvents ==> log.fired == [] && Now() == old(Now())
      ensures flags.timeEvents ==> Completed(log, old(Now()), old(timers.lastTime), react, lo, hi)
      ensures flags.timeEvents ==>
        forall x | x in timers.State().list && x.id < old(timers.nextId) :: !Due(x.sec, x.ms, lo)
      ensures flags.timeEvents && timers.lastTime >= old(timers.lastTime) ==>
        && log.path[0] == old(Now())
        && (forall id | id in log.fired ::
              exists x | x in old(timers.State().list) :: x.id == id && Due(x.sec, x.ms, hi))
        && (forall x | x in old(timers.State().list) && Due(x.sec, x.ms, lo) :: x.id in log.fired
              || exists k :: 0 <= k < |log.fired| && x.id in DeletedIds(react(log.fired[k], k).ops))
      ensures flags.timeEvents && timers.lastTime < old(timers.lastTime) ==>
        log.path[0].files == old(Now()).files && log.path[0].history == old(Now()).history
      ensures flags.timeEvents ==>
        forall x | x in old(timers.State().list) && SleptOut(x, now, lo, epoll) :: log.fired != []
    {
      fired, log := 0, Log([], [], []);
      if flags.timeEvents {
        ghost var m := Now();
        fired, log := ProcessTimeEvents(react, lo, hi);
        Progress(m, log, timers.lastTime < old(timers.lastTime), react, now, lo, hi, epoll);
      }
    }

    /** A whole timer pass went from `m` to the present state. */
    ghost predicate Completed(log: Log, m: Snapshot, last: nat, react: (int, nat) -> Reaction, lo: nat, hi: nat)
      reads this`stop, timers, timers.spine, files, files.events
    {
      && PassPath(log, react, lo, hi) && log.path[0] == Begun(m, timers.lastTime < last) && log.Last() == Now()
      && lo / 1000 <= timers.lastTime <= hi / 1000
      && Passed(log.path[0].timers, Now().timers, log.fired, Gone(react, log.fired), lo, hi)
    }
  }

  /** When the poll slept the time of some timer out, a pass that starts with that timer fires. */
  lemma Progress(mid: Snapshot, log: Log, backwards: bool, react: (int, nat) -> Reaction,
                 now: nat, lo: nat, hi: nat, epoll: bool)
    requires log.Shaped() && log.path[0] == Begun(mid, backwards)
    requires Passed(log.path[0].timers, log.Last().timers, log.fired, Gone(react, log.fired), lo, hi)
    ensures forall x | x in mid.timers.list && SleptOut(x, now, lo, epoll) :: log.fired != []
  {
    forall x | x in mid.timers.list && SleptOut(x, now, lo, epoll) ensures log.fired != [] {
      var at :| 0 <= at < |mid.timers.list| && mid.timers.list[at] == x;
      SleptMeansDue(x, now, lo, epoll);
      DueMeansFired(mid, backwards, log.Last().timers, react, log.fired, lo, hi, at);
    }
  }

  lemma AllFiredEnd(log: Log, react: (int, nat) -> Reaction, lo: nat, hi: nat)
    requires PassPath(log, react, lo, hi) && Ordered(log.path[0].timers)
    requires forall i, j | 0 <= i < j < |log.fired| :: log.fired[i] != log.fired[j]
    ensures forall k | 0 <= k < |log.fired| && react(log.fired[k], k).retval == AE_NOMORE ::
      forall x | x in log.Last().timers.list :: x.id != log.fired[k]
    ensures forall k | 0 <= k < |log.fired| && react(log.fired[k], k).retval != AE_NOMORE
        && (forall j | k <= j < |log.fired| :: log.fired[k] !in DeletedIds(react(log.fired[j], j).ops)) ::
      exists x | x in log.Last().timers.list :: x.id == log.fired[k]
        && lo + react(log.fired[k], k).retval <= x.sec * 1000 + x.ms <= hi + react(log.fired[k], k).retval
  {
    forall k | 0 <= k < |log.fired|
      ensures react(log.fired[k], k).retval == AE_NOMORE ==> !Lists(log.Last().timers.list, log.fired[k])
      ensures (react(log.fired[k], k).retval != AE_NOMORE
               && forall j | k <= j < |log.fired| :: log.fired[k] !in DeletedIds(react(log.fired[j], j).ops)) ==>
        exists x | x in log.Last().timers.list :: x.id == log.fired[k]
          && lo + react(log.fired[k], k).retval <= x.sec * 1000 + x.ms <= hi + react(log.fired[k], k).retval
    {
      FiredEnds(log, react, lo, hi, k);
    }
  }

  lemma SameList(s: seq<TimeEvent>, when: Deadlines)
    requires forall n | n in s :: n in when && when[n] == (n.whenSec, n.whenMs)
    ensures ListOf(s, when) == Values(s)
  {
  }

  lemma ValuesPutOff(s: seq<TimeEvent>, list: seq<Timer>, te: TimeEvent)
    requires te in s && Descending(s) && |list| == |s|
    requires forall i | 0 <= i < |s| :: list[i].id == s[i].id && (s[i] != te ==> list[i] == s[i].Value())
    ensures Values(s) == PutOff(list, te.id, te.Value())
  {
    var k := FirstAt(list, te.id);
    assert k < |list| && s[k] == te by {
      var i :| 0 <= i < |s| && s[i] == te;
      assert list[i].id == te.id;
    }
  }
}
