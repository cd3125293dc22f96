/** What dispatching a poll result does: how often a shared handler is called, and that both backends lead to the same
    calls. */
module Dispatch {
  import opened EventTypes
  import opened FileRuns
  import opened FileTable

  /** The handler calls in a history. */
  function Calls(h: seq<Step>): set<Step> {
    set s | s in h && s.Called?
  }

  /** The fired descriptor's two calls, when both happen. */
  predicate CallsTwice(w: World, f: Fired, react: nat -> Reaction, k: nat)
    requires f.fd < |w.events|
  {
    var rs := ReadSteps(w, f, react, k);
    rs != [] && WriteSteps(Replay(w, rs), f, true, react, k + 1) != []
  }

  /** The two calls go to the same function. */
  predicate RunsTwice(w: World, f: Fired, react: nat -> Reaction, k: nat)
    requires f.fd < |w.events|
  {
    && CallsTwice(w, f, react, k)
    && var rs := ReadSteps(w, f, react, k);
       WriteSteps(Replay(w, rs), f, true, react, k + 1)[0].proc == rs[0].proc
  }

  /** One direction of a descriptor: whether it stands registered, and the handler last registered for it. */
  datatype Side = Side(stands: bool, proc: int)

  function SideOf(fe: FileEvent, d: Dir): Side {
    Side(Has(fe.mask, d), Proc(fe, d))
  }

  /** What the accepted operations of a script make of one direction of `fd`. */
  function SideAfter(ops: seq<Op>, setsize: nat, epoll: bool, fd: nat, d: Dir, s: Side): Side
    decreases |ops|
  {
    if ops == [] then s
    else
      var op := ops[0];
      var t :=
        if op.CreateFile? && op.fd == fd && Has(op.mask, d) && Accepted(op, setsize, epoll) then Side(true, op.proc)
        else if op.DeleteFile? && op.fd == fd && Has(op.mask, d) then s.(stands := false)
        else s;
      SideAfter(ops[1..], setsize, epoll, fd, d, t)
  }

  lemma SideFollowsOne(w: World, op: Op, fd: nat, d: Dir)
    requires fd < |w.events|
    ensures SideOf(AfterFileOp(w, op).events[fd], d)
      == SideAfter([op], |w.events|, w.epoll, fd, d, SideOf(w.events[fd], d))
  {
    assert [op][1..] == [];
  }

  /** The fold over the script is what becomes of the table. */
  lemma {:induction false} SideFollows(w: World, ops: seq<Op>, fd: nat, d: Dir)
    requires fd < |w.events|
    ensures SideOf(Replay(w, OpsSteps(w, ops)).events[fd], d)
      == SideAfter(ops, |w.events|, w.epoll, fd, d, SideOf(w.events[fd], d))
    decreases |ops|
  {
    if ops == [] {
    } else {
      var s := OpSteps(w, ops[0]);
      assert [ops[0]][1..] == [];
      OpReplays(w, ops[0]);
      SideFollowsOne(w, ops[0], fd, d);
      SideFollows(Replay(w, s), ops[1..], fd, d);
      Append(w, s, OpsSteps(Replay(w, s), ops[1..]));
    }
  }

  /** One fired descriptor gets two calls exactly when reading stands and both directions are reported, and the script
      of the read handler, as far as the loop accepts it, leaves writing registered with a function that is not the one
      then on record for reading. */
  lemma CallsTwiceIff(w: World, f: Fired, react: nat -> Reaction, k: nat)
    requires f.fd < |w.events|
    ensures var fe, ops := w.events[f.fd], react(k).ops;
      var wr := SideAfter(ops, |w.events|, w.epoll, f.fd, Write, SideOf(fe, Write));
      var rd := SideAfter(ops, |w.events|, w.epoll, f.fd, Read, SideOf(fe, Read));
      CallsTwice(w, f, react, k)
      <==> fe.mask.readable && f.mask.readable && f.mask.writable && wr.stands && wr.proc != rd.proc
  {
    var fe, ops := w.events[f.fd], react(k).ops;
    if fe.mask.readable && f.mask.readable {
      CallSplits(w, [], Called(f.fd, Read, fe.rproc, fe.data, f.mask), OpsSteps(w, ops));
      SideFollows(w, ops, f.fd, Read);
      SideFollows(w, ops, f.fd, Write);
    }
  }

  /** A function runs twice for one fired descriptor exactly when it stands and is reported for reading, writing is
      reported too, and its script, as far as the loop accepts it, leaves writing registered with that very function
      while the last registration for reading is of another. */
  lemma SameFunctionTwiceIff(w: World, f: Fired, react: nat -> Reaction, k: nat)
    requires f.fd < |w.events|
    ensures var fe, ops := w.events[f.fd], react(k).ops;
      RunsTwice(w, f, react, k)
      <==> fe.mask.readable && f.mask.readable && f.mask.writable
           && SideAfter(ops, |w.events|, w.epoll, f.fd, Write, SideOf(fe, Write)) == Side(true, fe.rproc)
           && SideAfter(ops, |w.events|, w.epoll, f.fd, Read, SideOf(fe, Read)).proc != fe.rproc
  {
    var fe, ops := w.events[f.fd], react(k).ops;
    if fe.mask.readable && f.mask.readable {
      CallSplits(w, [], Called(f.fd, Read, fe.rproc, fe.data, f.mask), OpsSteps(w, ops));
      SideFollows(w, ops, f.fd, Read);
      SideFollows(w, ops, f.fd, Write);
    }
  }

  /** In particular for a shared handler on a descriptor registered and reported in both directions. */
  lemma SharedHandlerTwiceIff(w: World, f: Fired, react: nat -> Reaction, k: nat, p: int)
    requires f.fd < |w.events| && w.events[f.fd].mask == f.mask == Mask(true, true)
    requires w.events[f.fd].rproc == w.events[f.fd].wproc == p
    ensures var ops := react(k).ops;
      RunsTwice(w, f, react, k)
      <==> SideAfter(ops, |w.events|, w.epoll, f.fd, Write, Side(true, p)) == Side(true, p)
           && SideAfter(ops, |w.events|, w.epoll, f.fd, Read, Side(true, p)).proc != p
  {
    SameFunctionTwiceIff(w, f, react, k);
  }

  /** Operations that never register `fd` leave its two handlers as they are. */
  lemma {:induction false} HandlersKept(w: World, ops: seq<Op>, fd: nat)
    requires fd < |w.events|
    requires forall i | 0 <= i < |ops| && ops[i].CreateFile? :: ops[i].fd != fd
    ensures var v := Replay(w, OpsSteps(w, ops));
      v.events[fd].rproc == w.events[fd].rproc && v.events[fd].wproc == w.events[fd].wproc
    decreases |ops|
  {
    if ops == [] {
    } else {
      var s := OpSteps(w, ops[0]);
      HandlersKeptByOne(w, ops[0], fd);
      HandlersKept(Replay(w, s), ops[1..], fd);
      Append(w, s, OpsSteps(Replay(w, s), ops[1..]));
    }
  }

  lemma HandlersKeptByOne(w: World, op: Op, fd: nat)
    requires fd < |w.events| && (op.CreateFile? ==> op.fd != fd)
    ensures var v := Replay(w, OpSteps(w, op));
      v.events[fd].rproc == w.events[fd].rproc && v.events[fd].wproc == w.events[fd].wproc
  {
    OpReplays(w, op);
  }

  /** A descriptor whose read and write handlers are the same function gets at most one call per poll result, as long
      as that call does not register the descriptor again. */
  lemma SharedHandlerOnce(w: World, f: Fired, react: nat -> Reaction, k: nat)
    requires f.fd < |w.events| && w.events[f.fd].rproc == w.events[f.fd].wproc
    requires forall i | 0 <= i < |react(k).ops| && react(k).ops[i].CreateFile? :: react(k).ops[i].fd != f.fd
    ensures !CallsTwice(w, f, react, k)
  {
    var fe := w.events[f.fd];
    if fe.mask.readable && f.mask.readable {
      var c := Called(f.fd, Read, fe.rproc, fe.data, f.mask);
      ReplayOne(w, c);
      Append(w, [c], OpsSteps(w, react(k).ops));
      HandlersKept(w, react(k).ops, f.fd);
    }
  }

  /** Without that proviso the handler can run twice for one report: it registers the descriptor for reading with
      another function and is then called again for writing. */
  lemma SharedHandlerCanRunTwice()
    ensures exists w: World, f: Fired, react: nat -> Reaction ::
      && Mirrored(w) && f.fd < |w.events| && w.events[f.fd].rproc == w.events[f.fd].wproc
      && WellFormedReactions(react) && RunsTwice(w, f, react, 0)
  {
    var w := World([FileEvent(Mask(true, true), 7, 7, 0)], false, map[]);
    var f := Fired(0, Mask(true, true));
    var again := CreateFile(0, READABLE, 8, 0, true);
    var react: nat -> Reaction := k => Reaction([again], 0);
    var c := Called(0, Read, 7, 0, f.mask);
    assert OpSteps(w, again) == [Registered(0, READABLE, 8, 0)];
    ReplayOne(w, Registered(0, READABLE, 8, 0));
    assert [again][1..] == [];
    assert OpsSteps(w, [again]) == [Registered(0, READABLE, 8, 0)] + [];
    assert [Registered(0, READABLE, 8, 0)] + [] == [Registered(0, READABLE, 8, 0)];
    ReplayTwo(w, c, Registered(0, READABLE, 8, 0));
    assert ReadSteps(w, f, react, 0) == [c] + [Registered(0, READABLE, 8, 0)];
    assert RunsTwice(w, f, react, 0);
  }

  // ----- handlers that leave the registrations alone -----

  ghost predicate Inert(react: nat -> Reaction) {
    forall k :: react(k).ops == []
  }

  /** The calls one fired descriptor gets when no handler changes a registration. */
  function InertCalls(evs: seq<FileEvent>, f: Fired): set<Step>
    requires f.fd < |evs|
  {
    var fe := evs[f.fd];
    var both := fe.mask.And(f.mask);
    (if both.readable then {Called(f.fd, Read, fe.rproc, fe.data, f.mask)} else {})
    + (if both.writable && (!both.readable || fe.wproc != fe.rproc)
       then {Called(f.fd, Write, fe.wproc, fe.data, f.mask)} else {})
  }

  lemma InertRead(w: World, f: Fired, react: nat -> Reaction, k: nat)
    requires f.fd < |w.events| && react(k).ops == []
    ensures var fe := w.events[f.fd];
      var rs := ReadSteps(w, f, react, k);
      && rs == (if fe.mask.readable && f.mask.readable then [Called(f.fd, Read, fe.rproc, fe.data, f.mask)] else [])
      && Replay(w, rs) == w
  {
  }

  lemma InertWrite(w: World, f: Fired, rfired: bool, react: nat -> Reaction, k: nat)
    requires f.fd < |w.events| && react(k).ops == []
    ensures var fe := w.events[f.fd];
      var ws := WriteSteps(w, f, rfired, react, k);
      && ws == (if fe.mask.writable && f.mask.writable && (!rfired || fe.wproc != fe.rproc)
                then [Called(f.fd, Write, fe.wproc, fe.data, f.mask)] else [])
      && Replay(w, ws) == w
  {
  }

  lemma InertFire(w: World, f: Fired, react: nat -> Reaction, k: nat)
    requires f.fd < |w.events| && Inert(react)
    ensures var s := FireSteps(w, f, react, k).0; Calls(s) == InertCalls(w.events, f) && Replay(w, s) == w
  {
    var rs := ReadSteps(w, f, react, k);
    var k1 := if rs != [] then k + 1 else k;
    InertRead(w, f, react, k);
    InertWrite(w, f, rs != [], react, k1);
    var ws := WriteSteps(w, f, rs != [], react, k1);
    Append(w, rs, ws);
    assert Calls(rs + ws) == Calls(rs) + Calls(ws);
  }

  /** The calls of all fired descriptors. */
  function AllInertCalls(evs: seq<FileEvent>, fired: seq<Fired>): set<Step>
    requires forall i | 0 <= i < |fired| :: fired[i].fd < |evs|
  {
    if fired == [] then {} else InertCalls(evs, fired[0]) + AllInertCalls(evs, fired[1..])
  }

  lemma {:induction false} AllInertMeans(evs: seq<FileEvent>, fired: seq<Fired>, c: Step)
    requires forall i | 0 <= i < |fired| :: fired[i].fd < |evs|
    ensures c in AllInertCalls(evs, fired) <==> exists i :: 0 <= i < |fired| && c in InertCalls(evs, fired[i])
    decreases |fired|
  {
    if fired == [] {
    } else {
      var rest := fired[1..];
      AllInertMeans(evs, rest, c);
      if i :| 0 <= i < |rest| && c in InertCalls(evs, rest[i]) {
        assert fired[i+1] == rest[i];
      }
      if i :| 0 < i < |fired| && c in InertCalls(evs, fired[i]) {
        assert rest[i-1] == fired[i];
      }
    }
  }

  lemma {:induction false} InertRun(w: World, fired: seq<Fired>, react: nat -> Reaction, k: nat)
    requires Inert(react) && forall i | 0 <= i < |fired| :: fired[i].fd < |w.events|
    ensures Calls(DispatchSteps(w, fired, react, k)) == AllInertCalls(w.events, fired)
    decreases |fired|
  {
    if fired == [] {
    } else {
      var (s, k1) := FireSteps(w, fired[0], react, k);
      InertFire(w, fired[0], react, k);
      InertRun(w, fired[1..], react, k1);
      var rest := DispatchSteps(w, fired[1..], react, k1);
      assert Calls(s + rest) == Calls(s) + Calls(rest);
    }
  }

  /** Dispatching makes exactly the calls of the fired descriptors, in whatever order they were reported. */
  lemma InertDispatch(w: World, fired: seq<Fired>, react: nat -> Reaction, k: nat)
    requires Inert(react) && forall i | 0 <= i < |fired| :: fired[i].fd < |w.events|
    ensures forall s :: s in Calls(DispatchSteps(w, fired, react, k)) <==>
      exists i :: 0 <= i < |fired| && s in InertCalls(w.events, fired[i])
  {
    InertRun(w, fired, react, k);
    forall s ensures s in AllInertCalls(w.events, fired) <==>
      exists i :: 0 <= i < |fired| && s in InertCalls(w.events, fired[i])
    {
      AllInertMeans(w.events, fired, s);
    }
  }

  // ----- the two backends -----

  /** epoll reports the same readiness as select's two sets, without errors or hang-ups. */
  ghost predicate SameReadiness(ready: seq<EpollEvent>, r: set<nat>, w: set<nat>) {
    && (forall i | 0 <= i < |ready| ::
          && !ready[i].error && !ready[i].hangup
          && (ready[i].input <==> ready[i].fd in r) && (ready[i].output <==> ready[i].fd in w)
          && ready[i].fd in r + w)
    && (forall fd | fd in r + w :: exists i :: 0 <= i < |ready| && ready[i].fd == fd)
  }

  /** Each of select's entries carries exactly the ready part of its descriptor's mask. */
  lemma {:induction false} SelectReports(evs: seq<FileEvent>, upto: nat, r: set<nat>, w: set<nat>, i: nat)
    requires upto <= |evs| && i < |SelectFired(evs, upto, r, w)|
    ensures var f := SelectFired(evs, upto, r, w)[i];
      f.mask == Mask(evs[f.fd].mask.readable && f.fd in r, evs[f.fd].mask.writable && f.fd in w)
    decreases upto
  {
    if i >= |SelectFired(evs, upto - 1, r, w)| {
    } else {
      SelectReports(evs, upto - 1, r, w, i);
    }
  }

  /** Every registered descriptor has an entry, ready or not. */
  lemma {:induction false} SelectIndex(evs: seq<FileEvent>, upto: nat, r: set<nat>, w: set<nat>, fd: nat)
    returns (i: nat)
    requires fd < upto <= |evs| && !evs[fd].mask.IsNone()
    ensures i < |SelectFired(evs, upto, r, w)| && SelectFired(evs, upto, r, w)[i].fd == fd
    decreases upto
  {
    if fd == upto - 1 {
      i := |SelectFired(evs, upto - 1, r, w)|;
    } else {
      i := SelectIndex(evs, upto - 1, r, w, fd);
    }
  }

  predicate Reports(f: seq<Fired>, fd: nat) {
    exists i :: 0 <= i < |f| && f[i].fd == fd
  }

  /** A report spelled out. epoll: one entry per event, errors and hang-ups as writing. */
  lemma EpollSpelledOut(evs: seq<FileEvent>, maxfd: int, ready: seq<EpollEvent>)
    requires IsMaxFd(evs, maxfd)
    ensures var f := PollResult(evs, maxfd, EpollReady(ready));
      && |f| == |ready|
      && forall i | 0 <= i < |ready| ::
           && f[i].fd == ready[i].fd && f[i].mask.readable == ready[i].input
           && f[i].mask.writable == (ready[i].output || ready[i].error || ready[i].hangup)
  {
  }

  /** select: nothing when nothing is ready, also on a timeout; otherwise the registered descriptors in ascending
      order, each with the ready part of its mask. */
  lemma SelectSpelledOut(evs: seq<FileEvent>, maxfd: int, r: set<nat>, w: set<nat>)
    requires IsMaxFd(evs, maxfd)
    ensures var f := PollResult(evs, maxfd, SelectReady(r, w));
      && (r == {} && w == {} ==> f == [])
      && (r != {} || w != {} ==>
            && (forall i, j | 0 <= i < j < |f| :: f[i].fd < f[j].fd)
            && (forall fd: nat :: Reports(f, fd)
                 <==> fd < |evs| && (evs[fd].mask.readable || evs[fd].mask.writable))
            && (forall i | 0 <= i < |f| ::
                  && f[i].fd < |evs|
                  && f[i].mask.readable == (evs[f[i].fd].mask.readable && f[i].fd in r)
                  && f[i].mask.writable == (evs[f[i].fd].mask.writable && f[i].fd in w)))
  {
    var f := SelectFired(evs, maxfd + 1, r, w);
    forall fd: nat ensures Reports(f, fd) <==> fd < |evs| && (evs[fd].mask.readable || evs[fd].mask.writable) {
      if fd < |evs| && (evs[fd].mask.readable || evs[fd].mask.writable) {
        var i := SelectIndex(evs, maxfd + 1, r, w, fd);
        assert f[i].fd == fd;
      }
    }
    forall i | 0 <= i < |f| ensures
      f[i].mask == Mask(evs[f[i].fd].mask.readable && f[i].fd in r, evs[f[i].fd].mask.writable && f[i].fd in w)
    {
      SelectReports(evs, maxfd + 1, r, w, i);
    }
  }

  /** An empty answer gives an empty report under both backends. */
  lemma NothingReady(evs: seq<FileEvent>, maxfd: int)
    requires IsMaxFd(evs, maxfd)
    ensures PollResult(evs, maxfd, EpollReady([])) == [] && PollResult(evs, maxfd, SelectReady({}, {})) == []
  {
  }

  /** For the same readiness, dispatching select's report and epoll's report makes the same handler calls, although
      select also reports the registered descriptors that are idle. */
  lemma BackendsAgree(e: Table, s: Table, ready: seq<EpollEvent>, r: set<nat>, w: set<nat>, react: nat -> Reaction)
    requires e.Good() && s.Good() && e.api.Epoll? && s.api.Select? && e.evs == s.evs
    requires KernelContract(e.api, |e.evs|, EpollReady(ready)) && KernelContract(s.api, |s.evs|, SelectReady(r, w))
    requires SameReadiness(ready, r, w) && Inert(react)
    ensures var fe, fs := PollResult(e.evs, e.maxfd, EpollReady(ready)), PollResult(s.evs, s.maxfd, SelectReady(r, w));
      && (forall i | 0 <= i < |fe| :: fe[i].fd < |e.evs|)
      && (forall i | 0 <= i < |fs| :: fs[i].fd < |s.evs|)
      && Calls(DispatchSteps(e.TheWorld(), fe, react, 0)) == Calls(DispatchSteps(s.TheWorld(), fs, react, 0))
  {
    var evs := e.evs;
    var fe, fs := PollResult(evs, e.maxfd, EpollReady(ready)), PollResult(evs, s.maxfd, SelectReady(r, w));
    PollResultFits(evs, e.maxfd, e.api, EpollReady(ready));
    PollResultFits(evs, s.maxfd, s.api, SelectReady(r, w));
    InertDispatch(e.TheWorld(), fe, react, 0);
    InertDispatch(s.TheWorld(), fs, react, 0);
    forall i, c | 0 <= i < |fe| && c in InertCalls(evs, fe[i])
      ensures exists j :: 0 <= j < |fs| && c in InertCalls(evs, fs[j])
    {
      var j := EpollEntryInSelect(e, s, ready, r, w, i);
      assert c in InertCalls(evs, fs[j]);
    }
    forall j, c | 0 <= j < |fs| && c in InertCalls(evs, fs[j])
      ensures exists i :: 0 <= i < |fe| && c in InertCalls(evs, fe[i])
    {
      var i := SelectEntryInEpoll(s, ready, r, w, j);
      assert c in InertCalls(evs, fe[i]);
    }
  }

  /** Each of select's entries says exactly which directions are ready. */
  lemma SelectEntry(s: Table, r: set<nat>, w: set<nat>, j: nat)
    requires s.Good() && s.api.Select? && KernelContract(s.api, |s.evs|, SelectReady(r, w))
    requires j < |SelectFired(s.evs, s.maxfd + 1, r, w)|
    ensures var f := SelectFired(s.evs, s.maxfd + 1, r, w)[j]; f.mask == Mask(f.fd in r, f.fd in w)
  {
    SelectReports(s.evs, s.maxfd + 1, r, w, j);
  }

  lemma EpollEntry(ready: seq<EpollEvent>, r: set<nat>, w: set<nat>, i: nat)
    requires SameReadiness(ready, r, w) && i < |ready|
    ensures FromEpoll(ready[i]) == Fired(ready[i].fd, Mask(ready[i].fd in r, ready[i].fd in w)) && ready[i].fd in r + w
  {
  }

  lemma EpollEntryInSelect(e: Table, s: Table, ready: seq<EpollEvent>, r: set<nat>, w: set<nat>, i: nat)
    returns (j: nat)
    requires e.Good() && s.Good() && e.api.Epoll? && s.api.Select? && e.evs == s.evs
    requires KernelContract(e.api, |e.evs|, EpollReady(ready)) && KernelContract(s.api, |s.evs|, SelectReady(r, w))
    requires SameReadiness(ready, r, w) && i < |ready|
    ensures var fs := PollResult(s.evs, s.maxfd, SelectReady(r, w)); j < |fs| && fs[j] == FromEpoll(ready[i])
  {
    EpollEntry(ready, r, w, i);
    assert ready[i].fd in e.api.interest;
    j := SelectIndex(s.evs, s.maxfd + 1, r, w, ready[i].fd);
    SelectEntry(s, r, w, j);
  }

  lemma SelectEntryInEpoll(s: Table, ready: seq<EpollEvent>, r: set<nat>, w: set<nat>, j: nat) returns (i: nat)
    requires s.Good() && s.api.Select? && KernelContract(s.api, |s.evs|, SelectReady(r, w))
    requires SameReadiness(ready, r, w)
    requires j < |SelectFired(s.evs, s.maxfd + 1, r, w)|
    requires InertCalls(s.evs, SelectFired(s.evs, s.maxfd + 1, r, w)[j]) != {}
    ensures i < |ready| && SelectFired(s.evs, s.maxfd + 1, r, w)[j] == FromEpoll(ready[i])
  {
    var f := SelectFired(s.evs, s.maxfd + 1, r, w)[j];
    SelectEntry(s, r, w, j);
    assert f.fd in r + w;
    i :| 0 <= i < |ready| && ready[i].fd == f.fd;
    EpollEntry(ready, r, w, i);
  }

  /** The number of events aeProcessEvents adds to its result is not the same: with anything ready, select counts
      every registered descriptor. The counts agree exactly when every registered descriptor is ready. */
  lemma CountsAgreeIff(s: Table, ready: seq<EpollEvent>, r: set<nat>, w: set<nat>)
    requires s.Good() && s.api.Select? && KernelContract(s.api, |s.evs|, SelectReady(r, w)) && r + w != {}
    requires SameReadiness(ready, r, w) && forall i, j | 0 <= i < j < |ready| :: ready[i].fd != ready[j].fd
    ensures var registered := set fd: nat | fd < |s.evs| && !s.evs[fd].mask.IsNone();
      && |PollResult(s.evs, s.maxfd, SelectReady(r, w))| == |registered|
      && |PollResult(s.evs, s.maxfd, EpollReady(ready))| == |r + w|
      && (|registered| == |r + w| <==> registered == r + w)
  {
    var registered := set fd: nat | fd < |s.evs| && !s.evs[fd].mask.IsNone();
    SelectCount(s.evs, s.maxfd + 1, r, w);
    assert registered == set fd: nat | fd < s.maxfd + 1 && !s.evs[fd].mask.IsNone();
    DistinctCount(ready);
    ReadyFds(ready, r, w);
    ReadyAreRegistered(s, r, w);
    SubsetSize(r + w, registered);
  }

  lemma ReadyFds(ready: seq<EpollEvent>, r: set<nat>, w: set<nat>)
    requires SameReadiness(ready, r, w)
    ensures r + w == set i | 0 <= i < |ready| :: ready[i].fd
  {
  }

  lemma ReadyAreRegistered(s: Table, r: set<nat>, w: set<nat>)
    requires s.Good() && s.api.Select? && KernelContract(s.api, |s.evs|, SelectReady(r, w))
    ensures r + w <= set fd: nat | fd < |s.evs| && !s.evs[fd].mask.IsNone()
  {
  }

  lemma {:induction false} SelectCount(evs: seq<FileEvent>, upto: nat, r: set<nat>, w: set<nat>)
    requires upto <= |evs|
    ensures |SelectFired(evs, upto, r, w)| == |set fd: nat | fd < upto && !evs[fd].mask.IsNone()|
    decreases upto
  {
    if upto == 0 {
    } else {
      SelectCount(evs, upto - 1, r, w);
      var below := set fd: nat | fd < upto - 1 && !evs[fd].mask.IsNone();
      var all := set fd: nat | fd < upto && !evs[fd].mask.IsNone();
      assert all == if evs[upto-1].mask.IsNone() then below else below + {upto - 1};
    }
  }

  lemma {:induction false} DistinctCount(ready: seq<EpollEvent>)
    requires forall i, j | 0 <= i < j < |ready| :: ready[i].fd != ready[j].fd
    ensures |set i | 0 <= i < |ready| :: ready[i].fd| == |ready|
    decreases |ready|
  {
    if ready == [] {
    } else {
      var n := |ready| - 1;
      var init := ready[..n];
      DistinctCount(init);
      var s := set i | 0 <= i < |init| :: init[i].fd;
      assert (set i | 0 <= i < |ready| :: ready[i].fd) == s + {ready[n].fd};
      assert ready[n].fd !in s;
    }
  }

  lemma SubsetSize(a: set<nat>, b: set<nat>)
    requires a <= b
    ensures |a| == |b| <==> a == b
  {
    assert b == a + (b - a);
  }

  /** A report with an error or a hang-up reaches no handler exactly when the descriptor is not registered for writing,
      and not for reading with input reported as well. */
  lemma HangupUnheardIff(w: World, e: EpollEvent, react: nat -> Reaction, k: nat)
    requires e.fd < |w.events| && (e.error || e.hangup)
    ensures var m := w.events[e.fd].mask;
      FireSteps(w, FromEpoll(e), react, k).0 == [] <==> !m.writable && !(m.readable && e.input)
  {
    var f := FromEpoll(e);
    var rs := ReadSteps(w, f, react, k);
    if rs == [] {
      assert Replay(w, rs) == w;
      var ws := WriteSteps(w, f, false, react, k);
      assert rs + ws == ws;
    } else {
      assert |rs| > 0;
    }
  }
}
