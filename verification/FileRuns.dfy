/** Histories of the file-event half of the loop: what a run did, the state it leads to, and when it is safe. */
module FileRuns {
  import opened EventTypes

  datatype Dir = Read | Write

  datatype CtlOp = Add | Mod | Del

  /** One observable step: an epoll_ctl call with the kernel's answer, a registration, a deletion, a call of a file
      handler, a call of a timer's callback. */
  datatype Step =
    | Ctl(op: CtlOp, fd: nat, events: Mask, refused: bool)
    | Registered(fd: nat, mask: Mask, proc: int, data: int)
    | Unregistered(fd: nat, mask: Mask)
    | Called(fd: nat, dir: Dir, proc: int, data: int, reported: Mask)
    | Ticked(id: int)

  /** The table `events[]`, and the kernel's interest set when the backend is epoll. */
  datatype World = World(events: seq<FileEvent>, epoll: bool, interest: map<nat, Mask>)

  predicate Has(m: Mask, d: Dir) {
    match d case Read => m.readable case Write => m.writable
  }

  function Proc(fe: FileEvent, d: Dir): int {
    match d case Read => fe.rproc case Write => fe.wproc
  }

  function Register(fe: FileEvent, mask: Mask, proc: int, data: int): FileEvent {
    var rproc := if mask.readable then proc else fe.rproc;
    var wproc := if mask.writable then proc else fe.wproc;
    FileEvent(fe.mask.Or(mask), rproc, wproc, data)
  }

  function Unregister(fe: FileEvent, mask: Mask): FileEvent {
    fe.(mask := fe.mask.Without(mask))
  }

  function Apply(w: World, s: Step): (v: World)
    ensures |v.events| == |w.events| && v.epoll == w.epoll
  {
    match s
    case Ctl(op, fd, events, refused) =>
      if refused then w
      else w.(interest := if op == Del then w.interest - {fd} else w.interest[fd := events])
    case Registered(fd, mask, proc, data) =>
      if fd < |w.events| then w.(events := w.events[fd := Register(w.events[fd], mask, proc, data)]) else w
    case Unregistered(fd, mask) =>
      if fd < |w.events| then w.(events := w.events[fd := Unregister(w.events[fd], mask)]) else w
    case _ => w
  }

  /** What must hold when a step is taken: the kernel knows the fd exactly when the call says so, and a handler is
      called for a direction both reported and registered at that instant, with the handler and data on record. */
  predicate Legal(w: World, s: Step) {
    match s
    case Ctl(op, fd, _, _) => w.epoll && (op == Add <==> fd !in w.interest)
    case Registered(fd, mask, _, _) => fd < |w.events| && !mask.IsNone()
    case Unregistered(fd, mask) => fd < |w.events|
    case Called(fd, d, proc, data, reported) =>
      && fd < |w.events| && Has(w.events[fd].mask, d) && Has(reported, d)
      && proc == Proc(w.events[fd], d) && data == w.events[fd].data
    case Ticked(_) => true
  }

  function Replay(w: World, h: seq<Step>): (v: World)
    ensures |v.events| == |w.events| && v.epoll == w.epoll
  {
    if h == [] then w else Apply(Replay(w, h[..|h|-1]), h[|h|-1])
  }

  predicate Safe(w: World, h: seq<Step>) {
    h == [] || (Safe(w, h[..|h|-1]) && Legal(Replay(w, h[..|h|-1]), h[|h|-1]))
  }

  lemma {:induction false} Append(w: World, g: seq<Step>, h: seq<Step>)
    ensures Replay(w, g + h) == Replay(Replay(w, g), h)
    ensures Safe(w, g + h) <==> Safe(w, g) && Safe(Replay(w, g), h)
  {
    if h == [] {
      assert g + h == g;
    } else {
      Append(w, g, h[..|h|-1]);
      assert (g + h)[..|g + h|-1] == g + h[..|h|-1];
    }
  }

  /** The backend's copy of the masks agrees with the table. */
  predicate Mirrored(w: World) {
    w.epoll ==>
      && (forall fd | fd in w.interest :: fd < |w.events|)
      && (forall fd: nat | fd < |w.events| :: fd in w.interest <==> !w.events[fd].mask.IsNone())
      && (forall fd | fd in w.interest :: w.interest[fd] == w.events[fd].mask)
  }

  // ----- operations as histories -----

  /** The epoll_ctl call, if any, that comes with a registration. */
  function AddCtl(w: World, fd: nat, mask: Mask, kernelOk: bool): seq<Step>
    requires fd < |w.events|
  {
    var was := w.events[fd].mask;
    if w.epoll then [Ctl(if was.IsNone() then Add else Mod, fd, was.Or(mask), !kernelOk)] else []
  }

  /** The epoll_ctl call, if any, that comes with a deletion that leaves the mask `left`. */
  function DelCtl(w: World, fd: nat, left: Mask): seq<Step> {
    if w.epoll then [Ctl(if left.IsNone() then Del else Mod, fd, left, false)] else []
  }

  /** The steps of one public operation on the file table; timer operations take none. */
  function OpSteps(w: World, op: Op): seq<Step> {
    match op
    case CreateFile(fd, mask, proc, data, kernelOk) =>
      if fd >= |w.events| then []
      else AddCtl(w, fd, mask, kernelOk) + if w.epoll && !kernelOk then [] else [Registered(fd, mask, proc, data)]
    case DeleteFile(fd, mask) =>
      if fd >= |w.events| || w.events[fd].mask.IsNone() then []
      else [Unregistered(fd, mask)] + DelCtl(w, fd, w.events[fd].mask.Without(mask))
    case _ => []
  }

  function OpsSteps(w: World, ops: seq<Op>): seq<Step>
    decreases |ops|
  {
    if ops == [] then []
    else
      var s := OpSteps(w, ops[0]);
      s + OpsSteps(Replay(w, s), ops[1..])
  }

  /** A script goes operation by operation. */
  lemma OpsStepsByOne(w: World, op: Op)
    ensures OpsSteps(w, []) == [] && OpsSteps(w, [op]) == OpSteps(w, op)
  {
    assert [op][1..] == [];
    assert OpsSteps(w, [op]) == OpSteps(w, op) + [];
  }

  lemma {:induction false} OpsStepsAppend(w: World, a: seq<Op>, b: seq<Op>)
    ensures var s := OpsSteps(w, a); OpsSteps(w, a + b) == s + OpsSteps(Replay(w, s), b)
    decreases |a|
  {
    if a == [] {
      assert a + b == b;
      assert [] + OpsSteps(w, b) == OpsSteps(w, b);
    } else {
      assert (a + b)[1..] == a[1..] + b;
      var s := OpSteps(w, a[0]);
      var v := Replay(w, s);
      var t := OpsSteps(v, a[1..]);
      OpsStepsAppend(v, a[1..], b);
      Append(w, s, t);
      Associative(s, t, OpsSteps(Replay(v, t), b));
    }
  }

  lemma ReplayOne(w: World, a: Step)
    ensures Replay(w, [a]) == Apply(w, a) && (Safe(w, [a]) <==> Legal(w, a))
  {
  }

  lemma ReplayTwo(w: World, a: Step, b: Step)
    ensures Replay(w, [a] + [b]) == Apply(Apply(w, a), b)
    ensures Safe(w, [a] + [b]) <==> Legal(w, a) && Legal(Apply(w, a), b)
  {
    Append(w, [a], [b]);
    ReplayOne(w, a);
    ReplayOne(Apply(w, a), b);
  }

  /** A registration is accepted when the fd fits the table and, under epoll, the kernel agrees. */
  predicate Accepted(op: Op, setsize: nat, epoll: bool)
    requires op.CreateFile?
  {
    op.fd < setsize && (epoll ==> op.kernelOk)
  }

  /** What one operation makes of table and interest set. */
  function AfterFileOp(w: World, op: Op): (v: World)
    ensures |v.events| == |w.events| && v.epoll == w.epoll
  {
    match op
    case CreateFile(fd, mask, proc, data, _) =>
      if !Accepted(op, |w.events|, w.epoll) then w
      else World(w.events[fd := Register(w.events[fd], mask, proc, data)], w.epoll,
                 if w.epoll then w.interest[fd := w.events[fd].mask.Or(mask)] else w.interest)
    case DeleteFile(fd, mask) =>
      if fd >= |w.events| || w.events[fd].mask.IsNone() then w
      else
        var left := w.events[fd].mask.Without(mask);
        World(w.events[fd := Unregister(w.events[fd], mask)], w.epoll,
              if !w.epoll then w.interest
              else if left.IsNone() then w.interest - {fd} else w.interest[fd := left])
    case _ => w
  }

  /** Spelled out: a registration adds its directions, with handler and data, and the kernel hears of the union; a
      deletion takes its directions away, and the kernel hears of what is left; nothing else changes. */
  lemma FileOpSpelledOut(w: World, op: Op)
    requires (op.CreateFile? || op.DeleteFile?) && op.fd < |w.events|
    ensures var v := AfterFileOp(w, op);
      var fe, ge := w.events[op.fd], v.events[op.fd];
      && (forall other: nat | other < |w.events| && other != op.fd :: v.events[other] == w.events[other])
      && (op.CreateFile? && (w.epoll ==> op.kernelOk) ==>
            && ge.mask.readable == (fe.mask.readable || op.mask.readable)
            && ge.mask.writable == (fe.mask.writable || op.mask.writable)
            && ge.rproc == (if op.mask.readable then op.proc else fe.rproc)
            && ge.wproc == (if op.mask.writable then op.proc else fe.wproc) && ge.data == op.data
            && (w.epoll ==> v.interest == w.interest[op.fd := ge.mask]))
      && (op.CreateFile? && w.epoll && !op.kernelOk ==> v == w)
      && (op.DeleteFile? && (fe.mask.readable || fe.mask.writable) ==>
            && ge.mask.readable == (fe.mask.readable && !op.mask.readable)
            && ge.mask.writable == (fe.mask.writable && !op.mask.writable)
            && ge.rproc == fe.rproc && ge.wproc == fe.wproc && ge.data == fe.data
            && (w.epoll ==> v.interest == if ge.mask.readable || ge.mask.writable then w.interest[op.fd := ge.mask]
                                          else w.interest - {op.fd}))
      && (op.DeleteFile? && !fe.mask.readable && !fe.mask.writable ==> v == w)
  {
  }

  /** That is what its steps lead to, and they are safe as long as the backend is in step. */
  lemma OpReplays(w: World, op: Op)
    ensures Replay(w, OpSteps(w, op)) == AfterFileOp(w, op)
    ensures Mirrored(w) && op.WellFormed() ==> Safe(w, OpSteps(w, op))
  {
    match op
    case CreateFile(fd, mask, proc, data, kernelOk) => CreateReplays(w, op);
    case DeleteFile(fd, mask) => DeleteReplays(w, fd, mask);
    case _ =>
  }

  lemma CreateReplays(w: World, op: Op)
    requires op.CreateFile?
    ensures Replay(w, OpSteps(w, op)) == AfterFileOp(w, op)
    ensures Mirrored(w) && op.WellFormed() ==> Safe(w, OpSteps(w, op))
  {
    if op.fd < |w.events| {
      var was := w.events[op.fd].mask;
      var reg := Registered(op.fd, op.mask, op.proc, op.data);
      var ctl := Ctl(if was.IsNone() then Add else Mod, op.fd, was.Or(op.mask), !op.kernelOk);
      if w.epoll && op.kernelOk {
        ReplayTwo(w, ctl, reg);
      } else if w.epoll {
        ReplayOne(w, ctl);
        assert [ctl] + [] == [ctl];
      } else {
        ReplayOne(w, reg);
        assert [] + [reg] == [reg];
      }
    }
  }

  lemma DeleteReplays(w: World, fd: nat, mask: Mask)
    ensures var op := DeleteFile(fd, mask);
      Replay(w, OpSteps(w, op)) == AfterFileOp(w, op) && (Mirrored(w) ==> Safe(w, OpSteps(w, op)))
  {
    if fd < |w.events| && !w.events[fd].mask.IsNone() {
      var left := w.events[fd].mask.Without(mask);
      var un, ctl := Unregistered(fd, mask), Ctl(if left.IsNone() then Del else Mod, fd, left, false);
      if w.epoll {
        ReplayTwo(w, un, ctl);
      } else {
        ReplayOne(w, un);
        assert [un] + [] == [un];
      }
    }
  }

  lemma StaysMirrored(w: World, op: Op)
    requires Mirrored(w) && op.WellFormed()
    ensures Mirrored(AfterFileOp(w, op))
  {
  }

  /** Every operation keeps the backend in step with the table and never asks epoll to ADD a known fd or to MOD or DEL
      an unknown one. */
  lemma OpStepsSafe(w: World, op: Op)
    requires Mirrored(w) && op.WellFormed()
    ensures Safe(w, OpSteps(w, op)) && Mirrored(Replay(w, OpSteps(w, op)))
  {
    OpReplays(w, op);
    StaysMirrored(w, op);
  }

  lemma {:induction false} OpsStepsSafe(w: World, ops: seq<Op>)
    requires Mirrored(w) && WellFormedOps(ops)
    ensures Safe(w, OpsSteps(w, ops)) && Mirrored(Replay(w, OpsSteps(w, ops)))
    decreases |ops|
  {
    if ops == [] {
    } else {
      var s := OpSteps(w, ops[0]);
      OpStepsSafe(w, ops[0]);
      OpsStepsSafe(Replay(w, s), ops[1..]);
      Append(w, s, OpsSteps(Replay(w, s), ops[1..]));
    }
  }

  /** A safe history stays one when a legal step is added. */
  lemma StepKeepsHistory(start: World, h: seq<Step>, w: World, s: Step)
    requires Safe(start, h) && Replay(start, h) == w && Legal(w, s)
    ensures Safe(start, h + [s]) && Replay(start, h + [s]) == Apply(w, s)
  {
    ReplayOne(w, s);
    Append(start, h, [s]);
  }

  // ----- dispatch as a history -----

  /** The steps taken for one fired descriptor; `react(k)` is what the k-th handler call does. */
  function ReadSteps(w: World, f: Fired, react: nat -> Reaction, k: nat): seq<Step>
    requires f.fd < |w.events|
  {
    var fe := w.events[f.fd];
    if fe.mask.readable && f.mask.readable
    then [Called(f.fd, Read, fe.rproc, fe.data, f.mask)] + OpsSteps(w, react(k).ops)
    else []
  }

  function WriteSteps(w: World, f: Fired, rfired: bool, react: nat -> Reaction, k: nat): seq<Step>
    requires f.fd < |w.events|
  {
    var fe := w.events[f.fd];
    if fe.mask.writable && f.mask.writable && (!rfired || fe.wproc != fe.rproc)
    then [Called(f.fd, Write, fe.wproc, fe.data, f.mask)] + OpsSteps(w, react(k).ops)
    else []
  }

  function FireSteps(w: World, f: Fired, react: nat -> Reaction, k: nat): (r: (seq<Step>, nat))
    requires f.fd < |w.events|
    ensures k <= r.1 <= k + 2
  {
    var rs := ReadSteps(w, f, react, k);
    var rfired := rs != [];
    var k1 := if rfired then k + 1 else k;
    var ws := WriteSteps(Replay(w, rs), f, rfired, react, k1);
    (rs + ws, if ws != [] then k1 + 1 else k1)
  }

  lemma Associative(g: seq<Step>, h: seq<Step>, i: seq<Step>)
    ensures g + (h + i) == (g + h) + i
  {
  }

  lemma CallSplits(w: World, h: seq<Step>, call: Step, s: seq<Step>)
    requires call.Called?
    ensures h + [call] + s == h + ([call] + s) && Replay(w, [call] + s) == Replay(w, s)
  {
    ReplayOne(w, call);
    Append(w, [call], s);
    Associative(h, [call], s);
  }

  /** The steps of dispatching a poll result, and how many handlers have been called when it ends, `k` of them
      before it. */
  function DispatchRun(w: World, fired: seq<Fired>, react: nat -> Reaction, k: nat): (r: (seq<Step>, nat))
    requires forall i | 0 <= i < |fired| :: fired[i].fd < |w.events|
    ensures k <= r.1
    decreases |fired|
  {
    if fired == [] then ([], k)
    else
      var (s, k1) := FireSteps(w, fired[0], react, k);
      var (t, k2) := DispatchRun(Replay(w, s), fired[1..], react, k1);
      (s + t, k2)
  }

  function DispatchSteps(w: World, fired: seq<Fired>, react: nat -> Reaction, k: nat): seq<Step>
    requires forall i | 0 <= i < |fired| :: fired[i].fd < |w.events|
  {
    DispatchRun(w, fired, react, k).0
  }

  /** What one fired descriptor leads to, spelled out: the read handler when reading is reported and registered, with
      its script; then, on the table that leaves, the write handler when writing is, unless it is the function just
      run. */
  lemma FireSpelledOut(w: World, f: Fired, react: nat -> Reaction, k: nat)
    requires f.fd < |w.events|
    ensures var fe := w.events[f.fd];
      var readNow := fe.mask.readable && f.mask.readable;
      var rs := if readNow then [Called(f.fd, Read, fe.rproc, fe.data, f.mask)] + OpsSteps(w, react(k).ops) else [];
      var v, k1 := Replay(w, rs), if readNow then k + 1 else k;
      var ge := v.events[f.fd];
      var writeNow := ge.mask.writable && f.mask.writable && (!readNow || ge.wproc != ge.rproc);
      var ws := if writeNow then [Called(f.fd, Write, ge.wproc, ge.data, f.mask)] + OpsSteps(v, react(k1).ops) else [];
      FireSteps(w, f, react, k) == (rs + ws, if writeNow then k1 + 1 else k1)
  {
  }

  /** A dispatch goes descriptor by descriptor, in the order reported. */
  lemma DispatchByOne(w: World, f: Fired, react: nat -> Reaction, k: nat)
    requires f.fd < |w.events|
    ensures DispatchRun(w, [], react, k) == ([], k) && DispatchRun(w, [f], react, k) == FireSteps(w, f, react, k)
  {
    assert [f][1..] == [];
    var s := FireSteps(w, f, react, k).0;
    assert s + [] == s;
  }

  lemma {:induction false} DispatchAppend(w: World, a: seq<Fired>, b: seq<Fired>, react: nat -> Reaction, k: nat)
    requires forall i | 0 <= i < |a + b| :: (a + b)[i].fd < |w.events|
    ensures forall i | 0 <= i < |a| :: a[i].fd < |w.events|
    ensures forall i | 0 <= i < |b| :: b[i].fd < |w.events|
    ensures var (s, k1) := DispatchRun(w, a, react, k);
      var (t, k2) := DispatchRun(Replay(w, s), b, react, k1);
      DispatchRun(w, a + b, react, k) == (s + t, k2)
    decreases |a|
  {
    assert forall i | 0 <= i < |b| :: b[i] == (a + b)[|a|+i];
    assert forall i | 0 <= i < |a| :: a[i] == (a + b)[i];
    if a == [] {
      assert a + b == b;
      var t := DispatchRun(w, b, react, k).0;
      assert [] + t == t;
    } else {
      var (s, k1) := FireSteps(w, a[0], react, k);
      var v := Replay(w, s);
      assert (a + b)[1..] == a[1..] + b;
      DispatchAppend(v, a[1..], b, react, k1);
      var (t, k2) := DispatchRun(v, a[1..], react, k1);
      Append(w, s, t);
      Associative(s, t, DispatchRun(Replay(v, t), b, react, k2).0);
    }
  }

  /** Where a dispatch stands: the state, the history and the number of handlers called. */
  datatype Stage = Stage(w: World, h: seq<Step>, k: nat)

  /** The stage after one more descriptor. */
  function Advance(m: Stage, f: Fired, react: nat -> Reaction): Stage
    requires f.fd < |m.w.events|
  {
    var (s, k) := FireSteps(m.w, f, react, m.k);
    Stage(Replay(m.w, s), m.h + s, k)
  }

  predicate Follows(path: seq<Stage>, fired: seq<Fired>, react: nat -> Reaction, i: nat)
    requires |path| == |fired| + 1 && i < |fired|
  {
    fired[i].fd < |path[i].w.events| && path[i+1] == Advance(path[i], fired[i], react)
  }

  /** The stages of a dispatch, one descriptor after the other. */
  predicate Path(path: seq<Stage>, fired: seq<Fired>, react: nat -> Reaction) {
    |path| == |fired| + 1 && forall i | 0 <= i < |fired| :: Follows(path, fired, react, i)
  }

  lemma PathCons(path: seq<Stage>, fired: seq<Fired>, react: nat -> Reaction)
    requires |path| == |fired| + 1 && fired != [] && Follows(path, fired, react, 0)
    requires Path(path[1..], fired[1..], react)
    ensures Path(path, fired, react)
  {
    forall i | 0 <= i < |fired| ensures Follows(path, fired, react, i) {
      if i > 0 {
        assert Follows(path[1..], fired[1..], react, i - 1);
        SameFollows(path[1..], fired[1..], i - 1, path, fired, i, react);
      }
    }
  }

  lemma SameFollows(path: seq<Stage>, fired: seq<Fired>, i: nat, path': seq<Stage>, fired': seq<Fired>, j: nat,
                    react: nat -> Reaction)
    requires |path| == |fired| + 1 && i < |fired| && |path'| == |fired'| + 1 && j < |fired'|
    requires path[i] == path'[j] && path[i+1] == path'[j+1] && fired[i] == fired'[j] && Follows(path, fired, react, i)
    ensures Follows(path', fired', react, j)
  {
  }

  /** The run from the next stage completes the run from this one. */
  lemma RunFromNext(m: Stage, fired: seq<Fired>, react: nat -> Reaction)
    requires fired != [] && forall i | 0 <= i < |fired| :: fired[i].fd < |m.w.events|
    ensures var n := Advance(m, fired[0], react);
      |n.w.events| == |m.w.events| && LastStage(m, fired, react) == LastStage(n, fired[1..], react)
  {
    var n := Advance(m, fired[0], react);
    var s, t := FireSteps(m.w, fired[0], react, m.k).0, DispatchRun(n.w, fired[1..], react, n.k).0;
    Append(m.w, s, t);
    Associative(m.h, s, t);
  }

  /** Where the whole dispatch ends. */
  function LastStage(m: Stage, fired: seq<Fired>, react: nat -> Reaction): Stage
    requires forall i | 0 <= i < |fired| :: fired[i].fd < |m.w.events|
  {
    var (s, k) := DispatchRun(m.w, fired, react, m.k);
    Stage(Replay(m.w, s), m.h + s, k)
  }

  lemma NoPath(m: Stage, react: nat -> Reaction)
    ensures Path([m], [], react) && LastStage(m, [], react) == m
  {
    assert m.h + [] == m.h;
  }

  /** Going from stage to stage ends where the whole dispatch ends. */
  lemma PathOf(m: Stage, fired: seq<Fired>, react: nat -> Reaction) returns (path: seq<Stage>)
    requires forall i | 0 <= i < |fired| :: fired[i].fd < |m.w.events|
    ensures Path(path, fired, react) && path[0] == m && path[|fired|] == LastStage(m, fired, react)
  {
    path := PathFrom(m, fired, react);
    PathEnds(path, fired, react);
  }

  lemma {:induction false} PathFrom(m: Stage, fired: seq<Fired>, react: nat -> Reaction) returns (path: seq<Stage>)
    requires forall i | 0 <= i < |fired| :: fired[i].fd < |m.w.events|
    ensures Path(path, fired, react) && path[0] == m
    decreases |fired|
  {
    if fired == [] {
      path := [m];
    } else {
      RunFromNext(m, fired, react);
      var rest := PathFrom(Advance(m, fired[0], react), fired[1..], react);
      path := [m] + rest;
      assert path[1..] == rest && Follows(path, fired, react, 0);
      PathCons(path, fired, react);
    }
  }

  lemma {:induction false} PathEnds(path: seq<Stage>, fired: seq<Fired>, react: nat -> Reaction)
    requires Path(path, fired, react) && forall i | 0 <= i < |fired| :: fired[i].fd < |path[0].w.events|
    ensures path[|fired|] == LastStage(path[0], fired, react)
    decreases |fired|
  {
    if fired == [] {
      NoPath(path[0], react);
    } else {
      assert Follows(path, fired, react, 0);
      RunFromNext(path[0], fired, react);
      PathTail(path, fired, react);
      PathEnds(path[1..], fired[1..], react);
    }
  }

  lemma PathTail(path: seq<Stage>, fired: seq<Fired>, react: nat -> Reaction)
    requires fired != [] && Path(path, fired, react)
    ensures Path(path[1..], fired[1..], react)
  {
    forall i | 0 <= i < |fired| - 1 ensures Follows(path[1..], fired[1..], react, i) {
      assert Follows(path, fired, react, i + 1);
      SameFollows(path, fired, i + 1, path[1..], fired[1..], i, react);
    }
  }

  ghost predicate WellFormedReactions(react: nat -> Reaction) {
    forall k :: WellFormedOps(react(k).ops)
  }

  lemma CalledThenOps(w: World, c: Step, ops: seq<Op>)
    requires Mirrored(w) && c.Called? && Legal(w, c) && WellFormedOps(ops)
    ensures var s := [c] + OpsSteps(w, ops); Safe(w, s) && Mirrored(Replay(w, s))
  {
    OpsStepsSafe(w, ops);
    ReplayOne(w, c);
    Append(w, [c], OpsSteps(w, ops));
  }

  lemma ReadSafe(w: World, f: Fired, react: nat -> Reaction, k: nat)
    requires Mirrored(w) && f.fd < |w.events| && WellFormedReactions(react)
    ensures var s := ReadSteps(w, f, react, k); Safe(w, s) && Mirrored(Replay(w, s))
  {
    var fe := w.events[f.fd];
    if fe.mask.readable && f.mask.readable {
      CalledThenOps(w, Called(f.fd, Read, fe.rproc, fe.data, f.mask), react(k).ops);
    }
  }

  lemma WriteSafe(w: World, f: Fired, rfired: bool, react: nat -> Reaction, k: nat)
    requires Mirrored(w) && f.fd < |w.events| && WellFormedReactions(react)
    ensures var s := WriteSteps(w, f, rfired, react, k); Safe(w, s) && Mirrored(Replay(w, s))
  {
    var fe := w.events[f.fd];
    if fe.mask.writable && f.mask.writable && (!rfired || fe.wproc != fe.rproc) {
      CalledThenOps(w, Called(f.fd, Write, fe.wproc, fe.data, f.mask), react(k).ops);
    }
  }

  lemma FireSafe(w: World, f: Fired, react: nat -> Reaction, k: nat)
    requires Mirrored(w) && f.fd < |w.events| && WellFormedReactions(react)
    ensures var s := FireSteps(w, f, react, k).0; Safe(w, s) && Mirrored(Replay(w, s))
  {
    var rs := ReadSteps(w, f, react, k);
    var k1 := if rs != [] then k + 1 else k;
    ReadSafe(w, f, react, k);
    WriteSafe(Replay(w, rs), f, rs != [], react, k1);
    Append(w, rs, WriteSteps(Replay(w, rs), f, rs != [], react, k1));
  }

  /** Whatever the handlers do to the registrations meanwhile, dispatching a poll result is safe. */
  lemma {:induction false} DispatchSafe(w: World, fired: seq<Fired>, react: nat -> Reaction, k: nat)
    requires Mirrored(w) && WellFormedReactions(react)
    requires forall i | 0 <= i < |fired| :: fired[i].fd < |w.events|
    ensures var s := DispatchSteps(w, fired, react, k); Safe(w, s) && Mirrored(Replay(w, s))
    decreases |fired|
  {
    if fired == [] {
    } else {
      var (s, k1) := FireSteps(w, fired[0], react, k);
      FireSafe(w, fired[0], react, k);
      DispatchSafe(Replay(w, s), fired[1..], react, k1);
      Append(w, s, DispatchSteps(Replay(w, s), fired[1..], react, k1));
    }
  }

  // ----- what safety means without replaying -----

  /** A step that decides which handler, if any, stands for the direction on the fd. */
  predicate Touches(s: Step, fd: nat, d: Dir) {
    (s.Registered? || s.Unregistered?) && s.fd == fd && Has(s.mask, d)
  }

  /** A direction that stands registered was registered at some step and touched by none since. */
  lemma {:induction false} Origin(w: World, h: seq<Step>, fd: nat, d: Dir) returns (j: nat)
    requires fd < |w.events| && !Has(w.events[fd].mask, d)
    requires Has(Replay(w, h).events[fd].mask, d)
    ensures j < |h| && h[j].Registered? && Touches(h[j], fd, d) && h[j].proc == Proc(Replay(w, h).events[fd], d)
    ensures forall i | j < i < |h| :: !Touches(h[i], fd, d)
    decreases |h|
  {
    var last := h[|h|-1];
    if last.Registered? && Touches(last, fd, d) {
      j := |h| - 1;
    } else {
      j := Origin(w, h[..|h|-1], fd, d);
    }
  }

  /** In any safe run from an empty table, every handler call is answered by a registration of that very handler for
      that direction and descriptor, with no deletion and no re-registration of the direction in between. */
  lemma {:induction false} CallsHaveStandingRegistrations(w: World, h: seq<Step>, i: nat) returns (j: nat)
    requires Safe(w, h) && i < |h| && h[i].Called?
    requires forall fd: nat | fd < |w.events| :: w.events[fd].mask.IsNone()
    ensures j < i && h[j].Registered? && Touches(h[j], h[i].fd, h[i].dir) && h[j].proc == h[i].proc
    ensures forall m | j < m < i :: !Touches(h[m], h[i].fd, h[i].dir)
    ensures Has(h[i].reported, h[i].dir)
    decreases |h|
  {
    if i < |h| - 1 {
      j := CallsHaveStandingRegistrations(w, h[..|h|-1], i);
    } else {
      j := Origin(w, h[..|h|-1], h[i].fd, h[i].dir);
    }
  }

  /** The client data on record for a descriptor is that of its last registration, in whatever direction. */
  lemma {:induction false} DataOrigin(w: World, h: seq<Step>, fd: nat) returns (j: nat)
    requires fd < |w.events| && w.events[fd].mask.IsNone()
    requires !Replay(w, h).events[fd].mask.IsNone()
    ensures j < |h| && h[j].Registered? && h[j].fd == fd && h[j].data == Replay(w, h).events[fd].data
    ensures forall i | j < i < |h| :: !(h[i].Registered? && h[i].fd == fd)
    decreases |h|
  {
    var last := h[|h|-1];
    if last.Registered? && last.fd == fd {
      j := |h| - 1;
    } else {
      j := DataOrigin(w, h[..|h|-1], fd);
    }
  }

  /** A handler is given the client data of the last registration of its descriptor, which need not be the
      registration that the handler itself comes from. */
  lemma {:induction false} CallsCarryLastData(w: World, h: seq<Step>, i: nat) returns (j: nat)
    requires Safe(w, h) && i < |h| && h[i].Called?
    requires forall fd: nat | fd < |w.events| :: w.events[fd].mask.IsNone()
    ensures j < i && h[j].Registered? && h[j].fd == h[i].fd && h[j].data == h[i].data
    ensures forall m | j < m < i :: !(h[m].Registered? && h[m].fd == h[i].fd)
    decreases |h|
  {
    if i < |h| - 1 {
      j := CallsCarryLastData(w, h[..|h|-1], i);
    } else {
      j := DataOrigin(w, h[..|h|-1], h[i].fd);
    }
  }
}
