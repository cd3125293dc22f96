/** The table of file events with its cached maximum descriptor and its polling backend (ae.c, ae_epoll.c,
    ae_select.c). */
module FileTable {
  import opened EventTypes
  import opened FileRuns

  /** `apidata`: epoll keeps the kernel's interest set, select two descriptor sets. */
  datatype ApiState =
    | Epoll(interest: map<nat, Mask>)
    | Select(rfds: set<nat>, wfds: set<nat>)

  /** `m` is the largest registered descriptor, or -1 when there is none. */
  predicate IsMaxFd(evs: seq<FileEvent>, m: int) {
    && -1 <= m < |evs|
    && (m >= 0 ==> !evs[m].mask.IsNone())
    && forall fd | m < fd < |evs| :: evs[fd].mask.IsNone()
  }

  /** The backend state says exactly what the masks say. */
  ghost predicate Mirrors(api: ApiState, evs: seq<FileEvent>) {
    match api
    case Epoll(interest) => Mirrored(World(evs, true, interest))
    case Select(rfds, wfds) =>
      && rfds == (set fd: nat | fd < |evs| && evs[fd].mask.readable)
      && wfds == (set fd: nat | fd < |evs| && evs[fd].mask.writable)
  }

  // ----- polling -----

  /** One entry of the array epoll_wait fills. */
  datatype EpollEvent = EpollEvent(fd: nat, input: bool, output: bool, error: bool, hangup: bool)

  /** What the kernel answers to epoll_wait or select; a timeout is an empty answer. */
  datatype KernelAnswer =
    | EpollReady(ready: seq<EpollEvent>)
    | SelectReady(r: set<nat>, w: set<nat>)

  /** What the two system calls promise: nothing outside what was asked for, no descriptor twice, and at most
      `setsize` entries; errors and hang-ups are always reported. */
  ghost predicate KernelContract(api: ApiState, setsize: nat, answer: KernelAnswer) {
    match answer
    case EpollReady(ready) =>
      && api.Epoll? && |ready| <= setsize
      && (forall i, j | 0 <= i < j < |ready| :: ready[i].fd != ready[j].fd)
      && (forall i | 0 <= i < |ready| ::
            && ready[i].fd in api.interest
            && (ready[i].input ==> api.interest[ready[i].fd].readable)
            && (ready[i].output ==> api.interest[ready[i].fd].writable))
    case SelectReady(r, w) => api.Select? && r <= api.rfds && w <= api.wfds
  }

  function FromEpoll(e: EpollEvent): Fired {
    Fired(e.fd, Mask(e.input, e.output || e.error || e.hangup))
  }

  /** select's entries for the descriptors below `upto`: one for every registered descriptor, ready or not. */
  function SelectFired(evs: seq<FileEvent>, upto: nat, r: set<nat>, w: set<nat>): (f: seq<Fired>)
    requires upto <= |evs|
    ensures |f| <= upto
    ensures forall i | 0 <= i < |f| :: f[i].fd < upto && !evs[f[i].fd].mask.IsNone()
    ensures forall i, j | 0 <= i < j < |f| :: f[i].fd < f[j].fd
  {
    if upto == 0 then []
    else
      var j := upto - 1;
      var m := evs[j].mask;
      SelectFired(evs, j, r, w)
      + (if m.IsNone() then [] else [Fired(j, Mask(m.readable && j in r, m.writable && j in w))])
  }

  function PollResult(evs: seq<FileEvent>, maxfd: int, answer: KernelAnswer): (f: seq<Fired>)
    requires -1 <= maxfd < |evs|
  {
    match answer
    case EpollReady(ready) => seq(|ready|, i requires 0 <= i < |ready| => FromEpoll(ready[i]))
    case SelectReady(r, w) => if r == {} && w == {} then [] else SelectFired(evs, maxfd + 1, r, w)
  }

  /** A poll result fits `fired[]`, names only registered descriptors, and names none twice. */
  lemma PollResultFits(evs: seq<FileEvent>, maxfd: int, api: ApiState, answer: KernelAnswer)
    requires IsMaxFd(evs, maxfd) && Mirrors(api, evs) && KernelContract(api, |evs|, answer)
    ensures var f := PollResult(evs, maxfd, answer);
      && |f| <= |evs|
      && (forall i | 0 <= i < |f| :: f[i].fd < |evs| && !evs[f[i].fd].mask.IsNone())
      && (forall i, j | 0 <= i < j < |f| :: f[i].fd != f[j].fd)
  {
  }

  // ----- the table as a value -----

  datatype Table = Table(evs: seq<FileEvent>, api: ApiState, maxfd: int) {
    /** The invariant of the loop: `maxfd` is exact and the backend mirrors the masks. */
    ghost predicate Good() {
      IsMaxFd(evs, maxfd) && Mirrors(api, evs)
    }

    function TheWorld(): World {
      World(evs, api.Epoll?, if api.Epoll? then api.interest else map[])
    }
  }

  function Only(b: bool, fd: nat): set<nat> {
    if b then {fd} else {}
  }

  function ApiAdd(api: ApiState, fd: nat, was: Mask, mask: Mask): ApiState {
    match api
    case Epoll(interest) => Epoll(interest[fd := was.Or(mask)])
    case Select(rfds, wfds) => Select(rfds + Only(mask.readable, fd), wfds + Only(mask.writable, fd))
  }

  function ApiDel(api: ApiState, fd: nat, left: Mask, delmask: Mask): ApiState {
    match api
    case Epoll(interest) => Epoll(if left.IsNone() then interest - {fd} else interest[fd := left])
    case Select(rfds, wfds) => Select(rfds - Only(delmask.readable, fd), wfds - Only(delmask.writable, fd))
  }

  /** The largest registered descriptor below `n`, or -1. */
  function HighestBelow(evs: seq<FileEvent>, n: nat): (m: int)
    requires n <= |evs|
    ensures -1 <= m < n && (m >= 0 ==> !evs[m].mask.IsNone())
    ensures forall fd | m < fd < n :: evs[fd].mask.IsNone()
  {
    if n == 0 then -1
    else if evs[n-1].mask.IsNone() then HighestBelow(evs, n - 1)
    else n - 1
  }

  /** The state after aeCreateFileEvent. */
  function Created(t: Table, op: Op): Table
    requires op.CreateFile?
  {
    if !Accepted(op, |t.evs|, t.api.Epoll?) then t
    else
      var fe := t.evs[op.fd];
      Table(t.evs[op.fd := Register(fe, op.mask, op.proc, op.data)],
            ApiAdd(t.api, op.fd, fe.mask, op.mask),
            if op.fd > t.maxfd then op.fd else t.maxfd)
  }

  /** The state after aeDeleteFileEvent. */
  function Deleted(t: Table, fd: nat, mask: Mask): Table
    requires -1 <= t.maxfd < |t.evs|
  {
    if fd >= |t.evs| || t.evs[fd].mask.IsNone() then t
    else
      var left := t.evs[fd].mask.Without(mask);
      Table(t.evs[fd := t.evs[fd].(mask := left)],
            ApiDel(t.api, fd, left, mask),
            if fd == t.maxfd && left.IsNone() then HighestBelow(t.evs, fd) else t.maxfd)
  }

  lemma CreatedGood(t: Table, op: Op)
    requires t.Good() && op.CreateFile? && op.WellFormed()
    ensures Created(t, op).Good()
    ensures Created(t, op).TheWorld() == Replay(t.TheWorld(), OpSteps(t.TheWorld(), op))
  {
    CreatedKeeps(t, op);
    OpReplays(t.TheWorld(), op);
  }

  lemma CreatedKeeps(t: Table, op: Op)
    requires t.Good() && op.CreateFile? && op.WellFormed()
    ensures Created(t, op).Good()
  {
  }

  lemma DeletedGood(t: Table, fd: nat, mask: Mask)
    requires t.Good() && !mask.IsNone()
    ensures Deleted(t, fd, mask).Good()
    ensures Deleted(t, fd, mask).TheWorld() == Replay(t.TheWorld(), OpSteps(t.TheWorld(), DeleteFile(fd, mask)))
  {
    DeletedKeeps(t, fd, mask);
    OpReplays(t.TheWorld(), DeleteFile(fd, mask));
  }

  lemma DeletedKeeps(t: Table, fd: nat, mask: Mask)
    requires t.Good() && !mask.IsNone()
    ensures Deleted(t, fd, mask).Good()
  {
  }

  class FileTable {
    const events: array<FileEvent>
    const fired: array<Fired>
    var maxfd: int
    var api: ApiState
    ghost const start: World
    ghost var history: seq<Step>

    ghost predicate Valid()
      reads this, events
    {
      && fired.Length == events.Length
      && Abs().Good()
      && Logged()
      && forall fd: nat | fd < |start.events| :: start.events[fd].mask.IsNone()
    }

    /** The history is safe and leads to the present state: this holds between any two steps. */
    ghost predicate Logged()
      reads this, events
    {
      Safe(start, history) && Replay(start, history) == Abs().TheWorld()
    }

    ghost function Abs(): Table
      reads this, events
    {
      Table(events[..], api, maxfd)
    }

    /** aeCreateEventLoop and aeApiCreate: malloc leaves `garbage` in the table, the loop clears the masks. */
    constructor (setsize: nat, epoll: bool, garbage: FileEvent)
      ensures Valid() && fresh(events) && fresh(fired) && history == []
      ensures events.Length == setsize && api.Epoll? == epoll && maxfd == -1
      ensures forall fd: nat | fd < setsize :: events[fd].mask.IsNone()
    {
      var table := new FileEvent[setsize](_ => garbage);
      for i := 0 to setsize
        invariant forall j: nat | j < i :: table[j].mask.IsNone()
      {
        table[i] := table[i].(mask := NONE);
      }
      events := table;
      fired := new Fired[setsize](_ => Fired(0, NONE));
      maxfd := -1;
      api := if epoll then Epoll(map[]) else Select({}, {});
      history := [];
      start := World(table[..], epoll, map[]);
    }

    /** Puts the step that has just been taken on record: it was legal where the history stood, and the state is what
        the step makes of that. */
    ghost method Record(step: Step, before: World)
      requires Safe(start, history) && Replay(start, history) == before
      requires Legal(before, step) && Abs().TheWorld() == Apply(before, step)
      modifies this`history
      ensures Logged() && history == old(history) + [step]
    {
      var longer := history + [step];
      StepKeepsHistory(start, history, before, step);
      assert Safe(start, longer) && Replay(start, longer) == Abs().TheWorld();
      history := longer;
      assert Abs() == old(Abs());
    }

    /** epoll_ctl: the caller answers for its being legal, the kernel for the rest. */
    method EpollCtl(op: CtlOp, fd: nat, mask: Mask, accepted: bool) returns (r: int)
      requires Logged() && api.Epoll? && Legal(Abs().TheWorld(), Ctl(op, fd, mask, !accepted))
      requires op == Add <==> fd !in api.interest
      modifies this`api, this`history
      ensures Logged() && history == old(history) + [Ctl(op, fd, mask, !accepted)]
      ensures r == if accepted then 0 else -1
      ensures accepted ==> api == Epoll(if op == Del then old(api).interest - {fd} else old(api).interest[fd := mask])
      ensures !accepted ==> api == old(api)
    {
      ghost var before := Abs().TheWorld();
      if accepted {
        api := Epoll(if op == Del then api.interest - {fd} else api.interest[fd := mask]);
      }
      Record(Ctl(op, fd, mask, !accepted), before);
      return if accepted then 0 else -1;
    }

    /** aeApiAddEvent: epoll needs ADD for a descriptor without a mask and MOD for another. */
    method ApiAddEvent(fd: nat, mask: Mask, kernelOk: bool) returns (ok: bool)
      requires Logged() && fd < events.Length
      requires api.Epoll? ==> (fd in api.interest <==> !events[fd].mask.IsNone())
      modifies this`api, this`history
      ensures Logged() && ok == (old(api).Epoll? ==> kernelOk)
      ensures api == if ok then ApiAdd(old(api), fd, events[fd].mask, mask) else old(api)
      ensures history == old(history) + AddCtl(old(Abs()).TheWorld(), fd, mask, kernelOk)
    {
      match api
      case Epoll(_) =>
        var op := if events[fd].mask.IsNone() then Add else Mod;
        var r := EpollCtl(op, fd, events[fd].mask.Or(mask), kernelOk);
        return r != -1;
      case Select(rfds, wfds) =>
        var r, w := rfds, wfds;
        if mask.readable { r := r + {fd}; }
        if mask.writable { w := w + {fd}; }
        api := Select(r, w);
        return true;
    }

    /** aeApiDelEvent; the table already holds the reduced mask. epoll needs MOD while something is left of it and DEL
        when nothing is. */
    method ApiDelEvent(fd: nat, delmask: Mask)
      requires Logged() && fd < events.Length && (api.Epoll? ==> fd in api.interest)
      modifies this`api, this`history
      ensures Logged() && api == ApiDel(old(api), fd, events[fd].mask.Without(delmask), delmask)
      ensures history == old(history) + DelCtl(old(Abs()).TheWorld(), fd, events[fd].mask.Without(delmask))
    {
      match api
      case Epoll(_) =>
        var mask := events[fd].mask.Without(delmask);
        if !mask.IsNone() {
          var _ := EpollCtl(Mod, fd, mask, true);
        } else {
          var _ := EpollCtl(Del, fd, mask, true);
        }
      case Select(rfds, wfds) =>
        var r, w := rfds, wfds;
        if delmask.readable { r := r - {fd}; }
        if delmask.writable { w := w - {fd}; }
        api := Select(r, w);
    }

    /** aeCreateFileEvent */
    method CreateFileEvent(fd: nat, mask: Mask, proc: int, data: int, kernelOk: bool) returns (r: int)
      requires Valid() && !mask.IsNone()
      modifies this`api, this`history, this`maxfd, events
      ensures Valid()
      ensures var op := CreateFile(fd, mask, proc, data, kernelOk);
        && r == (if Accepted(op, events.Length, old(api).Epoll?) then AE_OK else AE_ERR)
        && Abs() == Created(old(Abs()), op)
        && history == old(history) + OpSteps(old(Abs()).TheWorld(), op)
      ensures r == if fd < events.Length && (old(api).Epoll? ==> kernelOk) then 0 else -1
      ensures r == -1 ==> events[..] == old(events[..])
      ensures r == 0 ==> var fe := old(events[fd]);
        && events[fd].mask.readable == (fe.mask.readable || mask.readable)
        && events[fd].mask.writable == (fe.mask.writable || mask.writable)
        && events[fd].rproc == (if mask.readable then proc else fe.rproc)
        && events[fd].wproc == (if mask.writable then proc else fe.wproc) && events[fd].data == data
      ensures forall other: nat {:trigger events[other]} | other < events.Length && other != fd ::
        events[other] == old(events[other])
      ensures -1 <= maxfd < events.Length
      ensures maxfd >= 0 ==> events[maxfd].mask.readable || events[maxfd].mask.writable
      ensures forall j | maxfd < j < events.Length :: !events[j].mask.readable && !events[j].mask.writable
    {
      CreatedKeeps(Abs(), CreateFile(fd, mask, proc, data, kernelOk));
      assert history + [] == history;
      if fd >= events.Length {
        return AE_ERR;
      }
      var ok := AddAndSet(fd, mask, proc, data, kernelOk);
      if !ok {
        return AE_ERR;
      }
      if fd > maxfd {
        maxfd := fd;
      }
      return AE_OK;
    }

    /** The backend is asked first; the slot is written when it agrees. */
    method AddAndSet(fd: nat, mask: Mask, proc: int, data: int, kernelOk: bool) returns (ok: bool)
      requires Logged() && fd < events.Length && !mask.IsNone()
      requires api.Epoll? ==> (fd in api.interest <==> !events[fd].mask.IsNone())
      modifies this`api, this`history, events
      ensures Logged() && ok == (old(api).Epoll? ==> kernelOk)
      ensures history == old(history) + OpSteps(old(Abs()).TheWorld(), CreateFile(fd, mask, proc, data, kernelOk))
      ensures !ok ==> Abs() == old(Abs())
      ensures ok ==> api == ApiAdd(old(api), fd, old(events[fd].mask), mask)
      ensures ok ==> events[..] == old(events[..])[fd := Register(old(events[fd]), mask, proc, data)]
    {
      ghost var ctl := AddCtl(Abs().TheWorld(), fd, mask, kernelOk);
      Associative(history, ctl, [Registered(fd, mask, proc, data)]);
      assert ctl + [] == ctl;
      ok := ApiAddEvent(fd, mask, kernelOk);
      if ok {
        SetMask(fd, mask, proc, data);
      }
    }

    /** The registration proper: `fe->mask |= mask`, the handlers of the directions in it, and the client data. */
    method SetMask(fd: nat, mask: Mask, proc: int, data: int)
      requires Logged() && fd < events.Length && !mask.IsNone()
      modifies this`history, events
      ensures Logged() && history == old(history) + [Registered(fd, mask, proc, data)]
      ensures events[..] == old(events[..])[fd := Register(old(events[fd]), mask, proc, data)]
    {
      ghost var before := Abs().TheWorld();
      var fe := events[fd];
      var rproc := if mask.readable then proc else fe.rproc;
      var wproc := if mask.writable then proc else fe.wproc;
      events[fd] := FileEvent(fe.mask.Or(mask), rproc, wproc, data);
      Record(Registered(fd, mask, proc, data), before);
    }

    /** aeDeleteFileEvent */
    method DeleteFileEvent(fd: nat, mask: Mask)
      requires Valid() && !mask.IsNone()
      modifies this`api, this`history, this`maxfd, events
      ensures Valid()
      ensures Abs() == Deleted(old(Abs()), fd, mask)
      ensures history == old(history) + OpSteps(old(Abs()).TheWorld(), DeleteFile(fd, mask))
      ensures fd < events.Length ==> var fe := old(events[fd]);
        && events[fd].mask.readable == (fe.mask.readable && !mask.readable)
        && events[fd].mask.writable == (fe.mask.writable && !mask.writable)
        && events[fd].rproc == fe.rproc && events[fd].wproc == fe.wproc && events[fd].data == fe.data
      ensures forall other: nat {:trigger events[other]} | other < events.Length && other != fd ::
        events[other] == old(events[other])
      ensures -1 <= maxfd < events.Length
      ensures maxfd >= 0 ==> events[maxfd].mask.readable || events[maxfd].mask.writable
      ensures forall j | maxfd < j < events.Length :: !events[j].mask.readable && !events[j].mask.writable
    {
      DeletedKeeps(Abs(), fd, mask);
      assert history + [] == history;
      if fd >= events.Length {
        return;
      }
      if events[fd].mask.IsNone() {
        return;
      }
      ClearAndForget(fd, mask);
    }

    /** The mask is cleared, maxfd lowered if need be, and the backend told. */
    method ClearAndForget(fd: nat, mask: Mask)
      requires Valid() && fd < events.Length && !events[fd].mask.IsNone() && !mask.IsNone()
      modifies this`api, this`history, this`maxfd, events
      ensures Logged() && Abs() == Deleted(old(Abs()), fd, mask)
      ensures history == old(history) + OpSteps(old(Abs()).TheWorld(), DeleteFile(fd, mask))
      ensures events[..] == old(events[..])[fd := Unregister(old(events[fd]), mask)]
    {
      ghost var was, w := events[..], Abs().TheWorld();
      Associative(history, [Unregistered(fd, mask)], DelCtl(w, fd, events[fd].mask.Without(mask)));
      ClearMask(fd, mask);
      if fd == maxfd && events[fd].mask.IsNone() {
        LowerMaxFd(was);
      }
      ApiDelEvent(fd, mask);
    }

    /** `fe->mask = fe->mask & (~mask)` */
    method ClearMask(fd: nat, mask: Mask)
      requires Logged() && fd < events.Length
      modifies this`history, events
      ensures Logged() && history == old(history) + [Unregistered(fd, mask)]
      ensures events[..] == old(events[..])[fd := Unregister(old(events[fd]), mask)]
    {
      ghost var before := Abs().TheWorld();
      events[fd] := events[fd].(mask := events[fd].mask.Without(mask));
      Record(Unregistered(fd, mask), before);
    }

    /** The scan for the largest descriptor left below maxfd; `was` is the table, as far as those below go. */
    method LowerMaxFd(ghost was: seq<FileEvent>)
      requires 0 <= maxfd < events.Length == |was| && forall fd | 0 <= fd < maxfd :: was[fd] == events[fd]
      modifies this`maxfd
      ensures maxfd == HighestBelow(was, old(maxfd))
    {
      var j := maxfd - 1;
      while j >= 0 && events[j].mask.IsNone()
        invariant -1 <= j < maxfd
        invariant HighestBelow(was, maxfd) == HighestBelow(was, j + 1)
      {
        j := j - 1;
      }
      maxfd := j;
    }

    /** Puts the call of a handler or of a timer's callback on record. */
    ghost method LogCall(call: Step)
      requires Valid() && (call.Called? || call.Ticked?) && Legal(Abs().TheWorld(), call)
      modifies this`history
      ensures Valid() && history == old(history) + [call]
    {
      Record(call, Abs().TheWorld());
    }

    /** aeApiPoll: fills `fired[]` from the kernel's answer. */
    method ApiPoll(answer: KernelAnswer) returns (numevents: nat)
      requires Valid() && KernelContract(api, events.Length, answer)
      modifies fired
      ensures Valid() && Abs() == old(Abs())
      ensures numevents == |PollResult(events[..], maxfd, answer)| <= fired.Length
      ensures forall i | 0 <= i < numevents :: fired[i] == PollResult(events[..], maxfd, answer)[i]
    {
      match answer
      case EpollReady(ready) => numevents := ApiPollEpoll(ready);
      case SelectReady(r, w) => numevents := ApiPollSelect(r, w);
      assert fired[..numevents] == PollResult(events[..], maxfd, answer);
      assert forall i | 0 <= i < numevents :: fired[i] == fired[..numevents][i];
    }

    method ApiPollEpoll(ready: seq<EpollEvent>) returns (numevents: nat)
      requires fired.Length >= |ready|
      modifies fired
      ensures numevents == |ready|
      ensures fired[..numevents] == seq(|ready|, i requires 0 <= i < |ready| => FromEpoll(ready[i]))
      ensures forall i | 0 <= i < |ready| ::
        && fired[i].fd == ready[i].fd && fired[i].mask.readable == ready[i].input
        && fired[i].mask.writable == (ready[i].output || ready[i].error || ready[i].hangup)
    {
      numevents := 0;
      while numevents < |ready|
        invariant numevents <= |ready|
        invariant forall i | 0 <= i < numevents :: fired[i] == FromEpoll(ready[i])
      {
        var e := ready[numevents];
        var mask := NONE;
        if e.input { mask := mask.Or(READABLE); }
        if e.output { mask := mask.Or(WRITABLE); }
        if e.error { mask := mask.Or(WRITABLE); }
        if e.hangup { mask := mask.Or(WRITABLE); }
        fired[numevents] := Fired(e.fd, mask);
        numevents := numevents + 1;
      }
    }

    method ApiPollSelect(r: set<nat>, w: set<nat>) returns (numevents: nat)
      requires -1 <= maxfd < events.Length && fired.Length == events.Length
      modifies fired
      ensures numevents <= fired.Length
      ensures fired[..numevents] == PollResult(events[..], maxfd, SelectReady(r, w))
      ensures r == {} && w == {} ==> numevents == 0
    {
      numevents := 0;
      if r == {} && w == {} {
        return;
      }
      ghost var evs := events[..];
      for j := 0 to maxfd + 1
        invariant numevents <= j && events[..] == evs
        invariant fired[..numevents] == SelectFired(evs, j, r, w)
      {
        var fe := events[j];
        if fe.mask.IsNone() { continue; }
        var mask := NONE;
        if fe.mask.readable && j in r { mask := mask.Or(READABLE); }
        if fe.mask.writable && j in w { mask := mask.Or(WRITABLE); }
        ghost var before := fired[..numevents];
        fired[numevents] := Fired(j, mask);
        numevents := numevents + 1;
        assert fired[..numevents] == before + [Fired(j, mask)];
      }
    }
  }
}
