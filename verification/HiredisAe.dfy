/** The adapter that drives the event loop from a hiredis connection (hiredis_ae.h). */
module HiredisAe {
  import opened EventTypes
  import opened FileRuns
  import opened FileTable
  import opened EventLoop

  const READ_EVENT := 1   // redisAeReadEvent
  const WRITE_EVENT := 2  // redisAeWriteEvent
  const REDIS_OK := 0
  const REDIS_ERR := -1

  /** The four hooks the library calls. */
  datatype Hook = AddRead | DelRead | AddWrite | DelWrite

  /** The flags of one connection, and what a hook makes of them. */
  datatype Wants = Wants(reading: bool, writing: bool)

  function After(f: Wants, h: Hook): Wants {
    match h
    case AddRead => f.(reading := true)
    case DelRead => f.(reading := false)
    case AddWrite => f.(writing := true)
    case DelWrite => f.(writing := false)
  }

  /** One slot agrees with the flags of the connection `id`: same directions, the adapter's handlers, its own data. */
  predicate Agrees(fe: FileEvent, f: Wants, id: int) {
    && fe.mask == Mask(f.reading, f.writing)
    && (f.reading ==> fe.rproc == READ_EVENT)
    && (f.writing ==> fe.wproc == WRITE_EVENT)
    && (f.reading || f.writing ==> fe.data == id)
  }

  /** The operation a hook performs on the loop, if any: none when the flag already has the wanted value. */
  function OpOf(fd: nat, id: int, f: Wants, h: Hook, kernelOk: bool): seq<Op> {
    match h
    case AddRead => if f.reading then [] else [CreateFile(fd, READABLE, READ_EVENT, id, kernelOk)]
    case DelRead => if f.reading then [DeleteFile(fd, READABLE)] else []
    case AddWrite => if f.writing then [] else [CreateFile(fd, WRITABLE, WRITE_EVENT, id, kernelOk)]
    case DelWrite => if f.writing then [DeleteFile(fd, WRITABLE)] else []
  }

  /** The table after the operations of one hook. */
  function TableAfter(t: Table, ops: seq<Op>): Table
    requires -1 <= t.maxfd < |t.evs| && |ops| <= 1
    requires forall i | 0 <= i < |ops| :: ops[i].CreateFile? || ops[i].DeleteFile?
  {
    if ops == [] then t
    else if ops[0].CreateFile? then Created(t, ops[0])
    else Deleted(t, ops[0].fd, ops[0].mask)
  }

  /** A hook touches only its own slot, whatever that slot holds. */
  lemma HookStays(t: Table, fd: nat, id: int, f: Wants, h: Hook, kernelOk: bool)
    requires t.Good() && fd < |t.evs|
    ensures var u := TableAfter(t, OpOf(fd, id, f, h, kernelOk));
      && u.Good() && |u.evs| == |t.evs| && u.api.Epoll? == t.api.Epoll?
      && forall other: nat | other < |t.evs| && other != fd :: u.evs[other] == t.evs[other]
  {
    var ops := OpOf(fd, id, f, h, kernelOk);
    if ops != [] {
      if ops[0].CreateFile? {
        CreatedGood(t, ops[0]);
      } else {
        DeletedGood(t, fd, ops[0].mask);
      }
    }
  }

  /** A hook keeps the slot in agreement with the flag exactly when the loop accepts what it asks for: the adapter
      ignores a refused registration. */
  lemma SlotAgreesIff(t: Table, fd: nat, id: int, f: Wants, h: Hook, kernelOk: bool)
    requires -1 <= t.maxfd < |t.evs| && fd < |t.evs| && Agrees(t.evs[fd], f, id)
    ensures var ops := OpOf(fd, id, f, h, kernelOk);
      Agrees(TableAfter(t, ops).evs[fd], After(f, h), id)
      <==> (ops != [] && ops[0].CreateFile? ==> Accepted(ops[0], |t.evs|, t.api.Epoll?))
  {
  }

  /** A hook touches only its own slot, and keeps it in agreement with the flag exactly when the loop accepts. */
  lemma HookAgreesIff(t: Table, fd: nat, id: int, f: Wants, h: Hook, kernelOk: bool)
    requires t.Good() && fd < |t.evs| && Agrees(t.evs[fd], f, id)
    ensures var ops := OpOf(fd, id, f, h, kernelOk);
      var u := TableAfter(t, ops);
      && u.Good() && |u.evs| == |t.evs|
      && (forall other: nat | other < |t.evs| && other != fd :: u.evs[other] == t.evs[other])
      && (Agrees(u.evs[fd], After(f, h), id)
          <==> (ops != [] && ops[0].CreateFile? ==> Accepted(ops[0], |t.evs|, t.api.Epoll?)))
  {
    HookStays(t, fd, id, f, h, kernelOk);
    SlotAgreesIff(t, fd, id, f, h, kernelOk);
  }

  /** Every direction of the mask has its flag set. */
  predicate Covers(f: Wants, m: Mask) {
    (m.readable ==> f.reading) && (m.writable ==> f.writing)
  }

  /** What the two deletions of redisAeCleanup leave. */
  lemma CleanedUp(t: Table, u: Table, v: Table, fd: nat, id: int, f: Wants, g: Wants)
    requires -1 <= t.maxfd < |t.evs| && -1 <= u.maxfd < |u.evs|
    requires u == TableAfter(t, OpOf(fd, id, f, Hook.DelRead, true)) && g == After(f, Hook.DelRead)
    requires v == TableAfter(u, OpOf(fd, id, g, Hook.DelWrite, true))
    ensures |v.evs| == |t.evs| && forall other: nat | other < |t.evs| && other != fd :: v.evs[other] == t.evs[other]
    ensures fd < |t.evs| ==> (v.evs[fd].mask.IsNone() <==> Covers(f, t.evs[fd].mask))
  {
  }

  class RedisAeEvents {
    const loop: EventLoop
    const fd: nat
    const id: int
    var reading: bool
    var writing: bool

    constructor (loop: EventLoop, fd: nat, id: int)
      ensures this.loop == loop && this.fd == fd && this.id == id && !reading && !writing
    {
      this.loop, this.fd, this.id, reading, writing := loop, fd, id, false, false;
    }

    ghost function TheFlags(): Wants
      reads this
    {
      Wants(reading, writing)
    }

    /** The flags are what the loop holds for the connection. */
    ghost predicate InStep()
      reads this, loop.files, loop.files.events
    {
      fd < loop.files.events.Length && Agrees(loop.files.events[fd], TheFlags(), id)
    }

    /** redisAeAddRead */
    method AddRead(kernelOk: bool)
      requires loop.files.Valid()
      modifies this`reading, loop.files, loop.files.events
      ensures loop.files.Valid() && TheFlags() == After(old(TheFlags()), Hook.AddRead)
      ensures loop.files.Abs()
        == TableAfter(old(loop.files.Abs()), OpOf(fd, id, old(TheFlags()), Hook.AddRead, kernelOk))
      ensures reading && writing == old(writing)
      ensures old(reading) ==> loop.files.Abs() == old(loop.files.Abs())
      ensures !old(reading) && fd < loop.files.events.Length && (old(loop.files.api.Epoll?) ==> kernelOk) ==>
        var fe, ge := old(loop.files.events[fd]), loop.files.events[fd];
        && ge.mask.readable && ge.mask.writable == fe.mask.writable && ge.data == id
        && ge.rproc == READ_EVENT && ge.wproc == fe.wproc
      ensures forall other: nat | other < loop.files.events.Length && other != fd ::
        loop.files.events[other] == old(loop.files.events[other])
    {
      if !reading {
        reading := true;
        var _ := loop.files.CreateFileEvent(fd, READABLE, READ_EVENT, id, kernelOk);
      }
    }

    /** redisAeDelRead */
    method DelRead()
      requires loop.files.Valid()
      modifies this`reading, loop.files, loop.files.events
      ensures loop.files.Valid() && TheFlags() == After(old(TheFlags()), Hook.DelRead)
      ensures loop.files.Abs() == TableAfter(old(loop.files.Abs()), OpOf(fd, id, old(TheFlags()), Hook.DelRead, true))
      ensures !reading && writing == old(writing)
      ensures !old(reading) ==> loop.files.Abs() == old(loop.files.Abs())
      ensures old(reading) && fd < loop.files.events.Length ==>
        var fe, ge := old(loop.files.events[fd]), loop.files.events[fd];
        !ge.mask.readable && ge.mask.writable == fe.mask.writable && ge.rproc == fe.rproc && ge.wproc == fe.wproc
      ensures forall other: nat | other < loop.files.events.Length && other != fd ::
        loop.files.events[other] == old(loop.files.events[other])
    {
      if reading {
        reading := false;
        loop.files.DeleteFileEvent(fd, READABLE);
      }
    }

    /** redisAeAddWrite */
    method AddWrite(kernelOk: bool)
      requires loop.files.Valid()
      modifies this`writing, loop.files, loop.files.events
      ensures loop.files.Valid() && TheFlags() == After(old(TheFlags()), Hook.AddWrite)
      ensures loop.files.Abs()
        == TableAfter(old(loop.files.Abs()), OpOf(fd, id, old(TheFlags()), Hook.AddWrite, kernelOk))
      ensures writing && reading == old(reading)
      ensures old(writing) ==> loop.files.Abs() == old(loop.files.Abs())
      ensures !old(writing) && fd < loop.files.events.Length && (old(loop.files.api.Epoll?) ==> kernelOk) ==>
        var fe, ge := old(loop.files.events[fd]), loop.files.events[fd];
        && ge.mask.writable && ge.mask.readable == fe.mask.readable && ge.data == id
        && ge.wproc == WRITE_EVENT && ge.rproc == fe.rproc
      ensures forall other: nat | other < loop.files.events.Length && other != fd ::
        loop.files.events[other] == old(loop.files.events[other])
    {
      if !writing {
        writing := true;
        var _ := loop.files.CreateFileEvent(fd, WRITABLE, WRITE_EVENT, id, kernelOk);
      }
    }

    /** redisAeDelWrite */
    method DelWrite()
      requires loop.files.Valid()
      modifies this`writing, loop.files, loop.files.events
      ensures loop.files.Valid() && TheFlags() == After(old(TheFlags()), Hook.DelWrite)
      ensures loop.files.Abs() == TableAfter(old(loop.files.Abs()), OpOf(fd, id, old(TheFlags()), Hook.DelWrite, true))
      ensures !writing && reading == old(reading)
      ensures !old(writing) ==> loop.files.Abs() == old(loop.files.Abs())
      ensures old(writing) && fd < loop.files.events.Length ==>
        var fe, ge := old(loop.files.events[fd]), loop.files.events[fd];
        !ge.mask.writable && ge.mask.readable == fe.mask.readable && ge.rproc == fe.rproc && ge.wproc == fe.wproc
      ensures forall other: nat | other < loop.files.events.Length && other != fd ::
        loop.files.events[other] == old(loop.files.events[other])
    {
      if writing {
        writing := false;
        loop.files.DeleteFileEvent(fd, WRITABLE);
      }
    }

    /** redisAeCleanup, without the final free: the loop is told to stop, and the descriptor ends unregistered exactly
        when every direction it stood registered for had its flag set, as in a connection in step. */
    method Cleanup()
      requires loop.files.Valid()
      modifies this, loop`stop, loop.files, loop.files.events
      ensures loop.files.Valid() && loop.stop && TheFlags() == Wants(false, false)
      ensures fd < loop.files.events.Length ==>
        (loop.files.events[fd].mask.IsNone() <==> old(Covers(TheFlags(), loop.files.events[fd].mask)))
      ensures old(InStep()) ==> InStep()
      ensures forall other: nat | other < loop.files.events.Length && other != fd ::
        loop.files.events[other] == old(loop.files.events[other])
    {
      loop.stop := true;
      ghost var t, f := loop.files.Abs(), TheFlags();
      DelRead();
      ghost var u, g := loop.files.Abs(), TheFlags();
      DelWrite();
      ghost var v := loop.files.Abs();
      CleanedUp(t, u, v, fd, id, f, g);
      assert forall other: nat | other < |v.evs| :: v.evs[other] == loop.files.events[other];
    }

    /** Any of the four hooks. */
    method Call(h: Hook, kernelOk: bool)
      requires loop.files.Valid()
      modifies this, loop.files, loop.files.events
      ensures loop.files.Valid() && TheFlags() == After(old(TheFlags()), h)
      ensures loop.files.Abs() == TableAfter(old(loop.files.Abs()), OpOf(fd, id, old(TheFlags()), h, kernelOk))
    {
      match h
      case AddRead => AddRead(kernelOk);
      case DelRead => DelRead();
      case AddWrite => AddWrite(kernelOk);
      case DelWrite => DelWrite();
    }
  }

  /** A redisAsyncContext as far as the adapter uses it. */
  class AsyncContext {
    const fd: nat
    var data: RedisAeEvents?

    constructor (fd: nat)
      ensures this.fd == fd && data == null
    {
      this.fd, data := fd, null;
    }
  }

  /** redisAeAttach: refuses a context already attached; a new attachment agrees with the loop exactly when the
      descriptor fits the table and is unregistered. */
  method Attach(loop: EventLoop, ac: AsyncContext, id: int) returns (r: int)
    modifies ac`data
    ensures r == if old(ac.data) != null then REDIS_ERR else REDIS_OK
    ensures r == REDIS_ERR ==> ac.data == old(ac.data)
    ensures r == REDIS_OK ==>
      ac.data != null && fresh(ac.data) && ac.data.loop == loop && ac.data.fd == ac.fd && ac.data.id == id
    ensures r == REDIS_OK ==> (ac.data.InStep() <==>
      ac.fd < loop.files.events.Length && loop.files.events[ac.fd].mask.IsNone())
  {
    if ac.data != null {
      return REDIS_ERR;
    }
    var e := new RedisAeEvents(loop, ac.fd, id);
    ac.data := e;
    return REDIS_OK;
  }

  // ----- any sequence of hook calls on many connections -----

  /** A hook called on connection `who`, and whether the kernel accepts a registration it asks for. */
  datatype HookCall = HookCall(who: nat, hook: Hook, kernelOk: bool)

  /** The flags of connection `i` after a sequence of calls: only its own calls count, the last of each kind decides. */
  function FlagsAfter(f: Wants, i: nat, calls: seq<HookCall>): Wants
    decreases |calls|
  {
    if calls == [] then f
    else FlagsAfter(if calls[0].who == i then After(f, calls[0].hook) else f, i, calls[1..])
  }

  /** A flag is set at the end exactly if the connection's last call about it set it, or if none was made and it was set
      before. */
  lemma {:induction false} LastCallDecides(f: Wants, i: nat, calls: seq<HookCall>)
    ensures FlagsAfter(f, i, calls).reading
      <==> SetLast(i, calls, AddRead, DelRead)
           || (f.reading && forall c | c in calls && c.who == i :: c.hook != DelRead)
    ensures FlagsAfter(f, i, calls).writing
      <==> SetLast(i, calls, AddWrite, DelWrite)
           || (f.writing && forall c | c in calls && c.who == i :: c.hook != DelWrite)
    decreases |calls|
  {
    if calls == [] {
    } else {
      LastCallDecides(if calls[0].who == i then After(f, calls[0].hook) else f, i, calls[1..]);
      SetLastOfTail(i, calls, AddRead, DelRead);
      SetLastOfTail(i, calls, AddWrite, DelWrite);
      assert calls == [calls[0]] + calls[1..];
    }
  }

  /** Some call of the connection sets, and none after it clears. */
  ghost predicate SetLast(i: nat, calls: seq<HookCall>, add: Hook, del: Hook) {
    exists k :: SetsLast(k, i, calls, add, del)
  }

  predicate SetsLast(k: nat, i: nat, calls: seq<HookCall>, add: Hook, del: Hook) {
    && k < |calls| && calls[k].who == i && calls[k].hook == add
    && forall j | k < j < |calls| && calls[j].who == i :: calls[j].hook != del
  }

  lemma SetLastOfTail(i: nat, calls: seq<HookCall>, add: Hook, del: Hook)
    requires calls != []
    ensures SetLast(i, calls, add, del)
      <==> SetLast(i, calls[1..], add, del)
           || (calls[0].who == i && calls[0].hook == add
               && forall c | c in calls[1..] && c.who == i :: c.hook != del)
  {
    var rest := calls[1..];
    if k: nat :| SetsLast(k, i, rest, add, del) {
      SetsLastShift(k, i, calls, add, del);
    } else if calls[0].who == i && calls[0].hook == add && forall c | c in rest && c.who == i :: c.hook != del {
      assert SetsLast(0, i, calls, add, del);
    }
    if k: nat :| SetsLast(k, i, calls, add, del) {
      if k > 0 {
        SetsLastShift(k - 1, i, calls, add, del);
      } else {
        assert forall j | 0 <= j < |rest| :: rest[j] == calls[j+1];
      }
    }
  }

  lemma SetsLastShift(k: nat, i: nat, calls: seq<HookCall>, add: Hook, del: Hook)
    requires calls != []
    ensures SetsLast(k, i, calls[1..], add, del) <==> SetsLast(k + 1, i, calls, add, del)
  {
    var rest := calls[1..];
    assert forall j | 0 <= j < |rest| :: rest[j] == calls[j+1];
    assert forall j | 0 < j < |calls| :: calls[j] == rest[j-1];
  }

  /** The call asks the loop for a registration that the kernel refuses. */
  predicate Refused(c: HookCall, f: Wants, epoll: bool) {
    epoll && !c.kernelOk && ((c.hook == AddRead && !f.reading) || (c.hook == AddWrite && !f.writing))
  }

  /** No registration that connection `i` asked for was refused. */
  predicate NeverRefused(f: Wants, i: nat, calls: seq<HookCall>, epoll: bool)
    decreases |calls|
  {
    calls == []
    || (if calls[0].who == i
        then !Refused(calls[0], f, epoll) && NeverRefused(After(f, calls[0].hook), i, calls[1..], epoll)
        else NeverRefused(f, i, calls[1..], epoll))
  }

  /** Hooks are idempotent: repeating one changes nothing more. */
  lemma HookIdempotent(t: Table, fd: nat, id: int, f: Wants, h: Hook)
    requires t.Good() && fd < |t.evs|
    ensures After(After(f, h), h) == After(f, h)
    ensures OpOf(fd, id, After(f, h), h, true) == [] && TableAfter(t, OpOf(fd, id, After(f, h), h, true)) == t
  {
  }

  /** The connections are attached to the loop on distinct descriptors below the table size. */
  ghost predicate Attached(loop: EventLoop, es: seq<RedisAeEvents>)
    reads loop.files
  {
    && (forall i | 0 <= i < |es| :: es[i].loop == loop && es[i].fd < loop.files.events.Length)
    && (forall i, j | 0 <= i < j < |es| :: es[i].fd != es[j].fd)
  }

  lemma RefusedIff(t: Table, fd: nat, id: int, f: Wants, c: HookCall)
    requires -1 <= t.maxfd < |t.evs| && fd < |t.evs|
    ensures Agrees(t.evs[fd], f, id) ==>
      var u := TableAfter(t, OpOf(fd, id, f, c.hook, c.kernelOk));
      |u.evs| == |t.evs| && (Agrees(u.evs[fd], After(f, c.hook), id) <==> !Refused(c, f, t.api.Epoll?))
  {
    if Agrees(t.evs[fd], f, id) {
      SlotAgreesIff(t, fd, id, f, c.hook, c.kernelOk);
    }
  }

  /** A call changes its own connection's flags and slot only, and the two stay in step exactly when it was not
      refused. */
  method RunHook(loop: EventLoop, es: seq<RedisAeEvents>, c: HookCall)
    requires loop.files.Valid() && Attached(loop, es) && c.who < |es|
    modifies es[c.who], loop.files, loop.files.events
    ensures loop.files.Valid() && loop.files.api.Epoll? == old(loop.files.api.Epoll?)
    ensures es[c.who].TheFlags() == After(old(es[c.who].TheFlags()), c.hook)
    ensures old(es[c.who].InStep()) ==>
      (es[c.who].InStep() <==> !Refused(c, old(es[c.who].TheFlags()), loop.files.api.Epoll?))
    ensures forall i | 0 <= i < |es| && i != c.who :: es[i].TheFlags() == old(es[i].TheFlags())
    ensures forall other: nat | other < loop.files.events.Length && other != es[c.who].fd ::
      loop.files.events[other] == old(loop.files.events[other])
  {
    var e := es[c.who];
    ghost var t := loop.files.Abs();
    HookStays(t, e.fd, e.id, e.TheFlags(), c.hook, c.kernelOk);
    RefusedIff(t, e.fd, e.id, e.TheFlags(), c);
    e.Call(c.hook, c.kernelOk);
    ghost var u := loop.files.Abs();
    assert forall fd: nat | fd < |u.evs| :: u.evs[fd] == loop.files.events[fd];
    assert forall i | 0 <= i < |es| && i != c.who :: es[i] != e;
  }

  /** Over any sequence of hook calls on attached connections the flags depend on the connection's own calls only, and
      every connection that was in step and never refused ends with flags equal to the loop's mask bits, whatever was
      refused to the others. */
  method RunHooks(loop: EventLoop, es: seq<RedisAeEvents>, calls: seq<HookCall>)
    requires loop.files.Valid() && Attached(loop, es)
    requires forall k | 0 <= k < |calls| :: calls[k].who < |es|
    modifies es, loop.files, loop.files.events
    ensures loop.files.Valid() && loop.files.api.Epoll? == old(loop.files.api.Epoll?)
    ensures forall i | 0 <= i < |es| :: es[i].TheFlags() == FlagsAfter(old(es[i].TheFlags()), i, calls)
    ensures forall i | 0 <= i < |es| ::
      old(es[i].InStep()) && NeverRefused(old(es[i].TheFlags()), i, calls, old(loop.files.api.Epoll?)) ==>
        es[i].InStep()
    ensures forall other: nat | other < loop.files.events.Length && (forall i | 0 <= i < |es| :: es[i].fd != other) ::
      loop.files.events[other] == old(loop.files.events[other])
  {
    if calls != [] {
      RunHook(loop, es, calls[0]);
      RunHooks(loop, es, calls[1..]);
    }
  }
}
