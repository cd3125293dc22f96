/** The values shared by every part of the event loop (ae.h). */
module EventTypes {

  /** An event mask: a subset of AE_READABLE and AE_WRITABLE. */
  datatype Mask = Mask(readable: bool, writable: bool) {
    predicate IsNone() { !readable && !writable }
    function Or(m: Mask): Mask { Mask(readable || m.readable, writable || m.writable) }
    function And(m: Mask): Mask { Mask(readable && m.readable, writable && m.writable) }
    function Without(m: Mask): Mask { Mask(readable && !m.readable, writable && !m.writable) }
  }

  const NONE := Mask(false, false)
  const READABLE := Mask(true, false)
  const WRITABLE := Mask(false, true)

  const AE_OK := 0
  const AE_ERR := -1
  const AE_NOMORE := -1

  /** One slot of `events[]`. Handlers and client data are opaque identities. */
  datatype FileEvent = FileEvent(mask: Mask, rproc: int, wproc: int, data: int)

  /** One slot of `fired[]`. */
  datatype Fired = Fired(fd: nat, mask: Mask)

  /** What a callback may do to the loop: the public operations, each with the answers its environment gives
      (the kernel's verdict on epoll_ctl, malloc's success, the clock reading in milliseconds). */
  datatype Op =
    | CreateFile(fd: nat, mask: Mask, proc: int, data: int, kernelOk: bool)
    | DeleteFile(fd: nat, mask: Mask)
    | CreateTimer(now: nat, milliseconds: int, mallocOk: bool)
    | DeleteTimer(id: int)
    | Stop
  {
    /** The masks ae.h admits: never empty. */
    predicate WellFormed() {
      (CreateFile? || DeleteFile?) ==> !mask.IsNone()
    }
  }

  predicate WellFormedOps(ops: seq<Op>) {
    forall i | 0 <= i < |ops| :: ops[i].WellFormed()
  }

  /** One callback invocation: the operations it performs and, for a timer, the value it returns. */
  datatype Reaction = Reaction(ops: seq<Op>, retval: int)
}
