/** linked_ptr on top of its circles (gtest-linked_ptr.h): it refines reference counting. */
module LinkedHandles {
  import opened LinkedPtr
  import opened Sequences

  const NULL := 0

  /** linked_ptr<T>: an object address and a link. */
  class Handle {
    var value: nat
    const link: Link

    constructor ()
      ensures fresh(link)
    {
      value := NULL;
      link := new Link();
    }
  }

  // ----- reference counting, the specification -----

  /** What each live handle holds, what was ever captured, and what has been deleted, in order. */
  datatype Refs = Refs(held: map<Handle, nat>, captured: set<nat>, deleted: seq<nat>) {

    function Holders(v: nat): set<Handle> {
      set h | h in held && held[h] == v
    }

    function Count(v: nat): nat {
      |Holders(v)|
    }

    /** A handle lets go: the object goes with its last reference. */
    function Release(h: Handle): Refs
      requires h in held
    {
      var v := held[h];
      Refs(held - {h}, captured, if v != NULL && Count(v) == 1 then deleted + [v] else deleted)
    }

    function Capture(h: Handle, v: nat): Refs {
      Refs(held[h := v], captured + if v != NULL then {v} else {}, deleted)
    }

    function Share(h: Handle, v: nat): Refs {
      Refs(held[h := v], captured, deleted)
    }

    /** An object is deleted exactly when it was captured and nothing holds it any more, and never twice. */
    ghost predicate Sound() {
      && NULL !in captured
      && (forall h | h in held :: held[h] == NULL || held[h] in captured)
      && (forall v :: v in deleted <==> v in captured && v !in held.Values)
      && (forall i, j | 0 <= i < j < |deleted| :: deleted[i] != deleted[j])
    }

    /** The last reference, in terms of the other handles. */
    lemma CountOneIff(h: Handle)
      requires h in held
      ensures Count(held[h]) == 1 <==> forall g | g in held && g != h :: held[g] != held[h]
    {
      var s := Holders(held[h]);
      assert h in s;
      assert s == {h} + (s - {h});
      if |s| == 1 {
        forall g | g in held && g != h ensures held[g] != held[h] {
          assert held[g] == held[h] ==> g in s - {h};
        }
      }
    }

    lemma ReleaseSound(h: Handle)
      requires Sound() && h in held
      ensures Release(h).Sound()
    {
      CountOneIff(h);
      var v, r := held[h], Release(h);
      assert forall g | g in r.held :: r.held[g] == held[g];
      assert forall u :: u in r.held.Values <==> exists g :: g in held && g != h && held[g] == u;
      assert forall u | u != v :: u in r.held.Values <==> u in held.Values;
      assert v in held.Values;
    }

    lemma CaptureSound(h: Handle, v: nat)
      requires Sound() && h !in held && (v == NULL || v !in captured)
      ensures Capture(h, v).Sound()
    {
      var r := Capture(h, v);
      assert r.held.Values == held.Values + {v} by {
        assert h in r.held && r.held[h] == v;
        assert forall g | g in held :: g in r.held && r.held[g] == held[g];
      }
    }

    lemma ShareSound(h: Handle, src: Handle)
      requires Sound() && h !in held && src in held
      ensures Share(h, held[src]).Sound()
    {
      var r := Share(h, held[src]);
      assert r.held.Values == held.Values by {
        assert h in r.held && r.held[h] == held[src];
        assert forall g | g in held :: g in r.held && r.held[g] == held[g];
      }
    }
  }

  /** Once every handle is gone, exactly the captured objects have been deleted, each once. */
  lemma AllGone(r: Refs)
    requires r.Sound() && r.held == map[]
    ensures (forall v :: v in r.deleted <==> v in r.captured) && |r.deleted| == |r.captured|
  {
    DistinctSize(r.deleted, r.captured);
  }

  lemma {:induction false} DistinctSize(s: seq<nat>, t: set<nat>)
    requires (forall v :: v in s <==> v in t) && forall i, j | 0 <= i < j < |s| :: s[i] != s[j]
    ensures |s| == |t|
  {
    if s == [] {
      assert t == {};
    } else {
      var v := s[|s|-1];
      var init := s[..|s|-1];
      forall u ensures u in init <==> u in t - {v} {
        if u in t - {v} {
          var i :| 0 <= i < |s| && s[i] == u;
          assert init[i] == u;
        }
      }
      DistinctSize(init, t - {v});
    }
  }

  // ----- any run of operations -----

  datatype HandleOp =
    | Construct(h: Handle, ptr: nat)
    | CopyConstruct(h: Handle, src: Handle)
    | Assign(h: Handle, src: Handle)
    | Reset(h: Handle, ptr: nat)
    | Destroy(h: Handle)

  /** What the caller owes: handles are constructed before use, and no raw pointer is captured twice. */
  predicate Allowed(r: Refs, op: HandleOp) {
    match op
    case Construct(h, ptr) => h !in r.held && (ptr == NULL || ptr !in r.captured)
    case CopyConstruct(h, src) => h !in r.held && src in r.held
    case Assign(h, src) => h in r.held && src in r.held
    case Reset(h, ptr) => h in r.held && (ptr == NULL || ptr !in r.captured)
    case Destroy(h) => h in r.held
  }

  /** Reference counting's view of an operation. */
  function Step(r: Refs, op: HandleOp): Refs
    requires Allowed(r, op)
  {
    match op
    case Construct(h, ptr) => r.Capture(h, ptr)
    case CopyConstruct(h, src) => r.Share(h, r.held[src])
    case Assign(h, src) => if h == src then r else r.Release(h).Share(h, r.held[src])
    case Reset(h, ptr) => r.Release(h).Capture(h, ptr)
    case Destroy(h) => r.Release(h)
  }

  /** Who is live after an operation. */
  lemma LiveAfter(r: Refs, op: HandleOp)
    requires Allowed(r, op)
    ensures Step(r, op).held.Keys == if op.Destroy? then r.held.Keys - {op.h} else r.held.Keys + {op.h}
    ensures op.h in r.held && !op.Destroy? ==> Step(r, op).held.Keys == r.held.Keys
  {
  }

  /** What each operation does, handle by handle: who holds what, what was captured, and that an object is deleted
      exactly when the handle that let go of it was its last holder. */
  lemma StepMeans(r: Refs, op: HandleOp)
    requires Allowed(r, op)
    ensures var s := Step(r, op);
      && (forall g | g in s.held && g != op.h :: s.held[g] == r.held[g])
      && ((op.Construct? || op.Reset?) ==>
            s.held[op.h] == op.ptr && s.captured == r.captured + if op.ptr == NULL then {} else {op.ptr})
      && ((op.CopyConstruct? || op.Assign?) ==> s.held[op.h] == r.held[op.src])
      && (op.CopyConstruct? || op.Assign? || op.Destroy? ==> s.captured == r.captured)
      && s.deleted == r.deleted
                      + (if op.h in r.held && (op.Assign? ==> op.src != op.h) && r.held[op.h] != NULL
                            && (forall g | g in r.held && g != op.h :: r.held[g] != r.held[op.h])
                         then [r.held[op.h]]
                         else [])
  {
    LiveAfter(r, op);
    if op.h in r.held {
      r.CountOneIff(op.h);
    }
  }

  lemma StepSound(r: Refs, op: HandleOp)
    requires r.Sound() && Allowed(r, op)
    ensures Step(r, op).Sound()
  {
    match op
    case Construct(h, ptr) => r.CaptureSound(h, ptr);
    case CopyConstruct(h, src) => r.ShareSound(h, src);
    case Assign(h, src) =>
      if h != src {
        r.ReleaseSound(h);
        r.Release(h).ShareSound(h, src);
      }
    case Reset(h, ptr) =>
      r.ReleaseSound(h);
      r.Release(h).CaptureSound(h, ptr);
    case Destroy(h) => r.ReleaseSound(h);
  }

  /** An operation deletes an object exactly when the object was held before it and is not held after it. */
  lemma DeletesAtLastRelease(r: Refs, op: HandleOp, v: nat)
    requires r.Sound() && Allowed(r, op)
    ensures r.deleted <= Step(r, op).deleted
    ensures v !in r.deleted && v in Step(r, op).deleted
      <==> v != NULL && v in r.held.Values && v !in Step(r, op).held.Values
  {
    StepSound(r, op);
    assert Step(r, op).captured >= r.captured;
    match op
    case Construct(h, ptr) => assert forall g | g in r.held :: Step(r, op).held[g] == r.held[g];
    case CopyConstruct(h, src) => assert forall g | g in r.held :: Step(r, op).held[g] == r.held[g];
    case Assign(h, src) =>
    case Reset(h, ptr) =>
    case Destroy(h) =>
  }

  predicate AllowedRun(r: Refs, ops: seq<HandleOp>)
    decreases |ops|
  {
    ops == [] || (Allowed(r, ops[0]) && AllowedRun(Step(r, ops[0]), ops[1..]))
  }

  function Run(r: Refs, ops: seq<HandleOp>): Refs
    requires AllowedRun(r, ops)
    decreases |ops|
  {
    if ops == [] then r else Run(Step(r, ops[0]), ops[1..])
  }

  /** Over any run nothing is deleted twice or while held, and when all handles are gone everything captured has been
      deleted. */
  lemma {:induction false} RunSound(r: Refs, ops: seq<HandleOp>)
    requires r.Sound() && AllowedRun(r, ops)
    ensures Run(r, ops).Sound() && r.deleted <= Run(r, ops).deleted
    ensures Run(r, ops).held == map[] ==> |Run(r, ops).deleted| == |Run(r, ops).captured|
    decreases |ops|
  {
    if ops == [] {
      if r.held == map[] {
        AllGone(r);
      }
    } else {
      StepSound(r, ops[0]);
      RunSound(Step(r, ops[0]), ops[1..]);
    }
  }

  // ----- circles stand for references -----

  /** Links and handles correspond, and two handles are on one circle exactly when they hold the same object. */
  ghost predicate Matches(refs: Refs, holder: map<Link, Handle>, owner: map<Link, nat>) {
    && (forall l | l in owner :: l in holder && holder[l] in refs.held && holder[l].link == l)
    && (forall h | h in refs.held :: h.link in owner && h.link in holder && holder[h.link] == h)
    && (forall g, h | g in refs.held && h in refs.held ::
          owner[g.link] == owner[h.link] <==> g == h || (refs.held[g] == refs.held[h] && refs.held[h] != NULL))
  }

  /** The circle of a handle has one link exactly when the handle is the last reference or holds nothing. */
  lemma AloneIffLast(refs: Refs, holder: map<Link, Handle>, rings: Rings, h: Handle)
    requires Matches(refs, holder, rings.owner) && rings.Agree() && h in refs.held
    requires Distinct(rings.order[rings.owner[h.link]])
    ensures |rings.order[rings.owner[h.link]]| == 1 <==> refs.held[h] == NULL || refs.Count(refs.held[h]) == 1
    ensures |rings.order[rings.owner[h.link]]| == 1
      <==> refs.held[h] == NULL || forall g | g in refs.held && g != h :: refs.held[g] != refs.held[h]
  {
    refs.CountOneIff(h);
    var ring := rings.order[rings.owner[h.link]];
    if |ring| > 1 {
      var i := if ring[0] == h.link then 1 else 0;
      var g := holder[ring[i]];
      assert g != h && rings.owner[g.link] == rings.owner[h.link];
    }
    if g :| g in refs.held && g != h && refs.held[h] != NULL && refs.held[g] == refs.held[h] {
      assert g.link in ring && h.link in ring && g.link != h.link;
    }
  }

  lemma MatchesWithout(refs: Refs, holder: map<Link, Handle>, owner: map<Link, nat>, h: Handle)
    requires Matches(refs, holder, owner) && h in refs.held
    ensures Matches(refs.Release(h), holder - {h.link}, owner - {h.link})
  {
  }

  lemma MatchesWith(refs: Refs, refs': Refs, holder: map<Link, Handle>, owner: map<Link, nat>,
                    h: Handle, v: nat, c: nat)
    requires Matches(refs, holder, owner) && h !in refs.held && h.link !in owner
    requires refs'.held == refs.held[h := v]
    requires forall g | g in refs.held :: owner[g.link] == c <==> refs.held[g] == v && v != NULL
    ensures Matches(refs', holder[h.link := h], owner[h.link := c])
  {
  }

  /** The bookkeeping of a program's handles: references, the handle of each link, and the circles. */
  datatype Track = Track(refs: Refs, holder: map<Link, Handle>, rings: Rings, nextRing: nat) {

    ghost predicate Consistent() {
      && rings.Agree() && (forall c | c in rings.order :: c < nextRing && Distinct(rings.order[c]))
      && Matches(refs, holder, rings.owner)
      && refs.Sound()
    }

    /** The handle is live. */
    predicate Live(h: Handle) {
      h in refs.held && h.link in rings.owner
    }

    /** The handle is neither live nor is its link. */
    predicate Idle(h: Handle) {
      h !in refs.held && h.link !in rings.owner
    }

    function Released(h: Handle): Track
      requires rings.Agree() && Live(h)
    {
      Track(refs.Release(h), holder - {h.link}, Departed(rings, h.link), nextRing)
    }

    function Captured(h: Handle, v: nat): Track {
      Track(refs.Capture(h, v), holder[h.link := h], NewRing(rings, h.link, nextRing), nextRing + 1)
    }

    function Shared(h: Handle, src: Handle): Track
      requires rings.Agree() && Live(src)
    {
      var v := refs.held[src];
      if v != NULL then Track(refs.Share(h, v), holder[h.link := h], Joined(rings, src.link, h.link), nextRing)
      else Track(refs.Share(h, v), holder[h.link := h], NewRing(rings, h.link, nextRing), nextRing + 1)
    }

    lemma ReleasedConsistent(h: Handle)
      requires Consistent() && Live(h)
      ensures Released(h).Consistent()
    {
      MatchesWithout(refs, holder, rings.owner, h);
      refs.ReleaseSound(h);
      DepartedAgrees(rings, h.link);
      var c := rings.owner[h.link];
      FromDistinct(rings.order[c], h.link);
    }

    lemma NewRingAgrees(l: Link)
      requires Consistent() && l !in rings.owner
      ensures NewRing(rings, l, nextRing).Agree()
    {
    }

    lemma CapturedConsistent(h: Handle, v: nat)
      requires Consistent() && Idle(h) && (v == NULL || v !in refs.captured)
      ensures Captured(h, v).Consistent()
    {
      MatchesWith(refs, refs.Capture(h, v), holder, rings.owner, h, v, nextRing);
      refs.CaptureSound(h, v);
      NewRingAgrees(h.link);
    }

    lemma SharedConsistent(h: Handle, src: Handle)
      requires Consistent() && Idle(h) && Live(src)
      ensures Shared(h, src).Consistent()
    {
      var v := refs.held[src];
      refs.ShareSound(h, src);
      if v != NULL {
        MatchesWith(refs, refs.Share(h, v), holder, rings.owner, h, v, rings.owner[src.link]);
        JoinedAgrees(rings, src.link, h.link);
        JoinedDistinct(rings, src.link, h.link);
      } else {
        MatchesWith(refs, refs.Share(h, v), holder, rings.owner, h, v, nextRing);
        NewRingAgrees(h.link);
      }
    }
  }

  lemma JoinedDistinct(r: Rings, ptr: Link, l: Link)
    requires r.Agree() && ptr in r.owner && l !in r.owner && Distinct(r.order[r.owner[ptr]])
    ensures Distinct(Joined(r, ptr, l).order[r.owner[ptr]])
  {
  }

  lemma FromDistinct(s: seq<Link>, x: Link)
    requires x in s && Distinct(s)
    ensures Distinct(From(s, x))
  {
  }

  /** All live handles of a program. */
  class Arena {
    ghost var track: Track
    var deleted: seq<nat>

    /** The objects in memory are what the bookkeeping says. */
    ghost predicate Concrete()
      reads this, track.refs.held.Keys, track.rings.owner.Keys
    {
      && track.rings.WellFormed()
      && (forall h | h in track.refs.held :: h.value == track.refs.held[h])
      && deleted == track.refs.deleted
    }

    ghost predicate Valid()
      reads this, track.refs.held.Keys, track.rings.owner.Keys
    {
      track.Consistent() && Concrete()
    }

    constructor ()
      ensures Valid() && track.refs == Refs(map[], {}, [])
    {
      track, deleted := Track(Refs(map[], {}, []), map[], Rings(map[], map[]), 0), [];
    }

    /** linked_ptr::depart: the object is deleted when the circle was this handle alone. */
    method Depart(h: Handle)
      requires Valid() && track.Live(h)
      modifies this, track.rings.Members(track.rings.owner[h.link])`next
      ensures Valid() && track.refs == old(track.refs).Release(h) && track.Idle(h)
      ensures deleted == old(deleted) +
        (if old(h.value) != NULL && (forall g | g in old(track.refs.held) && g != h :: old(g.value) != old(h.value))
         then [old(h.value)]
         else [])
      ensures track.rings.owner.Keys == old(track.rings.owner.Keys) - {h.link}
    {
      track.ReleasedConsistent(h);
      AloneIffLast(track.refs, track.holder, track.rings, h);
      DepartStep(h);
    }

    method DepartStep(h: Handle)
      requires Concrete() && track.Live(h)
      requires |track.rings.order[track.rings.owner[h.link]]| == 1
        <==> h.value == NULL || forall g | g in track.refs.held && g != h :: g.value != h.value
      modifies this, track.rings.Members(track.rings.owner[h.link])`next
      ensures Concrete() && track == old(track).Released(h)
      ensures deleted == old(deleted) +
        (if old(h.value) != NULL && (forall g | g in old(track.refs.held) && g != h :: old(g.value) != old(h.value))
         then [old(h.value)]
         else [])
    {
      track.refs.CountOneIff(h);
      ghost var t := track;
      track := t.Released(h);
      var last := h.link.Depart(t.rings);
      if last && h.value != NULL {
        deleted := deleted + [h.value];
      }
    }

    /** linked_ptr::capture: takes over an object never captured before, or nothing. */
    method Capture(h: Handle, ptr: nat)
      requires Valid() && track.Idle(h) && (ptr == NULL || ptr !in track.refs.captured)
      modifies this, h`value, h.link`next
      ensures Valid() && track.refs == old(track.refs).Capture(h, ptr) && track.Live(h)
      ensures h.value == ptr && deleted == old(deleted)
    {
      track.CapturedConsistent(h, ptr);
      CaptureStep(h, ptr);
    }

    method CaptureStep(h: Handle, ptr: nat)
      requires Concrete() && track.nextRing !in track.rings.order && track.Idle(h)
      modifies this, h`value, h.link`next
      ensures Concrete() && track == old(track).Captured(h, ptr)
    {
      ghost var t := track;
      track := t.Captured(h, ptr);
      h.value := ptr;
      h.link.JoinNew(t.rings, t.nextRing);
    }

    /** linked_ptr::copy: shares the object of `src`, or nothing when it has none. */
    method Copy(h: Handle, src: Handle)
      requires Valid() && track.Idle(h) && track.Live(src)
      modifies this, h`value, h.link`next, track.rings.Members(track.rings.owner[src.link])`next
      ensures Valid() && track.refs == old(track.refs).Share(h, old(track.refs).held[src]) && track.Live(h)
      ensures h.value == old(src.value) && deleted == old(deleted)
    {
      track.SharedConsistent(h, src);
      if src.value != NULL {
        CopyObject(h, src);
      } else {
        CopyNull(h, src);
      }
    }

    method CopyObject(h: Handle, src: Handle)
      requires Concrete() && track.Idle(h) && track.Live(src) && src.value != NULL
      modifies this, h`value, h.link`next, track.rings.Members(track.rings.owner[src.link])`next
      ensures Concrete() && track == old(track).Shared(h, src)
    {
      ghost var t := track;
      track := t.Shared(h, src);
      h.value := src.value;
      h.link.Join(src.link, t.rings);
    }

    method CopyNull(h: Handle, src: Handle)
      requires Concrete() && track.nextRing !in track.rings.order
      requires track.Idle(h) && track.Live(src) && src.value == NULL
      modifies this, h`value, h.link`next
      ensures Concrete() && track == old(track).Shared(h, src)
    {
      ghost var t := track;
      track := t.Shared(h, src);
      h.value := src.value;
      h.link.JoinNew(t.rings, t.nextRing);
    }

    // ----- the public operations -----

    /** A step of reference counting, read off the handles themselves. */
    twostate lemma ByValue(op: HandleOp)
      requires old(Concrete()) && Concrete() && Allowed(old(track).refs, op) && op.h in old(track).refs.held
      requires track.refs == Step(old(track).refs, op)
      ensures op.Assign? ==> op.h.value == old(op.src.value)
      ensures op.Reset? ==> op.h.value == op.ptr
      ensures forall g | g in track.refs.held && g != op.h :: g.value == old(g.value)
      ensures deleted == old(deleted) +
        (if (op.Assign? ==> op.h != op.src) && old(op.h.value) != NULL
            && (forall g | g in old(track.refs.held) && g != op.h :: old(g.value) != old(op.h.value))
         then [old(op.h.value)]
         else [])
    {
      StepMeans(old(track).refs, op);
    }

    /** linked_ptr(T*) */
    method New(ptr: nat) returns (h: Handle)
      requires Valid() && (ptr == NULL || ptr !in track.refs.captured)
      modifies this
      ensures Valid() && fresh(h) && track.Live(h) && track.refs == Step(old(track.refs), Construct(h, ptr))
      ensures h.value == ptr && track.refs.held.Keys == old(track.refs.held.Keys) + {h} && deleted == old(deleted)
      ensures forall g | g in old(track.refs.held) :: g.value == old(g.value)
    {
      h := new Handle();
      LiveAfter(track.refs, Construct(h, ptr));
      Capture(h, ptr);
    }

    /** linked_ptr(linked_ptr const&) */
    method CopyOf(src: Handle) returns (h: Handle)
      requires Valid() && track.Live(src)
      modifies this, track.rings.Members(track.rings.owner[src.link])`next
      ensures Valid() && fresh(h) && track.Live(h) && track.refs == Step(old(track.refs), CopyConstruct(h, src))
      ensures h.value == old(src.value) && deleted == old(deleted)
      ensures track.refs.held.Keys == old(track.refs.held.Keys) + {h}
      ensures forall g | g in old(track.refs.held) :: g.value == old(g.value)
    {
      ghost var r := track.refs;
      h := NewCopy(src);
      LiveAfter(r, CopyConstruct(h, src));
    }

    method NewCopy(src: Handle) returns (h: Handle)
      requires Valid() && track.Live(src)
      modifies this, track.rings.Members(track.rings.owner[src.link])`next
      ensures Valid() && fresh(h) && track.Live(h) && h !in old(track.refs.held)
      ensures track.refs == old(track.refs).Share(h, old(track.refs).held[src])
      ensures h.value == old(src.value) && deleted == old(deleted)
      ensures forall g | g in old(track.refs.held) :: g.value == old(g.value)
    {
      h := new Handle();
      Copy(h, src);
    }

    /** operator= */
    method Assign(h: Handle, src: Handle)
      requires Valid() && track.Live(h) && track.Live(src)
      modifies this, h`value, track.rings.owner.Keys`next
      ensures Valid() && track.refs == Step(old(track.refs), HandleOp.Assign(h, src))
      ensures h.value == old(src.value) && track.refs.held.Keys == old(track.refs.held.Keys)
      ensures forall g | g in track.refs.held && g != h :: g.value == old(g.value)
      ensures deleted == old(deleted) +
        (if h != src && old(h.value) != NULL
            && (forall g | g in old(track.refs.held) && g != h :: old(g.value) != old(h.value))
         then [old(h.value)]
         else [])
    {
      LiveAfter(track.refs, HandleOp.Assign(h, src));
      if src != h {
        Replace(h, src);
      }
      ByValue(HandleOp.Assign(h, src));
    }

    method Replace(h: Handle, src: Handle)
      requires Valid() && track.Live(h) && track.Live(src) && h != src
      modifies this, h`value, track.rings.owner.Keys`next
      ensures Valid() && track.refs == old(track.refs).Release(h).Share(h, old(track.refs).held[src])
    {
      Depart(h);
      Copy(h, src);
    }

    /** reset */
    method Reset(h: Handle, ptr: nat)
      requires Valid() && track.Live(h) && (ptr == NULL || ptr !in track.refs.captured)
      modifies this, h`value, track.rings.owner.Keys`next
      ensures Valid() && track.refs == Step(old(track.refs), HandleOp.Reset(h, ptr))
      ensures h.value == ptr && track.refs.held.Keys == old(track.refs.held.Keys)
      ensures forall g | g in track.refs.held && g != h :: g.value == old(g.value)
      ensures deleted == old(deleted) +
        (if old(h.value) != NULL && (forall g | g in old(track.refs.held) && g != h :: old(g.value) != old(h.value))
         then [old(h.value)]
         else [])
    {
      LiveAfter(track.refs, HandleOp.Reset(h, ptr));
      Retake(h, ptr);
      ByValue(HandleOp.Reset(h, ptr));
    }

    method Retake(h: Handle, ptr: nat)
      requires Valid() && track.Live(h) && (ptr == NULL || ptr !in track.refs.captured)
      modifies this, h`value, track.rings.owner.Keys`next
      ensures Valid() && track.refs == old(track.refs).Release(h).Capture(h, ptr)
    {
      Depart(h);
      Capture(h, ptr);
    }

    /** ~linked_ptr */
    method Destroy(h: Handle)
      requires Valid() && track.Live(h)
      modifies this, track.rings.Members(track.rings.owner[h.link])`next
      ensures Valid() && track.refs == Step(old(track.refs), HandleOp.Destroy(h))
      ensures h !in track.refs.held && track.refs.held.Keys == old(track.refs.held.Keys) - {h}
      ensures forall g | g in track.refs.held :: g.value == old(g.value)
      ensures deleted == old(deleted) +
        (if old(h.value) != NULL && (forall g | g in old(track.refs.held) && g != h :: old(g.value) != old(h.value))
         then [old(h.value)]
         else [])
    {
      ghost var r := track.refs;
      assert Step(r, HandleOp.Destroy(h)) == r.Release(h);
      Depart(h);
    }
  }
}
