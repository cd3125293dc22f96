/** Reference tracking by circular linked lists (gtest-linked_ptr.h): the circles. */
module LinkedPtr {
  import opened Sequences

  /** Which circle each live link is on, and each circle as a sequence that follows the pointers. */
  datatype Rings = Rings(owner: map<Link, nat>, order: map<nat, seq<Link>>) {

    /** Every live link is on its own circle and no other. */
    ghost predicate Agree() {
      && (forall l | l in owner :: owner[l] in order && l in order[owner[l]])
      && (forall c, i {:trigger order[c][i]} | c in order && 0 <= i < |order[c]| ::
            order[c][i] in owner && owner[order[c][i]] == c)
      && (forall c | c in order :: order[c] != [])
    }

    /** The circles are disjoint cycles that cover the live links. */
    ghost predicate WellFormed()
      reads owner.Keys
    {
      Agree() && Cycles()
    }

    ghost predicate Cycles()
      requires Agree()
      reads owner.Keys
    {
      forall c | c in order :: Cycle(order[c])
    }

    function Members(c: nat): set<Link> {
      set l | l in owner && owner[l] == c
    }
  }

  /** The links are distinct and each points to the next, the last to the first. */
  ghost predicate Cycle(s: seq<Link>)
    reads s
  {
    && Distinct(s)
    && (forall i {:trigger s[i].next} | 0 <= i < |s| :: s[i].next == s[if i + 1 < |s| then i + 1 else 0])
  }

  function IndexOf(s: seq<Link>, x: Link): (k: nat)
    requires x in s
    ensures k < |s| && s[k] == x
  {
    if s[0] == x then 0 else 1 + IndexOf(s[1..], x)
  }

  /** A circle read from `x` on. */
  function From(s: seq<Link>, x: Link): (r: seq<Link>)
    requires x in s
    ensures |r| == |s| && r[0] == x
  {
    var k := IndexOf(s, x);
    s[k..] + s[..k]
  }

  lemma FromIndex(s: seq<Link>, x: Link)
    requires x in s
    ensures var k, r := IndexOf(s, x), From(s, x);
      forall i | 0 <= i < |r| :: r[i] == s[if i < |s| - k then k + i else i - (|s| - k)]
  {
  }

  /** Reading a cycle from another of its links gives the same links, as a cycle again. */
  lemma FromCycles(s: seq<Link>, x: Link)
    requires x in s && Cycle(s)
    ensures Cycle(From(s, x))
  {
  }

  lemma FromMembers(s: seq<Link>, x: Link)
    requires x in s
    ensures forall m :: m in From(s, x) <==> m in s
  {
  }

  // ----- the three operations as functions on circles -----

  function NewRing(r: Rings, l: Link, c: nat): Rings {
    Rings(r.owner[l := c], r.order[c := [l]])
  }

  /** `l` put into the circle of `ptr`, just before it. */
  function Joined(r: Rings, ptr: Link, l: Link): Rings
    requires r.Agree() && ptr in r.owner
  {
    var c := r.owner[ptr];
    Rings(r.owner[l := c], r.order[c := From(r.order[c], ptr) + [l]])
  }

  /** `l` taken out of its circle; a circle left empty disappears. */
  function Departed(r: Rings, l: Link): Rings
    requires r.Agree() && l in r.owner
  {
    var c := r.owner[l];
    Rings(r.owner - {l}, if |r.order[c]| == 1 then r.order - {c} else r.order[c := From(r.order[c], l)[1..]])
  }

  lemma JoinedAgrees(r: Rings, ptr: Link, l: Link)
    requires r.Agree() && ptr in r.owner && l !in r.owner
    ensures Joined(r, ptr, l).Agree()
  {
  }

  lemma DepartedAgrees(r: Rings, l: Link)
    requires r.Agree() && l in r.owner && Distinct(r.order[r.owner[l]])
    ensures Departed(r, l).Agree()
  {
    var c := r.owner[l];
    var ring := From(r.order[c], l);
    var q := Departed(r, l);
    FromMembers(r.order[c], l);
    FromIndex(r.order[c], l);
    if |ring| == 1 {
      assert forall m | m in r.owner && r.owner[m] == c :: m in ring && m == l;
    } else {
      var cut := ring[1..];
      assert ring == [l] + cut;
      forall i | 0 <= i < |cut| ensures cut[i] in q.owner && q.owner[cut[i]] == c {
        assert cut[i] == ring[i+1] && ring[i+1] in r.order[c] && ring[i+1] != ring[0];
      }
    }
  }

  /** A link put between the last and the first of a cycle makes a longer cycle. */
  lemma CycleExtended(ring: seq<Link>, l: Link)
    requires ring != [] && l !in ring && Distinct(ring) && l.next == ring[0]
    requires forall i {:trigger ring[i].next} | 0 <= i < |ring| ::
      ring[i].next == if i + 1 < |ring| then ring[i+1] else l
    ensures Cycle(ring + [l])
  {
  }

  /** A cycle whose last link skips the first is a cycle without it. */
  lemma CycleCut(ring: seq<Link>)
    requires |ring| > 1 && Distinct(ring)
    requires forall i {:trigger ring[i].next} | 0 <= i < |ring| ::
      ring[i].next == ring[if i + 1 < |ring| then i + 1 else 1]
    ensures Cycle(ring[1..])
  {
  }

  /** A link has one predecessor among all live links. */
  lemma OnePredecessor(r: Rings, p: Link)
    requires r.WellFormed() && p in r.owner
    ensures forall l | l in r.owner && l.next == p.next :: l == p
  {
    forall l | l in r.owner && l.next == p.next ensures l == p {
      var s, t := r.order[r.owner[l]], r.order[r.owner[p]];
      var i, j := IndexOf(s, l), IndexOf(t, p);
      assert s[i].next == s[if i + 1 < |s| then i + 1 else 0];
      assert t[j].next == t[if j + 1 < |t| then j + 1 else 0];
    }
  }

  /** The circle of `x` read from `x` on is a cycle of the same links, and its last link is the predecessor of `x`. */
  lemma CircleOf(r: Rings, x: Link)
    requires r.WellFormed() && x in r.owner
    ensures var ring := From(r.order[r.owner[x]], x);
      && Cycle(ring) && (forall m :: m in ring <==> m in r.order[r.owner[x]])
      && var p := ring[|ring|-1];
         p in r.owner && r.owner[p] == r.owner[x] && p.next == x
  {
    FromCycles(r.order[r.owner[x]], x);
    FromMembers(r.order[r.owner[x]], x);
    var ring := From(r.order[r.owner[x]], x);
    assert ring[|ring|-1] in ring;
  }

  /** A link that points to itself is alone on its circle, and no other is. */
  lemma AloneIffSelf(r: Rings, l: Link)
    requires r.WellFormed() && l in r.owner
    ensures l.next == l <==> |r.order[r.owner[l]]| == 1
  {
    CircleOf(r, l);
  }

  /** linked_ptr_internal */
  class Link {
    var next: Link?

    constructor ()
    {
      next := null;
    }

    /** join_new: a circle of its own; `c` names it. */
    method JoinNew(ghost r: Rings, ghost c: nat)
      requires r.WellFormed() && this !in r.owner && c !in r.order
      modifies this`next
      ensures NewRing(r, this, c).WellFormed() && next == this
    {
      next := this;
      assert Cycle([this]);
    }

    /** join: inserts this link just before `ptr`, into the circle of `ptr` and no other. */
    method Join(ptr: Link, ghost r: Rings)
      requires r.WellFormed() && ptr in r.owner && this !in r.owner
      modifies this`next, r.Members(r.owner[ptr])`next
      ensures Joined(r, ptr, this).WellFormed() && next == ptr
      ensures forall l {:trigger l.next} | l in r.owner :: l.next == if old(l.next) == ptr then this else old(l.next)
    {
      var p := ptr.Predecessor(ptr, r);
      OnePredecessor(r, p);
      Enter(p, ptr, r);
    }

    method Enter(p: Link, ptr: Link, ghost r: Rings)
      requires r.WellFormed() && ptr in r.owner && this !in r.owner
      requires p in r.owner && p == From(r.order[r.owner[ptr]], ptr)[|r.order[r.owner[ptr]]| - 1]
      modifies this`next, p`next
      ensures Joined(r, ptr, this).WellFormed() && next == ptr && p.next == this
    {
      ghost var ring := From(r.order[r.owner[ptr]], ptr);
      CircleOf(r, ptr);
      JoinedAgrees(r, ptr, this);
      p.next := this;
      next := ptr;
      CycleExtended(ring, this);
    }

    /** depart: removes this link, and only it, from its circle; true when it was alone. */
    method Depart(ghost r: Rings) returns (last: bool)
      requires r.WellFormed() && this in r.owner
      modifies r.Members(r.owner[this])`next
      ensures last == (|r.order[r.owner[this]]| == 1)
      ensures Departed(r, this).WellFormed() && (last <==> old(next) == this)
      ensures forall l {:trigger l.next} | l in r.owner && l != this ::
        l.next == if old(l.next) == this then next else old(l.next)
    {
      AloneIffSelf(r, this);
      if next == this {
        OnePredecessor(r, this);
        DepartedAgrees(r, this);
        return true;
      }
      var p := next.Predecessor(this, r);
      OnePredecessor(r, p);
      Skip(p, r);
      return false;
    }

    method Skip(p: Link, ghost r: Rings)
      requires r.WellFormed() && this in r.owner && |r.order[r.owner[this]]| > 1
      requires p in r.owner && p == From(r.order[r.owner[this]], this)[|r.order[r.owner[this]]| - 1]
      modifies p`next
      ensures Departed(r, this).WellFormed() && p.next == next == old(next)
    {
      ghost var ring := From(r.order[r.owner[this]], this);
      CircleOf(r, this);
      DepartedAgrees(r, this);
      p.next := next;
      CycleCut(ring);
    }

    /** The walk both operations share, from `target` or its successor: to the predecessor of `target`. */
    method Predecessor(target: Link, ghost r: Rings) returns (p: Link)
      requires r.WellFormed() && target in r.owner && (this == target || this == target.next)
      ensures p == From(r.order[r.owner[target]], target)[|r.order[r.owner[target]]| - 1]
      ensures p in r.owner && r.owner[p] == r.owner[target] && p.next == target
    {
      ghost var ring := From(r.order[r.owner[target]], target);
      CircleOf(r, target);
      p := Search(target, ring, if this == target then 0 else 1);
    }

    /** Walking a cycle, from position `k` of it, reaches the predecessor of its first link. */
    method Search(target: Link, ghost ring: seq<Link>, ghost k: nat) returns (p: Link)
      requires Cycle(ring) && k < |ring| && this == ring[k] && target == ring[0]
      ensures p == ring[|ring|-1]
    {
      p := this;
      ghost var i := k;
      while p.next != target
        invariant i < |ring| && p == ring[i]
        decreases |ring| - i
      {
        p := p.next;
        i := i + 1;
      }
    }
  }
}
