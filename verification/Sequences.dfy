/** Sequences without repetition, and taking one element out. */
module Sequences {

  predicate Distinct<T(==)>(s: seq<T>) {
    forall i, j | 0 <= i < j < |s| :: s[i] != s[j]
  }

  lemma DistinctConcat<T>(a: seq<T>, b: seq<T>)
    requires Distinct(a) && Distinct(b) && forall x | x in a :: x !in b
    ensures Distinct(a + b)
  {
    var s := a + b;
    forall i, j | 0 <= i < j < |s| ensures s[i] != s[j] {
      if i < |a| <= j {
        assert s[i] in a && s[j] in b;
      }
    }
  }

  lemma DistinctSlices<T>(s: seq<T>, k: nat)
    requires Distinct(s) && k <= |s|
    ensures Distinct(s[..k]) && Distinct(s[k..])
    ensures forall x | x in s[..k] :: x in s && x !in s[k..]
    ensures forall x | x in s[k..] :: x in s
  {
  }

  /** The sequence without its element at `k`. */
  function WithoutAt<T>(s: seq<T>, k: nat): (r: seq<T>)
    requires k < |s|
    ensures |r| == |s| - 1 && forall i | 0 <= i < |r| :: r[i] == s[if i < k then i else i + 1]
  {
    seq(|s| - 1, i requires 0 <= i < |s| - 1 => s[if i < k then i else i + 1])
  }
}
