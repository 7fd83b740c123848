/** Constants of the machine, and facts about collections that several modules use. */
module Common {
  const NULL: nat := 0
  const PAGE_SIZE: nat := 4096
  /** The largest value of a 16-bit reference count. */
  const REF_MAX: nat := 0xFFFF

  /** Equality by another name. A predicate is folded when it is stated of every u with Is(u, x): the
      verifier then unfolds it only where Is(x, x) is asserted. */
  ghost predicate Is<T>(u: T, x: T) { u == x }

  ghost predicate Distinct(s: seq<nat>)
  {
    forall i, j :: 0 <= i < j < |s| ==> s[i] != s[j]
  }

  lemma Regroup(a: seq<nat>, x: nat, b: seq<nat>)
    ensures a + [x] + b == a + ([x] + b)
  {
  }

  lemma SubsetSize<T>(s: set<T>, t: set<T>)
    requires s <= t
    ensures |s| <= |t|
  {
    assert t == s + (t - s);
    assert |t| == |s| + |t - s|;
  }
}
