/** kfree's sort and merge (core/memory/heap.c:111-137) as values. */
module Coalesce {
  import opened Common
  import opened Blocks

  ghost predicate Sorted(s: seq<nat>)
  {
    forall i, j :: 0 <= i < j < |s| ==> s[i] < s[j]
  }

  // ---------- Insertion sort ----------

  /** x put into s, behind every element that is not larger, looking from the right. */
  function Insert(s: seq<nat>, x: nat): seq<nat>
  {
    if s == [] || s[|s| - 1] <= x then s + [x] else Insert(s[..|s| - 1], x) + [s[|s| - 1]]
  }

  function SortOf(s: seq<nat>): seq<nat>
  {
    if s == [] then [] else Insert(SortOf(s[..|s| - 1]), s[|s| - 1])
  }

  lemma {:induction false} InsertElems(s: seq<nat>, x: nat)
    ensures |Insert(s, x)| == |s| + 1 && Elems(Insert(s, x)) == Elems(s) + {x}
  {
    if s != [] && s[|s| - 1] > x {
      var r := s[..|s| - 1];
      InsertElems(r, x);
      assert s == r + [s[|s| - 1]];
      ElemsAppend(r, s[|s| - 1]);
      ElemsAppend(Insert(r, x), s[|s| - 1]);
    } else {
      ElemsAppend(s, x);
    }
  }

  lemma ElemsAppend(s: seq<nat>, x: nat)
    ensures Elems(s + [x]) == Elems(s) + {x}
  {
  }

  lemma {:induction false} InsertSorted(s: seq<nat>, x: nat)
    requires Sorted(s) && x !in s
    ensures Sorted(Insert(s, x))
  {
    if s != [] && s[|s| - 1] > x {
      var r, z := s[..|s| - 1], s[|s| - 1];
      InsertSorted(r, x);
      InsertElems(r, x);
      forall i | 0 <= i < |Insert(r, x)| ensures Insert(r, x)[i] < z {
        assert Insert(r, x)[i] in Elems(Insert(r, x));
      }
    }
  }

  ghost predicate Ascending(s: seq<nat>)
  {
    forall i, j :: 0 <= i < j < |s| ==> s[i] <= s[j]
  }

  lemma {:induction false} InsertAscends(s: seq<nat>, x: nat)
    requires Ascending(s)
    ensures Ascending(Insert(s, x))
  {
    if s != [] && s[|s| - 1] > x {
      var r, z := s[..|s| - 1], s[|s| - 1];
      InsertAscends(r, x);
      InsertElems(r, x);
      forall i | 0 <= i < |Insert(r, x)| ensures Insert(r, x)[i] <= z {
        assert Insert(r, x)[i] in Elems(Insert(r, x));
      }
    }
  }

  lemma {:induction false} InsertKeeps(s: seq<nat>, x: nat)
    ensures multiset(Insert(s, x)) == multiset(s) + multiset{x}
  {
    if s != [] && s[|s| - 1] > x {
      InsertKeeps(s[..|s| - 1], x);
      assert s == s[..|s| - 1] + [s[|s| - 1]];
    }
  }

  /** The sort puts any array in ascending order and keeps every element as often as it was there. */
  lemma {:induction false} SortAscends(s: seq<nat>)
    ensures Ascending(SortOf(s)) && multiset(SortOf(s)) == multiset(s)
  {
    if s != [] {
      SortAscends(s[..|s| - 1]);
      InsertAscends(SortOf(s[..|s| - 1]), s[|s| - 1]);
      InsertKeeps(SortOf(s[..|s| - 1]), s[|s| - 1]);
      assert s == s[..|s| - 1] + [s[|s| - 1]];
    }
  }

  /** The sort orders the addresses strictly and keeps exactly what was there. */
  lemma {:induction false} SortSorts(s: seq<nat>)
    requires Distinct(s)
    ensures Sorted(SortOf(s)) && |SortOf(s)| == |s| && Elems(SortOf(s)) == Elems(s)
  {
    if s != [] {
      var r, x := s[..|s| - 1], s[|s| - 1];
      SortSorts(r);
      assert x !in Elems(r) && x !in SortOf(r) by { assert Elems(SortOf(r)) == Elems(r); }
      InsertSorted(SortOf(r), x);
      InsertElems(SortOf(r), x);
      assert s == r + [x];
      ElemsAppend(r, x);
    }
  }

  /** One step of the inner loop: the element before the hole is larger than x, and moves right. */
  lemma {:induction false} InsertShift(s: seq<nat>, x: nat, j: nat)
    requires j <= |s| && forall i :: j <= i < |s| ==> s[i] > x
    ensures Insert(s, x) == Insert(s[..j], x) + s[j..]
    decreases |s| - j
  {
    if j == |s| {
      assert s[..j] == s && s[j..] == [];
    } else {
      var z := s[j];
      InsertShift(s, x, j + 1);
      assert s[..j + 1][..j] == s[..j] && s[..j + 1][j] == z;
      assert s[j..] == [z] + s[j + 1..];
      Regroup(Insert(s[..j], x), z, s[j + 1..]);
    }
  }

  // ---------- Merge ----------

  /** No block of the list ends where the next one starts. */
  ghost predicate Gaps(m: map<nat, nat>, s: seq<nat>)
  {
    forall j :: 0 <= j < |s| - 1 ==> s[j] in m && s[j] + m[s[j]] < s[j + 1]
  }

  /** The blocks in `free` cover what those in free0 did, and the others are as they were. */
  ghost predicate SameBytes(m0: map<nat, nat>, free0: set<nat>, m: map<nat, nat>, free: set<nat>)
  {
    && m.Keys - free == m0.Keys - free0
    && (forall a :: a in m0 && a !in free0 ==> a in m && m[a] == m0[a])
    && (forall x: nat :: InAny(m, free, x) <==> InAny(m0, free0, x))
  }

  lemma JoinBytes(m: map<nat, nat>, free: set<nat>, a: nat, b: nat)
    requires free <= m.Keys && a in free && b in free && a != b && b == a + m[a] && m[b] > 0
    ensures SameBytes(m, free, Joined(m, a, b), free - {b})
  {
    var n, f := Joined(m, a, b), free - {b};
    assert n.Keys - f == m.Keys - free;
    forall x: nat ensures InAny(n, f, x) <==> InAny(m, free, x) {
      if c :| c in free && Holds(m, c, x) {
        var d := if c == b then a else c;
        assert d in f && Holds(n, d, x);
      }
      if c :| c in f && Holds(n, c, x) {
        var d := if c == a && x >= b then b else c;
        assert d in free && Holds(m, d, x);
      }
    }
  }

  lemma SameBytesTwice(m0: map<nat, nat>, f0: set<nat>, m1: map<nat, nat>, f1: set<nat>, m2: map<nat, nat>,
                       f2: set<nat>)
    requires SameBytes(m0, f0, m1, f1) && SameBytes(m1, f1, m2, f2)
    ensures SameBytes(m0, f0, m2, f2)
  {
    forall a | a in m0 && a !in f0 ensures a in m2 && m2[a] == m0[a] {
      assert a in m1.Keys - f1;
    }
  }

  ghost predicate MergeBlocks(m0: map<nat, nat>, free0: set<nat>, w: Words, m: map<nat, nat>, free: set<nat>)
  {
    Headed(w, free, m) && SameBytes(m0, free0, m, free)
  }

  ghost predicate MergeList(w: Words, first: nat, m: map<nat, nat>, done: seq<nat>, rest: seq<nat>)
  {
    Sorted(done + rest) && Gaps(m, done) && Linked(w, first, done)
  }

  /** The merge loop before the blocks in `rest`: `done` is the list so far. */
  ghost predicate Merging(m0: map<nat, nat>, free0: set<nat>, w: Words, first: nat, m: map<nat, nat>, done: seq<nat>,
                          rest: seq<nat>)
  {
    MergeList(w, first, m, done, rest) && MergeBlocks(m0, free0, w, m, Elems(done + rest))
  }

  /** w' is w with c linked behind the last block of the list. */
  ghost predicate LinkedBehind(w: Words, w': Words, done: seq<nat>, c: nat)
  {
    && w'.Keys == w.Keys && Relinked(w, w', {}) && c in w' && w'[c].next == NULL
    && (forall j :: 0 <= j < |done| - 1 ==> done[j] in w && w'[done[j]].next == w[done[j]].next)
    && (done != [] ==> done[|done| - 1] in w' && w'[done[|done| - 1]].next == c)
  }

  /** The next block does not touch the last one: it is linked behind it. */
  lemma Append(m0: map<nat, nat>, free0: set<nat>, w: Words, w': Words, first: nat, m: map<nat, nat>, done: seq<nat>,
               rest: seq<nat>)
    requires Merging(m0, free0, w, first, m, done, rest) && rest != [] && Apart(m) && LinkedBehind(w, w', done, rest[0])
    requires done != [] ==> var t := done[|done| - 1]; t in m && t + m[t] != rest[0]
    ensures Merging(m0, free0, w', if done == [] then rest[0] else first, m, done + [rest[0]], rest[1..])
  {
    ElemsMove(done, rest);
    assert (done + rest)[|done|] == rest[0] && rest[0] in Elems(done + rest);
    AppendList(w, w', first, m, done, rest);
    AppendBlocks(m0, free0, w, w', m, Elems(done + rest));
  }

  lemma ElemsMove(done: seq<nat>, rest: seq<nat>)
    requires rest != []
    ensures Elems((done + [rest[0]]) + rest[1..]) == Elems(done + rest)
  {
    assert done + rest == (done + [rest[0]]) + rest[1..];
  }

  lemma AppendBlocks(m0: map<nat, nat>, free0: set<nat>, w: Words, w': Words, m: map<nat, nat>, free: set<nat>)
    requires MergeBlocks(m0, free0, w, m, free) && w'.Keys == w.Keys && Relinked(w, w', {})
    ensures MergeBlocks(m0, free0, w', m, free)
  {
    RelinkedHeaded(w, w', free, m);
  }

  lemma AppendList(w: Words, w': Words, first: nat, m: map<nat, nat>, done: seq<nat>, rest: seq<nat>)
    requires MergeList(w, first, m, done, rest) && rest != [] && Apart(m) && LinkedBehind(w, w', done, rest[0])
    requires Elems(done + rest) <= m.Keys
    requires rest[0] in m && m[rest[0]] > 0
    requires done != [] ==> var t := done[|done| - 1]; t in m && t + m[t] != rest[0]
    ensures MergeList(w', if done == [] then rest[0] else first, m, done + [rest[0]], rest[1..])
  {
    assert done + rest == (done + [rest[0]]) + rest[1..];
    AppendLinks(w, w', first, done, rest[0]);
    AppendGap(m, done, rest);
  }

  lemma AppendLinks(w: Words, w': Words, first: nat, done: seq<nat>, c: nat)
    requires Linked(w, first, done) && LinkedBehind(w, w', done, c)
    ensures Linked(w', if done == [] then c else first, done + [c])
  {
  }

  lemma AppendGap(m: map<nat, nat>, done: seq<nat>, rest: seq<nat>)
    requires Gaps(m, done) && Sorted(done + rest) && rest != [] && Apart(m) && Elems(done + rest) <= m.Keys
    requires rest[0] in m && m[rest[0]] > 0
    requires done != [] ==> var t := done[|done| - 1]; t in m && t + m[t] != rest[0]
    ensures Gaps(m, done + [rest[0]])
  {
    assert (done + rest)[|done|] == rest[0] && rest[0] in Elems(done + rest);
    if done != [] {
      assert (done + rest)[|done| - 1] == done[|done| - 1];
      ApartInOrder(m, done[|done| - 1], rest[0]);
    }
  }

  lemma RelinkedHeaded(w: Words, w': Words, free: set<nat>, m: map<nat, nat>)
    requires Headed(w, free, m) && w'.Keys == w.Keys && Relinked(w, w', {})
    ensures Headed(w', free, m)
  {
  }

  /** The next block touches the last one: that grows over it. */
  lemma Absorb(m0: map<nat, nat>, free0: set<nat>, w: Words, first: nat, m: map<nat, nat>, done: seq<nat>,
               rest: seq<nat>, t: nat)
    requires Merging(m0, free0, w, first, m, done, rest) && rest != [] && done != [] && t == done[|done| - 1] && t in m
    requires t + m[t] == rest[0] && rest[0] in m
    ensures t in w
    ensures Merging(m0, free0, w[t := w[t].(size := m[t] + m[rest[0]])], first, Joined(m, t, rest[0]), done, rest[1..])
  {
    ElemsRest(done, rest);
    AbsorbBlocks(m0, free0, w, m, Elems(done + rest), t, rest[0]);
    AbsorbList(w, first, m, done, rest, t);
  }

  lemma ElemsRest(done: seq<nat>, rest: seq<nat>)
    requires Sorted(done + rest) && rest != []
    ensures Elems(done + rest[1..]) == Elems(done + rest) - {rest[0]} && Sorted(done + rest[1..])
    ensures rest[0] in Elems(done + rest)
    ensures done != [] ==> done[|done| - 1] in Elems(done + rest) && done[|done| - 1] < rest[0]
  {
    var q := done + rest;
    assert q[|done|] == rest[0] && (done != [] ==> q[|done| - 1] == done[|done| - 1]);
    assert q[..|done|] + q[|done| + 1..] == done + rest[1..];
    ElemsRemoved(q, |done|);
    SortedRemoved(q, |done|);
  }

  lemma AbsorbBlocks(m0: map<nat, nat>, free0: set<nat>, w: Words, m: map<nat, nat>, free: set<nat>, t: nat, c: nat)
    requires MergeBlocks(m0, free0, w, m, free) && t in free && c in free && t < c && c == t + m[t]
    ensures MergeBlocks(m0, free0, w[t := w[t].(size := m[t] + m[c])], Joined(m, t, c), free - {c})
  {
    JoinBytes(m, free, t, c);
    SameBytesTwice(m0, free0, m, free, Joined(m, t, c), free - {c});
    JoinHeaded(w, free, m, t, c);
  }

  lemma AbsorbList(w: Words, first: nat, m: map<nat, nat>, done: seq<nat>, rest: seq<nat>, t: nat)
    requires MergeList(w, first, m, done, rest) && rest != [] && done != [] && t == done[|done| - 1] && t in m && t in w
    requires rest[0] in m
    ensures MergeList(w[t := w[t].(size := m[t] + m[rest[0]])], first, Joined(m, t, rest[0]), done, rest[1..])
  {
    ElemsRest(done, rest);
    AbsorbGaps(m, done, rest, t);
  }

  lemma SortedRemoved(s: seq<nat>, i: nat)
    requires Sorted(s) && i < |s|
    ensures Sorted(s[..i] + s[i + 1..])
  {
  }

  lemma JoinHeaded(w: Words, free: set<nat>, m: map<nat, nat>, t: nat, c: nat)
    requires Headed(w, free, m) && t in free && c in free && t != c
    ensures Headed(w[t := w[t].(size := m[t] + m[c])], free - {c}, Joined(m, t, c))
  {
  }

  lemma AbsorbGaps(m: map<nat, nat>, done: seq<nat>, rest: seq<nat>, t: nat)
    requires Gaps(m, done) && Sorted(done + rest) && rest != [] && done != [] && t == done[|done| - 1] && t in m
    requires rest[0] in m
    ensures Gaps(Joined(m, t, rest[0]), done)
  {
    var q := done + rest;
    forall j | 0 <= j < |done| - 1
      ensures done[j] in Joined(m, t, rest[0]) && done[j] + Joined(m, t, rest[0])[done[j]] < done[j + 1]
    {
      assert q[j] == done[j] && q[|done| - 1] == t && q[|done|] == rest[0];
    }
  }
}
