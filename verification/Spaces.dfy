/** Whole address spaces: creating one, forking one, and the invariants of user memory that
    those operations keep. */
module Spaces {
  import opened Common
  import opened PageTables
  import opened Fork
  import P = Pmm

  predicate IsRoot(x: St, r: nat) { r in x.own && x.own[r] == Root(r) }

  /** A new root t with an empty user half and the kernel half of the current root. */
  ghost predicate SpaceMade(x: St, y: St, root: nat, t: nat)
  {
    && IsRoot(x, root) && t in x.free && t < |x.m| && root < |x.m| && |y.m| == |x.m|
    && y == St(x.m[t := y.m[t]], x.own[t := Root(t)], x.free - {t}, x.refs, x.total)
    && (forall i :: 0 <= i < 256 ==> y.m[t][i] == ZERO)
    && (forall i :: 256 <= i < 512 ==> y.m[t][i] == x.m[root][i])
  }

  lemma SpaceMadeBase(x: St, y: St, root: nat, t: nat)
    requires Base(x) && SpaceMade(x, y, root, t)
    ensures Base(y)
    ensures forall f: nat :: Sharers(y, f) == Sharers(x, f)
    ensures AllLinked(x) ==> AllLinked(y)
    ensures UserPages(x) ==> UserPages(y)
  {
    forall p | p in y.own ensures p < |y.m| && Closed(y.m, y.own, p) && PosOk(y, p) {
      assert Closed(x.m, x.own, root);
      if p != t { assert Closed(x.m, x.own, p) && PosOk(x, p); }
    }
    forall p: nat, i: nat ensures LeafAt(y, p, i) <==> LeafAt(x, p, i) {
    }
    forall p: nat, i: nat | LeafAt(y, p, i) ensures y.m[p][i] == x.m[p][i] {
    }
    forall f: nat ensures Sharers(y, f) == Sharers(x, f) {
    }
    if AllLinked(x) {
      forall p | p in y.own && UserPos(y.own[p]) ensures Linked(y, p) {
        var q, i :| EntryTo(x, q, i, p);
        assert EntryTo(y, q, i, p);
      }
    }
  }

  /** The new space maps nothing for the user and the kernel half as before; no other space changes. */
  lemma SpaceMadeWalks(x: St, y: St, root: nat, t: nat, va: nat)
    requires Base(x) && SpaceMade(x, y, root, t)
    ensures forall r :: IsRoot(x, r) ==>
              Walk(y.m, r, 3, va) == Walk(x.m, r, 3, va) && Above(y.m, r, 3, va) == Above(x.m, r, 3, va)
    ensures Walk(y.m, t, 3, va) == if UserVa(va) then Unmapped else Walk(x.m, root, 3, va)
    ensures Above(y.m, t, 3, va) == if UserVa(va) then ALL else Above(x.m, root, 3, va)
  {
    forall r | IsRoot(x, r)
      ensures Walk(y.m, r, 3, va) == Walk(x.m, r, 3, va) && Above(y.m, r, 3, va) == Above(x.m, r, 3, va)
    {
      WalkSkips(x.m, x.own, t, y.m[t], r, va, r, 3);
    }
    var e := x.m[root][Index(va, 3)];
    if !UserVa(va) && Interior(e, 3) {
      assert Closed(x.m, x.own, root);
      assert x.own[e.frame] == At(root, va, 2);
      WalkSkips(x.m, x.own, t, y.m[t], root, va, e.frame, 2);
    }
  }

  /** The child of a fork: a new root, then entries 0..256 copied table by table. */
  ghost predicate ForkedSpace(x: St, y: St, root: nat, child: nat)
  {
    exists x1 :: SpaceMade(x, x1, root, child) && Forked(x1, y, root, child, 0, 256)
  }

  /** Parent and child translate every user address as the parent did, with every user leaf read-only and
      marked in both. */
  lemma ForkedSpaceWalks(x: St, y: St, root: nat, child: nat, va: nat)
    requires Base(x) && ForkedSpace(x, y, root, child) && UserVa(va)
    ensures SharedAs(Walk(x.m, root, 3, va), Walk(y.m, root, 3, va))
    ensures Walk(y.m, child, 3, va) == Walk(y.m, root, 3, va)
    ensures Above(y.m, root, 3, va) == Above(x.m, root, 3, va)
    ensures Above(y.m, child, 3, va) == Above(x.m, root, 3, va).(x := true)
  {
    var x1 :| SpaceMade(x, x1, root, child) && Forked(x1, y, root, child, 0, 256);
    SpaceMadeWalks(x, x1, root, child, va);
    assert Through(x1, root, va, 0, 256);
    assert WalksAs(x1, y, root, child, va);
  }

  /** The kernel half is shared as it is, and every other space is untouched. */
  lemma ForkedSpaceElsewhere(x: St, y: St, root: nat, child: nat, va: nat)
    requires Base(x) && ForkedSpace(x, y, root, child)
    ensures !UserVa(va) ==> Walk(y.m, root, 3, va) == Walk(y.m, child, 3, va) == Walk(x.m, root, 3, va)
    ensures !UserVa(va) ==> Above(y.m, root, 3, va) == Above(y.m, child, 3, va) == Above(x.m, root, 3, va)
    ensures forall r :: IsRoot(x, r) && r != root ==>
              Walk(y.m, r, 3, va) == Walk(x.m, r, 3, va) && Above(y.m, r, 3, va) == Above(x.m, r, 3, va)
  {
    var x1 :| SpaceMade(x, x1, root, child) && Forked(x1, y, root, child, 0, 256);
    SpaceMadeBase(x, x1, root, child);
    SpaceMadeWalks(x, x1, root, child, va);
    if !UserVa(va) {
      KernelWalkStays(x1, y, root, child, root, va);
      KernelWalkStays(x1, y, root, child, child, va);
    }
    forall r | IsRoot(x, r) && r != root
      ensures Walk(y.m, r, 3, va) == Walk(x.m, r, 3, va) && Above(y.m, r, 3, va) == Above(x.m, r, 3, va)
    {
      assert IsRoot(x1, r) && r != child;
      OtherWalkStays(x1, y, root, child, r, va);
    }
  }

  /** Neither parent nor child may write where the parent had a user page; both may reach and execute
      what the parent could, and the child also what a table's no-execute bit kept the parent from. */
  lemma ForkedSpaceAccess(x: St, y: St, root: nat, child: nat, va: nat)
    requires Base(x) && ForkedSpace(x, y, root, child) && UserVa(va)
    ensures var l := Walk(x.m, root, 3, va);
            var shared := l.Mapped? && l.entry.u;
            var was := Access(x.m, root, va);
            && Access(y.m, root, va) == was.(w := was.w && !shared)
            && Access(y.m, child, va) == was.(w := was.w && !shared, x := l.Mapped? && !l.entry.nx)
  {
    ForkedSpaceWalks(x, y, root, child, va);
  }

  lemma KernelWalkStays(x: St, y: St, root: nat, child: nat, r: nat, va: nat)
    requires Base(x) && Forked(x, y, root, child, 0, 256) && IsRoot(x, root) && IsRoot(x, child) && !UserVa(va)
    requires IsRoot(x, r)
    ensures Walk(y.m, r, 3, va) == Walk(x.m, r, 3, va) && Above(y.m, r, 3, va) == Above(x.m, r, 3, va)
  {
    forall p | p in x.own && x.own[p] == At(r, va, Level(x.own[p]))
      ensures y.m[p][Index(va, Level(x.own[p]))] == x.m[p][Index(va, Level(x.own[p]))]
    {
      assert PosOk(x, p);
      if p != root && p != child { assert Untouched(x, root, child, 0, 256, p); }
    }
    WalkAgree(x.m, y.m, x.own, r, va, r, 3);
  }

  lemma OtherWalkStays(x: St, y: St, root: nat, child: nat, r: nat, va: nat)
    requires Base(x) && Forked(x, y, root, child, 0, 256) && IsRoot(x, root) && IsRoot(x, child) && IsRoot(x, r)
    requires r != root && r != child
    ensures Walk(y.m, r, 3, va) == Walk(x.m, r, 3, va) && Above(y.m, r, 3, va) == Above(x.m, r, 3, va)
  {
    forall p | p in x.own && x.own[p] == At(r, va, Level(x.own[p]))
      ensures y.m[p][Index(va, Level(x.own[p]))] == x.m[p][Index(va, Level(x.own[p]))]
    {
      assert PosOk(x, p);
      assert Untouched(x, root, child, 0, 256, p);
    }
    WalkAgree(x.m, y.m, x.own, r, va, r, 3);
  }

  /** The child's tables are pages that were free; data pages keep their contents. */
  lemma ForkedSpaceFresh(x: St, y: St, root: nat, child: nat)
    requires Base(x) && ForkedSpace(x, y, root, child)
    ensures Base(y) && IsRoot(y, child) && child in x.free && y.free <= x.free && y.total == x.total
    ensures forall p :: p in x.own ==> p in y.own && y.own[p] == x.own[p]
    ensures forall p :: p in y.own && y.own[p].space == child ==> p in x.free && p !in x.own
    ensures forall p :: p in y.own && y.own[p].space != child ==> p in x.own
    ensures forall p :: 0 <= p < |x.m| && p !in x.free && p !in x.own ==> y.m[p] == x.m[p]
    ensures Counted(x, y)
  {
    var x1 :| SpaceMade(x, x1, root, child) && Forked(x1, y, root, child, 0, 256);
    SpaceMadeBase(x, x1, root, child);
    assert Counted(x1, y);
    CountedSame(x, x1, y, y);
    ForkedSpaceOwn(x, x1, y, root, child);
    forall p | 0 <= p < |x.m| && p !in x.free && p !in x.own ensures y.m[p] == x.m[p] {
      assert Untouched(x1, root, child, 0, 256, p);
    }
  }

  /** The child's tables are fresh, and only the child has new ones. */
  lemma ForkedSpaceOwn(x: St, x1: St, y: St, root: nat, child: nat)
    requires Base(x) && SpaceMade(x, x1, root, child) && Base(x1) && Forked(x1, y, root, child, 0, 256)
    ensures forall p :: p in x.own ==> p in y.own && y.own[p] == x.own[p]
    ensures forall p :: p in y.own && y.own[p].space == child ==> p in x.free && p !in x.own
    ensures forall p :: p in y.own && y.own[p].space != child ==> p in x.own
  {
    forall p | p in y.own && y.own[p].space == child ensures p in x.free && p !in x.own {
      assert p in x.own ==> PosOk(x, p);
    }
  }

  /** The root and the tables of space s. */
  ghost function TablesOf(x: St, s: nat): set<nat> { set p | p in x.own && x.own[p].space == s }

  /** A fork takes the child's tables and, exactly when it stores the first counts, the lowest run that
      holds the count array; every other free page stays free. It stores counts if and only if some
      managed page is mapped once more. */
  lemma ForkedSpaceSpends(x: St, y: St, root: nat, child: nat)
    requires Base(x) && ForkedSpace(x, y, root, child)
    ensures TablesOf(y, child) <= x.free
    ensures x.refs != [] || y.refs == [] ==> y.free == x.free - TablesOf(y, child)
    ensures x.refs == [] && y.refs != [] ==> P.ArrayTaken(x.free - TablesOf(y, child), y.free, x.total)
    ensures y.refs != [] <==> x.refs != [] || exists f: nat :: f < x.total && Sharers(x, f) < Sharers(y, f)
  {
    ForkedSpaceFresh(x, y, root, child);
    var x1 :| SpaceMade(x, x1, root, child) && Forked(x1, y, root, child, 0, 256);
    assert Spent(x1, y) && child in y.own;
    SpentFrom(x, x1, y, child);
    CountsStoredIff(x, y);
  }

  lemma SpentFrom(x: St, x1: St, y: St, child: nat)
    requires Spent(x1, y) && child in x.free && x1.free == x.free - {child} && x1.refs == x.refs && x1.total == x.total
    requires child in y.own && Base(x) && y.free <= x.free
    requires forall p :: p in y.own ==> (y.own[p].space == child <==> p !in x.own)
    ensures x.refs != [] ==> y.refs != []
    ensures x.refs != [] || y.refs == [] ==> y.free == x.free - TablesOf(y, child)
    ensures x.refs == [] && y.refs != [] ==> P.ArrayTaken(x.free - TablesOf(y, child), y.free, x.total)
    ensures x.refs == [] && y.refs != [] ==> exists f: nat :: y.Stored(f) > 0
  {
    OpenSpent(x1, y);
    assert x1.free - y.own.Keys == x.free - TablesOf(y, child);
  }

  lemma CountsStoredIff(x: St, y: St)
    requires Counted(x, y) && Base(x) && Base(y) && y.total == x.total && (x.refs != [] ==> y.refs != [])
    requires x.refs == [] && y.refs != [] ==> exists f: nat :: y.Stored(f) > 0
    ensures y.refs != [] <==> x.refs != [] || exists f: nat :: f < x.total && Sharers(x, f) < Sharers(y, f)
  {
    if x.refs == [] {
      if y.refs != [] {
        var f: nat :| y.Stored(f) > 0;
        MoreIff(Sharers(x, f), Sharers(y, f));
      }
      if f: nat :| f < x.total && Sharers(x, f) < Sharers(y, f) {
        MoreIff(Sharers(x, f), Sharers(y, f));
      }
    }
  }

  lemma MoreIff<T>(a: set<T>, b: set<T>)
    requires a <= b
    ensures a < b <==> |a| < |b|
  {
    assert b == a + (b - a);
    assert |b| == |a| + |b - a|;
  }

  lemma ForkedSpaceInv(x: St, y: St, root: nat, child: nat)
    requires Base(x) && AllLinked(x) && UserPages(x) && ForkedSpace(x, y, root, child)
    ensures AllLinked(y) && UserPages(y)
  {
    ForkedSpaceFresh(x, y, root, child);
    var x1 :| SpaceMade(x, x1, root, child) && Forked(x1, y, root, child, 0, 256);
    SpaceMadeBase(x, x1, root, child);
    ForkedLinked(x1, y, root, child);
    forall p: nat, i: nat | LeafAt(y, p, i)
      ensures y.m[p][i].frame !in y.free && y.m[p][i].frame !in y.own && y.m[p][i].frame < y.total
    {
      var f := y.m[p][i].frame;
      assert (p, i) in Sharers(y, f);
      var q, j :| (q, j) in Sharers(x, f);
      assert LeafAt(x, q, j);
    }
  }

  lemma ForkedLinked(x: St, y: St, src: nat, dst: nat)
    requires Base(x) && AllLinked(x) && Forked(x, y, src, dst, 0, 256) && IsRoot(x, src) && IsRoot(x, dst)
    requires forall i :: 0 <= i < 256 ==> x.m[dst][i] == ZERO
    ensures AllLinked(y)
  {
    InteriorStays(x, y, src, dst, 0, 256);
    forall p | p in y.own && UserPos(y.own[p]) ensures Linked(y, p) {
      if p in x.own { LinkedStays(x, y, p); }
    }
  }
}
