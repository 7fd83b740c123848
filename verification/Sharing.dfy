/** What a fork leaves shared, and what the next write and the next execve make of it
    (core/memory/vmm.c:250-328, core/cpu/exec.c:127-137). */
module Sharing {
  import opened Common
  import opened PageTables
  import opened Fork
  import opened Spaces
  import opened Maps
  import opened Cow
  import opened Teardown
  import opened Lifecycle
  import opened Memory
  import E = Exec
  import L = Elf
  import V = Vmm

  // ---------- Pages that execve gives away ----------

  /** Some other space has a user entry for f. */
  ghost predicate MappedElsewhere(x: St, s: nat, f: nat)
  {
    exists q: nat, j: nat :: EntryElsewhere(x, s, f, q, j)
  }

  ghost predicate EntryElsewhere(x: St, s: nat, f: nat, q: nat, j: nat)
  {
    LeafAt(x, q, j) && x.m[q][j].frame == f && x.own[q].space != s
  }

  /** Tearing down a space gives away a page of it that another space still maps exactly when the page
      has two entries in all: its count is then 1, and the code takes the last reference. */
  lemma GivesAwayIffTwo(x: St, s: nat, p: nat, i: nat)
    requires Inv(x) && CountExact(x) && x.refs != [] && s != KERNEL && Tearable(x, s) && Held(x, s, p, i) && x.m[p][i].u
    ensures var f := x.m[p][i].frame;
            f in TornSpace(x, s) && MappedElsewhere(x, s, f) <==> |Sharers(x, f)| == 2
  {
    var f := x.m[p][i].frame;
    assert PosOk(x, p) && HeldOnce(x, s, p, i);
    assert LeafAt(x, p, i) && (p, i) in Sharers(x, f);
    FramesOfSpace(x, s);
    assert Names(x, s, f);
    assert f in TornSpace(x, s) <==> x.Stored(f) <= 1;
    OthersElsewhere(x, s, p, i);
    OneLess(Sharers(x, f), (p, i));
  }

  lemma OthersElsewhere(x: St, s: nat, p: nat, i: nat)
    requires Inv(x) && s != KERNEL && Tearable(x, s) && Held(x, s, p, i) && x.m[p][i].u
    ensures MappedElsewhere(x, s, x.m[p][i].frame) <==> Sharers(x, x.m[p][i].frame) - {(p, i)} != {}
  {
    var f := x.m[p][i].frame;
    assert HeldOnce(x, s, p, i);
    if q: nat, j: nat :| EntryElsewhere(x, s, f, q, j) {
      assert (q, j) in Sharers(x, f) - {(p, i)};
    }
    if e :| e in Sharers(x, f) - {(p, i)} {
      assert LeafAt(x, e.0, e.1) && Level(x.own[e.0]) == 0;
      assert x.own[e.0].space == s ==> Held(x, s, e.0, e.1);
      assert EntryElsewhere(x, s, f, e.0, e.1);
    }
  }

  // ---------- A forked space can be torn down ----------

  /** r is the parent or the child of the fork. */
  predicate Twin(r: nat, root: nat, child: nat) { r == root || r == child }

  /** An entry of a page table of either space comes from the parent's entry for the same address. */
  lemma HeldBefore(x: St, y: St, root: nat, child: nat, r: nat, p: nat, i: nat) returns (v: nat, q: nat)
    requires Inv(x) && root != KERNEL && ForkedSpace(x, y, root, child) && IsRoot(x, root)
    requires Base(y) && AllLinked(y) && Twin(r, root, child) && r != KERNEL && Held(y, r, p, i)
    ensures UserVa(v) && Index(v, 0) == i && y.own[p] == Pt(r, Index(v, 3), Index(v, 2), Index(v, 1))
    ensures Held(x, root, q, i) && x.m[q][i].frame == y.m[p][i].frame
    ensures x.own[q] == Pt(root, Index(v, 3), Index(v, 2), Index(v, 1))
  {
    assert PosOk(y, p);
    v := LeafVa(y, p, i);
    ForkedSpaceWalks(x, y, root, child, v);
    q := SmallEntry(x, root, v);
  }

  /** The entry behind a translation by a 4 KiB page. */
  lemma SmallEntry(x: St, root: nat, v: nat) returns (q: nat)
    requires Base(x) && root != KERNEL && IsRoot(x, root) && UserVa(v)
    requires Walk(x.m, root, 3, v).Mapped? && Walk(x.m, root, 3, v).level == 0
    ensures Held(x, root, q, Index(v, 0)) && x.m[q][Index(v, 0)] == Walk(x.m, root, 3, v).entry
    ensures x.own[q] == Pt(root, Index(v, 3), Index(v, 2), Index(v, 1))
  {
    q := WalkEndsAt(x, root, root, 3, v);
    PathTo(root, v);
  }

  lemma ForkedHeldOnce(x: St, y: St, root: nat, child: nat, r: nat, p: nat, i: nat)
    requires Inv(x) && root != KERNEL && Tearable(x, root) && ForkedSpace(x, y, root, child)
    requires Base(y) && AllLinked(y) && Twin(r, root, child) && r != KERNEL && Held(y, r, p, i)
    ensures HeldOnce(y, r, p, i)
  {
    var v, q := HeldBefore(x, y, root, child, r, p, i);
    assert HeldOnce(x, root, q, i);
    ForkedFrame(x, y, root, child, y.m[p][i].frame);
    forall p': nat, j: nat | Held(y, r, p', j) && y.m[p'][j].frame == y.m[p][i].frame ensures p' == p && j == i {
      var v', q' := HeldBefore(x, y, root, child, r, p', j);
      PositionsUnique(y, p', p);
    }
  }

  lemma ForkedFrame(x: St, y: St, root: nat, child: nat, f: nat)
    requires Base(x) && ForkedSpace(x, y, root, child) && 0 < f < x.total && f !in x.free && f !in x.own
    ensures 0 < f < y.total && f !in y.free && f !in y.own
  {
    ForkedSpaceFresh(x, y, root, child);
  }

  /** The walk through entry i of a table above the last level. */
  lemma InnerVa(y: St, r: nat, p: nat, i: nat) returns (v: nat)
    requires Base(y) && AllLinked(y) && IsRoot(y, r) && p in y.own && UserPos(y.own[p]) && y.own[p].space == r
    requires i < 512
    ensures UserVa(v) && Index(v, Level(y.own[p])) == i && Walk(y.m, r, 3, v) == Walk(y.m, p, Level(y.own[p]), v)
  {
    LabelBounds(y, p);
    v := VaThrough(y.own[p], i);
    ThroughEntry(y.own[p], i);
    LinkedPasses(y, r, v, Level(y.own[p]), p);
    PassesDown(y.m, r, 3, v, Level(y.own[p]), p);
  }

  lemma ForkedSmall(x: St, y: St, root: nat, child: nat, r: nat, p: nat, i: nat)
    requires Inv(x) && root != KERNEL && Tearable(x, root) && ForkedSpace(x, y, root, child)
    requires Base(y) && AllLinked(y) && IsRoot(y, r) && Twin(r, root, child) && r != KERNEL
    requires p in y.own && i < 512 && y.own[p].space == r && 1 <= Level(y.own[p]) <= 2 && y.m[p][i].p
    ensures !y.m[p][i].ps
  {
    assert PosOk(y, p);
    var v := InnerVa(y, r, p, i);
    ForkedSpaceWalks(x, y, root, child, v);
    NoLargeWalk(x, root, v);
  }

  lemma NoLargeWalk(x: St, root: nat, v: nat)
    requires Base(x) && root != KERNEL && Tearable(x, root) && UserVa(v)
    ensures Walk(x.m, root, 3, v).Mapped? ==> Walk(x.m, root, 3, v).level == 0
  {
    if Walk(x.m, root, 3, v).Mapped? {
      var q := WalkEndsAt(x, root, root, 3, v);
      var level := Walk(x.m, root, 3, v).level;
      if level < 3 { UserPath(root, v, level); }
    }
  }

  /** After a fork both spaces can be torn down if the parent could be. */
  lemma ForkedTearable(x: St, y: St, root: nat, child: nat, r: nat)
    requires Inv(x) && root != KERNEL && Tearable(x, root) && ForkedSpace(x, y, root, child) && Twin(r, root, child)
    ensures r != KERNEL && Tearable(y, r)
  {
    ForkedSpaceInv(x, y, root, child);
    ForkedSpaceFresh(x, y, root, child);
    forall p: nat, i: nat | Held(y, r, p, i) ensures HeldOnce(y, r, p, i) {
      ForkedHeldOnce(x, y, root, child, r, p, i);
    }
    forall p, i | && p in y.own && p < |y.m| && 0 <= i < 512
                  && y.own[p].space == r && 1 <= Level(y.own[p]) <= 2 && y.m[p][i].p
      ensures !y.m[p][i].ps
    {
      ForkedSmall(x, y, root, child, r, p, i);
    }
  }

  // ---------- One page, one fork ----------

  lemma NoHugeKept(x: St, y: St, root: nat, va: nat, w: Word, z: St, pt: nat)
    requires NoHuge(x, root) && MappedFresh(x, y, root, va, w, z, pt)
    ensures NoHuge(y, root)
  {
    forall p, i | && p in y.own && p < |y.m| && 0 <= i < 512
                  && y.own[p].space == root && UserPos(y.own[p]) && Level(y.own[p]) == 2
      ensures !IsLeaf(y.m[p][i], 2)
    {
      assert y.m[p][i] == z.m[p][i];
      if z.m[p][i].p { assert OldEntry(Taken(x, w.frame), z, p, i) || NewEntry(z, p, i); }
    }
  }

  /** A page is taken and mapped at va, and then the space is forked. */
  ghost predicate MapThenFork(x: St, y: St, root: nat, child: nat, va: nat, pg: nat, y1: St, z: St, pt: nat)
  {
    && UserVa(va) && MappedFresh(x, y1, root, va, L.UserWord(pg), z, pt) && ForkedSpace(y1, y, root, child)
  }

  /** The same, folded: OpenForked unfolds it. */
  ghost predicate MappedAndForked(x: St, y: St, root: nat, child: nat, va: nat, pg: nat, y1: St, z: St, pt: nat)
  {
    forall u {:trigger Is(u, y)} :: Is(u, y) ==> MapThenFork(x, u, root, child, va, pg, y1, z, pt)
  }

  lemma OpenForked(x: St, y: St, root: nat, child: nat, va: nat, pg: nat, y1: St, z: St, pt: nat)
    requires MappedAndForked(x, y, root, child, va, pg, y1, z, pt)
    ensures MapThenFork(x, y, root, child, va, pg, y1, z, pt)
  {
    assert Is(y, y);
  }

  method MapAndFork(v: V.Vmm, va: nat) returns (ok: bool, pg: nat, child: nat, ghost y1: St, ghost z: St, ghost pt: nat)
    requires L.Ready(v) && NoHuge(v.S(), v.pml4) && va < 0x8000_0000_0000
    requires Walk(v.phys, v.pml4, 3, va) == Unmapped
    modifies v`phys, v`own, v.pmm, v.pmm.bitmap
    ensures ok ==> v.Valid() && MappedAndForked(old(v.S()), v.S(), v.pml4, child, va, pg, y1, z, pt)
    ensures !ok ==> v.Exhausted()
  {
    ghost var x := v.S();
    child, y1, z, pt := 0, x, x, 0;
    V.PageBase(va);
    OpenOrderly(x);
    pg := v.pmm.Alloc();
    if pg == 0 { return false, pg, child, y1, z, pt; }
    TakenKeeps(x, pg);
    var r;
    r, z, pt := v.Map(va, pg, L.UserWord(0));
    y1 := v.S();
    if r != V.MapOk { return false, pg, child, y1, z, pt; }
    NoHugeKept(x, y1, v.pml4, va, L.UserWord(pg), z, pt);
    child, ok := v.ForkUserSpace();
  }

  /** The parent may write at va, and every word it stores there is the one that the child reads. */
  ghost predicate Leaks(y: St, root: nat, child: nat, va: nat)
  {
    var l := Walk(y.m, root, 3, va);
    && l.Mapped? && l.entry.w && l.entry.frame < |y.m|
    && forall word: Word :: UserView(Store(y, l.entry.frame, va / 8 % 512, word), child, va) == Seen(word)
  }

  /** Map a page, fork, and let the parent write, on the code itself: the parent's page is writable, the
      child has the same page, and whatever the parent stores there the child reads. */
  method MapForkWrite(v: V.Vmm, va: nat) returns (ok: bool, child: nat)
    requires L.Ready(v) && CountExact(v.S()) && NoHuge(v.S(), v.pml4) && va < 0x8000_0000_0000
    requires Walk(v.phys, v.pml4, 3, va) == Unmapped
    modifies v`phys, v`own, v.pmm, v.pmm.bitmap
    ensures !ok ==> v.Exhausted()
    ensures ok ==> Leaks(v.S(), v.pml4, child, va)
  {
    ghost var x := v.S();
    ghost var y1, z, pt;
    var pg;
    ok, pg, child, y1, z, pt := MapAndFork(v, va);
    if !ok { return; }
    ok := WriteFault(v, x, child, va, pg, y1, z, pt);
  }

  method WriteFault(v: V.Vmm, ghost x: St, ghost child: nat, va: nat, ghost pg: nat, ghost y1: St, ghost z: St,
                    ghost pt: nat)
    returns (ok: bool)
    requires v.Valid() && Orderly(x) && CountExact(x) && va < 0x8000_0000_0000
    requires MappedAndForked(x, v.S(), v.pml4, child, va, pg, y1, z, pt)
    modifies v`phys, v`own, v.pmm, v.pmm.bitmap
    ensures !ok ==> v.pmm.free == {}
    ensures ok ==> Leaks(v.S(), v.pml4, child, va)
  {
    ghost var y2 := v.S();
    ForkedLeaf(x, y2, v.pml4, child, va, pg, y1, z, pt);
    var r;
    ghost var pt', n;
    r, pt', n := v.PageFault(va, 3);
    if r != V.Handled { return false; }
    LeaksAfter(x, y2, v.S(), v.pml4, child, va, pg, y1, z, pt, pt', n);
    ok := true;
  }

  /** After the fork the parent's leaf at va is marked, and the child has the same leaf. */
  lemma ForkedLeaf(x: St, y: St, root: nat, child: nat, va: nat, pg: nat, y1: St, z: St, pt: nat)
    requires Orderly(x) && MappedAndForked(x, y, root, child, va, pg, y1, z, pt)
    ensures V.CowLeafAt(Walk(y.m, root, 3, va))
    ensures Walk(y.m, child, 3, va) == Walk(y.m, root, 3, va) && Walk(y.m, root, 3, va).entry.frame == pg
  {
    OpenOrderly(x);
    OpenForked(x, y, root, child, va, pg, y1, z, pt);
    MapWalks(Taken(x, pg), y1, root, va, L.UserWord(pg), z, pt, root, va);
    MappedFreshKeeps(x, y1, root, va, L.UserWord(pg), z, pt);
    ForkedSpaceWalks(y1, y, root, child, va);
  }

  lemma LeaksAfter(x: St, y2: St, y3: St, root: nat, child: nat, va: nat, pg: nat, y1: St, z: St, pt: nat, pt': nat,
                   n: nat)
    requires Orderly(x) && CountExact(x) && MappedAndForked(x, y2, root, child, va, pg, y1, z, pt)
    requires Faulted(y2, y3, pt', Index(va, 0), n) && Reaches(y2.m, root, 3, va, pt')
    ensures Leaks(y3, root, child, va)
  {
    ForkedLeaf(x, y2, root, child, va, pg, y1, z, pt);
    BothInOrder(x, y2, root, child, va, pg, y1, z, pt);
    ChildSees(y2, y3, root, child, va, pg, pt', n);
    OpenOrderly(x);
    OpenForked(x, y2, root, child, va, pg, y1, z, pt);
    WriteAfterForkIsShared(x, y1, y2, y3, root, va, L.UserWord(pg), z, pt, child, pt', n);
  }

  lemma BothInOrder(x: St, y: St, root: nat, child: nat, va: nat, pg: nat, y1: St, z: St, pt: nat)
    requires Orderly(x) && MappedAndForked(x, y, root, child, va, pg, y1, z, pt)
    ensures Inv(y) && IsRoot(y, root) && IsRoot(y, child) && root != child && UserVa(va)
  {
    OpenOrderly(x);
    OpenForked(x, y, root, child, va, pg, y1, z, pt);
    MappedFreshKeeps(x, y1, root, va, L.UserWord(pg), z, pt);
    ForkedSpaceFresh(y1, y, root, child);
    ForkedSpaceInv(y1, y, root, child);
  }

  lemma ChildSees(x: St, y: St, root: nat, child: nat, va: nat, pg: nat, pt: nat, n: nat)
    requires Inv(x) && IsRoot(x, root) && IsRoot(x, child) && root != child && UserVa(va)
    requires Faulted(x, y, pt, Index(va, 0), n) && Reaches(x.m, root, 3, va, pt)
    requires V.CowLeafAt(Walk(x.m, child, 3, va)) && Walk(x.m, child, 3, va).entry.frame == pg
    ensures pg < |y.m| && forall word: Word :: UserView(Store(y, pg, va / 8 % 512, word), child, va) == Seen(word)
  {
    FaultInOneSpace(x, y, pt, Index(va, 0), n, root, child, va);
    UserFrame(x, child, va);
    FaultBase(x, y, pt, Index(va, 0), n);
    forall word: Word ensures UserView(Store(y, pg, va / 8 % 512, word), child, va) == Seen(word) {
      StoreSeen(y, pg, va / 8 % 512, child, va, word);
    }
  }

  // ---------- One page, one fork, one execve ----------

  /** Map a page, fork, and let the child call execve, on the code itself: the page is free again, and
      the parent still has it. */
  method MapForkExec(v: V.Vmm, va: nat, ghost x0: St) returns (ok: bool, pg: nat)
    requires L.Ready(v) && CountExact(v.S()) && NoHuge(v.S(), v.pml4) && va < 0x8000_0000_0000
    requires Walk(v.phys, v.pml4, 3, va) == Unmapped && Balanced(x0, v.S(), v.pml4)
    modifies v`phys, v`own, v.pmm, v.pmm.bitmap
    ensures !ok ==> v.Exhausted()
    ensures ok ==> pg in v.pmm.free
    ensures ok ==> var l := Walk(v.phys, v.pml4, 3, va); l.Mapped? && l.entry.u && l.entry.frame == pg
  {
    ghost var x := v.S();
    ghost var y1, z, pt;
    var child;
    ok, pg, child, y1, z, pt := MapAndFork(v, va);
    if !ok { return; }
    ForkedLeaf(x, v.S(), v.pml4, child, va, pg, y1, z, pt);
    ChildTears(x0, x, v.S(), v.pml4, child, va, pg, y1, z, pt);
    ok := E.TearDown(v.pmm, v.phys, child, v.S());
  }

  /** The child's teardown gives the shared page back. */
  lemma ChildTears(x0: St, x: St, y: St, root: nat, child: nat, va: nat, pg: nat, y1: St, z: St, pt: nat)
    requires Balanced(x0, x, root) && MappedAndForked(x, y, root, child, va, pg, y1, z, pt)
    ensures E.Target(y, child) && IsRoot(y, child) && pg in TornSpace(y, child)
  {
    OpenForked(x, y, root, child, va, pg, y1, z, pt);
    Grew(x0, x, y1, root, va, L.UserWord(pg), z, pt);
    OpenBalanced(x0, x, root);
    FreshSharer(x, y1, root, va, L.UserWord(pg), z, pt);
    MapWalks(Taken(x, pg), y1, root, va, L.UserWord(pg), z, pt, root, va);
    OpenBalanced(x0, y1, root);
    ForkedTears(y1, y, root, child, va, pg, pt);
  }

  lemma ForkedTears(x: St, y: St, root: nat, child: nat, va: nat, f: nat, pt: nat)
    requires Inv(x) && CountExact(x) && root != KERNEL && Tearable(x, root) && ForkedSpace(x, y, root, child)
    requires UserVa(va) && Walk(x.m, root, 3, va) == Mapped(L.UserWord(f), 0) && Sharers(x, f) == {(pt, Index(va, 0))}
    ensures E.Target(y, child) && IsRoot(y, child) && f in TornSpace(y, child)
  {
    CountAfterFork(x, y, root, child, f, pt, Index(va, 0));
    ForkedTearable(x, y, root, child, child);
    ForkedSpaceWalks(x, y, root, child, va);
    ForkedSpaceInv(x, y, root, child);
    var q := UserLeafOf(y, child, va);
    CountedTwice(x, y, root, child, f, pt, q, va);
    TornWithLast(y, child, q, Index(va, 0));
  }

  /** The fork has counted the page, so the array exists. */
  lemma CountedTwice(x: St, y: St, root: nat, child: nat, f: nat, pt: nat, q: nat, va: nat)
    requires Inv(x) && CountExact(x) && ForkedSpace(x, y, root, child) && Sharers(x, f) == {(pt, Index(va, 0))}
    requires LeafAt(y, q, Index(va, 0)) && y.m[q][Index(va, 0)].frame == f && y.own[q].space == child
    ensures y.refs != []
  {
    var i := Index(va, 0);
    assert LeafAt(x, pt, i) && (pt, i) in Sharers(x, f);
    ForkedSpaceFresh(x, y, root, child);
    assert (q, i) in Sharers(y, f) && Sharers(x, f) <= Sharers(y, f);
    TwoElements(Sharers(y, f), (q, i), (pt, i));
    CountsUp(x, y, f);
  }

  lemma CountsUp(x: St, y: St, f: nat)
    requires Counted(x, y) && f < x.total && |Sharers(x, f)| == 1 && |Sharers(y, f)| >= 2
    ensures y.refs != []
  {
    assert y.Stored(f) == Min(REF_MAX, x.Stored(f) + |Sharers(y, f)| - |Sharers(x, f)|);
  }

  lemma TwoElements<T>(s: set<T>, a: T, b: T)
    requires a in s && b in s && a != b
    ensures |s| >= 2
  {
    SubsetSize({a, b}, s);
  }

  lemma TornWithLast(y: St, s: nat, q: nat, i: nat)
    requires Tearable(y, s) && s != KERNEL && y.refs != [] && Held(y, s, q, i) && y.Stored(y.m[q][i].frame) <= 1
    ensures y.m[q][i].frame in TornSpace(y, s)
  {
    FramesOfSpace(y, s);
    assert Names(y, s, y.m[q][i].frame);
  }
}
