/** Mapping and unmapping one page (core/memory/vmm.c:34-101): what growing the tree and
    rewriting one leaf entry do to every walk in every space. */
module Maps {
  import opened Common
  import opened PageTables
  import opened Fork
  import opened Spaces

  /** The entry pt_for writes for a new table. */
  function TableWord(t: nat): Word { Word(true, true, true, false, false, false, t, 0, 0) }

  ghost predicate OldEntry(x: St, y: St, p: nat, i: nat)
    requires p < |y.m| && i < 512
  {
    p in x.own && p < |x.m| && y.m[p][i] == x.m[p][i]
  }

  ghost predicate NewEntry(y: St, p: nat, i: nat)
    requires p in y.own && p < |y.m| && i < 512
  {
    Level(y.own[p]) > 0 && y.m[p][i] == TableWord(y.m[p][i].frame)
  }

  /** Empty tables were added: nothing translates differently, and the new entries take nothing from what
      the walks through them grant. */
  ghost predicate Extended(x: St, y: St)
  {
    && Base(y) && y.total == x.total && |y.m| == |x.m| && y.refs == x.refs
    && (forall p :: p in x.own ==> p in y.own && y.own[p] == x.own[p])
    && (forall p :: p in y.own && p !in x.own ==> p in x.free && Linked(y, p))
    && (forall p :: p in y.free <==> p in x.free && p !in y.own)
    && (forall p :: 0 <= p < |x.m| && p !in x.free && p !in x.own ==> y.m[p] == x.m[p])
    && (forall p, i :: p in x.own && p < |x.m| && 0 <= i < 512 && x.m[p][i].p ==> y.m[p][i] == x.m[p][i])
    && (forall p, i :: p in y.own && p < |y.m| && 0 <= i < 512 && y.m[p][i].p ==>
       OldEntry(x, y, p, i) || NewEntry(y, p, i))
    && (forall f: nat :: Sharers(y, f) == Sharers(x, f))
    && (SmallPages(x) ==> SmallPages(y))
    && (forall r, va: nat :: IsRoot(x, r) ==> Walk(y.m, r, 3, va) == Walk(x.m, r, 3, va))
    && (forall r, va: nat :: IsRoot(x, r) ==> Above(y.m, r, 3, va) == Above(x.m, r, 3, va))
  }

  lemma ExtendedSelf(x: St)
    requires Base(x)
    ensures Extended(x, x)
  {
  }

  /** The tables that were added are on va's path, and no other root has an entry for them. */
  ghost predicate OnPath(x: St, y: St, root: nat, va: nat)
  {
    && (forall p :: p in y.own && p !in x.own ==> y.own[p] == At(root, va, Level(y.own[p])))
    && (forall r: nat :: IsRoot(x, r) && r != root && r < |x.m| && r < |y.m| ==> y.m[r] == x.m[r])
  }

  /** Empty tables were added on va's path, folded: OpenGrowth unfolds it. */
  ghost predicate Growth(x: St, y: St, root: nat, va: nat)
  {
    forall u, v {:trigger Is((u, v), (x, y))} :: Is((u, v), (x, y)) ==> Extended(u, v) && OnPath(u, v, root, va)
  }

  /** An empty table was added for entry i of table t, or nothing; folded, OpenSprouted unfolds it. */
  ghost predicate Sprouted(x: St, y: St, t: nat, i: nat)
  {
    forall u, v {:trigger Is((u, v), (x, y))} :: Is((u, v), (x, y)) ==> Extended(u, v) && OnlyAt(u, v, t, i)
  }

  ghost predicate OnlyAt(x: St, y: St, t: nat, i: nat)
  {
    && (forall p :: p in y.own && p !in x.own ==> t in x.own && 0 < Level(x.own[t]) && y.own[p] == Child(x.own[t], i))
    && (forall p :: p in x.own && p != t && p < |x.m| && p < |y.m| ==> y.m[p] == x.m[p])
  }

  lemma OpenSprouted(x: St, y: St, t: nat, i: nat)
    requires Sprouted(x, y, t, i)
    ensures Extended(x, y) && OnlyAt(x, y, t, i)
  {
    assert Is((x, y), (x, y));
  }

  lemma SproutedSelf(x: St, t: nat, i: nat)
    requires Base(x)
    ensures Sprouted(x, x, t, i)
  {
    ExtendedSelf(x);
  }

  lemma LinkSprouted(x: St, y: St, t: nat, i: nat, n: nat)
    requires Base(x) && t in x.own && i < 512 && 0 < Level(x.own[t]) && !x.m[t][i].p && n in x.free && n < |x.m|
    requires y == SetEntry(Graft(x, n, Child(x.own[t], i)), t, i, TableWord(n))
    ensures Base(y) && Sprouted(x, y, t, i)
  {
    LinkEmpty(x, y, t, i, n);
  }

  lemma OpenGrowth(x: St, y: St, root: nat, va: nat)
    requires Growth(x, y, root, va)
    ensures Extended(x, y) && OnPath(x, y, root, va)
  {
    assert Is((x, y), (x, y));
  }

  lemma GrowthTwice(x: St, y: St, z: St, root: nat, va: nat)
    requires Base(x) && Growth(x, y, root, va) && Growth(y, z, root, va)
    ensures Growth(x, z, root, va)
  {
    OpenGrowth(x, y, root, va);
    OpenGrowth(y, z, root, va);
    ExtendedTwice(x, y, z);
  }

  lemma LinkedExtends(x: St, y: St, p: nat)
    requires Base(x) && Extended(x, y) && p in x.own && Linked(x, p)
    ensures Linked(y, p)
  {
    var q, i :| EntryTo(x, q, i, p);
    assert EntryTo(y, q, i, p);
  }

  lemma ExtendedTwice(x: St, y: St, z: St)
    requires Base(x) && Extended(x, y) && Extended(y, z)
    ensures Extended(x, z)
  {
    forall p | p in z.own && p !in x.own ensures p in x.free && Linked(z, p) {
      if p in y.own { LinkedExtends(y, z, p); }
    }
    forall p, i | p in x.own && p < |x.m| && 0 <= i < 512 && x.m[p][i].p ensures z.m[p][i] == x.m[p][i] {
      assert y.m[p][i] == x.m[p][i];
    }
    forall p, i | p in z.own && p < |z.m| && 0 <= i < 512 && z.m[p][i].p
      ensures OldEntry(x, z, p, i) || NewEntry(z, p, i)
    {
      assert OldEntry(y, z, p, i) || NewEntry(z, p, i);
      if OldEntry(y, z, p, i) { assert OldEntry(x, y, p, i) || NewEntry(y, p, i); }
    }
    forall r, va: nat | IsRoot(x, r)
      ensures Walk(z.m, r, 3, va) == Walk(x.m, r, 3, va) && Above(z.m, r, 3, va) == Above(x.m, r, 3, va)
    {
      assert IsRoot(y, r);
      assert Walk(y.m, r, 3, va) == Walk(x.m, r, 3, va) && Above(y.m, r, 3, va) == Above(x.m, r, 3, va);
    }
  }

  /** Adding empty tables keeps the invariants of user memory. */
  lemma ExtendedInv(x: St, y: St)
    requires Base(x) && Extended(x, y)
    ensures AllLinked(x) ==> AllLinked(y)
    ensures UserPages(x) ==> UserPages(y)
  {
    if AllLinked(x) {
      forall p | p in y.own && UserPos(y.own[p]) ensures Linked(y, p) {
        if p in x.own { LinkedExtends(x, y, p); }
      }
    }
    if UserPages(x) {
      forall p: nat, i: nat | LeafAt(y, p, i)
        ensures y.m[p][i].frame !in y.free && y.m[p][i].frame !in y.own && y.m[p][i].frame < y.total
      {
        assert (p, i) in Sharers(y, y.m[p][i].frame);
        assert (p, i) in Sharers(x, y.m[p][i].frame);
        assert LeafAt(x, p, i);
      }
    }
  }

  /** A zeroed page n linked into an absent entry of table t. */
  lemma LinkEmpty(x: St, y: St, t: nat, i: nat, n: nat)
    requires Base(x) && t in x.own && i < 512 && 0 < Level(x.own[t]) && !x.m[t][i].p && n in x.free && n < |x.m|
    requires y == SetEntry(Graft(x, n, Child(x.own[t], i)), t, i, TableWord(n))
    ensures Extended(x, y) && n in y.own && y.own[n] == Child(x.own[t], i)
  {
    var pos := Child(x.own[t], i);
    var x1 := Graft(x, n, pos);
    assert PosOk(x, t);
    GraftBase(x, n, pos);
    LinkEmptyBase(x1, y, t, i, n);
    LinkSharers(x1, t, i, TableWord(n));
    LinkEmptyEntries(x, y, t, i, n);
    forall r, va: nat | IsRoot(x, r)
      ensures Walk(y.m, r, 3, va) == Walk(x.m, r, 3, va) && Above(y.m, r, 3, va) == Above(x.m, r, 3, va)
    {
      LinkEmptyWalk(x, y, t, i, n, r, 3, va);
    }
  }

  lemma LinkEmptyEntries(x: St, y: St, t: nat, i: nat, n: nat)
    requires Base(x) && t in x.own && i < 512 && 0 < Level(x.own[t]) && !x.m[t][i].p && n in x.free && n < |x.m|
    requires y == SetEntry(Graft(x, n, Child(x.own[t], i)), t, i, TableWord(n))
    ensures forall p :: p in y.own && p !in x.own ==> p in x.free && Linked(y, p)
    ensures forall p, j :: p in x.own && p < |x.m| && 0 <= j < 512 && x.m[p][j].p ==> y.m[p][j] == x.m[p][j]
    ensures forall p, j :: p in y.own && p < |y.m| && 0 <= j < 512 && y.m[p][j].p ==>
            OldEntry(x, y, p, j) || NewEntry(y, p, j)
  {
    assert EntryTo(y, t, i, n);
  }

  lemma LinkEmptyBase(x: St, y: St, t: nat, i: nat, n: nat)
    requires Base(x) && t in x.own && i < 512 && 0 < Level(x.own[t]) && n in x.own && x.own[n] == Child(x.own[t], i)
    requires y == SetEntry(x, t, i, TableWord(n))
    ensures Base(y)
  {
    forall p | p in y.own ensures p < |y.m| && Closed(y.m, y.own, p) && PosOk(y, p) {
      assert Closed(x.m, x.own, p) && PosOk(x, p);
    }
  }

  /** The new path ends in an empty table where the old one ended in an absent entry. */
  lemma {:induction false} LinkEmptyWalk(x: St, y: St, t: nat, i: nat, n: nat, p: nat, level: nat, va: nat)
    requires Base(x) && t in x.own && i < 512 && 0 < Level(x.own[t]) && !x.m[t][i].p && n in x.free && n < |x.m|
    requires y.m == x.m[n := ZeroPage()][t := x.m[t][i := TableWord(n)]]
    requires p in x.own && level == Level(x.own[p])
    ensures Walk(y.m, p, level, va) == Walk(x.m, p, level, va) && Above(y.m, p, level, va) == Above(x.m, p, level, va)
    decreases level
  {
    var e := x.m[p][Index(va, level)];
    if Interior(e, level) {
      assert Closed(x.m, x.own, p);
      LinkEmptyWalk(x, y, t, i, n, e.frame, level - 1, va);
    }
  }

  /** va's walk from table t passes through page table pt. */
  ghost predicate Reaches(m: Phys, t: nat, level: nat, va: nat, pt: nat)
    requires level < 4
    decreases level
  {
    t < |m| && (if level == 0 then t == pt
                else
                  && Interior(m[t][Index(va, level)], level)
                  && Reaches(m, m[t][Index(va, level)].frame, level - 1, va, pt))
  }

  /** va's walk from table t passes through table n at level `stop`. */
  ghost predicate Passes(m: Phys, t: nat, level: nat, va: nat, stop: nat, n: nat)
    requires stop <= level < 4
    decreases level
  {
    t < |m| && (if level == stop then t == n
                else
                  && Interior(m[t][Index(va, level)], level)
                  && Passes(m, m[t][Index(va, level)].frame, level - 1, va, stop, n))
  }

  lemma {:induction false} PassesDown(m: Phys, t: nat, level: nat, va: nat, stop: nat, n: nat)
    requires stop <= level < 4 && Passes(m, t, level, va, stop, n)
    ensures n < |m| && Walk(m, t, level, va) == Walk(m, n, stop, va)
    ensures stop == 0 ==> Reaches(m, t, level, va, n)
    ensures stop > 0 && Interior(m[n][Index(va, stop)], stop) && m[n][Index(va, stop)].frame < |m| ==>
              Passes(m, t, level, va, stop - 1, m[n][Index(va, stop)].frame)
    decreases level
  {
    if level > stop {
      PassesDown(m, m[t][Index(va, level)].frame, level - 1, va, stop, n);
    }
  }

  /** The descent to table n goes on after the tables have been extended. */
  lemma {:induction false} PassesOn(x: St, y: St, root: nat, va: nat, stop: nat, n: nat)
    requires Base(x) && Extended(x, y) && root in x.own && Level(x.own[root]) == 3 && stop <= 3
    requires Passes(x.m, root, 3, va, stop, n)
    ensures n < |x.m| && Walk(x.m, root, 3, va) == Walk(x.m, n, stop, va)
    ensures n < |y.m| && Walk(y.m, root, 3, va) == Walk(y.m, n, stop, va)
    ensures stop > 0 && Interior(y.m[n][Index(va, stop)], stop) && y.m[n][Index(va, stop)].frame < |y.m| ==>
              Passes(y.m, root, 3, va, stop - 1, y.m[n][Index(va, stop)].frame)
  {
    PassesDown(x.m, root, 3, va, stop, n);
    PassesExtends(x, y, root, 3, va, stop, n);
    PassesDown(y.m, root, 3, va, stop, n);
  }

  lemma {:induction false} PassesExtends(x: St, y: St, t: nat, level: nat, va: nat, stop: nat, n: nat)
    requires Base(x) && Extended(x, y) && t in x.own && Level(x.own[t]) == level && stop <= level
    requires Passes(x.m, t, level, va, stop, n)
    ensures Passes(y.m, t, level, va, stop, n)
    decreases level
  {
    if level > stop {
      assert Closed(x.m, x.own, t);
      PassesExtends(x, y, x.m[t][Index(va, level)].frame, level - 1, va, stop, n);
    }
  }

  function LeafOf(w: Word): Leaf { if w.p then Mapped(w, 0) else Unmapped }

  /** Rewriting entry i of a page table changes exactly the walks that reach that entry. */
  lemma {:induction false} SetLeafWalk(x: St, pt: nat, i: nat, w: Word, t: nat, level: nat, va: nat)
    requires Base(x) && pt in x.own && Level(x.own[pt]) == 0 && i < 512
    requires t in x.own && level == Level(x.own[t])
    ensures Walk(SetEntry(x, pt, i, w).m, t, level, va) ==
            if Reaches(x.m, t, level, va, pt) && Index(va, 0) == i then LeafOf(w) else Walk(x.m, t, level, va)
    ensures Reaches(SetEntry(x, pt, i, w).m, t, level, va, pt) <==> Reaches(x.m, t, level, va, pt)
    ensures Above(SetEntry(x, pt, i, w).m, t, level, va) == Above(x.m, t, level, va)
    decreases level
  {
    var e := x.m[t][Index(va, level)];
    if Interior(e, level) {
      assert Closed(x.m, x.own, t);
      SetLeafWalk(x, pt, i, w, e.frame, level - 1, va);
    }
  }

  /** A walk reaches one page table. */
  lemma {:induction false} ReachesOnce(m: Phys, t: nat, level: nat, va: nat, p: nat, q: nat)
    requires level < 4 && Reaches(m, t, level, va, p) && Reaches(m, t, level, va, q)
    ensures p == q
    decreases level
  {
    if level > 0 { ReachesOnce(m, m[t][Index(va, level)].frame, level - 1, va, p, q); }
  }

  /** A walk that reaches pt does so along the path that labels pt. */
  lemma {:induction false} ReachesLabel(x: St, r: nat, t: nat, level: nat, va: nat, pt: nat)
    requires Base(x) && level < 4 && t in x.own && x.own[t] == At(r, va, level) && Reaches(x.m, t, level, va, pt)
    ensures pt in x.own && x.own[pt] == At(r, va, 0)
    decreases level
  {
    if level > 0 {
      assert Closed(x.m, x.own, t);
      ReachesLabel(x, r, x.m[t][Index(va, level)].frame, level - 1, va, pt);
    }
  }

  /** Two walks that reach the same page table agree above it, and in the user half start at the same root. */
  lemma SameTable(x: St, r: nat, va: nat, r': nat, vb: nat, pt: nat)
    requires Base(x) && IsRoot(x, r) && IsRoot(x, r') && Reaches(x.m, r, 3, va, pt) && Reaches(x.m, r', 3, vb, pt)
    ensures Index(va, 3) == Index(vb, 3) && Index(va, 2) == Index(vb, 2) && Index(va, 1) == Index(vb, 1)
    ensures UserVa(va) ==> r == r'
  {
    ReachesLabel(x, r, r, 3, va, pt);
    ReachesLabel(x, r', r', 3, vb, pt);
    assert At(r, va, 0) == At(r', vb, 0);
    assert At(r, va, 0) == Pt(if Index(va, 3) < 256 then r else KERNEL, Index(va, 3), Index(va, 2), Index(va, 1));
    assert At(r', vb, 0) == Pt(if Index(vb, 3) < 256 then r' else KERNEL, Index(vb, 3), Index(vb, 2), Index(vb, 1));
  }

  /** vmm_map: tables are added where the walk of va breaks off, and the absent entry becomes w. */
  ghost predicate MappedAt(x: St, y: St, root: nat, va: nat, w: Word, z: St, pt: nat)
  {
    && Base(x) && IsRoot(x, root) && Extended(x, z) && OnPath(x, z, root, va)
    && pt in z.own && Level(z.own[pt]) == 0 && pt < |z.m| && Reaches(z.m, root, 3, va, pt)
    && !z.m[pt][Index(va, 0)].p
    && y == SetEntry(z, pt, Index(va, 0), w)
  }

  /** The mapped page translates to w, no other page of any space changes, and a user page
      is seen in its own space only. */
  lemma MapWalks(x: St, y: St, root: nat, va: nat, w: Word, z: St, pt: nat, r: nat, vb: nat)
    requires MappedAt(x, y, root, va, w, z, pt) && IsRoot(x, r)
    ensures Walk(y.m, root, 3, va) == LeafOf(w)
    ensures !SamePage(va, vb) ==> Walk(y.m, r, 3, vb) == Walk(x.m, r, 3, vb)
    ensures UserVa(va) && r != root ==> Walk(y.m, r, 3, vb) == Walk(x.m, r, 3, vb)
  {
    assert IsRoot(z, root) && IsRoot(z, r);
    SetLeafWalk(z, pt, Index(va, 0), w, root, 3, va);
    SetLeafWalk(z, pt, Index(va, 0), w, r, 3, vb);
    if Reaches(z.m, r, 3, vb, pt) && Index(va, 0) == Index(vb, 0) {
      SameTable(z, root, va, r, vb, pt);
      assert SamePage(va, vb);
    }
  }

  lemma MappedReaches(x: St, y: St, root: nat, va: nat, w: Word, z: St, pt: nat)
    requires MappedAt(x, y, root, va, w, z, pt)
    ensures Reaches(y.m, root, 3, va, pt)
  {
    assert IsRoot(z, root);
    SetLeafWalk(z, pt, Index(va, 0), w, root, 3, va);
  }

  /** The map gives the program exactly what the new entry and the entries above it grant, everything if
      those above do; and what it may do at every other page of every space stays. */
  lemma MapAccess(x: St, y: St, root: nat, va: nat, w: Word, z: St, pt: nat, r: nat, vb: nat)
    requires MappedAt(x, y, root, va, w, z, pt) && IsRoot(x, r)
    ensures Above(y.m, r, 3, vb) == Above(x.m, r, 3, vb)
    ensures w.p ==> Access(y.m, root, va) == Past(w, Above(x.m, root, 3, va))
    ensures w.p && Above(x.m, root, 3, va) == ALL ==> Access(y.m, root, va) == Rights(w.u, w.w, !w.nx)
    ensures !SamePage(va, vb) || (UserVa(va) && r != root) ==> Access(y.m, r, vb) == Access(x.m, r, vb)
  {
    assert IsRoot(z, root) && IsRoot(z, r);
    SetLeafWalk(z, pt, Index(va, 0), w, root, 3, va);
    SetLeafWalk(z, pt, Index(va, 0), w, r, 3, vb);
    MapWalks(x, y, root, va, w, z, pt, r, vb);
  }

  /** A kernel page that space `root` maps shows in space r exactly when r's walk reaches the page table
      that was written. */
  lemma KernelMapShowsIff(x: St, y: St, root: nat, va: nat, w: Word, z: St, pt: nat, r: nat)
    requires MappedAt(x, y, root, va, w, z, pt) && IsRoot(x, r) && !UserVa(va) && w.p
    requires Walk(x.m, r, 3, va) != Mapped(w, 0)
    ensures Walk(y.m, r, 3, va) == Mapped(w, 0) <==> Reaches(z.m, r, 3, va, pt)
    ensures Walk(y.m, r, 3, va) != Mapped(w, 0) ==> Walk(y.m, r, 3, va) == Walk(x.m, r, 3, va)
  {
    assert IsRoot(z, root) && IsRoot(z, r);
    SetLeafWalk(z, pt, Index(va, 0), w, r, 3, va);
  }

  /** So it shows if r has the root entry that `root` had, and it does not if the map had to make a
      new one in `root`. */
  lemma KernelMapShowsByRootEntry(x: St, y: St, root: nat, va: nat, w: Word, z: St, pt: nat, r: nat)
    requires MappedAt(x, y, root, va, w, z, pt) && IsRoot(x, r) && !UserVa(va) && w.p && r != root
    requires x.m[r][Index(va, 3)] == x.m[root][Index(va, 3)]
    ensures x.m[root][Index(va, 3)].p ==> Walk(y.m, r, 3, va) == Mapped(w, 0)
    ensures !x.m[root][Index(va, 3)].p ==> Walk(y.m, r, 3, va) == Unmapped
  {
    assert IsRoot(z, root) && IsRoot(z, r);
    SetLeafWalk(z, pt, Index(va, 0), w, r, 3, va);
  }

  /** Clearing the entry again restores every translation in every space. */
  lemma UnmapUndoesMap(x: St, y: St, root: nat, va: nat, w: Word, z: St, pt: nat, r: nat, vb: nat)
    requires MappedAt(x, y, root, va, w, z, pt) && IsRoot(x, r) && Base(y)
    ensures Walk(SetEntry(y, pt, Index(va, 0), ZERO).m, r, 3, vb) == Walk(x.m, r, 3, vb)
  {
    var i := Index(va, 0);
    assert IsRoot(z, r) && IsRoot(y, r);
    SetLeafWalk(z, pt, i, w, r, 3, vb);
    SetLeafWalk(y, pt, i, ZERO, r, 3, vb);
    if Reaches(z.m, r, 3, vb, pt) && Index(vb, 0) == i {
      AbsentWalk(z.m, r, 3, vb, pt);
    }
  }

  /** vmm_unmap of any page: it is gone, and no other page of any space changes. */
  lemma UnmapWalks(x: St, root: nat, va: nat, pt: nat, r: nat, vb: nat)
    requires Base(x) && IsRoot(x, root) && IsRoot(x, r) && Reaches(x.m, root, 3, va, pt)
    ensures pt in x.own && pt < |x.m| && Walk(SetEntry(x, pt, Index(va, 0), ZERO).m, root, 3, va) == Unmapped
    ensures !SamePage(va, vb) ==> Walk(SetEntry(x, pt, Index(va, 0), ZERO).m, r, 3, vb) == Walk(x.m, r, 3, vb)
  {
    ReachesLabel(x, root, root, 3, va, pt);
    SetLeafWalk(x, pt, Index(va, 0), ZERO, root, 3, va);
    SetLeafWalk(x, pt, Index(va, 0), ZERO, r, 3, vb);
    if Reaches(x.m, r, 3, vb, pt) && Index(va, 0) == Index(vb, 0) {
      SameTable(x, root, va, r, vb, pt);
      assert SamePage(va, vb);
    }
  }

  lemma {:induction false} AbsentWalk(m: Phys, t: nat, level: nat, va: nat, pt: nat)
    requires level < 4 && Reaches(m, t, level, va, pt) && pt < |m|
    ensures Walk(m, t, level, va) == LeafOf(m[pt][Index(va, 0)])
    decreases level
  {
    if level > 0 {
      AbsentWalk(m, m[t][Index(va, level)].frame, level - 1, va, pt);
    }
  }

  /** In the user half a labelled table is where its label says. */
  lemma {:induction false} LinkedPasses(x: St, r: nat, va: nat, level: nat, p: nat)
    requires Base(x) && AllLinked(x) && IsRoot(x, r) && UserVa(va) && level < 4 && p in x.own
    requires x.own[p] == At(r, va, level)
    ensures Passes(x.m, r, 3, va, level, p)
    decreases 3 - level
  {
    if level == 3 {
      assert PosOk(x, p);
    } else {
      assert UserPos(x.own[p]) by { UserPath(r, va, level); }
      var q, k :| EntryTo(x, q, k, p);
      assert PosOk(x, q);
      assert x.own[q] == At(r, va, level + 1) && k == Index(va, level + 1);
      LinkedPasses(x, r, va, level + 1, q);
      PassesDown(x.m, r, 3, va, level + 1, q);
    }
  }

  lemma UserPath(r: nat, va: nat, level: nat)
    requires UserVa(va) && level < 3
    ensures UserPos(At(r, va, level)) && At(r, va, level).space == r
  {
    assert At(r, va, 2) == Pdpt(r, Index(va, 3));
    assert At(r, va, 1) == Pd(r, Index(va, 3), Index(va, 2));
    assert At(r, va, 0) == Pt(r, Index(va, 3), Index(va, 2), Index(va, 1));
  }

  /** The address with the given indices. */
  function VaOf(a: nat, b: nat, c: nat, d: nat): nat { (((a * 512 + b) * 512 + c) * 512 + d) * 0x1000 }

  lemma VaOfIndices(a: nat, b: nat, c: nat, d: nat)
    requires a < 512 && b < 512 && c < 512 && d < 512
    ensures var va := VaOf(a, b, c, d); Index(va, 3) == a && Index(va, 2) == b && Index(va, 1) == c && Index(va, 0) == d
  {
    var va := VaOf(a, b, c, d);
    assert va / 0x1000 == ((a * 512 + b) * 512 + c) * 512 + d;
    assert va / 0x20_0000 == (a * 512 + b) * 512 + c;
    assert va / 0x4000_0000 == a * 512 + b;
    assert va / 0x80_0000_0000 == a;
  }

  /** The indices in the label of a linked table are indices. */
  lemma LabelBounds(x: St, p: nat)
    requires Base(x) && AllLinked(x) && p in x.own && UserPos(x.own[p])
    ensures Level(x.own[p]) <= 1 ==> x.own[p].b < 512
    ensures Level(x.own[p]) == 0 ==> x.own[p].c < 512
    decreases 3 - Level(x.own[p])
  {
    var q, i :| EntryTo(x, q, i, p);
    if Level(x.own[p]) == 0 { LabelBounds(x, q); }
  }

  /** An address whose walk goes through entry i of the table labelled pos. */
  function VaThrough(pos: Pos, i: nat): nat
  {
    match pos
    case Root(_) => VaOf(i, 0, 0, 0)
    case Pdpt(_, a) => VaOf(a, i, 0, 0)
    case Pd(_, a, b) => VaOf(a, b, i, 0)
    case Pt(_, a, b, c) => VaOf(a, b, c, i)
  }

  lemma ThroughEntry(pos: Pos, i: nat)
    requires UserPos(pos) && i < 512 && (Level(pos) <= 1 ==> pos.b < 512) && (Level(pos) == 0 ==> pos.c < 512)
    ensures var va := VaThrough(pos, i);
            UserVa(va) && Index(va, Level(pos)) == i && At(pos.space, va, Level(pos)) == pos
  {
    match pos
    case Pdpt(s, a) =>
      VaOfIndices(a, i, 0, 0);
      assert At(s, VaThrough(pos, i), 2) == pos;
    case Pd(s, a, b) =>
      VaOfIndices(a, b, i, 0);
      assert At(s, VaThrough(pos, i), 2) == Pdpt(s, a);
      assert At(s, VaThrough(pos, i), 1) == pos;
    case Pt(s, a, b, c) =>
      VaOfIndices(a, b, c, i);
      assert At(s, VaThrough(pos, i), 2) == Pdpt(s, a);
      assert At(s, VaThrough(pos, i), 1) == Pd(s, a, b);
      assert At(s, VaThrough(pos, i), 0) == pos;
  }
}
