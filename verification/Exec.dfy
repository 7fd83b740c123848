/** The teardown of the old user space in execve (core/cpu/exec.c:30-45 and 126-137). */
module Exec {
  import opened Common
  import Bytes
  import opened PageTables
  import opened Spaces
  import opened Teardown
  import opened Cow
  import opened Lifecycle
  import opened Memory
  import E = Elf
  import P = Pmm
  import V = Vmm

  ghost function AllocOf(pmm: P.Pmm): Alloc
    reads pmm
  {
    Alloc(pmm.free, pmm.refs)
  }

  ghost predicate Same(pmm: P.Pmm, x: St)
    reads pmm, pmm.bitmap
  {
    pmm.Valid() && pmm.bitmap.Length == x.total
  }

  /** A user table, or the root, of a space that can be torn down. */
  ghost predicate Target(x: St, table: nat)
  {
    && table in x.own && (UserPos(x.own[table]) || x.own[table].Root?) && x.own[table].space != KERNEL
    && table < |x.m| && CanTear(x, x.own[table].space)
  }

  /** free_user_tables: entries of one table, depth first. Memory itself is not written. */
  method FreeUserTables(pmm: P.Pmm, phys: Phys, table: nat, level: nat, ghost x: St) returns (ok: bool)
    requires Same(pmm, x) && phys == x.m && Target(x, table) && level == Level(x.own[table]) <= 2
    requires Pending(AllocOf(pmm), x, x.own[table], 0, 512)
    modifies pmm, pmm.bitmap
    ensures ok && Same(pmm, x) && Freed(old(AllocOf(pmm)), AllocOf(pmm), x, x.own[table], 0, 512)
    ensures pmm.cursor == old(pmm.cursor)
    decreases level, 3
  {
    ghost var a, pos := AllocOf(pmm), x.own[table];
    FreedNothing(a, x, pos);
    var i := 0;
    while i < 512
      invariant 0 <= i <= 512
      invariant Same(pmm, x) && Freed(a, AllocOf(pmm), x, pos, 0, i) && pmm.cursor == old(pmm.cursor)
    {
      FreeNext(pmm, phys, table, level, i, x, a);
      i := i + 1;
    }
    ok := true;
  }

  /** One turn of the loop. */
  method FreeNext(pmm: P.Pmm, phys: Phys, table: nat, level: nat, i: nat, ghost x: St, ghost a: Alloc)
    requires Same(pmm, x) && phys == x.m && Target(x, table) && level == Level(x.own[table]) && i < 512
    requires (level == 3 ==> i < 256)
    requires Pending(a, x, x.own[table], 0, 512) && Freed(a, AllocOf(pmm), x, x.own[table], 0, i)
    modifies pmm, pmm.bitmap
    ensures Same(pmm, x) && Freed(a, AllocOf(pmm), x, x.own[table], 0, i + 1) && pmm.cursor == old(pmm.cursor)
    decreases level, 2
  {
    ghost var b := AllocOf(pmm);
    PendingNext(a, b, x, x.own[table], i);
    var ok := FreeEntry(pmm, phys, table, level, i, x);
    FreedOneMore(a, b, AllocOf(pmm), x, x.own[table], i);
  }

  /** The body of the loop: a subtree and its table, or a page. */
  method FreeEntry(pmm: P.Pmm, phys: Phys, table: nat, level: nat, i: nat, ghost x: St) returns (ok: bool)
    requires Same(pmm, x) && phys == x.m && Target(x, table) && level == Level(x.own[table]) && i < 512
    requires (level == 3 ==> i < 256)
    requires Pending(AllocOf(pmm), x, x.own[table], i, i + 1)
    modifies pmm, pmm.bitmap
    ensures ok && Same(pmm, x) && Freed(old(AllocOf(pmm)), AllocOf(pmm), x, x.own[table], i, i + 1)
    ensures pmm.cursor == old(pmm.cursor)
    decreases level, 1
  {
    ghost var a := AllocOf(pmm);
    var e := phys[table][i];
    if !e.p {
      FreedAbsent(a, x, table, i);
      return true;
    }
    if level > 0 {
      ok := FreeBelow(pmm, phys, table, level, i, x);
    } else {
      FreedLeaf(a, a, x, table, i);
      ok := pmm.Unref(e.frame);
      FreedLeaf(a, AllocOf(pmm), x, table, i);
    }
  }

  /** An entry of an inner table: what lies below it, then the table it names. */
  method FreeBelow(pmm: P.Pmm, phys: Phys, table: nat, level: nat, i: nat, ghost x: St) returns (ok: bool)
    requires Same(pmm, x) && phys == x.m && Target(x, table) && 0 < level == Level(x.own[table]) && i < 512
    requires (level == 3 ==> i < 256)
    requires Pending(AllocOf(pmm), x, x.own[table], i, i + 1) && x.m[table][i].p
    modifies pmm, pmm.bitmap
    ensures ok && Same(pmm, x) && Freed(old(AllocOf(pmm)), AllocOf(pmm), x, x.own[table], i, i + 1)
    ensures pmm.cursor == old(pmm.cursor)
    decreases level, 0
  {
    ghost var a := AllocOf(pmm);
    var e := phys[table][i];
    TablePending(a, x, table, i);
    ok := FreeUserTables(pmm, phys, e.frame, level - 1, x);
    ghost var b := AllocOf(pmm);
    StillUsed(a, b, x, e.frame);
    ok := pmm.Free(e.frame);
    FreedTable(a, b, x, table, i);
  }

  lemma StillUsed(a: Alloc, b: Alloc, x: St, c: nat)
    requires c in x.own && Freed(a, b, x, x.own[c], 0, 512) && c !in a.free && c !in Torn(x, x.own[c], 0, 512)
    ensures c !in b.free
  {
    OpenGave(a, b, Torn(x, x.own[c], 0, 512), FramesBelow(x, x.own[c], 0, 512));
  }

  /** The loop of do_execve over the user half of the root. */
  method FreeUserHalf(pmm: P.Pmm, phys: Phys, cr3: nat, ghost x: St)
    requires Same(pmm, x) && phys == x.m && Target(x, cr3) && x.own[cr3].Root?
    requires Pending(AllocOf(pmm), x, x.own[cr3], 0, 512)
    modifies pmm, pmm.bitmap
    ensures Same(pmm, x) && Freed(old(AllocOf(pmm)), AllocOf(pmm), x, x.own[cr3], 0, 256)
    ensures pmm.cursor == old(pmm.cursor)
  {
    ghost var a, pos := AllocOf(pmm), x.own[cr3];
    FreedNothing(a, x, pos);
    var i := 0;
    while i < 256
      invariant 0 <= i <= 256
      invariant Same(pmm, x) && Freed(a, AllocOf(pmm), x, pos, 0, i) && pmm.cursor == old(pmm.cursor)
    {
      FreeNext(pmm, phys, cr3, 3, i, x, a);
      i := i + 1;
    }
  }

  /** Tearing down a whole space: every table and every page whose last reference goes is given back
      once, the other pages have one reference less, and no free panics. */
  method TearDown(pmm: P.Pmm, phys: Phys, cr3: nat, ghost x: St) returns (ok: bool)
    requires Same(pmm, x) && phys == x.m && Target(x, cr3) && IsRoot(x, cr3) && AllocOf(pmm) == Alloc(x.free, x.refs)
    modifies pmm, pmm.bitmap
    ensures ok && pmm.Valid() && pmm.free == x.free + TornSpace(x, cr3) && pmm.cursor == old(pmm.cursor)
    ensures pmm.freeCount == old(pmm.freeCount) + |TornSpace(x, cr3)|
    ensures |pmm.refs| == |x.refs|
    ensures forall f: nat :: AllocOf(pmm).Stored(f) ==
                             if f in FramesBelow(x, Root(cr3), 0, 256) then CountLess(x.Stored(f)) else x.Stored(f)
  {
    TearUserHalf(pmm, phys, cr3, x);
    ok := pmm.Free(cr3);
  }

  /** All of it but the root. */
  method TearUserHalf(pmm: P.Pmm, phys: Phys, cr3: nat, ghost x: St)
    requires Same(pmm, x) && phys == x.m && Target(x, cr3) && IsRoot(x, cr3) && AllocOf(pmm) == Alloc(x.free, x.refs)
    modifies pmm, pmm.bitmap
    ensures Same(pmm, x) && pmm.cursor == old(pmm.cursor) && |pmm.refs| == |x.refs|
    ensures cr3 < x.total && cr3 !in pmm.free && pmm.free + {cr3} == x.free + TornSpace(x, cr3)
    ensures |pmm.free + {cr3}| == old(pmm.freeCount) + |TornSpace(x, cr3)|
    ensures forall f: nat :: AllocOf(pmm).Stored(f) ==
                             if f in FramesBelow(x, Root(cr3), 0, 256) then CountLess(x.Stored(f)) else x.Stored(f)
  {
    PendingAll(x, cr3);
    FreeUserHalf(pmm, phys, cr3, x);
    AllTorn(AllocOf(pmm), x, cr3);
  }

  /** The user half is torn down, and the root is left. */
  lemma AllTorn(b: Alloc, x: St, s: nat)
    requires CanTear(x, s) && Freed(Alloc(x.free, x.refs), b, x, Root(s), 0, 256)
    ensures s < x.total && s !in b.free && b.free + {s} == x.free + TornSpace(x, s)
    ensures |b.free + {s}| == |x.free| + |TornSpace(x, s)|
    ensures forall f: nat ::
              b.Stored(f) == if f in FramesBelow(x, Root(s), 0, 256) then CountLess(x.Stored(f)) else x.Stored(f)
  {
    OpenTear(x, s);
    var a := Alloc(x.free, x.refs);
    OpenGave(a, b, Torn(x, Root(s), 0, 256), FramesBelow(x, Root(s), 0, 256));
    RootNotTorn(x, s);
    UnionSize(x.free, TornSpace(x, s));
    forall f: nat ensures a.Stored(f) == x.Stored(f) {
    }
  }

  lemma UnionSize<T>(a: set<T>, b: set<T>)
    requires a !! b
    ensures |a + b| == |a| + |b|
  {
  }

  /** The end of a space's life: the allocator has again exactly the free pages it had before the space
      was made, if counts are kept or none of its pages is mapped; only then. */
  method EndOfLife(pmm: P.Pmm, phys: Phys, s: nat, ghost run: seq<St>) returns (ok: bool)
    requires Life(run, s) && Inv(run[0]) && CountExact(run[0])
    requires var x := run[|run| - 1]; Same(pmm, x) && phys == x.m && AllocOf(pmm) == Alloc(x.free, x.refs)
    modifies pmm, pmm.bitmap
    ensures ok && pmm.Valid()
    ensures pmm.free == run[0].free <==> old(pmm.refs) != [] || !HasPages(run[|run| - 1], s)
    ensures pmm.freeCount == |run[0].free| <==> pmm.free == run[0].free
  {
    ghost var x := run[|run| - 1];
    LifeIsBalanced(run, s);
    GivesAllBackIff(run[0], x, s);
    BalancedTarget(run[0], x, s);
    ok := TearDown(pmm, phys, s, x);
    NoMoreThanBefore(pmm.free, run[0].free);
  }

  lemma NoMoreThanBefore<T>(a: set<T>, b: set<T>)
    requires a <= b
    ensures |a| == |b| <==> a == b
  {
    assert b == a + (b - a);
    assert |b| == |a| + |b - a|;
  }

  lemma BalancedTarget(x0: St, x: St, s: nat)
    requires Balanced(x0, x, s)
    ensures Target(x, s) && IsRoot(x, s) && x.free + TornSpace(x, s) <= x0.free
  {
    OpenBalanced(x0, x, s);
    LastSplit(x, FramesBelow(x, Root(s), 0, 256), {});
  }

  /** do_execve from the fresh space to the loaded image: after a successful load the program finds every
      aligned segment at its addresses, byte for byte, and may read, write and execute it there. */
  method LoadFresh(v: V.Vmm, img: seq<Bytes.Byte>) returns (r: E.Outcome, s: nat, ghost x1: St)
    requires E.Ready(v) && CountExact(v.S()) && |img| < E.TOP
    requires E.Accepts(img) ==> E.Plain(img) && E.AllSound(img, E.Segs(img, E.Phnum(img)))
    modifies v`phys, v`own, v`pml4, v.pmm, v.pmm.bitmap
    ensures s == 0 <==> old(v.pmm.free) == {}
    ensures s == 0 ==> r == E.NoTable
    ensures s != 0 ==> v.pml4 == s && (r == E.Refused <==> !E.Accepts(img))
    ensures s != 0 && (r == E.NoMemory || r == E.NoTable) ==> v.pmm.free == {}
    ensures r.Loaded? || r == E.Refused || r == E.NoMemory ==>
              E.Ready(v) && Balanced(old(v.S()), x1, s) && x1.refs == old(v.pmm.refs) && Filling(x1, v.S(), s)
    ensures r.Loaded? ==> r.entry == E.Field(img, 24, 8) && E.Runnable(img, E.Segs(img, E.Phnum(img)), v.S(), s)
  {
    ghost var x0, root := v.S(), v.pml4;
    s := v.CreateSpace();
    x1 := v.S();
    if s == 0 { return E.NoTable, 0, x1; }
    Made(x0, x1, root, s);
    v.Switch(s);
    r := E.Load(v, img);
    if r.Loaded? {
      TablesGrantAll(x0, x1, v.S(), root, s);
      E.AllRunnable(img, E.Segs(img, E.Phnum(img)), Mem(x1, s), v.S(), s);
    }
  }

  /** Loading takes nothing away from what the tables of a fresh space grant. */
  lemma TablesGrantAll(x0: St, x: St, y: St, root: nat, s: nat)
    requires Orderly(x0) && SpaceMade(x0, x, root, s) && Filling(x, y, s)
    ensures forall a: nat :: UserVa(a) ==> Above(y.m, s, 3, a) == ALL
  {
    OpenOrderly(x0);
    OpenFilling(x, y, s);
    forall a: nat | UserVa(a) ensures Above(y.m, s, 3, a) == ALL {
      SpaceMadeWalks(x0, x, root, s, a);
    }
  }

  /** The same, and the teardown by the next execve: no page is lost and none is gained, whatever the
      image, and also when the load fails for want of a page or the image is refused, and the half-built
      space is what the next execve finds. */
  method LoadThenTearDown(v: V.Vmm, img: seq<Bytes.Byte>) returns (r: E.Outcome, ok: bool)
    requires E.Ready(v) && CountExact(v.S()) && v.pmm.refs != [] && |img| < E.TOP
    requires E.Accepts(img) ==> E.Plain(img) && E.AllSound(img, E.Segs(img, E.Phnum(img)))
    modifies v`phys, v`own, v`pml4, v.pmm, v.pmm.bitmap
    ensures ok <==> r.Loaded? || r == E.Refused || r == E.NoMemory
    ensures ok ==> v.pmm.Valid() && v.pmm.free == old(v.pmm.free) && v.pmm.freeCount == old(v.pmm.freeCount)
  {
    ghost var x0 := v.S();
    ok := false;
    var s;
    ghost var x1;
    r, s, x1 := LoadFresh(v, img);
    if r == E.Panic || r == E.NoTable { return; }
    Loaded(x0, x1, v.S(), s);
    ok := TearDown(v.pmm, v.phys, s, v.S());
  }

  lemma Made(x0: St, x: St, root: nat, s: nat)
    requires Orderly(x0) && CountExact(x0) && SpaceMade(x0, x, root, s)
    ensures Orderly(x) && Balanced(x0, x, s) && IsRoot(x, s)
  {
    OpenOrderly(x0);
    Born(x0, x, root, s);
    OpenBalanced(x0, x, s);
  }

  lemma Loaded(x0: St, x: St, y: St, s: nat)
    requires Balanced(x0, x, s) && Filling(x, y, s) && x.refs != []
    ensures Target(y, s) && IsRoot(y, s) && y.free + TornSpace(y, s) == x0.free
  {
    OpenFilling(x, y, s);
    GivesAllBackIff(x0, y, s);
    BalancedTarget(x0, y, s);
  }

  // ---------- The new space of an execve ----------

  /** Some page that is free, or that the teardown frees, is met by pmm_alloc before the old root. */
  ghost predicate OtherFirst(x: St, cr3: nat, cursor: nat)
  {
    cursor < x.total && exists q :: Nearer(x, cr3, cursor, q)
  }

  ghost predicate Nearer(x: St, cr3: nat, cursor: nat, q: nat)
  {
    && q in x.free + TornSpace(x, cr3) && q < x.total && cr3 < x.total && cursor < x.total
    && P.Steps(cursor, q, x.total) < P.Steps(cursor, cr3, x.total)
  }

  /** do_execve frees the root that is active and then copies its kernel half into a page it allocates:
      the new space has the old kernel half exactly when the first page that pmm_alloc meets is not that
      root itself, which is cleared first. */
  method ReplaceSpace(v: V.Vmm) returns (t: nat)
    requires v.pmm.Valid() && Doomed(v.S(), v.pml4) && v.pml4 < |v.phys|
    requires exists i :: 256 <= i < 512 && v.phys[v.pml4][i] != ZERO
    modifies v`phys, v.pmm, v.pmm.bitmap
    ensures t < |v.phys| && t < v.pmm.bitmap.Length && |v.phys| == |old(v.phys)| && v.pml4 < |old(v.phys)|
    ensures forall i :: 0 <= i < 256 ==> v.phys[t][i] == ZERO
    ensures (forall i :: 256 <= i < 512 ==> v.phys[t][i] == old(v.phys)[v.pml4][i]) <==>
            OtherFirst(old(v.S()), v.pml4, old(v.pmm.cursor))
    ensures v.pmm.Valid() && v.pmm.free == old(v.pmm.free) + TornSpace(old(v.S()), v.pml4) - {t}
  {
    var cr3 := v.pml4;
    ghost var x, cursor := v.S(), v.pmm.cursor;
    FreeActive(v);
    t := CopyFreedRoot(v);
    FirstIs(x, cr3, cursor, t, v.pmm.bitmap.Length);
  }

  /** The active space is one that can be torn down; folded, FreeActive unfolds it. */
  ghost predicate Doomed(x: St, cr3: nat)
  {
    forall u {:trigger Is(u, x)} :: Is(u, x) ==> Target(u, cr3) && IsRoot(u, cr3)
  }

  method FreeActive(v: V.Vmm)
    requires v.pmm.Valid() && Doomed(v.S(), v.pml4)
    modifies v.pmm, v.pmm.bitmap
    ensures v.pmm.Valid() && v.pmm.cursor == old(v.pmm.cursor)
    ensures v.pmm.free == old(v.pmm.free) + TornSpace(old(v.S()), v.pml4)
    ensures v.pmm.bitmap.Length <= |v.phys| && 0 !in v.pmm.free && v.pml4 in v.pmm.free
  {
    ghost var x := v.S();
    assert Is(x, x);
    var ok := TearDown(v.pmm, v.phys, v.pml4, x);
    NotPageZero(x, v.pml4);
  }

  lemma NotPageZero(x: St, s: nat)
    requires CanTear(x, s)
    ensures s in TornSpace(x, s) && x.total <= |x.m| && 0 !in x.free + TornSpace(x, s)
  {
    OpenTear(x, s);
    if 0 in FramesBelow(x, Root(s), 0, 256) {
      var p, i := FramesOnce(x, Root(s), 0, 256, 0);
    }
  }

  /** vmm_create_space after the root it copies from has been freed. */
  method CopyFreedRoot(v: V.Vmm) returns (t: nat)
    requires v.pmm.Valid() && v.pmm.bitmap.Length <= |v.phys| && 0 !in v.pmm.free && v.pml4 in v.pmm.free
    requires v.pml4 < |v.phys| && exists i :: 256 <= i < 512 && v.phys[v.pml4][i] != ZERO
    modifies v`phys, v.pmm, v.pmm.bitmap
    ensures v.pmm.Valid() && v.First(old(v.pmm.cursor), old(v.pmm.free), t) && v.pmm.free == old(v.pmm.free) - {t}
    ensures t < |v.phys| == |old(v.phys)| && t < v.pmm.bitmap.Length
    ensures forall i :: 0 <= i < 256 ==> v.phys[t][i] == ZERO
    ensures (forall i :: 256 <= i < 512 ==> v.phys[t][i] == old(v.phys)[v.pml4][i]) <==> t != v.pml4
  {
    ghost var k :| 256 <= k < 512 && v.phys[v.pml4][k] != ZERO;
    t := v.CopyRoot();
    assert t == v.pml4 ==> v.phys[t][k] != old(v.phys)[v.pml4][k];
  }

  lemma FirstIs(x: St, cr3: nat, cursor: nat, t: nat, len: nat)
    requires len == x.total && cursor < len && cr3 < len && t < len && t in x.free + TornSpace(x, cr3)
    requires forall q :: q in x.free + TornSpace(x, cr3) ==> q < len
    requires forall q :: q in x.free + TornSpace(x, cr3) ==> P.Steps(cursor, t, len) <= P.Steps(cursor, q, len)
    ensures t != cr3 <==> OtherFirst(x, cr3, cursor)
  {
    if t != cr3 { assert Nearer(x, cr3, cursor, t); }
  }
}
