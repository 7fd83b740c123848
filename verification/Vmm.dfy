/** The virtual memory manager of core/memory/vmm.c over the allocator of core/memory/pmm.c. */
module Vmm {
  import opened Common
  import opened PageTables
  import opened Fork
  import opened Spaces
  import opened Maps
  import opened Cow
  import opened Clone
  import P = Pmm

  /** What a descent through the tables finds: a table, nothing, a large page, or no memory for
      a new table. */
  datatype Found = Table(t: nat) | Absent | Large | NoMemory

  /** vmm_map succeeds, or panics on a present page or for lack of memory, or (under a large page,
      where pt_for returns NULL) writes through a null pointer. */
  datatype MapResult = MapOk | Remap | UnderLarge | OutOfMemory

  datatype FaultResult = Handled | NotHandled | NoPageForCopy

  /** The physical address vmm_translate reports: that of the frame for a 4 KiB page; in a large page the
      address keeps its offset, in the block of that size that holds the frame. */
  function PhysAddr(l: Leaf, va: nat): (pa: nat)
    requires l.Mapped?
    ensures l.level == 0 ==> pa == l.entry.frame * 0x1000
    ensures l.level == 1 ==> pa % 0x20_0000 == va % 0x20_0000 && pa / 0x20_0000 == l.entry.frame * 0x1000 / 0x20_0000
    ensures l.level > 1 ==>
              pa % 0x4000_0000 == va % 0x4000_0000 && pa / 0x4000_0000 == l.entry.frame * 0x1000 / 0x4000_0000
  {
    if l.level == 0 then l.entry.frame * 0x1000
    else if l.level == 1 then l.entry.frame / 512 * 0x20_0000 + va % 0x20_0000
    else l.entry.frame / 0x4_0000 * 0x4000_0000 + va % 0x4000_0000
  }

  class Vmm {
    const pmm: P.Pmm
    /** Physical memory. */
    var phys: Phys
    /** The root table of the current address space. */
    var pml4: nat
    /** The position of every table page. */
    ghost var own: map<nat, Pos>

    /** Before boot has built a space of its own. */
    constructor (pmm: P.Pmm, phys: Phys)
      ensures this.pmm == pmm && this.phys == phys && own == map[]
    {
      this.pmm, this.phys, pml4, own := pmm, phys, 0, map[];
    }

    ghost function S(): St
      reads this, pmm
    {
      St(phys, own, pmm.free, pmm.refs, pmm.bitmap.Length)
    }

    ghost predicate Valid()
      reads this, pmm, pmm.bitmap
    {
      && pmm.Valid() && 0 < pmm.bitmap.Length
      && Base(S())
      && pml4 in own && own[pml4] == Root(pml4)
    }

    /** No page is free, or no run of pages for the count array that does not exist yet. */
    ghost predicate Exhausted()
      reads pmm
    {
      pmm.free == {} || (pmm.refs == [] && !P.HasRun(pmm.free, P.RefPages(pmm.bitmap.Length)))
    }

    /** pmm_alloc and memset: a fresh zeroed table, or 0 when no page is free. */
    method NewTable(ghost pos: Pos) returns (t: nat)
      requires Valid() && !pos.Root? && (pos.a >= 256 <==> pos.space == KERNEL)
      requires pos.space != KERNEL ==> pos.space in own && own[pos.space] == Root(pos.space)
      modifies this`phys, this`own, pmm, pmm.bitmap
      ensures Valid()
      ensures t == 0 <==> old(pmm.free) == {}
      ensures t == 0 ==> S() == old(S())
      ensures t != 0 ==> t in old(pmm.free) && t < |old(phys)| && S() == Graft(old(S()), t, pos)
    {
      t := pmm.Alloc();
      if t == 0 { return; }
      GraftBase(old(S()), t, pos);
      phys := phys[t := ZeroPage()];
      own := own[t := pos];
    }

    /** fork_table: copy src into the zeroed table dst, making user leaves copy-on-write in both. */
    method ForkTable(src: nat, dst: nat, level: nat) returns (ok: bool)
      requires Valid() && Pair(S(), src, dst) && level == Level(own[src]) <= 2
      requires forall i :: 0 <= i < 512 ==> phys[dst][i] == ZERO
      modifies this`phys, this`own, pmm, pmm.bitmap
      ensures ok ==> Valid() && Forked(old(S()), S(), src, dst, 0, 512)
      ensures !ok ==> Exhausted()
      decreases level, 2
    {
      ghost var x := S();
      NothingForked(x, src, dst);
      var i := 0;
      while i < 512
        invariant 0 <= i <= 512
        invariant Valid() && Pair(S(), src, dst) && Forked(x, S(), src, dst, 0, i)
      {
        ghost var y := S();
        assert y.m[dst][i] == ZERO;
        ok := ForkEntry(src, dst, level, i);
        if !ok { return; }
        OneMore(x, y, S(), src, dst, i);
        i := i + 1;
      }
      ok := true;
    }

    /** The body of fork_table's loop. */
    method ForkEntry(src: nat, dst: nat, level: nat, i: nat) returns (ok: bool)
      requires Valid() && Pair(S(), src, dst) && level == Level(own[src]) <= 2 && i < 512 && phys[dst][i] == ZERO
      modifies this`phys, this`own, pmm, pmm.bitmap
      ensures ok ==> Valid() && Forked(old(S()), S(), src, dst, i, i + 1)
      ensures !ok ==> Exhausted()
      decreases level, 1
    {
      ghost var x := S();
      var e := phys[src][i];
      if !e.p {
        AbsentStep(x, src, dst, i);
        return true;
      }
      if level == 0 || (level == 1 && e.ps) {
        ok := ForkLeaf(src, dst, level, i);
      } else {
        ok := CopyTable(src, dst, level, i);
      }
    }

    /** A zeroed table to hold the copy of the one that entry i of src leads to. */
    method NewCounterpart(src: nat, ghost dst: nat, i: nat) returns (t: nat)
      requires Valid() && Pair(S(), src, dst) && i < 512 && (own[src].Root? ==> i < 256)
      requires Interior(phys[src][i], Level(own[src]))
      modifies this`phys, this`own, pmm, pmm.bitmap
      ensures Valid()
      ensures t == 0 ==> pmm.free == {}
      ensures t != 0 ==> t in old(pmm.free) && t < |old(phys)| && S() == Graft(old(S()), t, Child(old(own)[dst], i))
      ensures t != 0 ==> Pair(S(), old(phys)[src][i].frame, t)
    {
      ghost var x := S();
      assert PosOk(x, dst) && PosOk(x, src);
      t := NewTable(Child(own[dst], i));
      if t != 0 {
        GraftPair(x, src, dst, i, t);
      }
    }

    /** Linking the finished copy t into entry i of dst. */
    method LinkCopy(ghost x: St, ghost x1: St, ghost src: nat, dst: nat, i: nat, e: Word, t: nat)
      requires Valid() && Linkable(x, x1, S(), src, dst, i, t) && src < |x.m| && i < 512 && e == x.m[src][i]
      modifies this`phys
      ensures Valid() && Forked(x, S(), src, dst, i, i + 1)
    {
      TableStep(x, x1, S(), src, dst, i, t);
      phys := phys[dst := phys[dst][i := LinkWord(e, t)]];
    }

    /** The interior case: a fresh zeroed table, filled recursively, then linked. */
    method CopyTable(src: nat, dst: nat, level: nat, i: nat) returns (ok: bool)
      requires Valid() && Pair(S(), src, dst) && level == Level(own[src]) && i < 512 && (level == 3 ==> i < 256)
      requires phys[dst][i] == ZERO && Interior(phys[src][i], level)
      modifies this`phys, this`own, pmm, pmm.bitmap
      ensures ok ==> Valid() && Forked(old(S()), S(), src, dst, i, i + 1)
      ensures !ok ==> Exhausted()
      decreases level, 0
    {
      ghost var x := S();
      var e := phys[src][i];
      var t := NewCounterpart(src, dst, i);
      if t == 0 { return false; }
      ghost var x1 := S();
      ok := ForkTable(e.frame, t, level - 1);
      if ok {
        LinkCopy(x, x1, src, dst, i, e, t);
      }
    }

    /** The leaf case of fork_table. */
    method ForkLeaf(src: nat, dst: nat, level: nat, i: nat) returns (ok: bool)
      requires Valid() && Pair(S(), src, dst) && level == Level(own[src]) <= 2 && i < 512 && phys[dst][i] == ZERO
      requires IsLeaf(phys[src][i], level)
      modifies this`phys, pmm, pmm.bitmap
      ensures ok ==> Valid() && Forked(old(S()), S(), src, dst, i, i + 1)
      ensures !ok ==> Exhausted()
    {
      ghost var x := S();
      var e := phys[src][i];
      if e.u {
        ok := ShareLeaf(src, dst, i);
      } else {
        phys := phys[dst := phys[dst][i := e]];
        ok := true;
        assert x.m[src][i := e] == x.m[src] && x.m[src := x.m[src]] == x.m;
        SpentOnce(x, S(), 0);
        LeafStep(x, S(), src, dst, i);
      }
    }

    /** A user leaf: both entries lose the write bit and get the mark, and the page has one more reference. */
    method ShareLeaf(src: nat, dst: nat, i: nat) returns (ok: bool)
      requires Valid() && Pair(S(), src, dst) && Level(own[src]) <= 2 && i < 512 && phys[dst][i] == ZERO
      requires IsLeaf(phys[src][i], Level(own[src])) && phys[src][i].u
      modifies this`phys, pmm, pmm.bitmap
      ensures ok ==> Valid() && Forked(old(S()), S(), src, dst, i, i + 1)
      ensures !ok ==> Exhausted()
    {
      ghost var x := S();
      var e := phys[src][i];
      var cow := e.(w := false, cow := true);
      phys := phys[src := phys[src][i := cow]];
      phys := phys[dst := phys[dst][i := cow]];
      ok := pmm.Ref(e.frame);
      if !ok { return; }
      forall f: nat | f < x.total
        ensures S().Stored(f) == Min(REF_MAX, x.Stored(f) + if f == e.frame then 1 else 0)
      {
        assert pmm.Stored(f) == S().Stored(f);
      }
      SpentOnce(x, S(), e.frame);
      LeafStep(x, S(), src, dst, i);
    }

    /** The code of vmm_create_space: a page is taken and cleared, and gets the kernel half of the page
        that pml4 points to, which need not be in use any more. */
    method CopyRoot() returns (t: nat)
      requires pmm.Valid() && pmm.bitmap.Length <= |phys| && 0 !in pmm.free && pml4 < |phys|
      modifies this`phys, pmm, pmm.bitmap
      ensures pmm.Valid() && pmm.refs == old(pmm.refs)
      ensures t == 0 <==> old(pmm.free) == {}
      ensures t == 0 ==> phys == old(phys) && pmm.free == old(pmm.free)
      ensures t != 0 ==> t in old(pmm.free) && t < pmm.bitmap.Length && pmm.free == old(pmm.free) - {t}
      ensures t != 0 ==> |phys| == |old(phys)| && phys == old(phys)[t := phys[t]]
      ensures t != 0 ==> forall i :: 0 <= i < 256 ==> phys[t][i] == ZERO
      ensures t != 0 ==> forall i :: 256 <= i < 512 ==> phys[t][i] == if t == pml4 then ZERO else old(phys)[pml4][i]
      ensures t != 0 ==> First(old(pmm.cursor), old(pmm.free), t)
    {
      t := pmm.Alloc();
      if t == 0 { return; }
      phys := phys[t := ZeroPage()];
      CopyKernelHalf(t);
    }

    method CopyKernelHalf(t: nat)
      requires t < |phys| && pml4 < |phys| && phys[t] == ZeroPage()
      modifies this`phys
      ensures |phys| == |old(phys)| && phys == old(phys)[t := phys[t]]
      ensures forall i :: 0 <= i < 256 ==> phys[t][i] == ZERO
      ensures forall i :: 256 <= i < 512 ==> phys[t][i] == if t == pml4 then ZERO else old(phys)[pml4][i]
    {
      var i := 256;
      while i < 512
        invariant 256 <= i <= 512
        invariant |phys| == |old(phys)| && phys == old(phys)[t := phys[t]]
        invariant forall j :: 0 <= j < 256 || i <= j < 512 ==> phys[t][j] == ZERO
        invariant forall j :: 256 <= j < i ==> phys[t][j] == if t == pml4 then ZERO else old(phys)[pml4][j]
      {
        phys := phys[t := phys[t][i := phys[pml4][i]]];
        i := i + 1;
      }
    }

    /** Of the pages in `free`, t is the first that pmm_alloc meets. */
    ghost predicate First(cursor: nat, free: set<nat>, t: nat)
      reads pmm
    {
      && t in free && cursor < pmm.bitmap.Length
      && (forall q :: q in free ==> q < pmm.bitmap.Length)
      && forall q :: q in free ==> P.Steps(cursor, t, pmm.bitmap.Length) <= P.Steps(cursor, q, pmm.bitmap.Length)
    }

    /** vmm_create_space, and the start of vmm_fork_user_space: a fresh root with the kernel half of the
        current one; 0 when no page is free. */
    method CreateSpace() returns (t: nat)
      requires Valid()
      modifies this`phys, this`own, pmm, pmm.bitmap
      ensures Valid()
      ensures t == 0 <==> old(pmm.free) == {}
      ensures t == 0 ==> S() == old(S())
      ensures t != 0 ==> SpaceMade(old(S()), S(), pml4, t)
    {
      ghost var x := S();
      t := CopyRoot();
      if t == 0 { return; }
      own := own[t := Root(t)];
      SpaceMadeBase(x, S(), pml4, t);
    }

    /** vmm_switch. */
    method Switch(root: nat)
      requires Valid() && IsRoot(S(), root)
      modifies this`pml4
      ensures Valid() && pml4 == root
    {
      pml4 := root;
    }

    /** vmm_fork_user_space. The source does not check the allocation of the tables that the root
        points to; the method stops there instead of going on with physical page 0. */
    method ForkUserSpace() returns (child: nat, ok: bool)
      requires Valid() && NoHuge(S(), pml4)
      modifies this`phys, this`own, pmm, pmm.bitmap
      ensures ok ==> Valid() && ForkedSpace(old(S()), S(), pml4, child)
      ensures !ok ==> Exhausted()
    {
      child := CreateSpace();
      if child == 0 { return 0, false; }
      ghost var x := S();
      assert Pair(x, pml4, child);
      ok := CopyUserHalf(child);
    }

    method CopyRootEntry(child: nat, i: nat) returns (ok: bool)
      requires Valid() && Pair(S(), pml4, child) && i < 256 && phys[child][i] == ZERO
      modifies this`phys, this`own, pmm, pmm.bitmap
      ensures ok ==> Valid() && Forked(old(S()), S(), pml4, child, i, i + 1)
      ensures !ok ==> Exhausted()
    {
      if phys[pml4][i].p {
        ok := CopyTable(pml4, child, 3, i);
      } else {
        AbsentStep(S(), pml4, child, i);
        ok := true;
      }
    }

    /** The loop of vmm_fork_user_space over the user half of the root. */
    method CopyUserHalf(child: nat) returns (ok: bool)
      requires Valid() && Pair(S(), pml4, child) && forall i :: 0 <= i < 256 ==> phys[child][i] == ZERO
      modifies this`phys, this`own, pmm, pmm.bitmap
      ensures ok ==> Valid() && Forked(old(S()), S(), pml4, child, 0, 256)
      ensures !ok ==> Exhausted()
    {
      ghost var x := S();
      NothingForked(x, pml4, child);
      var i := 0;
      while i < 256
        invariant 0 <= i <= 256
        invariant Valid() && Pair(S(), pml4, child) && Forked(x, S(), pml4, child, 0, i)
      {
        ghost var y := S();
        assert y.m[child][i] == ZERO;
        ok := CopyRootEntry(child, i);
        if !ok { return; }
        OneMore(x, y, S(), pml4, child, i);
        i := i + 1;
      }
      ok := true;
    }
  
    /** The missing table of entry i: fresh, zeroed and linked. */
    method AddTable(t: nat, i: nat) returns (ok: bool)
      requires Valid() && t in own && 1 <= Level(own[t]) && i < 512 && !phys[t][i].p
      modifies this`phys, this`own, pmm, pmm.bitmap
      ensures Valid() && Sprouted(old(S()), S(), t, i) && t in own && own[t] == old(own)[t]
      ensures !ok ==> S() == old(S()) && pmm.free == {}
      ensures ok ==> Interior(phys[t][i], Level(own[t])) && !phys[t][i].ps
    {
      ghost var x := S();
      assert PosOk(x, t);
      var n := NewTable(Child(own[t], i));
      if n == 0 {
        SproutedSelf(x, t, i);
        return false;
      }
      phys := phys[t := phys[t][i := TableWord(n)]];
      LinkSprouted(x, S(), t, i, n);
      ok := true;
    }

    /** One level of pt_for: the table that va's entry leads to, created on demand. */
    method Descend(t: nat, level: nat, va: nat, create: bool) returns (r: Found)
      requires Valid() && t in own && 1 <= level == Level(own[t])
      modifies this`phys, this`own, pmm, pmm.bitmap
      ensures Valid() && Sprouted(old(S()), S(), t, Index(va, level)) && t in own && own[t] == old(own)[t]
      ensures !create ==> S() == old(S())
      ensures r.Table? ==> r.t in own && own[r.t] == Child(own[t], Index(va, level))
      ensures r.Table? ==> Interior(phys[t][Index(va, level)], level) && phys[t][Index(va, level)].frame == r.t
      ensures r.Absent? ==> !create && !phys[t][Index(va, level)].p
      ensures r.Large? ==> IsLeaf(phys[t][Index(va, level)], level)
      ensures r.NoMemory? ==> create && !old(phys)[t][Index(va, level)].p && pmm.free == {}
    {
      ghost var x := S();
      var i := Index(va, level);
      SproutedSelf(x, t, i);
      if !phys[t][i].p {
        if !create { return Absent; }
        var ok := AddTable(t, i);
        if !ok { return NoMemory; }
      }
      if level <= 2 && phys[t][i].ps { return Large; }
      assert Closed(phys, own, t);
      return Table(phys[t][i].frame);
    }

    /** One level of pt_for on the way down from the root. */
    method NextTable(t: nat, level: nat, va: nat, create: bool) returns (r: Found)
      requires Valid() && t in own && 1 <= level < 4 && own[t] == At(pml4, va, level)
      requires Passes(phys, pml4, 3, va, level, t)
      modifies this`phys, this`own, pmm, pmm.bitmap
      ensures Valid() && Growth(old(S()), S(), pml4, va)
      ensures !create ==> S() == old(S())
      ensures r.Table? ==> r.t in own && own[r.t] == At(pml4, va, level - 1)
      ensures r.Table? ==> Passes(phys, pml4, 3, va, level - 1, r.t)
      ensures r.Absent? ==> !create && Walk(phys, pml4, 3, va) == Unmapped
      ensures r.Large? ==> Walk(phys, pml4, 3, va).Mapped? && Walk(phys, pml4, 3, va).level > 0
      ensures r.NoMemory? ==> create && Walk(phys, pml4, 3, va) == Unmapped && pmm.free == {}
    {
      ghost var x := S();
      assert IsRoot(x, pml4);
      r := Descend(t, level, va, create);
      OpenSprouted(x, S(), t, Index(va, level));
      PassesOn(x, S(), pml4, va, level, t);
      OneLevel(x, S(), pml4, va, level, t);
    }

    /** pt_for: the page table of va in the current space. */
    method PtFor(va: nat, create: bool) returns (r: Found)
      requires Valid()
      modifies this`phys, this`own, pmm, pmm.bitmap
      ensures Valid() && Growth(old(S()), S(), pml4, va)
      ensures !create ==> S() == old(S())
      ensures r.Table? ==> r.t in own && Level(own[r.t]) == 0 && Reaches(phys, pml4, 3, va, r.t)
      ensures r.Absent? ==> !create && Walk(phys, pml4, 3, va) == Unmapped
      ensures r.Large? ==> Walk(phys, pml4, 3, va).Mapped? && Walk(phys, pml4, 3, va).level > 0
      ensures r.NoMemory? ==> create && Walk(phys, pml4, 3, va) == Unmapped && pmm.free == {}
    {
      ghost var x := S();
      r := NextTable(pml4, 3, va, create);
      if !r.Table? { return; }
      ghost var x1 := S();
      r := NextTable(r.t, 2, va, create);
      GrowthTwice(x, x1, S(), pml4, va);
      if !r.Table? { return; }
      ghost var x2 := S();
      r := NextTable(r.t, 1, va, create);
      GrowthTwice(x, x2, S(), pml4, va);
      if r.Table? {
        PassesDown(phys, pml4, 3, va, 0, r.t);
      }
    }
  
    /** vmm_map: map the page of va to frame pa with the given flag bits. */
    method Map(va: nat, pa: nat, flags: Word) returns (r: MapResult, ghost z: St, ghost pt: nat)
      requires Valid() && flags.frame == 0
      modifies this`phys, this`own, pmm, pmm.bitmap
      ensures Base(old(S()))
      ensures r.MapOk? ==> Valid() && MappedAt(old(S()), S(), pml4, va, flags.(frame := pa), z, pt)
      ensures r.Remap? <==> old(Walk(phys, pml4, 3, va)).Mapped? && old(Walk(phys, pml4, 3, va)).level == 0
      ensures r.UnderLarge? <==> old(Walk(phys, pml4, 3, va)).Mapped? && old(Walk(phys, pml4, 3, va)).level > 0
      ensures r.OutOfMemory? ==> pmm.free == {}
    {
      var f := PtFor(va, true);
      z, pt := S(), 0;
      OpenGrowth(old(S()), z, pml4, va);
      assert IsRoot(old(S()), pml4);
      match f {
        case NoMemory => return OutOfMemory, z, 0;
        case Large => return UnderLarge, z, 0;
        case Table(t) =>
          pt := t;
          AbsentWalk(phys, pml4, 3, va, t);
          var i := Index(va, 0);
          if phys[t][i].p { return Remap, z, t; }
          NewLeafBase(z, t, i, flags.(frame := pa));
          phys := phys[t := phys[t][i := flags.(frame := pa)]];
          r := MapOk;
      }
    }

    /** vmm_unmap: clear the entry of va if it has a page table. */
    method Unmap(va: nat) returns (ghost pt: nat)
      requires Valid()
      modifies this`phys, this`own, pmm, pmm.bitmap
      ensures Valid()
      ensures pt == 0 ==> S() == old(S()) && (Walk(phys, pml4, 3, va).Mapped? ==> Walk(phys, pml4, 3, va).level > 0)
      ensures pt != 0 ==> pt in own && Level(own[pt]) == 0 && pt < |old(phys)| && Reaches(old(phys), pml4, 3, va, pt)
      ensures pt != 0 ==> S() == SetEntry(old(S()), pt, Index(va, 0), ZERO)
    {
      pt := 0;
      var f := PtFor(va, false);
      if !f.Table? { return; }
      pt := f.t;
      NewLeafBase(S(), pt, Index(va, 0), ZERO);
      phys := phys[f.t := phys[f.t][Index(va, 0) := ZERO]];
    }
  
    /** vmm_translate. */
    method Translate(va: nat) returns (ok: bool, pa: nat)
      requires Valid()
      ensures ok <==> Walk(phys, pml4, 3, va).Mapped?
      ensures ok ==> pa == PhysAddr(Walk(phys, pml4, 3, va), va)
    {
      pa := 0;
      var e3 := phys[pml4][Index(va, 3)];
      if !e3.p { return false, 0; }
      assert Closed(phys, own, pml4);
      var e2 := phys[e3.frame][Index(va, 2)];
      if !e2.p { return false, 0; }
      if e2.ps { return true, e2.frame / 0x4_0000 * 0x4000_0000 + va % 0x4000_0000; }
      assert Closed(phys, own, e3.frame);
      var e1 := phys[e2.frame][Index(va, 1)];
      if !e1.p { return false, 0; }
      if e1.ps { return true, e1.frame / 512 * 0x20_0000 + va % 0x20_0000; }
      assert Closed(phys, own, e2.frame);
      var e0 := phys[e1.frame][Index(va, 0)];
      if !e0.p { return false, 0; }
      return true, e0.frame * 0x1000;
    }

    /** What core/kmain.c checks at boot: a page mapped at va translates to itself, and after it has been
        unmapped and freed every space translates every address as before. */
    method Probe(va: nat, flags: Word) returns (r: MapResult, page: nat, pa: nat)
      requires Valid() && flags.p && flags.frame == 0 && pmm.free != {}
      modifies this`phys, this`own, pmm, pmm.bitmap
      ensures r.MapOk? <==> Walk(old(phys), pml4, 3, va) == Unmapped && r != OutOfMemory
      ensures r.OutOfMemory? ==> pmm.free == {}
      ensures r.MapOk? ==> Valid() && page in old(pmm.free) && page in pmm.free && pa == page * 0x1000
      ensures r.MapOk? ==> forall root, vb: nat :: IsRoot(old(S()), root) ==>
                             Walk(phys, root, 3, vb) == Walk(old(phys), root, 3, vb)
    {
      ghost var x := S();
      pa := 0;
      ghost var z, pt;
      r, page, z, pt := MapNew(va, flags);
      if r != MapOk { return; }
      ghost var y := S();
      NewlyMapped(x, y, pml4, va, flags.(frame := page), z, pt);
      var ok;
      ok, pa := Translate(va);
      Unmapping(va, y, pt);
      MappedInVain(x, y, pml4, va, flags.(frame := page), z, pt);
      GiveBack(page);
    }

    /** pmm_free of a page that is no table. */
    method GiveBack(page: nat)
      requires Valid() && 0 < page < pmm.bitmap.Length && page !in pmm.free && page !in own
      modifies pmm, pmm.bitmap
      ensures Valid() && S() == old(St(phys, own, pmm.free + {page}, pmm.refs, pmm.bitmap.Length))
    {
      ghost var x := S();
      var ok := pmm.Free(page);
      forall p | p in own ensures PosOk(S(), p) {
        assert PosOk(x, p);
      }
    }

    /** A page is taken and mapped. */
    method MapNew(va: nat, flags: Word) returns (r: MapResult, page: nat, ghost z: St, ghost pt: nat)
      requires Valid() && flags.p && flags.frame == 0 && pmm.free != {}
      modifies this`phys, this`own, pmm, pmm.bitmap
      ensures r.MapOk? <==> Walk(old(phys), pml4, 3, va) == Unmapped && r != OutOfMemory
      ensures r.OutOfMemory? ==> pmm.free == {}
      ensures r.MapOk? ==> Valid() && page in old(pmm.free)
      ensures r.MapOk? ==> MapsNew(old(S()), S(), pml4, va, flags.(frame := page), z, pt)
    {
      page := pmm.Alloc();
      TakenBase(old(S()), page);
      r, z, pt := Map(va, page, flags);
    }

    /** vmm_unmap of a page that pt maps. */
    method Unmapping(va: nat, ghost y: St, ghost pt: nat)
      requires Valid() && y == S() && Reaches(phys, pml4, 3, va, pt) && pt < |phys|
      requires Walk(phys, pml4, 3, va).Mapped? && Walk(phys, pml4, 3, va).level == 0
      modifies this`phys, this`own, pmm, pmm.bitmap
      ensures Valid() && S() == SetEntry(y, pt, Index(va, 0), ZERO)
    {
      ghost var pt' := Unmap(va);
      if pt' != 0 { ReachesOnce(y.m, pml4, 3, va, pt, pt'); }
    }

    /** vmm_page_fault. */
    method PageFault(addr: nat, err: nat) returns (r: FaultResult, ghost pt: nat, ghost n: nat)
      requires Valid()
      modifies this`phys, this`own, pmm, pmm.bitmap
      ensures r.NotHandled? <==> !(err % 4 == 3 && addr < 0x8000_0000_0000 && CowLeafAt(old(Walk(phys, pml4, 3, addr))))
      ensures r.NotHandled? ==> Valid() && S() == old(S())
      ensures r.NoPageForCopy? ==> pmm.free == {}
      ensures r.Handled? ==> Valid() && Faulted(old(S()), S(), pt, Index(addr, 0), n)
      ensures r.Handled? ==> Reaches(old(phys), pml4, 3, addr, pt)
    {
      pt, n := 0, 0;
      if err % 4 != 3 || addr >= 0x8000_0000_0000 { return NotHandled, 0, 0; }
      var va := addr / 0x1000 * 0x1000;
      PageBase(addr);
      var f := PtFor(va, false);
      WalkOfBase(phys, pml4, 3, va, addr);
      if !f.Table? { return NotHandled, 0, 0; }
      ReachesBase(phys, pml4, 3, va, addr, f.t);
      AbsentWalk(phys, pml4, 3, addr, f.t);
      var e := phys[f.t][Index(va, 0)];
      if !(e.p && e.cow && e.u) { return NotHandled, 0, 0; }
      pt := f.t;
      ReachesLabel(S(), pml4, pml4, 3, addr, f.t);
      r, n := ResolveFault(f.t, Index(va, 0));
    }

    /** The two branches of the copy-on-write fault. */
    method ResolveFault(pt: nat, i: nat) returns (r: FaultResult, ghost n: nat)
      requires Valid() && pt in own && UserPos(own[pt]) && Level(own[pt]) == 0 && i < 512
      requires phys[pt][i].p && phys[pt][i].u && phys[pt][i].cow
      modifies this`phys, pmm, pmm.bitmap
      ensures r.Handled? || (r.NoPageForCopy? && pmm.free == {})
      ensures r.Handled? ==> Valid() && Faulted(old(S()), S(), pt, i, n)
    {
      var e := phys[pt][i];
      var count := pmm.GetRef(e.frame);
      if count > 1 {
        r, n := CopyForFault(pt, i);
      } else {
        n := 0;
        ghost var x := S();
        phys := phys[pt := phys[pt][i := e.(cow := false, w := true)]];
        FaultBase(x, S(), pt, i, n);
        r := Handled;
      }
    }

    /** The branch that copies. */
    method CopyForFault(pt: nat, i: nat) returns (r: FaultResult, ghost n: nat)
      requires Valid() && pt in own && UserPos(own[pt]) && Level(own[pt]) == 0 && i < 512
      requires phys[pt][i].p && phys[pt][i].u && phys[pt][i].cow && pmm.Stored(phys[pt][i].frame) > 1
      modifies this`phys, pmm, pmm.bitmap
      ensures r.Handled? || (r.NoPageForCopy? && pmm.free == {})
      ensures r.Handled? ==> Valid() && Faulted(old(S()), S(), pt, i, n)
    {
      ghost var x := S();
      var e := phys[pt][i];
      var newp := pmm.Alloc();
      if newp == 0 { return NoPageForCopy, 0; }
      n := newp;
      phys := phys[newp := phys[e.frame]];
      var ok := pmm.Unref(e.frame);
      phys := phys[pt := phys[pt][i := PrivateWord(newp, e.nx)]];
      FaultBase(x, S(), pt, i, n);
      r := Handled;
    }

    /** Memory as the boot loader left it: the tree of the active tables is in use. */
    ghost predicate Booting(m0: Phys, tree: set<(nat, nat)>)
      reads this, pmm, pmm.bitmap
    {
      && pmm.Valid() && pmm.bitmap.Length <= |phys| && 0 !in pmm.free && |phys| == |m0|
      && SourceTree(m0, tree) && PlainRoots(m0, tree)
      && (forall k :: k in tree && k.0 < |phys| ==> phys[k.0] == m0[k.0] && k.0 !in pmm.free)
    }

    /** clone_table: a copy of table t made of fresh tables; leaves are shared as they are. */
    method CloneTable(t: nat, level: nat, ghost m0: Phys, ghost tree: set<(nat, nat)>, ghost pos: Pos)
      returns (dst: nat, ok: bool, ghost lab: map<nat, Pos>)
      requires Booting(m0, tree) && (t, level) in tree && (level <= 2 ==> Level(pos) == level)
      modifies this`phys, pmm, pmm.bitmap
      ensures Booting(m0, tree) && pmm.refs == old(pmm.refs)
      ensures forall p :: 0 <= p < |phys| && p !in old(pmm.free) ==> phys[p] == old(phys)[p]
      ensures ok ==> lab.Keys <= old(pmm.free) && pmm.free == old(pmm.free) - lab.Keys
      ensures ok ==> Cloned(m0, phys, lab, t, dst, if level == 3 then Root(dst) else pos)
      ensures !ok ==> pmm.free == {}
      decreases level, 5
    {
      lab := map[];
      dst := pmm.Alloc();
      if dst == 0 { return 0, false, lab; }
      ghost var top := if level == 3 then Root(dst) else pos;
      ok, lab := CloneRows(t, level, dst, m0, tree, top);
      if !ok { return; }
      Finish(m0, phys, lab, t, dst, top);
      lab := lab[dst := top];
    }

    /** The loop of clone_table over the entries of one table. */
    method CloneRows(t: nat, level: nat, dst: nat, ghost m0: Phys, ghost tree: set<(nat, nat)>, ghost top: Pos)
      returns (ok: bool, ghost lab: map<nat, Pos>)
      requires Booting(m0, tree) && (t, level) in tree && Level(top) == level && dst !in pmm.free && 0 < dst < |phys|
      requires forall k :: k in tree ==> k.0 != dst
      modifies this`phys, pmm, pmm.bitmap
      ensures Booting(m0, tree) && pmm.refs == old(pmm.refs)
      ensures forall p :: 0 <= p < |phys| && p !in old(pmm.free) && p != dst ==> phys[p] == old(phys)[p]
      ensures !ok ==> pmm.free == {}
      ensures ok ==> lab.Keys <= old(pmm.free) && pmm.free == old(pmm.free) - lab.Keys
      ensures ok ==> PartCloned(m0, phys, lab, t, dst, top, 512)
      decreases level, 4
    {
      lab := map[];
      ghost var m1, free1 := phys, pmm.free;
      var i := 0;
      while i < 512
        invariant 0 <= i <= 512 && Booting(m0, tree) && pmm.refs == old(pmm.refs)
        invariant FreshOnly(m1, free1, lab, dst) && PartCloned(m0, phys, lab, t, dst, top, i)
      {
        ok, lab := CloneNext(t, level, i, dst, m0, tree, top, lab, m1, free1);
        if !ok { return; }
        i := i + 1;
      }
      ok := true;
    }

    /** Only dst and pages that were free have been written, and those that lab labels were taken. */
    ghost predicate FreshOnly(m1: Phys, free1: set<nat>, lab: map<nat, Pos>, dst: nat)
      reads this, pmm
    {
      && lab.Keys <= free1 && pmm.free == free1 - lab.Keys && |phys| == |m1|
      && forall p :: 0 <= p < |phys| && p !in free1 && p != dst ==> phys[p] == m1[p]
    }

    /** One turn of that loop. */
    method CloneNext(t: nat, level: nat, i: nat, dst: nat, ghost m0: Phys, ghost tree: set<(nat, nat)>, ghost top: Pos,
                     ghost lab: map<nat, Pos>, ghost m1: Phys, ghost free1: set<nat>)
      returns (ok: bool, ghost all: map<nat, Pos>)
      requires Booting(m0, tree) && (t, level) in tree && Level(top) == level && i < 512 && dst !in pmm.free && dst != 0
      requires forall k :: k in tree ==> k.0 != dst
      requires FreshOnly(m1, free1, lab, dst) && PartCloned(m0, phys, lab, t, dst, top, i)
      modifies this`phys, pmm, pmm.bitmap
      ensures Booting(m0, tree) && pmm.refs == old(pmm.refs)
      ensures |phys| == |m1| && forall p :: 0 <= p < |phys| && p !in free1 && p != dst ==> phys[p] == m1[p]
      ensures !ok ==> pmm.free == {}
      ensures ok ==> FreshOnly(m1, free1, all, dst) && PartCloned(m0, phys, all, t, dst, top, i + 1)
      decreases level, 3
    {
      ghost var more, mid, rest := map[], phys, pmm.free;
      ok, more := CloneEntry(t, level, i, dst, m0, tree, top, lab);
      all := lab + more;
      FrameTwice(m1, mid, phys, free1, rest, dst);
      if ok { TakenTwice(free1, lab, more); }
    }

    /** The body of clone_table's loop. */
    method CloneEntry(t: nat, level: nat, i: nat, dst: nat, ghost m0: Phys, ghost tree: set<(nat, nat)>, ghost top: Pos,
                      ghost lab: map<nat, Pos>)
      returns (ok: bool, ghost more: map<nat, Pos>)
      requires Booting(m0, tree) && (t, level) in tree && Level(top) == level && i < 512 && dst !in pmm.free && dst != 0
      requires forall k :: k in tree ==> k.0 != dst
      requires lab.Keys !! pmm.free && PartCloned(m0, phys, lab, t, dst, top, i)
      modifies this`phys, pmm, pmm.bitmap
      ensures Booting(m0, tree) && pmm.refs == old(pmm.refs)
      ensures forall p :: 0 <= p < |phys| && p !in old(pmm.free) && p != dst ==> phys[p] == old(phys)[p]
      ensures !ok ==> pmm.free == {}
      ensures ok ==> more.Keys <= old(pmm.free) && pmm.free == old(pmm.free) - more.Keys
      ensures ok ==> PartCloned(m0, phys, lab + more, t, dst, top, i + 1)
      decreases level, 2
    {
      more := map[];
      PartBounds(m0, phys, lab, t, dst, top, i);
      var e := phys[t][i];
      assert e == m0[t][i] && SourceClosed(m0, tree, t, level);
      if !e.p {
        ExtendPlain(m0, phys, lab, t, dst, top, i, ZERO);
        assert lab + more == lab;
        phys := phys[dst := phys[dst][i := ZERO]];
        ok := true;
      } else if level == 0 || e.ps {
        ExtendPlain(m0, phys, lab, t, dst, top, i, e);
        assert lab + more == lab;
        phys := phys[dst := phys[dst][i := e]];
        ok := true;
      } else {
        ok, more := CloneChild(t, level, i, dst, m0, tree, top, lab);
      }
    }

    /** The interior case of clone_table. */
    method CloneChild(t: nat, level: nat, i: nat, dst: nat, ghost m0: Phys, ghost tree: set<(nat, nat)>, ghost top: Pos,
                      ghost lab: map<nat, Pos>)
      returns (ok: bool, ghost more: map<nat, Pos>)
      requires Booting(m0, tree) && (t, level) in tree && Level(top) == level && i < 512 && dst !in pmm.free && dst != 0
      requires forall k :: k in tree ==> k.0 != dst
      requires lab.Keys !! pmm.free && PartCloned(m0, phys, lab, t, dst, top, i) && t < |m0|
      requires Interior(m0[t][i], level)
      modifies this`phys, pmm, pmm.bitmap
      ensures Booting(m0, tree) && pmm.refs == old(pmm.refs)
      ensures forall p :: 0 <= p < |phys| && p !in old(pmm.free) && p != dst ==> phys[p] == old(phys)[p]
      ensures !ok ==> pmm.free == {}
      ensures ok ==> more.Keys <= old(pmm.free) && pmm.free == old(pmm.free) - more.Keys
      ensures ok ==> PartCloned(m0, phys, lab + more, t, dst, top, i + 1)
      decreases level, 1
    {
      PartBounds(m0, phys, lab, t, dst, top, i);
      ghost var before := phys;
      var e := phys[t][i];
      var child;
      child, ok, more := CloneBelow(t, level, i, e, dst, m0, tree, top, lab);
      if !ok { return; }
      StoreClone(dst, i, LinkWord(e, child), m0, tree, before, lab, more, t, top);
    }

    /** The child table of entry e, which leaves the tables cloned so far alone. */
    method CloneBelow(t: nat, level: nat, i: nat, e: Word, dst: nat, ghost m0: Phys, ghost tree: set<(nat, nat)>,
                      ghost top: Pos, ghost lab: map<nat, Pos>)
      returns (child: nat, ok: bool, ghost more: map<nat, Pos>)
      requires Booting(m0, tree) && (t, level) in tree && Level(top) == level && i < 512 && t < |m0| && e == m0[t][i]
      requires Interior(e, level)
      requires dst < |phys| && dst !in pmm.free && lab.Keys !! pmm.free && forall p :: p in lab ==> p < |phys|
      modifies this`phys, pmm, pmm.bitmap
      ensures Booting(m0, tree) && pmm.refs == old(pmm.refs) && |phys| == |old(phys)|
      ensures forall p :: 0 <= p < |phys| && p !in old(pmm.free) ==> phys[p] == old(phys)[p]
      ensures !ok ==> pmm.free == {}
      ensures ok ==> more.Keys <= old(pmm.free) && pmm.free == old(pmm.free) - more.Keys && lab.Keys !! more.Keys
      ensures ok ==> dst !in more
      ensures ok ==> phys[dst] == old(phys)[dst] && (forall p :: p in lab ==> phys[p] == old(phys)[p])
      ensures ok ==> Cloned(m0, phys, more, e.frame, child, Child(top, i))
      decreases level, 0
    {
      assert SourceClosed(m0, tree, t, level);
      child, ok, more := CloneTable(e.frame, level - 1, m0, tree, Child(top, i));
    }

    /** The entry for a cloned child table. */
    method StoreClone(dst: nat, i: nat, w: Word, ghost m0: Phys, ghost tree: set<(nat, nat)>,
                      ghost before: Phys, ghost lab: map<nat, Pos>, ghost more: map<nat, Pos>,
                      ghost t: nat, ghost top: Pos)
      requires Booting(m0, tree) && dst < |phys| && i < 512 && forall k :: k in tree ==> k.0 != dst
      requires PartCloned(m0, before, lab, t, dst, top, i) && 0 < Level(top) && t < |m0|
      requires Interior(m0[t][i], Level(top))
      requires |phys| == |before| && (forall p :: p in lab ==> p < |phys|)
      requires (forall p :: p in lab ==> phys[p] == before[p]) && phys[dst] == before[dst] && lab.Keys !! more.Keys
      requires dst !in more
      requires Cloned(m0, phys, more, m0[t][i].frame, w.frame, Child(top, i)) && w == LinkWord(m0[t][i], w.frame)
      modifies this`phys
      ensures Booting(m0, tree) && phys == old(phys)[dst := old(phys)[dst][i := w]]
      ensures PartCloned(m0, phys, lab + more, t, dst, top, i + 1)
    {
      ExtendTable(m0, before, phys, lab, more, t, dst, top, i, w);
      phys := phys[dst := phys[dst][i := w]];
    }

    method CloneActive(cr3: nat, ghost tree: set<(nat, nat)>) returns (root: nat, ok: bool, ghost lab: map<nat, Pos>)
      requires Booting(phys, tree) && (cr3, 3) in tree
      modifies this`phys, pmm, pmm.bitmap
      ensures pmm.Valid() && pmm.bitmap.Length <= |phys| && 0 !in pmm.free && pmm.refs == old(pmm.refs)
      ensures |phys| == |old(phys)| && forall p :: 0 <= p < |phys| && p !in old(pmm.free) ==> phys[p] == old(phys)[p]
      ensures !ok ==> pmm.free == {}
      ensures ok ==> lab.Keys <= old(pmm.free) && pmm.free == old(pmm.free) - lab.Keys && root in lab
      ensures ok ==> lab[root] == Root(root)
      ensures ok ==> Cloned(old(phys), phys, lab, cr3, root, Root(root))
    {
      root, ok, lab := CloneTable(cr3, 3, phys, tree, Root(0));
      if ok { OpenCloned(old(phys), phys, lab, cr3, root, Root(root)); }
    }

    /** vmm_init: run on a clone of the tables the boot loader left active. */
    method Init(cr3: nat, ghost tree: set<(nat, nat)>) returns (ok: bool)
      requires Booting(phys, tree) && (cr3, 3) in tree && own == map[] && 0 < pmm.bitmap.Length
      modifies this, pmm, pmm.bitmap
      ensures !ok ==> pmm.free == {}
      ensures ok ==> Valid() && AllLinked(S()) && SameWalks(phys, pml4, old(phys), cr3, 3)
      ensures ok && NoUserLeaf(old(phys), cr3) && pmm.refs == [] ==> Inv(S()) && CountExact(S())
      ensures ok ==> own.Keys <= old(pmm.free) && pmm.free == old(pmm.free) - own.Keys
      ensures |phys| == |old(phys)| && forall p :: 0 <= p < |phys| && p !in old(pmm.free) ==> phys[p] == old(phys)[p]
    {
      var root;
      ghost var lab;
      root, ok, lab := CloneActive(cr3, tree);
      if !ok { return; }
      pml4, own := root, lab;
      Booted(S(), pml4, old(phys), cr3);
    }
  }

  /** Page w.frame was taken and mapped at va, folded: NewlyMapped and MappedInVain unfold it. */
  ghost predicate MapsNew(x: St, y: St, root: nat, va: nat, w: Word, z: St, pt: nat)
  {
    forall u {:trigger Is(u, y)} :: Is(u, y) ==> MappedAt(Taken(x, w.frame), u, root, va, w, z, pt)
  }

  lemma NewlyMapped(x: St, y: St, root: nat, va: nat, w: Word, z: St, pt: nat)
    requires Base(x) && w.p && w.frame in x.free && MapsNew(x, y, root, va, w, z, pt)
    ensures Walk(y.m, root, 3, va) == Mapped(w, 0) && pt < |y.m| && Reaches(y.m, root, 3, va, pt)
    ensures w.frame !in y.own && w.frame !in y.free && 0 < w.frame < y.total
  {
    assert Is(y, y);
    MapWalks(Taken(x, w.frame), y, root, va, w, z, pt, root, va);
    MappedReaches(Taken(x, w.frame), y, root, va, w, z, pt);
  }

  lemma MappedInVain(x: St, y: St, root: nat, va: nat, w: Word, z: St, pt: nat)
    requires Base(x) && Base(y) && MapsNew(x, y, root, va, w, z, pt) && pt < |y.m|
    ensures forall r, vb: nat :: IsRoot(x, r) ==>
              Walk(SetEntry(y, pt, Index(va, 0), ZERO).m, r, 3, vb) == Walk(x.m, r, 3, vb)
  {
    assert Is(y, y);
    forall r, vb: nat | IsRoot(x, r)
      ensures Walk(SetEntry(y, pt, Index(va, 0), ZERO).m, r, 3, vb) == Walk(x.m, r, 3, vb)
    {
      UnmapUndoesMap(Taken(x, w.frame), y, root, va, w, z, pt, r, vb);
    }
  }

  lemma TakenTwice(free: set<nat>, lab: map<nat, Pos>, more: map<nat, Pos>)
    requires lab.Keys <= free && more.Keys <= free - lab.Keys
    ensures (lab + more).Keys <= free && free - lab.Keys - more.Keys == free - (lab + more).Keys
  {
  }

  lemma FrameTwice(m1: Phys, m2: Phys, m3: Phys, free: set<nat>, rest: set<nat>, dst: nat)
    requires |m1| == |m2| == |m3| && rest <= free
    requires forall p :: 0 <= p < |m2| && p !in free && p != dst ==> m2[p] == m1[p]
    requires forall p :: 0 <= p < |m3| && p !in rest && p != dst ==> m3[p] == m2[p]
    ensures forall p :: 0 <= p < |m3| && p !in free && p != dst ==> m3[p] == m1[p]
  {
  }

  /** The leaf the fault handler acts on. */
  predicate CowLeafAt(l: Leaf) { l.Mapped? && l.level == 0 && l.entry.cow && l.entry.u }

  /** Clearing the offset does not change the indices. */
  lemma PageBase(addr: nat)
    ensures forall l :: 0 <= l < 4 ==> Index(addr / 0x1000 * 0x1000, l) == Index(addr, l)
    ensures addr < 0x8000_0000_0000 ==> UserVa(addr)
  {
    SamePageIffPageNumber(addr / 0x1000 * 0x1000, addr);
    assert addr / 0x1000 * 0x1000 / 0x1000 == addr / 0x1000;
    assert SamePage(addr / 0x1000 * 0x1000, addr);
  }

  lemma {:induction false} WalkOfBase(m: Phys, t: nat, level: nat, va: nat, vb: nat)
    requires level < 4 && SamePage(va, vb)
    ensures Walk(m, t, level, va) == Walk(m, t, level, vb)
    decreases level
  {
    if t < |m| && Interior(m[t][Index(va, level)], level) {
      WalkOfBase(m, m[t][Index(va, level)].frame, level - 1, va, vb);
    }
  }

  lemma {:induction false} ReachesBase(m: Phys, t: nat, level: nat, va: nat, vb: nat, pt: nat)
    requires level < 4 && SamePage(va, vb)
    ensures Reaches(m, t, level, va, pt) <==> Reaches(m, t, level, vb, pt)
    decreases level
  {
    if t < |m| && Interior(m[t][Index(va, level)], level) {
      ReachesBase(m, m[t][Index(va, level)].frame, level - 1, va, vb, pt);
    }
  }

  /** The cloned space as a whole. */
  lemma Booted(x: St, root: nat, m0: Phys, cr3: nat)
    requires Cloned(m0, x.m, x.own, cr3, root, Root(root))
    requires x.total <= |x.m| && (forall p :: p in x.free ==> 0 < p < x.total)
    requires forall p :: p in x.own ==> p != 0 && p !in x.free
    requires x.refs == [] || |x.refs| == x.total
    requires forall f :: 0 <= f < |x.refs| ==> x.refs[f] <= REF_MAX
    ensures Base(x) && IsRoot(x, root) && AllLinked(x) && SameWalks(x.m, root, m0, cr3, 3)
    ensures NoUserLeaf(m0, cr3) && x.refs == [] ==> Inv(x) && CountExact(x)
  {
    OpenCloned(m0, x.m, x.own, cr3, root, Root(root));
    ClonedBase(x, root);
    ClonedLinked(x, root);
    if NoUserLeaf(m0, cr3) && x.refs == [] { NoLeafInv(x, root, m0, cr3); }
  }

  /** Without user leaves nothing is shared, and nothing is counted. */
  lemma NoLeafInv(x: St, root: nat, m0: Phys, cr3: nat)
    requires Base(x) && AllLinked(x) && IsRoot(x, root) && SameWalks(x.m, root, m0, cr3, 3) && NoUserLeaf(m0, cr3)
    requires x.refs == []
    requires forall q :: q in x.own && q != root ==> Within(x.own[q], Root(root), 0, 512)
    ensures Inv(x) && CountExact(x)
  {
    forall p: nat, i: nat ensures !LeafAt(x, p, i) {
      ClonedNoLeaf(x, root, m0, cr3, p, i);
    }
    forall f: nat ensures Sharers(x, f) == {} {
    }
  }

  /** One level of pt_for grows the tables on va's path. */
  lemma OneLevel(x: St, y: St, root: nat, va: nat, level: nat, t: nat)
    requires Base(x) && IsRoot(x, root) && 1 <= level < 4 && t in x.own && x.own[t] == At(root, va, level)
    requires Sprouted(x, y, t, Index(va, level))
    ensures Growth(x, y, root, va)
  {
    assert PosOk(x, t);
    assert At(root, va, level - 1) == Child(At(root, va, level), Index(va, level));
    OpenSprouted(x, y, t, Index(va, level));
  }
}
