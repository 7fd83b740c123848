/** Four-level page tables as values: entries, walks, and the labelling of table pages by their
    position that makes the ownership of the tree a local property. */
module PageTables {
  import opened Common

  const KERNEL: nat := 0

  /** A 64-bit word of memory, split into the fields the kernel looks at: bits 0 (present),
      1 (write), 2 (user), 7 (large page), 9 (copy-on-write mark), 63 (no-execute) and 12..51
      (frame). `lo` holds the remaining bits below 12 and `hi` those in 52..62. */
  datatype Word = Word(p: bool, w: bool, u: bool, ps: bool, cow: bool, nx: bool, frame: nat, lo: nat, hi: nat)

  const ZERO := Word(false, false, false, false, false, false, 0, 0, 0)

  /** A page is 512 words, whether it holds a table or data. */
  type Page = s: seq<Word> | |s| == 512 witness seq(512, _ => ZERO)

  function ZeroPage(): (p: Page)
    ensures forall i :: 0 <= i < 512 ==> p[i] == ZERO
  {
    seq(512, _ => ZERO)
  }

  /** Physical memory, by page number. */
  type Phys = seq<Page>

  /** The position of a table in an address space: the indices that lead to it. Tables of the
      kernel half are shared between spaces and carry the space KERNEL. */
  datatype Pos =
    | Root(space: nat)
    | Pdpt(space: nat, a: nat)
    | Pd(space: nat, a: nat, b: nat)
    | Pt(space: nat, a: nat, b: nat, c: nat)

  function Level(pos: Pos): (l: nat)
    ensures l < 4
  {
    match pos
    case Root(_) => 3
    case Pdpt(_, _) => 2
    case Pd(_, _, _) => 1
    case Pt(_, _, _, _) => 0
  }

  function Child(pos: Pos, i: nat): Pos
    requires 0 < Level(pos)
  {
    match pos
    case Root(s) => Pdpt(if i < 256 then s else KERNEL, i)
    case Pdpt(s, a) => Pd(s, a, i)
    case Pd(s, a, b) => Pt(s, a, b, i)
  }

  /** A table below the root of the user half. */
  predicate UserPos(pos: Pos) { !pos.Root? && pos.a < 256 }

  /** The same position in another space. */
  function Rebase(pos: Pos, space: nat): Pos
  {
    match pos
    case Root(_) => Root(space)
    case Pdpt(_, a) => Pdpt(space, a)
    case Pd(_, a, b) => Pd(space, a, b)
    case Pt(_, a, b, c) => Pt(space, a, b, c)
  }

  /** pos is anc or lies below it. */
  predicate In(pos: Pos, anc: Pos)
  {
    && pos.space == anc.space
    && Level(pos) <= Level(anc)
    && (Level(anc) <= 2 ==> pos.a == anc.a)
    && (Level(anc) <= 1 ==> pos.b == anc.b)
    && (Level(anc) <= 0 ==> pos.c == anc.c)
  }

  /** The index that a walk to pos takes in the table of level l. */
  function Branch(pos: Pos, l: nat): nat
    requires Level(pos) < l <= 3
  {
    if l == 3 then pos.a else if l == 2 then pos.b else pos.c
  }

  /** pos lies strictly below anc, through one of the entries lo..hi of anc. */
  predicate Under(pos: Pos, anc: Pos, lo: nat, hi: nat)
  {
    In(pos, anc) && Level(pos) < Level(anc) && lo <= Branch(pos, Level(anc)) < hi
  }

  /** The index of va in the table of the given level (PML4_IDX, PDPT_IDX, PD_IDX, PT_IDX). */
  function Index(va: nat, level: nat): (i: nat)
    requires level < 4
    ensures i < 512
  {
    match level
    case 0 => va / 0x1000 % 512
    case 1 => va / 0x20_0000 % 512
    case 2 => va / 0x4000_0000 % 512
    case _ => va / 0x80_0000_0000 % 512
  }

  /** Addresses that every table tells apart in the same way. */
  ghost predicate SamePage(va: nat, vb: nat)
  {
    forall l :: 0 <= l < 4 ==> Index(va, l) == Index(vb, l)
  }

  /** Two addresses are on the same page exactly when bits 12..47 agree. */
  lemma SamePageIffPageNumber(va: nat, vb: nat)
    ensures SamePage(va, vb) <==> va / 0x1000 % 0x10_0000_0000 == vb / 0x1000 % 0x10_0000_0000
  {
    PageNumberByIndex(va);
    PageNumberByIndex(vb);
    Digits(Index(va, 3), Index(va, 2), Index(va, 1), Index(va, 0),
           Index(vb, 3), Index(vb, 2), Index(vb, 1), Index(vb, 0));
    assert SamePage(va, vb) ==>
        Index(va, 0) == Index(vb, 0) && Index(va, 1) == Index(vb, 1)
        && Index(va, 2) == Index(vb, 2) && Index(va, 3) == Index(vb, 3);
  }

  lemma Digits(a: nat, b: nat, c: nat, d: nat, a': nat, b': nat, c': nat, d': nat)
    requires a < 512 && b < 512 && c < 512 && d < 512 && a' < 512 && b' < 512 && c' < 512 && d' < 512
    ensures ((a * 512 + b) * 512 + c) * 512 + d == ((a' * 512 + b') * 512 + c') * 512 + d' <==>
            a == a' && b == b' && c == c' && d == d'
  {
  }

  lemma PageNumberByIndex(va: nat)
    ensures va / 0x1000 % 0x10_0000_0000 ==
            ((Index(va, 3) * 512 + Index(va, 2)) * 512 + Index(va, 1)) * 512 + Index(va, 0)
  {
    var n0 := va / 0x1000;
    var n1 := n0 / 512;
    var n2 := n1 / 512;
    var n3 := n2 / 512;
    assert va / 0x20_0000 == n1;
    assert va / 0x4000_0000 == n2;
    assert va / 0x80_0000_0000 == n3;
    LowDigits(n0, n1, n2, n3, n3 / 512);
  }

  lemma LowDigits(n0: nat, n1: nat, n2: nat, n3: nat, n4: nat)
    requires n1 == n0 / 512 && n2 == n1 / 512 && n3 == n2 / 512 && n4 == n3 / 512
    ensures n0 % 0x10_0000_0000 == ((n3 % 512 * 512 + n2 % 512) * 512 + n1 % 512) * 512 + n0 % 512
  {
    var d := ((n3 % 512 * 512 + n2 % 512) * 512 + n1 % 512) * 512 + n0 % 512;
    assert n0 == n4 * 0x10_0000_0000 + d;
    assert 0 <= d < 0x10_0000_0000;
  }

  /** Addresses of the user half. */
  predicate UserVa(va: nat) { Index(va, 3) < 256 }

  /** The position of the table of the given level on va's walk from the root of space r. */
  function At(r: nat, va: nat, level: nat): (pos: Pos)
    requires level < 4
    ensures Level(pos) == level
    decreases 3 - level
  {
    if level == 3 then Root(r) else Child(At(r, va, level + 1), Index(va, level + 1))
  }

  /** A present entry that leads to a table of the next level. */
  predicate Interior(e: Word, level: nat) { e.p && level > 0 && !(e.ps && level <= 2) }

  /** A present entry that maps memory: any at level 0, a large page at levels 1 and 2. */
  predicate IsLeaf(e: Word, level: nat) { e.p && (level == 0 || (e.ps && level <= 2)) }

  datatype Leaf = Unmapped | Mapped(entry: Word, level: nat)

  /** What the hardware, and vmm_translate, find for va starting at table t. */
  function Walk(m: Phys, t: nat, level: nat, va: nat): Leaf
    requires level < 4
    decreases level
  {
    if t >= |m| then Unmapped
    else
      var e := m[t][Index(va, level)];
      if !e.p then Unmapped
      else if IsLeaf(e, level) then Mapped(e, level)
      else Walk(m, e.frame, level - 1, va)
  }

  /** What entries let a program do: reach memory from user mode, write, and execute. */
  datatype Rights = Rights(u: bool, w: bool, x: bool)

  const ALL := Rights(true, true, true)

  /** What r leaves after entry e. */
  function Past(e: Word, r: Rights): Rights { Rights(e.u && r.u, e.w && r.w, !e.nx && r.x) }

  /** What the interior entries on va's walk from table t grant together. */
  function Above(m: Phys, t: nat, level: nat, va: nat): Rights
    requires level < 4
    decreases level
  {
    if t >= |m| then ALL
    else
      var e := m[t][Index(va, level)];
      if Interior(e, level) then Past(e, Above(m, e.frame, level - 1, va)) else ALL
  }

  /** What a program may do at va in the space under root r: what every entry of the walk grants, the
      leaf included; nothing where va is not mapped. */
  function Access(m: Phys, r: nat, va: nat): Rights
  {
    match Walk(m, r, 3, va)
    case Unmapped => Rights(false, false, false)
    case Mapped(e, _) => Past(e, Above(m, r, 3, va))
  }

  /** Every labelled page is a table whose interior entries lead to the tables labelled as its children. */
  ghost predicate Tables(m: Phys, own: map<nat, Pos>)
  {
    forall p :: p in own ==> p < |m| && Closed(m, own, p)
  }

  ghost predicate Closed(m: Phys, own: map<nat, Pos>, p: nat)
    requires p in own && p < |m|
  {
    forall i :: 0 <= i < 512 && Interior(m[p][i], Level(own[p])) ==>
                  m[p][i].frame in own && own[m[p][i].frame] == Child(own[p], i)
  }

  /** A walk depends only on the entries it reads, and those are in tables labelled with va's path. */
  lemma {:induction false} WalkAgree(m: Phys, n: Phys, own: map<nat, Pos>, r: nat, va: nat, t: nat, level: nat)
    requires Tables(m, own) && |n| == |m|
    requires level < 4 && t in own && own[t] == At(r, va, level)
    requires forall p :: p in own && Level(own[p]) <= level && own[p] == At(r, va, Level(own[p])) ==>
                           n[p][Index(va, Level(own[p]))] == m[p][Index(va, Level(own[p]))]
    ensures Walk(n, t, level, va) == Walk(m, t, level, va) && Above(n, t, level, va) == Above(m, t, level, va)
    decreases level
  {
    var e := m[t][Index(va, level)];
    if Interior(e, level) {
      WalkAgree(m, n, own, r, va, e.frame, level - 1);
    }
  }

  /** Rewriting a page that is not on va's path is not noticed. */
  lemma WalkSkips(m: Phys, own: map<nat, Pos>, q: nat, page: Page, r: nat, va: nat, t: nat, level: nat)
    requires Tables(m, own) && q < |m|
    requires level < 4 && t in own && own[t] == At(r, va, level)
    requires q in own ==> Level(own[q]) > level || own[q] != At(r, va, Level(own[q]))
    ensures Walk(m[q := page], t, level, va) == Walk(m, t, level, va)
    ensures Above(m[q := page], t, level, va) == Above(m, t, level, va)
  {
    WalkAgree(m, m[q := page], own, r, va, t, level);
  }

  /** The state of memory management: physical memory, table labels, free pages, reference counts
      (empty before the count array exists) and the number of pages the allocator manages. */
  datatype St = St(m: Phys, own: map<nat, Pos>, free: set<nat>, refs: seq<nat>, total: nat) {
    function Stored(f: nat): nat { if f < |refs| then refs[f] else 0 }
  }

  ghost predicate PosOk(x: St, p: nat)
    requires p in x.own
  {
    var pos := x.own[p];
    && (pos.Root? ==> pos.space == p)
    && (!pos.Root? ==> (pos.a >= 256 <==> pos.space == KERNEL))
    && (pos.space != KERNEL ==> pos.space in x.own && x.own[pos.space] == Root(pos.space))
  }

  /** What every operation keeps of the tables. */
  ghost predicate Base(x: St)
  {
    && x.total <= |x.m|
    && (forall p :: p in x.free ==> 0 < p < x.total)
    && (forall p :: p in x.own ==> p != 0 && p !in x.free && PosOk(x, p))
    && Tables(x.m, x.own)
    && (x.refs == [] || |x.refs| == x.total) && (forall f :: 0 <= f < |x.refs| ==> x.refs[f] <= REF_MAX)
  }

  /** A present user-accessible leaf in entry i of the user-half table p. */
  ghost predicate LeafAt(x: St, p: nat, i: nat)
  {
    p in x.own && p < |x.m| && i < 512 && UserPos(x.own[p]) && IsLeaf(x.m[p][i], Level(x.own[p])) && x.m[p][i].u
  }

  /** The user leaf entries that name frame f. */
  ghost function Sharers(x: St, f: nat): set<(nat, nat)>
  {
    set p, i | p in x.own && 0 <= i < 512 && LeafAt(x, p, i) && x.m[p][i].frame == f :: (p, i)
  }

  /** Some entry of a table leads to p. */
  ghost predicate Linked(x: St, p: nat)
    requires p in x.own
  {
    exists q, i :: EntryTo(x, q, i, p)
  }

  ghost predicate EntryTo(x: St, q: nat, i: nat, p: nat)
  {
    && q in x.own && q < |x.m| && i < 512 && p in x.own
    && Interior(x.m[q][i], Level(x.own[q])) && x.m[q][i].frame == p && x.own[p] == Child(x.own[q], i)
  }

  /** No user-half table is left hanging: the labelled tables are exactly the reachable ones. */
  ghost predicate AllLinked(x: St)
  {
    forall p :: p in x.own && UserPos(x.own[p]) ==> Linked(x, p)
  }

  /** Users have 4 KiB pages only. */
  ghost predicate SmallPages(x: St)
  {
    forall p: nat, i: nat :: LeafAt(x, p, i) ==> Level(x.own[p]) == 0
  }

  /** The frames users can reach are neither free nor tables. */
  ghost predicate UserPages(x: St)
  {
    && SmallPages(x)
    && forall p: nat, i: nat :: LeafAt(x, p, i) ==>
       x.m[p][i].frame !in x.free && x.m[p][i].frame !in x.own && x.m[p][i].frame < x.total
  }

  /** Tables stay linked while interior entries stay. */
  lemma AllLinkedStays(x: St, y: St)
    requires Base(x) && AllLinked(x) && y.own == x.own && |y.m| == |x.m|
    requires forall q, i :: q in x.own && 0 <= i < 512 && Interior(x.m[q][i], Level(x.own[q])) ==>
             y.m[q][i] == x.m[q][i]
    ensures AllLinked(y)
  {
    forall p | p in y.own && UserPos(y.own[p]) ensures Linked(y, p) {
      var q, i :| EntryTo(x, q, i, p);
      assert EntryTo(y, q, i, p);
    }
  }

  /** One position, one table. */
  lemma PositionsUnique(x: St, p: nat, q: nat)
    requires Base(x) && AllLinked(x)
    requires p in x.own && q in x.own && x.own[p] == x.own[q] && (UserPos(x.own[p]) || x.own[p].Root?)
    ensures p == q
    decreases 3 - Level(x.own[p])
  {
    if UserPos(x.own[p]) {
      var p', i :| EntryTo(x, p', i, p);
      var q', j :| EntryTo(x, q', j, q);
      assert i == j && x.own[p'] == x.own[q'] by {
        assert PosOk(x, p') && PosOk(x, q');
      }
      PositionsUnique(x, p', q');
    }
  }
}
