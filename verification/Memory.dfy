/** The bytes of a page of words, and what a user space holds page by page. */
module Memory {
  import opened Common
  import opened Bytes
  import opened PageTables
  import opened Spaces
  import opened Maps
  import opened Cow
  import opened Lifecycle

  /** The number of pages in the user half. */
  const USER_PAGES: nat := 0x8_0000_0000

  // ---------- Words and bytes ----------

  /** The 64-bit value of a word. */
  function Value(w: Word): nat
  {
    Bit(w.p) + 2 * Bit(w.w) + 4 * Bit(w.u) + 128 * Bit(w.ps) + 512 * Bit(w.cow) + w.lo
    + 0x1000 * w.frame + 0x10_0000_0000_0000 * w.hi + 0x8000_0000_0000_0000 * Bit(w.nx)
  }

  function Bit(b: bool): nat { if b then 1 else 0 }

  /** The word with that value. */
  function WordOf(v: nat): Word
  {
    Word(v % 2 == 1, v / 2 % 2 == 1, v / 4 % 2 == 1, v / 128 % 2 == 1, v / 512 % 2 == 1,
         v / 0x8000_0000_0000_0000 % 2 == 1, v / 0x1000 % 0x100_0000_0000,
         v / 8 % 16 * 8 + v / 256 % 2 * 256 + v / 1024 % 4 * 1024, v / 0x10_0000_0000_0000 % 0x800)
  }

  lemma WordRoundTrip(v: nat)
    requires v < 0x1_0000_0000_0000_0000
    ensures Value(WordOf(v)) == v
  {
    ValueIs(v % 2, v / 2 % 2, v / 4 % 2, v / 128 % 2, v / 512 % 2, v / 0x8000_0000_0000_0000 % 2,
            v / 0x1000 % 0x100_0000_0000, v / 8 % 16 * 8 + v / 256 % 2 * 256 + v / 1024 % 4 * 1024,
            v / 0x10_0000_0000_0000 % 0x800);
    Sum(v);
  }

  lemma ValueIs(p: nat, w: nat, u: nat, ps: nat, cow: nat, nx: nat, frame: nat, lo: nat, hi: nat)
    requires p < 2 && w < 2 && u < 2 && ps < 2 && cow < 2 && nx < 2
    ensures Value(Word(p == 1, w == 1, u == 1, ps == 1, cow == 1, nx == 1, frame, lo, hi)) ==
            p + 2 * w + 4 * u + 128 * ps + 512 * cow + lo
            + 0x1000 * frame + 0x10_0000_0000_0000 * hi + 0x8000_0000_0000_0000 * nx
  {
  }

  lemma Sum(v: nat)
    requires v < 0x1_0000_0000_0000_0000
    ensures v == v % 2 + 2 * (v / 2 % 2) + 4 * (v / 4 % 2) + 128 * (v / 128 % 2) + 512 * (v / 512 % 2)
                 + (v / 8 % 16 * 8 + v / 256 % 2 * 256 + v / 1024 % 4 * 1024) + 0x1000 * (v / 0x1000 % 0x100_0000_0000)
                 + 0x10_0000_0000_0000 * (v / 0x10_0000_0000_0000 % 0x800)
                 + 0x8000_0000_0000_0000 * (v / 0x8000_0000_0000_0000 % 2)
  {
    LowShifts(v);
    HighShifts(v);
    TopBit(v);
    Parts(v, v / 2, v / 4, v / 8, v / 128, v / 256, v / 512, v / 1024, v / 0x1000, v / 0x10_0000_0000_0000,
          v / 0x8000_0000_0000_0000);
  }

  lemma LowShifts(v: nat)
    ensures v / 4 == v / 2 / 2 && v / 8 == v / 4 / 2 && v / 128 == v / 8 / 16
    ensures v / 256 == v / 128 / 2 && v / 512 == v / 256 / 2 && v / 1024 == v / 512 / 2
  {
  }

  lemma TopBit(v: nat)
    requires v < 0x1_0000_0000_0000_0000
    ensures v / 0x8000_0000_0000_0000 < 2
  {
  }

  lemma HighShifts(v: nat)
    ensures v / 0x1000 == v / 1024 / 4
    ensures v / 0x10_0000_0000_0000 == v / 0x1000 / 0x100_0000_0000
    ensures v / 0x8000_0000_0000_0000 == v / 0x10_0000_0000_0000 / 0x800
  {
  }

  /** A value is the sum of its fields, given its shifts. */
  lemma Parts(v: nat, n1: nat, n2: nat, n3: nat, n7: nat, n8: nat, n9: nat, n10: nat, n12: nat, n52: nat, n63: nat)
    requires n1 == v / 2 && n2 == n1 / 2 && n3 == n2 / 2 && n7 == n3 / 16 && n8 == n7 / 2 && n9 == n8 / 2
    requires n10 == n9 / 2 && n12 == n10 / 4 && n52 == n12 / 0x100_0000_0000 && n63 == n52 / 0x800
    requires n63 < 2
    ensures v == v % 2 + 2 * (n1 % 2) + 4 * (n2 % 2) + 128 * (n7 % 2) + 512 * (n9 % 2)
                 + (n3 % 16 * 8 + n8 % 2 * 256 + n10 % 4 * 1024) + 0x1000 * (n12 % 0x100_0000_0000)
                 + 0x10_0000_0000_0000 * (n52 % 0x800) + 0x8000_0000_0000_0000 * (n63 % 2)
  {
  }

  /** Byte i of a word. */
  function WordByte(w: Word, i: nat): (b: Byte)
    ensures w == ZERO ==> b == 0
  {
    NoBits(i);
    ByteAt(Value(w), i)
  }

  lemma {:induction false} NoBits(i: nat)
    ensures ByteAt(0, i) == 0
  {
    if i > 0 { NoBits(i - 1); }
  }

  /** Byte k of a page. */
  function ByteOf(page: Page, k: nat): Byte
    requires k < PAGE_SIZE
  {
    WordByte(page[k / 8], k % 8)
  }

  function PageBytes(page: Page): (s: seq<Byte>)
    ensures |s| == PAGE_SIZE && forall k :: 0 <= k < PAGE_SIZE ==> s[k] == ByteOf(page, k)
  {
    seq(PAGE_SIZE, k requires 0 <= k < PAGE_SIZE => ByteOf(page, k))
  }

  /** The page that holds the given bytes. */
  function PageFrom(s: seq<Byte>): Page
    requires |s| == PAGE_SIZE
  {
    seq(512, j requires 0 <= j < 512 => WordOf(FromLE(s[8 * j..8 * j + 8])))
  }

  lemma WordIs(s: seq<Byte>, j: nat)
    requires |s| == PAGE_SIZE && j < 512
    ensures PageFrom(s)[j] == WordOf(FromLE(s[8 * j..8 * j + 8]))
  {
  }

  lemma WordReads(v: nat, i: nat)
    requires v < 0x1_0000_0000_0000_0000
    ensures WordByte(WordOf(v), i) == ByteAt(v, i)
  {
    WordRoundTrip(v);
  }

  lemma ReadsBack(s: seq<Byte>, k: nat)
    requires |s| == PAGE_SIZE && k < PAGE_SIZE
    ensures ByteOf(PageFrom(s), k) == s[k]
  {
    var j, i := k / 8, k % 8;
    var b := s[8 * j..8 * j + 8];
    Field64(b);
    FromLEAt(b, i);
    WordIs(s, j);
    WordReads(FromLE(b), i);
  }

  /** Every content of a page is one of words, and reads back. */
  lemma PageRoundTrip(s: seq<Byte>)
    requires |s| == PAGE_SIZE
    ensures PageBytes(PageFrom(s)) == s
  {
    forall k | 0 <= k < PAGE_SIZE ensures ByteOf(PageFrom(s), k) == s[k] {
      ReadsBack(s, k);
    }
  }

  lemma ZeroBytes()
    ensures forall k :: 0 <= k < PAGE_SIZE ==> PageBytes(ZeroPage())[k] == 0
  {
  }

  // ---------- What a space holds ----------

  /** A page of a space: its leaf, and its bytes if users can reach them. */
  datatype Cell = Cell(leaf: Leaf, bytes: seq<Byte>)

  function CellAt(x: St, r: nat, p: nat): Cell
  {
    var l := Walk(x.m, r, 3, p * PAGE_SIZE);
    var reached := l.Mapped? && l.entry.u && l.level == 0 && l.entry.frame < |x.m|;
    Cell(l, if reached then PageBytes(x.m[l.entry.frame]) else [])
  }

  /** The mapped pages of the user half of the space under r, by number. */
  ghost function Mem(x: St, r: nat): map<nat, Cell>
  {
    map p: nat | p < USER_PAGES && CellAt(x, r, p).leaf.Mapped? :: CellAt(x, r, p)
  }

  /** Nothing changed outside the user half of the space under root, nor in what the tables of any space
      grant at any address. */
  ghost predicate Kept(x: St, y: St, root: nat)
  {
    && y.refs == x.refs
    && (forall r: nat :: IsRoot(x, r) ==> IsRoot(y, r))
    && (forall r: nat :: IsRoot(x, r) && r != root ==> Mem(y, r) == Mem(x, r))
    && (forall r, va: nat :: IsRoot(x, r) && !UserVa(va) ==> Walk(y.m, r, 3, va) == Walk(x.m, r, 3, va))
    && (forall r, va: nat :: IsRoot(x, r) ==> Above(y.m, r, 3, va) == Above(x.m, r, 3, va))
  }

  lemma KeptTwice(x: St, y: St, z: St, root: nat)
    requires Kept(x, y, root) && Kept(y, z, root)
    ensures Kept(x, z, root)
  {
  }

  /** Memory management in order; folded, OpenOrderly unfolds it. */
  ghost predicate Orderly(x: St)
  {
    forall u {:trigger Is(u, x)} :: Is(u, x) ==> Inv(u)
  }

  lemma OpenOrderly(x: St)
    requires Orderly(x)
    ensures Inv(x)
  {
    assert Is(x, x);
  }

  /** From x to y nothing has changed outside the user half of the space under root, memory management
      is in order, counts are as exact as they were, and what tearing the space down gives back has
      grown by what was taken; folded, OpenFilling unfolds it. */
  ghost predicate Filling(x: St, y: St, root: nat)
  {
    forall u, v {:trigger Is((u, v), (x, y))} ::
      Is((u, v), (x, y)) ==> Inv(v) && Kept(u, v, root) && (CountExact(u) ==> CountExact(v)) && KeepsBalance(u, v, root)
  }

  ghost predicate KeepsBalance(x: St, y: St, root: nat)
  {
    forall x0 {:trigger Balanced(x0, x, root)} :: Balanced(x0, x, root) ==> Balanced(x0, y, root)
  }

  lemma OpenFilling(x: St, y: St, root: nat)
    requires Filling(x, y, root)
    ensures Inv(y) && Kept(x, y, root) && (CountExact(x) ==> CountExact(y)) && Orderly(y) && KeepsBalance(x, y, root)
  {
    assert Is((x, y), (x, y));
  }

  lemma FillingBase(x: St, y: St, root: nat)
    requires Filling(x, y, root)
    ensures Base(y) && Orderly(y)
  {
    OpenFilling(x, y, root);
  }

  lemma FillingSelf(x: St, root: nat)
    requires Orderly(x)
    ensures Filling(x, x, root)
  {
    OpenOrderly(x);
  }

  lemma FillingTwice(x: St, y: St, z: St, root: nat)
    requires Filling(x, y, root) && Filling(y, z, root)
    ensures Filling(x, z, root)
  {
    OpenFilling(x, y, root);
    OpenFilling(y, z, root);
    KeptTwice(x, y, z, root);
  }

  /** User pages are told apart by their numbers. */
  lemma UserPagesDiffer(p: nat, q: nat)
    requires p < USER_PAGES && q < USER_PAGES
    ensures UserVa(p * PAGE_SIZE) && (SamePage(p * PAGE_SIZE, q * PAGE_SIZE) <==> p == q)
  {
    SamePageIffPageNumber(p * PAGE_SIZE, q * PAGE_SIZE);
    assert p * PAGE_SIZE / 0x1000 == p && q * PAGE_SIZE / 0x1000 == q;
  }

  /** Beyond 48 bits they are not: an address and the one 2^48 above it have the same entry. */
  lemma AddressesAlias(va: nat)
    ensures SamePage(va, va + 0x1_0000_0000_0000)
  {
    SamePageIffPageNumber(va, va + 0x1_0000_0000_0000);
    assert (va + 0x1_0000_0000_0000) / 0x1000 == va / 0x1000 + 0x10_0000_0000;
  }

  function SetPage(x: St, f: nat, page: Page): St
    requires f < |x.m|
  {
    St(x.m[f := page], x.own, x.free, x.refs, x.total)
  }

  /** A free page is cleared, mapped as page p of the user half, and filled. */
  ghost predicate Filled(x: St, y: St, root: nat, p: nat, w: Word, page: Page, y1: St, z: St, pt: nat)
  {
    && p < USER_PAGES && w.frame in x.free && w.frame < |x.m| && w.frame < |y1.m|
    && MappedFresh(SetPage(x, w.frame, ZeroPage()), y1, root, p * PAGE_SIZE, w, z, pt)
    && y == SetPage(y1, w.frame, page)
  }

  lemma FilledInv(x: St, y: St, root: nat, p: nat, w: Word, page: Page, y1: St, z: St, pt: nat)
    requires Inv(x) && Filled(x, y, root, p, w, page, y1, z, pt)
    ensures Inv(y) && (CountExact(x) ==> CountExact(y))
  {
    var x0 := SetPage(x, w.frame, ZeroPage());
    DataWrittenKeeps(x, x0);
    MappedFreshKeeps(x0, y1, root, p * PAGE_SIZE, w, z, pt);
    DataWrittenKeeps(y1, y);
  }

  lemma FilledBalance(x: St, y: St, root: nat, p: nat, w: Word, page: Page, y1: St, z: St, pt: nat)
    requires Inv(x) && Filled(x, y, root, p, w, page, y1, z, pt) && Base(y1)
    ensures KeepsBalance(x, y, root)
  {
    DataWrittenKeeps(x, SetPage(x, w.frame, ZeroPage()));
    FreshIsNoTable(SetPage(x, w.frame, ZeroPage()), y1, root, p * PAGE_SIZE, w, z, pt);
    forall x0 | Balanced(x0, x, root) ensures Balanced(x0, y, root) {
      BalancedThroughout(x0, x, y, root, p, w, page, y1, z, pt);
    }
  }

  lemma BalancedThroughout(x0: St, x: St, y: St, root: nat, p: nat, w: Word, page: Page, y1: St, z: St, pt: nat)
    requires Balanced(x0, x, root) && Filled(x, y, root, p, w, page, y1, z, pt) && w.frame !in y1.own
    ensures Balanced(x0, y, root)
  {
    var x1 := SetPage(x, w.frame, ZeroPage());
    assert DataWritten(x, x1) && DataWritten(y1, y);
    Wrote(x0, x, x1, root);
    Grew(x0, x1, y1, root, p * PAGE_SIZE, w, z, pt);
    Wrote(x0, y1, y, root);
  }

  lemma FreshIsNoTable(x: St, y: St, root: nat, va: nat, w: Word, z: St, pt: nat)
    requires Base(x) && MappedFresh(x, y, root, va, w, z, pt)
    ensures w.frame !in y.own
  {
    assert Extended(Taken(x, w.frame), z);
  }

  lemma {:induction false} SetPageWalk(x: St, f: nat, page: Page, r: nat, va: nat)
    requires Base(x) && IsRoot(x, r) && f < |x.m| && f !in x.own
    ensures Walk(SetPage(x, f, page).m, r, 3, va) == Walk(x.m, r, 3, va)
    ensures Above(SetPage(x, f, page).m, r, 3, va) == Above(x.m, r, 3, va)
  {
    WalkSkips(x.m, x.own, f, page, r, va, r, 3);
  }

  /** Every walk but those of page p in the space under root is what it was. */
  lemma FilledWalk(x: St, y: St, root: nat, p: nat, w: Word, page: Page, y1: St, z: St, pt: nat, r: nat, va: nat)
    requires Inv(x) && Filled(x, y, root, p, w, page, y1, z, pt) && IsRoot(x, r) && Base(y1)
    ensures IsRoot(x, root) && IsRoot(y, root) && Walk(y.m, root, 3, p * PAGE_SIZE) == Mapped(w, 0)
    ensures IsRoot(y, r) && (r != root || !SamePage(p * PAGE_SIZE, va) ==> Walk(y.m, r, 3, va) == Walk(x.m, r, 3, va))
    ensures Above(y.m, r, 3, va) == Above(x.m, r, 3, va)
  {
    var x0 := SetPage(x, w.frame, ZeroPage());
    UserPagesDiffer(p, p);
    MapWalks(Taken(x0, w.frame), y1, root, p * PAGE_SIZE, w, z, pt, r, va);
    MapAccess(Taken(x0, w.frame), y1, root, p * PAGE_SIZE, w, z, pt, r, va);
    SetPageWalk(x, w.frame, ZeroPage(), r, va);
    SetPageWalk(y1, w.frame, page, r, va);
    SetPageWalk(y1, w.frame, page, root, p * PAGE_SIZE);
  }

  /** A page in use by users is not touched. */
  lemma FilledFrame(x: St, y: St, root: nat, p: nat, w: Word, page: Page, y1: St, z: St, pt: nat, f: nat)
    requires Filled(x, y, root, p, w, page, y1, z, pt) && f < |x.m| && f !in x.free && f !in x.own
    ensures f < |y.m| && y.m[f] == x.m[f]
  {
    var x1 := Taken(SetPage(x, w.frame, ZeroPage()), w.frame);
    assert Extended(x1, z);
    assert z.m[f] == x1.m[f] && f !in z.own;
  }

  lemma FilledCell(x: St, y: St, root: nat, p: nat, w: Word, page: Page, y1: St, z: St, pt: nat, r: nat, q: nat)
    requires Inv(x) && Filled(x, y, root, p, w, page, y1, z, pt) && IsRoot(x, r) && Base(y1) && q < USER_PAGES
    ensures CellAt(y, r, q) == if r == root && q == p then Cell(Mapped(w, 0), PageBytes(page)) else CellAt(x, r, q)
  {
    FilledWalk(x, y, root, p, w, page, y1, z, pt, r, q * PAGE_SIZE);
    UserPagesDiffer(p, q);
    if !(r == root && q == p) {
      UserPagesDiffer(q, q);
      UserFrame(x, r, q * PAGE_SIZE);
      var l := Walk(x.m, r, 3, q * PAGE_SIZE);
      if l.Mapped? && l.entry.u {
        FilledFrame(x, y, root, p, w, page, y1, z, pt, l.entry.frame);
      }
    }
  }

  lemma FilledMemOf(x: St, y: St, root: nat, p: nat, w: Word, page: Page, y1: St, z: St, pt: nat, r: nat)
    requires Inv(x) && Filled(x, y, root, p, w, page, y1, z, pt) && IsRoot(x, r) && Base(y1)
    ensures Mem(y, r) == if r == root then Mem(x, r)[p := Cell(Mapped(w, 0), PageBytes(page))] else Mem(x, r)
  {
    var added := Cell(Mapped(w, 0), PageBytes(page));
    forall q: nat | q < USER_PAGES ensures CellAt(y, r, q) == if r == root && q == p then added else CellAt(x, r, q) {
      FilledCell(x, y, root, p, w, page, y1, z, pt, r, q);
    }
    if r == root { OneMoreCell(x, y, r, p, added); } else { SameCells(x, y, r); }
  }

  lemma SameCells(x: St, y: St, r: nat)
    requires forall q: nat :: q < USER_PAGES ==> CellAt(y, r, q) == CellAt(x, r, q)
    ensures Mem(y, r) == Mem(x, r)
  {
  }

  lemma OneMoreCell(x: St, y: St, r: nat, p: nat, c: Cell)
    requires p < USER_PAGES && c.leaf.Mapped?
    requires forall q: nat :: q < USER_PAGES ==> CellAt(y, r, q) == if q == p then c else CellAt(x, r, q)
    ensures Mem(y, r) == Mem(x, r)[p := c]
  {
  }

  /** The space gains page p with the given bytes; nothing else changes in it or elsewhere. */
  lemma FilledMem(x: St, y: St, root: nat, p: nat, w: Word, page: Page, y1: St, z: St, pt: nat)
    requires Inv(x) && Filled(x, y, root, p, w, page, y1, z, pt) && Base(y1)
    ensures IsRoot(x, root) && Mem(y, root) == Mem(x, root)[p := Cell(Mapped(w, 0), PageBytes(page))]
    ensures Kept(x, y, root)
  {
    assert IsRoot(x, root);
    FilledMemOf(x, y, root, p, w, page, y1, z, pt, root);
    FilledKept(x, y, root, p, w, page, y1, z, pt);
  }

  lemma FilledKept(x: St, y: St, root: nat, p: nat, w: Word, page: Page, y1: St, z: St, pt: nat)
    requires Inv(x) && Filled(x, y, root, p, w, page, y1, z, pt) && Base(y1)
    ensures Kept(x, y, root)
  {
    UserPagesDiffer(p, p);
    forall r | IsRoot(x, r) ensures IsRoot(y, r) && (r != root ==> Mem(y, r) == Mem(x, r)) {
      FilledMemOf(x, y, root, p, w, page, y1, z, pt, r);
      FilledWalk(x, y, root, p, w, page, y1, z, pt, r, 0);
    }
    forall r, va: nat | IsRoot(x, r) && !UserVa(va) ensures Walk(y.m, r, 3, va) == Walk(x.m, r, 3, va) {
      assert !SamePage(p * PAGE_SIZE, va);
      FilledWalk(x, y, root, p, w, page, y1, z, pt, r, va);
    }
    forall r, va: nat | IsRoot(x, r) ensures Above(y.m, r, 3, va) == Above(x.m, r, 3, va) {
      FilledWalk(x, y, root, p, w, page, y1, z, pt, r, va);
    }
  }
}
