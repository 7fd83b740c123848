/** The kernel heap as values (core/memory/heap.c): headers by address, the free list that runs
    through them, and the blocks that tile the heap. */
module Blocks {
  import opened Common

  const BASE: nat := 0xffff_ffff_4000_0000
  /** The kernel image starts here (tools/linker.ld:18), so mapping a heap page at or above it panics. */
  const LIMIT: nat := 0xffff_ffff_8010_0000
  const HEAP_MAX: nat := 32768
  const HDR: nat := 16
  /** SUPER_PAGES pages. */
  const CHUNK: nat := 65536

  /** struct block; `used` is the magic. */
  datatype Hdr = Hdr(size: nat, used: bool, next: nat)

  type Words = map<nat, Hdr>

  /** Headers (also stale ones, inside other blocks), the list head, the break, the list, and the
      size of every block. */
  datatype H = H(hdr: Words, first: nat, brk: nat, fl: seq<nat>, spans: map<nat, nat>)

  // ---------- Blocks tile an interval ----------

  ghost predicate Holds(m: map<nat, nat>, a: nat, x: nat)
  {
    a in m && a <= x < a + m[a]
  }

  ghost predicate Inside(m: map<nat, nat>, x: nat)
  {
    exists a :: Holds(m, a, x)
  }

  /** The blocks tile the interval: they lie in it, do not overlap and leave no byte out. */
  ghost predicate Tiles(m: map<nat, nat>, lo: nat, hi: nat)
  {
    Bounded(m, lo, hi) && Apart(m) && Covers(m, lo, hi)
  }

  ghost predicate Bounded(m: map<nat, nat>, lo: nat, hi: nat)
  {
    forall a :: a in m ==> lo <= a && 0 < m[a] && a + m[a] <= hi
  }

  ghost predicate Apart(m: map<nat, nat>)
  {
    forall a, b, x :: Holds(m, a, x) && Holds(m, b, x) ==> a == b
  }

  lemma ApartInOrder(m: map<nat, nat>, a: nat, b: nat)
    requires Apart(m) && a in m && b in m && a < b && m[b] > 0
    ensures a + m[a] <= b
  {
    assert Holds(m, b, b);
    assert Holds(m, a, b) ==> a == b;
  }

  ghost predicate Covers(m: map<nat, nat>, lo: nat, hi: nat)
  {
    forall x: nat :: lo <= x < hi ==> Inside(m, x)
  }

  /** Every byte of the heap lies in exactly one block. */
  lemma EveryByteInOneBlock(h: H, x: nat) returns (a: nat)
    requires HeapInv(h) && BASE <= x < h.brk
    ensures Holds(h.spans, a, x) && (forall b :: Holds(h.spans, b, x) ==> b == a) && (a in Live(h) <==> a !in h.fl)
  {
    assert Inside(h.spans, x);
    a :| Holds(h.spans, a, x);
  }

  ghost function Sum(m: map<nat, nat>, s: set<nat>): nat
    requires s <= m.Keys
  {
    if s == {} then 0 else
      var a := Least(s);
      m[a] + Sum(m, s - {a})
  }

  ghost predicate IsLeast(s: set<nat>, a: nat) { a in s && forall b :: b in s ==> a <= b }

  ghost function Least(s: set<nat>): (a: nat)
    requires s != {}
    ensures IsLeast(s, a)
  {
    LeastExists(s);
    var a: nat :| IsLeast(s, a);
    a
  }

  lemma LeastExists(s: set<nat>)
    requires s != {}
    ensures exists a: nat :: IsLeast(s, a)
  {
    var a := SomeLeast(s);
  }

  lemma {:induction false} SomeLeast(s: set<nat>) returns (a: nat)
    requires s != {}
    ensures IsLeast(s, a)
  {
    var x :| x in s;
    var r := s - {x};
    assert s == r + {x};
    if r == {} {
      a := x;
    } else {
      a := SomeLeast(r);
      if x <= a { a := x; }
    }
  }

  ghost function From(m: map<nat, nat>, x: nat): set<nat> { set a | a in m && a >= x }

  /** The sizes add up: no byte of the heap is lost. */
  lemma {:induction false} SizesAddUp(m: map<nat, nat>, lo: nat, hi: nat, x: nat)
    requires Tiles(m, lo, hi) && (x in m || x == hi)
    ensures Sum(m, From(m, x)) == hi - x
    decreases hi - x
  {
    var s := From(m, x);
    if x == hi {
      assert s == {};
    } else {
      var y := x + m[x];
      assert x in s;
      assert Least(s) == x;
      forall a | a in m && a > x ensures a >= y { ApartInOrder(m, x, a); }
      assert s - {x} == From(m, y);
      if y < hi { NextBlock(m, lo, hi, x); }
      SizesAddUp(m, lo, hi, y);
    }
  }

  lemma NextBlock(m: map<nat, nat>, lo: nat, hi: nat, x: nat)
    requires Tiles(m, lo, hi) && x in m && x + m[x] < hi
    ensures x + m[x] in m
  {
    var y := x + m[x];
    assert Inside(m, y);
    var c: nat :| Holds(m, c, y);
    assert Holds(m, x, x) && Holds(m, c, c);
    assert c < x ==> Holds(m, c, x);
    assert x <= c < y ==> Holds(m, x, c);
  }

  /** Free and live blocks together are as long as the heap. */
  lemma HeapAddsUp(h: H)
    requires HeapInv(h)
    ensures Sum(h.spans, h.spans.Keys) == h.brk - BASE && h.spans.Keys == Live(h) + Elems(h.fl)
    ensures Live(h) !! Elems(h.fl)
  {
    assert Inside(h.spans, BASE);
    SizesAddUp(h.spans, BASE, h.brk, BASE);
    assert From(h.spans, BASE) == h.spans.Keys;
  }

  /** Cutting a block in two. */
  lemma SplitTiles(m: map<nat, nat>, lo: nat, hi: nat, b: nat, need: nat)
    requires Tiles(m, lo, hi) && b in m && 0 < need < m[b]
    ensures b + need !in m && Tiles(m[b := need][b + need := m[b] - need], lo, hi)
  {
    var c := b + need;
    NotInside(m, b, c);
    var n := m[b := need][c := m[b] - need];
    SplitApart(m, n, b, c);
    forall x: nat | lo <= x < hi ensures Inside(n, x) {
      assert Inside(m, x);
      var a :| Holds(m, a, x);
      assert Holds(n, a, x) || Holds(n, c, x);
    }
  }

  lemma NotInside(m: map<nat, nat>, b: nat, c: nat)
    requires Apart(m) && b in m && b < c < b + m[b]
    ensures c in m ==> m[c] == 0
  {
    assert Holds(m, b, c);
    assert c in m && m[c] > 0 ==> Holds(m, c, c);
  }

  lemma SplitApart(m: map<nat, nat>, n: map<nat, nat>, b: nat, c: nat)
    requires Apart(m) && b in m && c !in m && b < c < b + m[b] && n == m[b := c - b][c := b + m[b] - c]
    ensures Apart(n)
  {
    forall y, z, x | Holds(n, y, x) && Holds(n, z, x) ensures y == z {
      assert Holds(m, if y == c then b else y, x) && Holds(m, if z == c then b else z, x);
    }
  }

  lemma GrowTiles(m: map<nat, nat>, lo: nat, hi: nat, size: nat)
    requires Tiles(m, lo, hi) && lo <= hi && size > 0
    ensures hi !in m && Tiles(m[hi := size], lo, hi + size)
  {
    assert hi !in m;
    var n := m[hi := size];
    forall y, z, x | Holds(n, y, x) && Holds(n, z, x) ensures y == z {
      assert y == hi || Holds(m, y, x);
      assert z == hi || Holds(m, z, x);
    }
    forall x: nat | lo <= x < hi + size ensures Inside(n, x) {
      if x < hi {
        assert Inside(m, x);
        var a :| Holds(m, a, x);
        assert Holds(n, a, x);
      } else {
        assert Holds(n, hi, x);
      }
    }
  }

  /** Joining block a and the block b right behind it. */
  ghost function Joined(m: map<nat, nat>, a: nat, b: nat): map<nat, nat>
    requires a in m && b in m
  {
    (m - {b})[a := m[a] + m[b]]
  }

  lemma JoinTiles(m: map<nat, nat>, lo: nat, hi: nat, a: nat, b: nat)
    requires Tiles(m, lo, hi) && a in m && b in m && b == a + m[a]
    ensures Tiles(Joined(m, a, b), lo, hi)
  {
    JoinApart(m, a, b);
    var n := Joined(m, a, b);
    forall x: nat | lo <= x < hi ensures Inside(n, x) {
      assert Inside(m, x);
      var c :| Holds(m, c, x);
      assert Holds(n, if c == b then a else c, x);
    }
  }

  lemma JoinApart(m: map<nat, nat>, a: nat, b: nat)
    requires Apart(m) && a in m && b in m && b == a + m[a] && m[a] > 0
    ensures Apart(Joined(m, a, b))
  {
    var n := Joined(m, a, b);
    forall y: nat, z: nat, x: nat | Holds(n, y, x) && Holds(n, z, x) ensures y == z {
      assert Holds(m, if y == a && x >= b then b else y, x) && Holds(m, if z == a && x >= b then b else z, x);
    }
  }

  // ---------- The free list ----------

  ghost predicate Linked(w: Words, first: nat, s: seq<nat>)
  {
    && (forall i :: 0 <= i < |s| ==> s[i] in w)
    && (s == [] ==> first == NULL)
    && (s != [] ==> first == s[0] && w[s[|s| - 1]].next == NULL)
    && (forall i :: 0 <= i < |s| - 1 ==> w[s[i]].next == s[i + 1])
  }

  ghost function Elems(s: seq<nat>): set<nat> { set x | x in s }

  /** Headers and blocks agree; the blocks in `free` are free, the others used. */
  ghost predicate Headed(w: Words, free: set<nat>, spans: map<nat, nat>)
  {
    && (forall a :: a in spans ==> a in w && w[a].size == spans[a] && HDR < spans[a] && (w[a].used <==> a !in free))
    && (forall a :: a in w && w[a].used ==> a in spans)
    && free <= spans.Keys
  }

  ghost predicate HeapInv(h: H)
  {
    && BASE < h.brk <= LIMIT && Tiles(h.spans, BASE, h.brk) && Headed(h.hdr, Elems(h.fl), h.spans)
    && Distinct(h.fl) && Linked(h.hdr, h.first, h.fl)
  }

  ghost function Live(h: H): set<nat> { h.spans.Keys - Elems(h.fl) }

  ghost predicate IsFree(h: H, x: nat)
  {
    InAny(h.spans, Elems(h.fl), x)
  }

  /** The byte lies in one of these blocks. */
  ghost predicate InAny(m: map<nat, nat>, s: set<nat>, x: nat)
  {
    exists a :: a in s && Holds(m, a, x)
  }

  /** Live payloads never overlap. */
  lemma PayloadsDisjoint(h: H, a: nat, b: nat)
    requires HeapInv(h) && a in Live(h) && b in Live(h) && a != b
    ensures a + h.hdr[a].size <= b || b + h.hdr[b].size <= a
    ensures h.hdr[a].size < 0x1_0000_0000
  {
    if a < b { ApartInOrder(h.spans, a, b); } else { ApartInOrder(h.spans, b, a); }
  }

  // ---------- kmalloc ----------

  /** The first block on the list, from position i, with room for need bytes. */
  function FirstFit(h: H, need: nat, i: nat): (r: nat)
    requires i <= |h.fl|
    ensures i <= r <= |h.fl| && (r < |h.fl| && h.fl[r] in h.hdr ==> h.hdr[h.fl[r]].size >= need)
    ensures forall j :: i <= j < r ==> h.fl[j] in h.hdr ==> h.hdr[h.fl[j]].size < need
    decreases |h.fl| - i
  {
    if i == |h.fl| || (h.fl[i] in h.hdr && h.hdr[h.fl[i]].size >= need) then i else FirstFit(h, need, i + 1)
  }

  /** Setting the slot before list position i. */
  function SetSlot(h: H, i: nat, to: nat): H
    requires i <= |h.fl|
  {
    if i == 0 then h.(first := to)
    else if h.fl[i - 1] in h.hdr then h.(hdr := h.hdr[h.fl[i - 1] := h.hdr[h.fl[i - 1]].(next := to)])
    else h
  }

  predicate Splits(size: nat, need: nat) { size >= need + HDR + 16 }

  /** Block i of the list is taken: split if the rest is worth keeping. */
  function Taken(h: H, i: nat, need: nat): H
    requires i < |h.fl| && h.fl[i] in h.hdr && h.fl[i] in h.spans && h.hdr[h.fl[i]].size >= need
  {
    var b := h.fl[i];
    var w := h.hdr[b];
    if Splits(w.size, need) then
      var c := b + need;
      var h1 := SetSlot(h.(hdr := h.hdr[c := Hdr(w.size - need, false, w.next)]), i, c);
      H(h1.hdr[b := Hdr(need, true, NULL)], h1.first, h1.brk, h1.fl[i := c], h1.spans[b := need][c := w.size - need])
    else
      var h1 := SetSlot(h, i, w.next);
      H(h1.hdr[b := Hdr(w.size, true, NULL)], h1.first, h1.brk, h1.fl[..i] + h1.fl[i + 1..], h1.spans)
  }

  lemma SlotReplaced(w: Words, n: Words, first: nat, first': nat, s: seq<nat>, i: nat, c: nat)
    requires Linked(w, first, s) && Distinct(s) && i < |s| && c !in s && c in n && n[c].next == w[s[i]].next
    requires forall j :: 0 <= j < |s| && j != i && j != i - 1 ==> s[j] in n && n[s[j]].next == w[s[j]].next
    requires if i == 0 then first' == c else first' == first && s[i - 1] in n && n[s[i - 1]].next == c
    ensures Linked(n, first', s[i := c]) && Distinct(s[i := c])
  {
  }

  lemma ElemsReplaced(s: seq<nat>, i: nat, c: nat)
    requires Distinct(s) && i < |s| && c !in s
    ensures Elems(s[i := c]) == Elems(s) - {s[i]} + {c}
  {
    var r := s[i := c];
    assert r[i] == c;
    forall a | a in s && a != s[i] ensures a in r {
      var j :| 0 <= j < |s| && s[j] == a;
      assert r[j] == a;
    }
  }

  lemma SlotRemoved(w: Words, n: Words, first: nat, first': nat, s: seq<nat>, i: nat)
    requires Linked(w, first, s) && Distinct(s) && i < |s|
    requires forall j :: 0 <= j < |s| && j != i && j != i - 1 ==> s[j] in n && n[s[j]].next == w[s[j]].next
    requires if i == 0 then first' == w[s[i]].next
             else first' == first && s[i - 1] in n && n[s[i - 1]].next == w[s[i]].next
    ensures Linked(n, first', s[..i] + s[i + 1..]) && Distinct(s[..i] + s[i + 1..])
  {
    var r := s[..i] + s[i + 1..];
    var l := |r|;
    assert forall j :: 0 <= j < l ==> r[j] == if j < i then s[j] else s[j + 1];
    forall j | 0 <= j < l ensures r[j] in n {
      assert j < i || s[j + 1] in n;
    }
    assert l == i > 0 ==> r[l - 1] == s[i - 1];
    assert l > i ==> r[l - 1] == s[l] && n[s[l]].next == NULL;
    assert i < l ==> w[s[i]].next == s[i + 1] == r[i];
    forall j | 0 <= j < l - 1 ensures n[r[j]].next == r[j + 1] {
    }
  }

  lemma ElemsRemoved(s: seq<nat>, i: nat)
    requires Distinct(s) && i < |s|
    ensures Elems(s[..i] + s[i + 1..]) == Elems(s) - {s[i]}
  {
    var r := s[..i] + s[i + 1..];
    assert forall j :: 0 <= j < |r| ==> r[j] == if j < i then s[j] else s[j + 1];
    assert s == s[..i] + [s[i]] + s[i + 1..];
  }

  /** Only links change outside of b and c. */
  ghost predicate Relinked(w: Words, n: Words, s: set<nat>)
  {
    forall a :: a in w && a !in s ==> a in n && n[a] == w[a].(next := n[a].next)
  }

  lemma SplitHeaded(w: Words, n: Words, free: set<nat>, spans: map<nat, nat>, b: nat, c: nat, need: nat)
    requires Headed(w, free, spans) && b in free && c !in spans && HDR < need && need + HDR < spans[b]
    requires n.Keys == w.Keys + {c} && Relinked(w, n, {b, c}) && n[b] == Hdr(need, true, NULL) && !n[c].used
    requires n[c].size == spans[b] - need
    ensures Headed(n, free - {b} + {c}, spans[b := need][c := spans[b] - need])
  {
  }

  lemma TakeHeaded(w: Words, n: Words, free: set<nat>, spans: map<nat, nat>, b: nat)
    requires Headed(w, free, spans) && b in free
    requires n.Keys == w.Keys && Relinked(w, n, {b}) && n[b] == Hdr(w[b].size, true, NULL)
    ensures Headed(n, free - {b}, spans)
  {
  }

  /** What Taken writes, when it splits. */
  lemma TakenSplitIs(h: H, i: nat, need: nat)
    requires Headed(h.hdr, Elems(h.fl), h.spans) && Distinct(h.fl) && i < |h.fl| && h.fl[i] in h.spans && HDR < need
    requires Splits(h.hdr[h.fl[i]].size, need) && h.fl[i] + need !in h.spans
    ensures Cut(h, Taken(h, i, need), i, h.fl[i] + need, need) && CutList(h, Taken(h, i, need), i, h.fl[i] + need)
  {
    forall j | 0 <= j < |h.fl| ensures h.fl[j] in h.spans && h.fl[j] in h.hdr { assert h.fl[j] in Elems(h.fl); }
  }

  /** ... and when it does not. */
  lemma TakenWholeIs(h: H, i: nat, need: nat)
    requires Headed(h.hdr, Elems(h.fl), h.spans) && Distinct(h.fl) && i < |h.fl| && h.fl[i] in h.spans
    requires h.hdr[h.fl[i]].size >= need && !Splits(h.hdr[h.fl[i]].size, need)
    ensures var h' := Taken(h, i, need);
            var b := h.fl[i];
            && h'.spans == h.spans && h'.fl == h.fl[..i] + h.fl[i + 1..] && h'.brk == h.brk
            && h'.hdr.Keys == h.hdr.Keys && Relinked(h.hdr, h'.hdr, {b}) && h'.hdr[b] == Hdr(h.hdr[b].size, true, NULL)
            && (if i == 0 then h'.first == h.hdr[b].next
               else h'.first == h.first && h.fl[i - 1] in h'.hdr && h'.hdr[h.fl[i - 1]].next == h.hdr[b].next)
            && (forall j :: 0 <= j < |h.fl| && j != i && j != i - 1 ==>
               h.fl[j] in h'.hdr && h'.hdr[h.fl[j]].next == h.hdr[h.fl[j]].next)
  {
    if i > 0 { assert h.fl[i - 1] in Elems(h.fl) && h.fl[i - 1] != h.fl[i]; }
    forall j | 0 <= j < |h.fl| ensures h.fl[j] in h.spans { assert h.fl[j] in Elems(h.fl); }
  }

  /** What a successful kmalloc gives: block b is live, has need bytes or more, but less than would make a
      block of its own, and its bytes were free; every other live block is as before, and every other free
      byte still free. */
  ghost predicate Given(m: map<nat, nat>, free: set<nat>, m': map<nat, nat>, free': set<nat>, b: nat, need: nat)
  {
    && b in m' && b !in m.Keys - free && need <= m'[b] < need + HDR + 16 && m'.Keys - free' == m.Keys - free + {b}
    && (forall a :: a in m && a !in free ==> a in m' && m'[a] == m[a])
    && (forall x: nat :: InAny(m, free, x) <==> InAny(m', free', x) || Holds(m', b, x))
  }

  lemma SplitGives(m: map<nat, nat>, free: set<nat>, b: nat, need: nat)
    requires free <= m.Keys && b in free && 0 < need < m[b] && b + need !in m
    ensures Given(m, free, m[b := need][b + need := m[b] - need], free - {b} + {b + need}, b, need)
  {
    var c := b + need;
    var m', free' := m[b := need][c := m[b] - need], free - {b} + {c};
    assert m'.Keys - free' == m.Keys - free + {b};
    forall x: nat ensures InAny(m, free, x) <==> InAny(m', free', x) || Holds(m', b, x) {
      if a :| a in free && Holds(m, a, x) {
        if a == b {
          assert Holds(m', b, x) || (c in free' && Holds(m', c, x));
        } else {
          assert a in free' && Holds(m', a, x);
        }
      }
      if a :| a in free' && Holds(m', a, x) {
        if a == c { assert Holds(m, b, x); } else { assert a in free && Holds(m, a, x); }
      }
      if Holds(m', b, x) { assert Holds(m, b, x); }
    }
  }

  lemma TakeGives(m: map<nat, nat>, free: set<nat>, b: nat, need: nat)
    requires free <= m.Keys && b in free && need <= m[b] < need + HDR + 16
    ensures Given(m, free, m, free - {b}, b, need)
  {
    var free' := free - {b};
    assert m.Keys - free' == m.Keys - free + {b};
    forall x: nat ensures InAny(m, free, x) <==> InAny(m, free', x) || Holds(m, b, x) {
      if a :| a in free && Holds(m, a, x) {
        if a != b { assert a in free'; }
      }
      if a :| a in free' && Holds(m, a, x) { assert a in free; }
    }
  }

  lemma TakenSplit(h: H, i: nat, need: nat)
    requires HeapInv(h) && i < |h.fl| && h.fl[i] in h.spans && HDR < need && Splits(h.hdr[h.fl[i]].size, need)
    ensures HeapInv(Taken(h, i, need))
    ensures Given(h.spans, Elems(h.fl), Taken(h, i, need).spans, Elems(Taken(h, i, need).fl), h.fl[i], need)
  {
    var c := h.fl[i] + need;
    NotInside(h.spans, h.fl[i], c);
    TakenSplitIs(h, i, need);
    CutKeeps(h, Taken(h, i, need), i, c, need);
  }

  /** h' is h with block i of the list cut at c and the front taken. */
  ghost predicate Cut(h: H, h': H, i: nat, c: nat, need: nat)
  {
    && i < |h.fl| && h.fl[i] in h.spans && h.fl[i] in h.hdr && c == h.fl[i] + need && c !in h.spans && HDR < need
    && need + HDR < h.spans[h.fl[i]]
    && var b := h.fl[i];
       && h'.spans == h.spans[b := need][c := h.spans[b] - need] && h'.fl == h.fl[i := c] && h'.brk == h.brk
       && h'.hdr.Keys == h.hdr.Keys + {c} && Relinked(h.hdr, h'.hdr, {b, c})
       && h'.hdr[b] == Hdr(need, true, NULL) && h'.hdr[c] == Hdr(h.spans[b] - need, false, h.hdr[b].next)
  }

  ghost predicate CutList(h: H, h': H, i: nat, c: nat)
    requires i < |h.fl|
  {
    && (forall j :: 0 <= j < |h.fl| ==> h.fl[j] in h.hdr && h.fl[j] in h'.hdr)
    && (if i == 0 then h'.first == c else h'.first == h.first && h'.hdr[h.fl[i - 1]].next == c)
    && (forall j :: 0 <= j < |h.fl| && j != i && j != i - 1 ==> h'.hdr[h.fl[j]].next == h.hdr[h.fl[j]].next)
  }

  lemma CutKeeps(h: H, h': H, i: nat, c: nat, need: nat)
    requires HeapInv(h) && Cut(h, h', i, c, need) && CutList(h, h', i, c)
    ensures HeapInv(h') && Given(h.spans, Elems(h.fl), h'.spans, Elems(h'.fl), h.fl[i], need)
  {
    CutKeepsTiles(h, h', i, c, need);
    CutKeepsList(h, h', i, c, need);
    CutKeepsBlocks(h, h', i, c, need);
  }

  lemma CutKeepsTiles(h: H, h': H, i: nat, c: nat, need: nat)
    requires Tiles(h.spans, BASE, h.brk) && Cut(h, h', i, c, need)
    ensures Tiles(h'.spans, BASE, h'.brk) && h'.brk == h.brk
  {
    SplitTiles(h.spans, BASE, h.brk, h.fl[i], need);
  }

  lemma CutKeepsList(h: H, h': H, i: nat, c: nat, need: nat)
    requires HeapInv(h) && Cut(h, h', i, c, need) && CutList(h, h', i, c)
    ensures Distinct(h'.fl) && Linked(h'.hdr, h'.first, h'.fl)
  {
    assert c !in Elems(h.fl);
    SlotReplaced(h.hdr, h'.hdr, h.first, h'.first, h.fl, i, c);
  }

  lemma CutKeepsBlocks(h: H, h': H, i: nat, c: nat, need: nat)
    requires Headed(h.hdr, Elems(h.fl), h.spans) && Distinct(h.fl) && Cut(h, h', i, c, need)
    ensures Headed(h'.hdr, Elems(h'.fl), h'.spans) && Given(h.spans, Elems(h.fl), h'.spans, Elems(h'.fl), h.fl[i], need)
  {
    assert c !in Elems(h.fl) && h.fl[i] in Elems(h.fl);
    ElemsReplaced(h.fl, i, c);
    SplitHeaded(h.hdr, h'.hdr, Elems(h.fl), h.spans, h.fl[i], c, need);
    SplitGives(h.spans, Elems(h.fl), h.fl[i], need);
  }

  lemma TakenWhole(h: H, i: nat, need: nat)
    requires HeapInv(h) && i < |h.fl| && h.fl[i] in h.spans && h.hdr[h.fl[i]].size >= need
    requires !Splits(h.hdr[h.fl[i]].size, need)
    ensures HeapInv(Taken(h, i, need))
    ensures Given(h.spans, Elems(h.fl), Taken(h, i, need).spans, Elems(Taken(h, i, need).fl), h.fl[i], need)
  {
    var h' := Taken(h, i, need);
    TakenWholeIs(h, i, need);
    assert h.fl[i] in Elems(h.fl);
    SlotRemoved(h.hdr, h'.hdr, h.first, h'.first, h.fl, i);
    ElemsRemoved(h.fl, i);
    TakeHeaded(h.hdr, h'.hdr, Elems(h.fl), h.spans, h.fl[i]);
    TakeGives(h.spans, Elems(h.fl), h.fl[i], need);
  }

  lemma TakenKeeps(h: H, i: nat, need: nat)
    requires HeapInv(h) && i < |h.fl| && h.fl[i] in h.spans && HDR < need && h.hdr[h.fl[i]].size >= need
    ensures HeapInv(Taken(h, i, need))
    ensures Given(h.spans, Elems(h.fl), Taken(h, i, need).spans, Elems(Taken(h, i, need).fl), h.fl[i], need)
  {
    if Splits(h.hdr[h.fl[i]].size, need) { TakenSplit(h, i, need); } else { TakenWhole(h, i, need); }
  }

  /** grow, and the new chunk in front of the list. */
  function Grown(h: H): H
  {
    H(h.hdr[h.brk := Hdr(CHUNK, false, h.first)], h.brk, h.brk + CHUNK, [h.brk] + h.fl, h.spans[h.brk := CHUNK])
  }

  lemma GrownOk(h: H)
    requires HeapInv(h) && h.brk + CHUNK <= LIMIT
    ensures HeapInv(Grown(h)) && Live(Grown(h)) == Live(h)
    ensures forall x: nat :: IsFree(Grown(h), x) <==> IsFree(h, x) || h.brk <= x < h.brk + CHUNK
  {
    var h' := Grown(h);
    GrowTiles(h.spans, BASE, h.brk, CHUNK);
    assert h.brk !in Elems(h.fl);
    assert Elems(h'.fl) == Elems(h.fl) + {h.brk};
    GrowBytes(h.spans, Elems(h.fl), h.brk);
    assert Live(h') == Live(h);
  }

  lemma GrowBytes(m: map<nat, nat>, free: set<nat>, c: nat)
    requires free <= m.Keys && c !in m
    ensures forall x: nat :: InAny(m[c := CHUNK], free + {c}, x) <==> InAny(m, free, x) || c <= x < c + CHUNK
  {
    var m', free' := m[c := CHUNK], free + {c};
    forall x: nat ensures InAny(m', free', x) <==> InAny(m, free, x) || c <= x < c + CHUNK {
      if a :| a in free && Holds(m, a, x) { assert a in free' && Holds(m', a, x); }
      if a :| a in free' && Holds(m', a, x) { if a != c { assert a in free && Holds(m, a, x); } }
      if c <= x < c + CHUNK { assert c in free' && Holds(m', c, x); }
    }
  }

  /** After one grow every request fits at once: kmalloc recurs at most once. */
  lemma GrownFits(h: H, need: nat)
    requires need <= CHUNK
    ensures FirstFit(Grown(h), need, 0) == 0
  {
  }

  // ---------- The guard ----------

  /** n + HDR_SIZE > HEAP_MAX with the sum taken in 64 bits. */
  predicate Rejected(n: nat) { n == 0 || (n + HDR) % 0x1_0000_0000_0000_0000 > HEAP_MAX }

  /** (u32)n + HDR_SIZE. */
  function Need(n: nat): nat { (n % 0x1_0000_0000 + HDR) % 0x1_0000_0000 }

  /** An accepted request is given room for n bytes and the header, unless the sum wraps. */
  lemma AcceptedHasRoomIff(n: nat)
    requires n < 0x1_0000_0000_0000_0000 && !Rejected(n)
    ensures Need(n) >= n + HDR <==> n + HDR < 0x1_0000_0000_0000_0000
    ensures n + HDR < 0x1_0000_0000_0000_0000 ==> Need(n) == n + HDR && HDR < Need(n) <= HEAP_MAX
    ensures n + HDR >= 0x1_0000_0000_0000_0000 ==> Need(n) < HDR
  {
    if n + HDR >= 0x1_0000_0000_0000_0000 {
      var d := 0x1_0000_0000_0000_0000 - n;
      assert 1 <= d <= HDR;
      assert n == 0xFFFF_FFFF * 0x1_0000_0000 + (0x1_0000_0000 - d);
    }
  }

  /** The largest size_t is accepted, for a block smaller than a header. */
  lemma WrappedRequestAccepted()
    ensures !Rejected(0xFFFF_FFFF_FFFF_FFFF) && Need(0xFFFF_FFFF_FFFF_FFFF) == 15
  {
  }
}
