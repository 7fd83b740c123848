/** The physical memory manager of core/memory/pmm.c: one bit per 4 KiB page, a wrap-around
    allocation cursor, and a lazily created array of 16-bit page reference counts. */
module Pmm {
  import opened Common

  /** One entry of the boot memory map; `usable` is the type test of the source. */
  datatype Region = Region(usable: bool, base: nat, length: nat) {
    function First(): nat { base / PAGE_SIZE }
    function Count(): nat { length / PAGE_SIZE }
    predicate Holds(p: nat) { usable && First() <= p < First() + Count() }
  }

  /** Page p lies in one of the usable regions. */
  ghost predicate Usable(memmap: seq<Region>, p: nat)
  {
    exists i :: 0 <= i < |memmap| && memmap[i].Holds(p)
  }

  /** What the boot protocol promises of usable regions: page aligned and pairwise disjoint. */
  ghost predicate Aligned(memmap: seq<Region>)
  {
    forall i :: 0 <= i < |memmap| && memmap[i].usable ==>
                  memmap[i].base % PAGE_SIZE == 0 && memmap[i].length % PAGE_SIZE == 0
  }

  ghost predicate Disjoint(memmap: seq<Region>)
  {
    forall i, j, p :: 0 <= i < |memmap| && 0 <= j < |memmap| && memmap[i].Holds(p) && memmap[j].Holds(p) ==> i == j
  }

  /** n consecutive pages starting at `first` are all free. */
  ghost predicate RunAt(free: set<nat>, first: nat, n: nat)
  {
    forall k {:trigger k in free} :: first <= k < first + n ==> k in free
  }

  /** Some n consecutive pages are free. */
  ghost predicate HasRun(free: set<nat>, n: nat)
  {
    exists f: nat :: RunAt(free, f, n)
  }

  /** The lowest n consecutive free pages start at `first`. */
  ghost predicate LowestRun(free: set<nat>, first: nat, n: nat)
  {
    RunAt(free, first, n) && forall f: nat :: RunAt(free, f, n) ==> first <= f
  }

  /** The number of pages needed to hold one bit for each of `pages` pages, and no more. */
  function BitmapPages(pages: nat): (n: nat)
    ensures n * PAGE_SIZE * 8 >= pages && (n > 0 ==> (n - 1) * PAGE_SIZE * 8 < pages)
  {
    ((pages + 7) / 8 + PAGE_SIZE - 1) / PAGE_SIZE
  }

  /** The number of pages needed to hold a 16-bit count for each of `pages` pages, and no more. */
  function RefPages(pages: nat): (n: nat)
    ensures n * PAGE_SIZE >= 2 * pages && (n > 0 ==> (n - 1) * PAGE_SIZE < 2 * pages)
  {
    (pages * 2 + PAGE_SIZE - 1) / PAGE_SIZE
  }

  /** `rest` is `free` without the lowest run that holds the counts of `total` pages. */
  ghost predicate ArrayTaken(free: set<nat>, rest: set<nat>, total: nat)
  {
    exists at: nat :: LowestRun(free, at, RefPages(total)) && RunTaken(free, rest, at, RefPages(total))
  }

  ghost predicate RunTaken(free: set<nat>, rest: set<nat>, at: nat, n: nat)
  {
    forall p: nat :: p in rest <==> p in free && !(at <= p < at + n)
  }

  ghost function Interval(lo: nat, hi: nat): (s: set<nat>)
    requires lo <= hi
    ensures forall k: nat :: k in s <==> lo <= k < hi
    ensures |s| == hi - lo
    decreases hi
  {
    if lo == hi then {} else Interval(lo, hi - 1) + {hi - 1}
  }

  /** How many steps the cursor takes, going up and wrapping at `len`, to reach page p. */
  function Steps(cursor: nat, p: nat, len: nat): nat
    requires cursor < len && p < len
  {
    if cursor <= p then p - cursor else p + len - cursor
  }

  lemma WrapOnce(x: nat, len: nat)
    requires 0 < len && x < 2 * len
    ensures x % len == if x < len then x else x - len
  {
    if x < len {
      assert x / len == 0;
    } else {
      assert x == 1 * len + (x - len);
    }
  }

  class Pmm {
    const bitmap: array<bool>
    var freeCount: int
    var cursor: nat
    /** Reference counts, one per page; empty while the array has not been created. */
    var refs: seq<nat>

    /** The abstract state: the set of free pages. */
    ghost var free: set<nat>

    ghost predicate BitsMatch()
      reads this, bitmap
    {
      forall p: nat :: p in free <==> p < bitmap.Length && bitmap[p]
    }

    ghost predicate Valid()
      reads this, bitmap
    {
      && BitsMatch()
      && freeCount == |free|
      && (0 < bitmap.Length ==> cursor < bitmap.Length)
      && (refs == [] || |refs| == bitmap.Length)
      && (forall p :: 0 <= p < |refs| ==> refs[p] <= REF_MAX)
    }

    constructor (pages: nat)
      ensures fresh(bitmap) && bitmap.Length == pages
      ensures Valid() && free == {} && refs == [] && cursor == 0
    {
      bitmap := new bool[pages](_ => false);
      freeCount, cursor, refs, free := 0, 0, [], {};
    }

    /** set_free */
    method SetFree(i: nat)
      requires BitsMatch() && i < bitmap.Length
      modifies this`free, bitmap
      ensures BitsMatch() && free == old(free) + {i}
    {
      bitmap[i] := true;
      free := free + {i};
    }

    /** set_used */
    method SetUsed(i: nat)
      requires BitsMatch() && i < bitmap.Length
      modifies this`free, bitmap
      ensures BitsMatch() && free == old(free) - {i}
    {
      bitmap[i] := false;
      free := free - {i};
    }

    /** Boot: size the bitmap by the top of usable memory, place it in the first usable region
        with room for it and one page more, mark the usable pages free, take the bitmap's own. */
    static method Init(memmap: seq<Region>) returns (pmm: Pmm?, bm: nat)
      requires Aligned(memmap) && Disjoint(memmap) && !Usable(memmap, 0)
      ensures pmm == null <==>
              !exists i :: 0 <= i < |memmap| && memmap[i].usable && Roomy(memmap, i)
      ensures pmm != null ==> fresh(pmm) && fresh(pmm.bitmap) && pmm.Valid() && pmm.refs == [] && pmm.cursor == 0
      ensures pmm != null ==> IsTop(memmap, pmm.bitmap.Length)
      ensures pmm != null ==> var n := BitmapPages(pmm.bitmap.Length);
                              && (forall p :: bm <= p < bm + n ==> Usable(memmap, p))
                              && (forall p: nat :: p in pmm.free <==> Usable(memmap, p) && !(bm <= p < bm + n))
    {
      pmm, bm := null, 0;
      var top := Top(memmap);
      var r := FindRoom(memmap, top);
      if r == |memmap| { return; }
      bm := memmap[r].First();
      pmm := new Pmm(top);
      MarkUsable(memmap, pmm);
      forall k: nat | bm <= k < bm + BitmapPages(top) ensures Usable(memmap, k) {
        assert memmap[r].Holds(k);
      }
      pmm.TakeRun(bm, BitmapPages(top));
    }

    /** First pass over the memory map: one more than the highest usable page. */
    static method Top(memmap: seq<Region>) returns (top: nat)
      ensures IsTop(memmap, top)
    {
      top := 0;
      for i := 0 to |memmap|
        invariant IsTop(memmap[..i], top)
      {
        if memmap[i].usable && top < memmap[i].First() + memmap[i].Count() {
          top := memmap[i].First() + memmap[i].Count();
        }
      }
      assert memmap[..|memmap|] == memmap;
    }

    /** Second pass: the first usable region with room for the bitmap and one page more. */
    static method FindRoom(memmap: seq<Region>, top: nat) returns (r: nat)
      requires IsTop(memmap, top)
      ensures r <= |memmap|
      ensures r < |memmap| ==> memmap[r].usable && Roomy(memmap, r)
      ensures r < |memmap| ==> memmap[r].length >= (BitmapPages(top) + 1) * PAGE_SIZE
      ensures forall i :: 0 <= i < r && memmap[i].usable ==> !Roomy(memmap, i)
    {
      TopUnique(memmap, top);
      r := 0;
      while r < |memmap| && !(memmap[r].usable && memmap[r].length >= (BitmapPages(top) + 1) * PAGE_SIZE)
        invariant 0 <= r <= |memmap|
        invariant forall i :: 0 <= i < r && memmap[i].usable ==> !Roomy(memmap, i)
      {
        r := r + 1;
      }
    }

    /** Region i has room for the bitmap of the whole memory and for one page more. */
    static ghost predicate Roomy(memmap: seq<Region>, i: nat)
      requires i < |memmap|
    {
      exists top: nat :: IsTop(memmap, top) && memmap[i].length >= (BitmapPages(top) + 1) * PAGE_SIZE
    }

    /** `top` is one more than the highest usable page, or 0 if there is none. */
    static ghost predicate IsTop(memmap: seq<Region>, top: nat)
    {
      && (forall i :: 0 <= i < |memmap| && memmap[i].usable ==> memmap[i].First() + memmap[i].Count() <= top)
      && (top == 0 || exists i :: 0 <= i < |memmap| && memmap[i].usable && memmap[i].First() + memmap[i].Count() == top)
    }

    static lemma TopUnique(memmap: seq<Region>, top: nat)
      requires IsTop(memmap, top)
      ensures forall t: nat :: IsTop(memmap, t) ==> t == top
    {
    }

    /** The loop of pmm_init that marks every page of every usable region free. */
    static method MarkUsable(memmap: seq<Region>, p: Pmm)
      requires p.Valid() && p.free == {} && p.refs == [] && Disjoint(memmap) && IsTop(memmap, p.bitmap.Length)
      modifies p`freeCount, p`free, p.bitmap
      ensures p.Valid()
      ensures forall q: nat :: q in p.free <==> Usable(memmap, q)
    {
      for i := 0 to |memmap|
        invariant p.Valid()
        invariant forall q: nat :: q in p.free <==> Usable(memmap[..i], q)
      {
        ghost var was := p.free;
        assert memmap[..i + 1] == memmap[..i] + [memmap[i]];
        if memmap[i].usable {
          forall q: nat | memmap[i].Holds(q) ensures q !in was { NotYetUsable(memmap, i, q); }
          p.MarkRegion(memmap[i]);
        }
        forall q: nat ensures q in p.free <==> Usable(memmap[..i + 1], q) {
          UsableOneMore(memmap, i, q);
        }
      }
      assert memmap[..|memmap|] == memmap;
    }

    static lemma NotYetUsable(memmap: seq<Region>, i: nat, q: nat)
      requires i < |memmap| && Disjoint(memmap) && memmap[i].Holds(q)
      ensures !Usable(memmap[..i], q)
    {
    }

    static lemma UsableOneMore(memmap: seq<Region>, i: nat, q: nat)
      requires i < |memmap|
      ensures Usable(memmap[..i + 1], q) <==> Usable(memmap[..i], q) || memmap[i].Holds(q)
    {
      var m, n := memmap[..i + 1], memmap[..i];
      if Usable(n, q) {
        var j :| 0 <= j < |n| && n[j].Holds(q);
        assert m[j].Holds(q);
      }
      if memmap[i].Holds(q) {
        assert m[i].Holds(q);
      }
      if Usable(m, q) && !memmap[i].Holds(q) {
        var j :| 0 <= j < |m| && m[j].Holds(q);
        assert n[j].Holds(q);
      }
    }

    method MarkRegion(r: Region)
      requires Valid() && r.usable && r.First() + r.Count() <= bitmap.Length
      requires forall q: nat :: r.Holds(q) ==> q !in free
      modifies this`freeCount, this`free, bitmap
      ensures Valid()
      ensures forall q: nat :: q in free <==> q in old(free) || r.Holds(q)
    {
      ghost var was := free;
      var first := r.First();
      for k := first to first + r.Count()
        invariant Valid()
        invariant forall q: nat :: q in free <==> q in was || first <= q < k
      {
        assert r.Holds(k);
        SetFree(k);
        freeCount := freeCount + 1;
      }
    }

    /** Take the first free page at or after the cursor, wrapping around; 0 when none is free. */
    method Alloc() returns (page: nat)
      requires Valid()
      modifies this, bitmap
      ensures Valid() && refs == old(refs)
      ensures old(free) == {} ==> page == 0 && free == {} && cursor == old(cursor)
      ensures old(free) != {} ==>
                && page in old(free) && free == old(free) - {page}
                && page < bitmap.Length
                && cursor == (page + 1) % bitmap.Length
                && forall q :: q in old(free) ==>
                   Steps(old(cursor), page, bitmap.Length) <= Steps(old(cursor), q, bitmap.Length)
    {
      var n := 0;
      while n < bitmap.Length
        invariant 0 <= n <= bitmap.Length
        invariant unchanged(this) && unchanged(bitmap)
        invariant forall q :: q in free ==> n <= Steps(cursor, q, bitmap.Length)
      {
        var i := (cursor + n) % bitmap.Length;
        WrapOnce(cursor + n, bitmap.Length);
        if bitmap[i] {
          assert Steps(cursor, i, bitmap.Length) == n;
          WrapOnce(i + 1, bitmap.Length);
          SetUsed(i);
          cursor := (i + 1) % bitmap.Length;
          freeCount := freeCount - 1;
          return i;
        }
        n := n + 1;
      }
      assert free == {} by {
        forall q | q in free ensures false { }
      }
      return 0;
    }

    /** The scan of AllocPages from page 0: the first n consecutive free pages. */
    method FindRun(n: nat) returns (found: bool, page: nat)
      requires Valid()
      ensures found <==> n > 0 && HasRun(free, n)
      ensures found ==> page + n <= bitmap.Length && RunAt(free, page, n)
      ensures found ==> forall f: nat :: RunAt(free, f, n) ==> page <= f
    {
      var run, i := 0, 0;
      while i < bitmap.Length
        invariant 0 <= run <= i <= bitmap.Length
        invariant forall k :: i - run <= k < i ==> bitmap[k]
        invariant run < i ==> !bitmap[i - run - 1]
        invariant n > 0 ==> run < n
        invariant n > 0 ==> forall f: nat :: RunAt(free, f, n) ==> i - run <= f
      {
        if bitmap[i] {
          run := run + 1;
          if run == n {
            page := i + 1 - n;
            assert RunAt(free, page, n);
            return true, page;
          }
        } else {
          forall f: nat | n > 0 && RunAt(free, f, n) ensures i + 1 <= f {
            assert f <= i < f + n ==> i in free;
          }
          run := 0;
        }
        i := i + 1;
      }
      if n > 0 {
        forall f: nat ensures !RunAt(free, f, n) {
          assert RunAt(free, f, n) ==> f + n - 1 in free;
        }
      }
      return false, 0;
    }

    /** First fit for n consecutive pages; 0 when there is no such run. */
    method AllocPages(n: nat) returns (page: nat)
      requires Valid()
      modifies this, bitmap
      ensures Valid() && refs == old(refs)
      ensures n == 0 || !HasRun(old(free), n) ==> page == 0 && free == old(free) && cursor == old(cursor)
      ensures n > 0 && HasRun(old(free), n) ==>
                && RunAt(old(free), page, n)
                && (forall f: nat :: RunAt(old(free), f, n) ==> page <= f)
                && free == old(free) - Interval(page, page + n)
                && cursor == if page + n < bitmap.Length then page + n else 0
    {
      var found;
      found, page := FindRun(n);
      if !found { return 0; }
      TakeRun(page, n);
      MoveCursor(page + n);
    }

    /** The cursor moves to page p, or to the start if there is none. */
    method MoveCursor(p: nat)
      requires Valid() && 0 < p <= bitmap.Length
      modifies this`cursor
      ensures Valid() && cursor == if p < bitmap.Length then p else 0
    {
      WrapOnce(p, bitmap.Length);
      cursor := p % bitmap.Length;
    }

    /** The inner loop of AllocPages: mark the run used. */
    method TakeRun(first: nat, n: nat)
      requires Valid() && RunAt(free, first, n)
      modifies this`freeCount, this`free, bitmap
      ensures Valid() && free == old(free) - Interval(first, first + n)
    {
      ghost var was := free;
      var p := first;
      while p < first + n
        invariant first <= p <= first + n
        invariant BitsMatch() && freeCount == old(freeCount)
        invariant forall q :: q in free <==> q in was && !(first <= q < p)
        invariant |was| - |free| == p - first
      {
        assert p in was;
        SetUsed(p);
        p := p + 1;
      }
      freeCount := freeCount - n;
      assert free == was - Interval(first, first + n);
    }

    /** Give a page back. The source panics on a page out of range or already free. */
    method Free(page: nat) returns (ok: bool)
      requires Valid()
      modifies this`freeCount, this`free, bitmap
      ensures Valid()
      ensures ok <==> page < bitmap.Length && page !in old(free)
      ensures free == if ok then old(free) + {page} else old(free)
    {
      if page >= bitmap.Length || bitmap[page] { return false; }
      SetFree(page);
      freeCount := freeCount + 1;
      return true;
    }

    /** The count the array stores for a page; 0 while there is no array. */
    ghost function Stored(p: nat): nat
      reads this
    {
      if p < |refs| then refs[p] else 0
    }

    /** Create the count array on first use. Failure is the case in which no run of pages is left,
        where the source goes on with an array at physical address 0. */
    method GrowRefs() returns (ok: bool)
      requires Valid() && 0 !in free && 0 < bitmap.Length
      modifies this, bitmap
      ensures Valid() && (forall p :: Stored(p) == old(Stored(p)))
      ensures if ok then |refs| == bitmap.Length else refs == []
      ensures old(refs) != [] ==> ok && free == old(free) && refs == old(refs)
      ensures old(refs) == [] ==> (ok <==> HasRun(old(free), RefPages(bitmap.Length)))
      ensures old(refs) == [] && ok ==> ArrayTaken(old(free), free, bitmap.Length)
      ensures !ok ==> free == old(free)
    {
      if refs != [] { return true; }
      var at := AllocPages(RefPages(bitmap.Length));
      if at == 0 { return false; }
      assert LowestRun(old(free), at, RefPages(bitmap.Length));
      refs := seq(bitmap.Length, _ => 0);
      return true;
    }

    /** One more reference, saturating at 65535; pages beyond the bitmap are not counted. */
    method Ref(page: nat) returns (ok: bool)
      requires Valid() && 0 !in free && 0 < bitmap.Length
      modifies this, bitmap
      ensures Valid() && (old(refs) != [] || page >= bitmap.Length ==> ok && free == old(free) && |refs| == |old(refs)|)
      ensures ok <==> old(refs) != [] || page >= bitmap.Length || HasRun(old(free), RefPages(bitmap.Length))
      ensures old(refs) == [] && page < bitmap.Length && ok ==> ArrayTaken(old(free), free, bitmap.Length) && refs != []
      ensures ok ==> forall p :: Stored(p) ==
                                 if p == page < bitmap.Length && old(Stored(p)) < REF_MAX
                                 then old(Stored(p)) + 1 else old(Stored(p))
      ensures !ok ==> refs == [] && free == old(free)
    {
      if page >= bitmap.Length { return true; }
      ok := GrowRefs();
      if ok && refs[page] < REF_MAX {
        refs := refs[page := refs[page] + 1];
      }
    }

    /** One reference less; the last one frees the page. Without an array nothing happens. */
    method Unref(page: nat) returns (ok: bool)
      requires Valid()
      modifies this, bitmap
      ensures Valid() && |refs| == |old(refs)|
      ensures cursor == old(cursor)
      ensures page >= bitmap.Length || old(refs) == [] ==> ok && free == old(free) && refs == old(refs)
      ensures page < bitmap.Length && old(refs) != [] ==>
                && (old(refs)[page] > 1 ==> ok && free == old(free) && refs == old(refs)[page := old(refs)[page] - 1])
                && (old(refs)[page] <= 1 ==> refs == old(refs)[page := 0] && (ok <==> page !in old(free))
                                             && free == old(free) + {page})
    {
      if page >= bitmap.Length || refs == [] { return true; }
      if refs[page] > 1 {
        refs := refs[page := refs[page] - 1];
        return true;
      }
      refs := refs[page := 0];
      ok := Free(page);
    }

    /** The count as the fault handler reads it: 1 where no count is kept. */
    method GetRef(page: nat) returns (n: nat)
      requires Valid()
      ensures n == if page >= bitmap.Length || refs == [] then 1 else refs[page]
    {
      if page >= bitmap.Length || refs == [] { return 1; }
      return refs[page];
    }
  }
}
