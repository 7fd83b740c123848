/** kmalloc and kfree (core/memory/heap.c): headers, list head and break updated in place. */
module Heap {
  import opened Common
  import opened Blocks
  import opened Coalesce

  datatype Outcome = Null | At(p: nat) | Panic

  /** kfree succeeds, or panics on a block that is not in use, or has no slot in its array left for
      the block and writes past the array's end. */
  datatype FreeOutcome = FreeOk | FreePanic | NoSlot

  const SUPER_PAGES: nat := 16
  /** Entries of kfree's array. */
  const SLOTS: nat := 256

  /** The heap that a request of need bytes is served from: it grows when nothing fits. */
  ghost function Ready(h: H, need: nat): H
  {
    if FirstFit(h, need, 0) < |h.fl| then h else Grown(h)
  }

  /** kmalloc takes the first block that fits, from the list or from a fresh chunk. */
  ghost predicate Allocated(h: H, need: nat, h': H, p: nat)
  {
    var h1 := Ready(h, need);
    var i := FirstFit(h1, need, 0);
    && i < |h1.fl| && h1.fl[i] in h1.hdr && h1.fl[i] in h1.spans && h1.hdr[h1.fl[i]].size >= need
    && h' == Taken(h1, i, need) && p == h1.fl[i] + HDR
  }

  /** What the caller of kmalloc may rely on: a payload of its own with little to spare, apart from every other, made of
      bytes that were free or just mapped; every live block is left alone. */
  ghost predicate Gives(h: H, n: nat, h': H, p: nat)
  {
    && p >= HDR && Live(h') == Live(h) + {p - HDR} && p - HDR !in Live(h)
    && p - HDR in h'.spans && n + HDR <= h'.spans[p - HDR] < n + 2 * HDR + 16
    && (forall a :: a in Live(h) ==> a in h'.spans && h'.spans[a] == h.spans[a])
    && (forall x: nat :: IsFree(h', x) || Holds(h'.spans, p - HDR, x) <==> IsFree(h, x) || h.brk <= x < h'.brk)
  }

  lemma AllocatedGives(h: H, n: nat, h': H, p: nat)
    requires HeapInv(h) && n > 0 && n + HDR <= HEAP_MAX
    requires FirstFit(h, n + HDR, 0) < |h.fl| || h.brk + CHUNK <= LIMIT
    requires Allocated(h, n + HDR, h', p)
    ensures HeapInv(h') && Gives(h, n, h', p)
  {
    var need := n + HDR;
    var h1 := Ready(h, need);
    var i := FirstFit(h1, need, 0);
    if FirstFit(h, need, 0) < |h.fl| {
      TakenGives(h, i, n);
    } else {
      GrownOk(h);
      TakenGives(h1, i, n);
      GrownGives(h, n, h', p);
    }
  }

  lemma TakenGives(h: H, i: nat, n: nat)
    requires HeapInv(h) && i < |h.fl| && h.fl[i] in h.hdr && h.fl[i] in h.spans && h.hdr[h.fl[i]].size >= n + HDR
    requires n > 0
    ensures var h' := Taken(h, i, n + HDR); HeapInv(h') && Gives(h, n, h', h.fl[i] + HDR) && h'.brk == h.brk
  {
    TakenKeeps(h, i, n + HDR);
    TakenBrk(h, i, n + HDR);
  }

  lemma GrownGives(h: H, n: nat, h': H, p: nat)
    requires HeapInv(h) && h.brk + CHUNK <= LIMIT && Gives(Grown(h), n, h', p) && h'.brk == h.brk + CHUNK
    ensures Gives(h, n, h', p)
  {
    GrownOk(h);
  }

  lemma TakenBrk(h: H, i: nat, need: nat)
    requires i < |h.fl| && h.fl[i] in h.hdr && h.fl[i] in h.spans && h.hdr[h.fl[i]].size >= need
    ensures Taken(h, i, need).brk == h.brk
  {
  }

  /** kfree: the freed block and the free list become a list in address order with no two blocks
      touching, over exactly the bytes of both; every other live block is left alone. */
  ghost predicate Freed(h: H, b: nat, h': H)
  {
    && h'.brk == h.brk && Live(h') == Live(h) - {b}
    && (forall a :: a in Live(h') ==> a in h.spans && h'.spans[a] == h.spans[a])
    && Sorted(h'.fl) && Gaps(h'.spans, h'.fl)
    && forall x: nat :: IsFree(h', x) <==> IsFree(h, x) || Holds(h.spans, b, x)
  }

  class Heap {
    var hdr: Words
    var first: nat
    var brk: nat
    /** Pages that can still be allocated and mapped. */
    var pages: nat
    ghost var fl: seq<nat>
    ghost var spans: map<nat, nat>

    ghost function S(): H
      reads this
    {
      H(hdr, first, brk, fl, spans)
    }

    constructor (pages: nat)
      ensures this.pages == pages && brk == BASE && hdr == map[]
    {
      hdr, first, brk, fl, spans := map[], NULL, BASE, [], map[];
      this.pages := pages;
    }

    /** grow(SUPER_PAGES): false is the panic. */
    method Grow() returns (ok: bool)
      modifies this`brk, this`pages
      ensures ok <==> old(pages) >= SUPER_PAGES && old(brk) + CHUNK <= LIMIT
      ensures ok ==> brk == old(brk) + CHUNK && pages == old(pages) - SUPER_PAGES
    {
      var i := 0;
      while i < SUPER_PAGES
        invariant i <= SUPER_PAGES && brk == old(brk) + i * PAGE_SIZE && pages == old(pages) - i
        invariant (i > 0 ==> brk <= LIMIT)
      {
        if pages == 0 { return false; }
        pages := pages - 1;
        if brk + PAGE_SIZE > LIMIT { return false; }
        brk := brk + PAGE_SIZE;
        i := i + 1;
      }
      return true;
    }

    /** heap_init. */
    method Init() returns (ok: bool)
      requires brk == BASE && hdr == map[]
      modifies this
      ensures ok <==> old(pages) >= SUPER_PAGES
      ensures ok ==> HeapInv(S()) && Live(S()) == {} && brk == BASE + CHUNK && fl == [BASE]
      ensures ok ==> spans == map[BASE := CHUNK]
    {
      ok := Grow();
      if ok {
        hdr := hdr[BASE := Hdr(CHUNK, false, NULL)];
        first := BASE;
        fl := [BASE];
        spans := map[BASE := CHUNK];
        InitOk(S());
      }
    }

    /** The walk of kmalloc: the first block that fits and the one before it, or NULL. */
    method Find(ghost h: H, need: nat) returns (prev: nat, b: nat)
      requires h == S() && HeapInv(h)
      ensures var i := FirstFit(h, need, 0);
              && b == (if i < |h.fl| then h.fl[i] else NULL) && prev == (if i == 0 then NULL else h.fl[i - 1])
              && (i < |h.fl| ==> b != NULL && b in h.hdr && b in h.spans) && (i > 0 ==> prev != NULL && prev in h.hdr)
    {
      prev, b := NULL, first;
      ghost var i := 0;
      while b != NULL
        invariant i <= |h.fl| && b == (if i < |h.fl| then h.fl[i] else NULL)
        invariant prev == (if i == 0 then NULL else h.fl[i - 1])
        invariant FirstFit(h, need, 0) == FirstFit(h, need, i)
        invariant i > 0 ==> prev != NULL && prev in h.hdr
        decreases |h.fl| - i
      {
        ListBlock(h, i);
        // the magic is that of a free block: the panic is not reached
        assert !hdr[b].used;
        if hdr[b].size >= need { return; }
        prev, b := b, hdr[b].next;
        i := i + 1;
      }
      if i < |h.fl| { ListBlock(h, i); assert false; }
    }

    /** *prev = to. */
    method Relink(ghost h: H, ghost i: nat, prev: nat, to: nat)
      requires h == S() && i <= |h.fl| && prev == (if i == 0 then NULL else h.fl[i - 1])
      requires (i > 0 ==> prev != NULL && prev in h.hdr)
      modifies this`hdr, this`first
      ensures S() == SetSlot(h, i, to)
    {
      if prev == NULL {
        first := to;
      } else {
        hdr := hdr[prev := hdr[prev].(next := to)];
      }
    }

    /** Block b, position i of the list, is taken for need bytes. */
    method Take(ghost h: H, ghost i: nat, prev: nat, b: nat, need: nat)
      requires h == S() && i < |h.fl| && b == h.fl[i] && b in h.hdr && b in h.spans && h.hdr[b].size >= need > 0
      requires prev == (if i == 0 then NULL else h.fl[i - 1]) && (i > 0 ==> prev != NULL && prev in h.hdr)
      modifies this`hdr, this`first, this`fl, this`spans
      ensures S() == Taken(h, i, need)
    {
      var size, next := hdr[b].size, hdr[b].next;
      if size - need >= HDR + 16 {
        var c := b + need;
        hdr := hdr[c := Hdr(size - need, false, next)];
        Relink(h.(hdr := hdr), i, prev, c);
        hdr := hdr[b := Hdr(need, true, NULL)];
        fl := fl[i := c];
        spans := spans[b := need][c := size - need];
      } else {
        Relink(h, i, prev, next);
        hdr := hdr[b := Hdr(size, true, NULL)];
        fl := fl[..i] + fl[i + 1..];
      }
    }

    /** The new chunk becomes one free block in front of the list. */
    method AddChunk(ghost h: H)
      requires S() == h.(brk := h.brk + CHUNK)
      modifies this`hdr, this`first, this`fl, this`spans
      ensures S() == Grown(h)
    {
      var b := brk - CHUNK;
      hdr := hdr[b := Hdr(CHUNK, false, first)];
      first := b;
      fl := [b] + fl;
      spans := spans[b := CHUNK];
    }

    /** kmalloc's walk, and the taking of what it finds. */
    method Serve(ghost h: H, need: nat) returns (r: Outcome)
      requires h == S() && HeapInv(h) && need > 0
      modifies this`hdr, this`first, this`fl, this`spans
      ensures r.At? <==> FirstFit(h, need, 0) < |h.fl|
      ensures !r.At? ==> r == Null && S() == h
      ensures r.At? ==> Allocated(h, need, S(), r.p)
    {
      var prev, b := Find(h, need);
      if b == NULL { return Null; }
      Take(h, FirstFit(h, need, 0), prev, b, need);
      r := At(b + HDR);
    }

    method Refill(ghost h: H) returns (ok: bool)
      requires h == S()
      modifies this
      ensures ok <==> old(pages) >= SUPER_PAGES && h.brk + CHUNK <= LIMIT
      ensures ok ==> S() == Grown(h)
    {
      ok := Grow();
      if ok { AddChunk(h); }
    }

    /** kmalloc, and what its caller may rely on. */
    method Kmalloc(n: nat) returns (r: Outcome)
      requires HeapInv(S()) && n + HDR < 0x1_0000_0000_0000_0000
      modifies this
      ensures r == Null <==> n == 0 || n + HDR > HEAP_MAX
      ensures r == Null ==> S() == old(S())
      ensures r == Panic <==>
                && 0 < n <= HEAP_MAX - HDR && FirstFit(old(S()), n + HDR, 0) == |old(fl)|
                && !(old(pages) >= SUPER_PAGES && old(brk) + CHUNK <= LIMIT)
      ensures r.At? ==> Allocated(old(S()), n + HDR, S(), r.p) && HeapInv(S()) && Gives(old(S()), n, S(), r.p)
    {
      ghost var h := S();
      r := Allocate(h, n);
      if r.At? { AllocatedGives(h, n, S(), r.p); }
    }

    /** The body of kmalloc. */
    method Allocate(ghost h: H, n: nat) returns (r: Outcome)
      requires h == S() && HeapInv(h) && n + HDR < 0x1_0000_0000_0000_0000
      modifies this
      ensures r == Null <==> n == 0 || n + HDR > HEAP_MAX
      ensures r == Null ==> S() == h
      ensures r == Panic <==>
                && 0 < n <= HEAP_MAX - HDR && FirstFit(h, n + HDR, 0) == |h.fl|
                && !(old(pages) >= SUPER_PAGES && h.brk + CHUNK <= LIMIT)
      ensures r.At? ==> Allocated(h, n + HDR, S(), r.p)
      decreases if FirstFit(h, n + HDR, 0) < |h.fl| then 0 else 1, 1
    {
      if n == 0 || n + HDR > HEAP_MAX { return Null; }
      r := Serve(h, n + HDR);
      if !r.At? { r := GrowAndRetry(h, n); }
    }

    /** No block fits: grow and start again. */
    method GrowAndRetry(ghost h: H, n: nat) returns (r: Outcome)
      requires h == S() && HeapInv(h) && 0 < n <= HEAP_MAX - HDR && FirstFit(h, n + HDR, 0) == |h.fl|
      modifies this
      ensures r == if old(pages) >= SUPER_PAGES && h.brk + CHUNK <= LIMIT then At(h.brk + HDR) else Panic
      ensures r.At? ==> Allocated(h, n + HDR, S(), r.p)
      decreases 1, 0
    {
      var ok := Refill(h);
      if !ok { return Panic; }
      GrownServes(h, n + HDR);
      r := Allocate(Grown(h), n);
      AllocatedOnceGrown(h, n + HDR, S(), r.p);
    }

    /** The free list goes into the array, as far as there is room. */
    method Collect(ghost h: H, arr: array<nat>) returns (count: nat)
      requires first == h.first && fl == h.fl && Linked(hdr, first, h.fl) && NULL !in h.fl && arr.Length == SLOTS
      modifies arr
      ensures count == (if |h.fl| < SLOTS then |h.fl| else SLOTS) && arr[..count] == h.fl[..count]
    {
      count := 0;
      var it := first;
      while it != NULL && count < SLOTS
        invariant count <= |h.fl| && count <= SLOTS && arr[..count] == h.fl[..count]
        invariant it == (if count < |h.fl| then h.fl[count] else NULL)
        decreases |h.fl| - count
      {
        arr[count] := it;
        it := hdr[it].next;
        count := count + 1;
      }
      if count < |h.fl| { assert h.fl[count] in h.fl; }
    }

    /** kfree. Its array has room for the freed block exactly if the free list has fewer than SLOTS
        blocks. */
    method Kfree(p: nat) returns (r: FreeOutcome)
      requires HeapInv(S()) && (p != NULL ==> p >= HDR && p - HDR in hdr)
      modifies this`hdr, this`first, this`fl, this`spans
      ensures r == FreePanic <==> p != NULL && p - HDR !in Live(old(S()))
      ensures r == NoSlot <==> p != NULL && p - HDR in Live(old(S())) && |old(fl)| >= SLOTS
      ensures p == NULL || r == FreePanic ==> S() == old(S())
      ensures r == FreeOk && p != NULL ==> HeapInv(S()) && Freed(old(S()), p - HDR, S())
    {
      if p == NULL { return FreeOk; }
      ghost var h := S();
      var b := p - HDR;
      UsedIsLive(h, b);
      if !hdr[b].used { return FreePanic; }
      r := Release(h, b);
    }

    method Release(ghost h: H, b: nat) returns (r: FreeOutcome)
      requires h == S() && HeapInv(h) && b in h.hdr && b in Live(h)
      modifies this`hdr, this`first, this`fl, this`spans
      ensures r == if |h.fl| < SLOTS then FreeOk else NoSlot
      ensures r == FreeOk ==> HeapInv(S()) && Freed(h, b, S())
    {
      ReadyToMerge(h, b);
      hdr := hdr[b := hdr[b].(used := false)];
      var arr := new nat[SLOTS];
      var ok, count := Gather(h, b, arr);
      if !ok { return NoSlot; }
      Merge(h.(hdr := hdr), arr, count);
      MergedOk(h, b, SortOf(h.fl + [b]), S());
      r := FreeOk;
    }

    /** The free list and the freed block, in address order. */
    method Gather(ghost h: H, b: nat, arr: array<nat>) returns (ok: bool, count: nat)
      requires first == h.first && fl == h.fl && Linked(hdr, first, h.fl) && NULL !in h.fl && arr.Length == SLOTS
      modifies arr
      ensures ok <==> |h.fl| < SLOTS
      ensures ok ==> count == |h.fl| + 1 && count <= SLOTS && arr[..count] == SortOf(h.fl + [b])
    {
      count := Collect(h, arr);
      ok := count < arr.Length;
      if !ok { return; }
      arr[count] := b;
      count := count + 1;
      assert arr[..count] == h.fl + [b];
      InsertionSort(arr, count);
    }

    /** The merge: arr[..count] is in address order. */
    method Merge(ghost h: H, arr: array<nat>, count: nat)
      requires h.(first := first, fl := fl) == S() && count <= arr.Length && Sorted(arr[..count])
      requires Tiles(h.spans, BASE, h.brk) && Headed(h.hdr, Elems(arr[..count]), h.spans)
      modifies this`hdr, this`first, this`fl, this`spans
      ensures Tiles(spans, BASE, brk) && Merging(h.spans, Elems(arr[..count]), hdr, first, spans, fl, [])
      ensures brk == h.brk
    {
      ghost var s := arr[..count];
      StartMidway(h, s);
      first := NULL;
      fl := [];
      var tail := NULL;
      var i := 0;
      assert s[0..] == s;
      while i < count
        invariant i <= count && brk == h.brk && tail == Last(fl)
        invariant Midway(h.spans, Elems(s), hdr, first, spans, brk, fl, s[i..])
      {
        assert s[i..][0] == arr[i] && s[i..][1..] == s[i + 1..];
        tail := MergeNext(h.spans, Elems(s), s[i..], arr[i], tail);
        i := i + 1;
      }
      assert s[count..] == [];
      OpenMidway(h.spans, Elems(s), hdr, first, spans, brk, fl, []);
    }

    /** One round of the merge. */
    method MergeNext(ghost m0: map<nat, nat>, ghost free0: set<nat>, ghost rest: seq<nat>, cur: nat, tail: nat)
      returns (tail': nat)
      requires rest != [] && cur == rest[0] && tail == Last(fl) && Midway(m0, free0, hdr, first, spans, brk, fl, rest)
      modifies this`hdr, this`first, this`fl, this`spans
      ensures Midway(m0, free0, hdr, first, spans, brk, fl, rest[1..]) && tail' == Last(fl)
    {
      ListedBlock(m0, free0, hdr, first, spans, brk, fl, rest);
      if tail != NULL && tail + hdr[tail].size == cur {
        Widen(m0, free0, rest, cur, tail);
        tail' := tail;
      } else {
        Extend(m0, free0, rest, cur, tail);
        tail' := cur;
      }
    }

    method Widen(ghost m0: map<nat, nat>, ghost free0: set<nat>, ghost rest: seq<nat>, cur: nat, tail: nat)
      requires rest != [] && cur == rest[0] && fl != [] && tail == Last(fl)
      requires Midway(m0, free0, hdr, first, spans, brk, fl, rest)
      requires tail in spans && cur in spans && tail + spans[tail] == cur && tail in hdr && cur in hdr
      requires hdr[tail].size == spans[tail] && hdr[cur].size == spans[cur]
      modifies this`hdr, this`spans
      ensures Midway(m0, free0, hdr, first, spans, brk, fl, rest[1..])
    {
      WidenOk(m0, free0, hdr, first, spans, brk, fl, rest, tail);
      AddSizes(hdr, spans, cur, tail);
    }

    method AddSizes(ghost w: Words, ghost m: map<nat, nat>, cur: nat, tail: nat)
      requires w == hdr && m == spans && tail in w && cur in w && tail in m && cur in m && w[tail].size == m[tail]
      requires w[cur].size == m[cur]
      modifies this`hdr, this`spans
      ensures hdr == w[tail := w[tail].(size := m[tail] + m[cur])] && spans == Joined(m, tail, cur)
    {
      hdr := hdr[tail := hdr[tail].(size := hdr[tail].size + hdr[cur].size)];
      spans := Joined(spans, tail, cur);
    }

    method Extend(ghost m0: map<nat, nat>, ghost free0: set<nat>, ghost rest: seq<nat>, cur: nat, tail: nat)
      requires rest != [] && cur == rest[0] && cur in hdr && Midway(m0, free0, hdr, first, spans, brk, fl, rest)
      requires tail == Last(fl)
      requires (fl != [] ==> tail != NULL && tail in hdr && tail in spans && tail + spans[tail] != cur)
      modifies this`hdr, this`first, this`fl
      ensures Midway(m0, free0, hdr, first, spans, brk, fl, rest[1..]) && fl == old(fl) + [cur]
    {
      ghost var w, f, done := hdr, first, fl;
      LinkNext(w, done, cur, tail);
      fl := fl + [cur];
      ExtendOk(m0, free0, w, f, spans, brk, done, rest);
    }

    method LinkNext(ghost w: Words, ghost done: seq<nat>, cur: nat, tail: nat)
      requires hdr == w && cur in w && tail == Last(done) && (done != [] ==> tail != NULL && tail in w)
      modifies this`hdr, this`first
      ensures hdr == LinkedTo(w, done, cur) && first == if done == [] then cur else old(first)
    {
      hdr := hdr[cur := hdr[cur].(next := NULL)];
      if tail == NULL {
        first := cur;
      } else {
        hdr := hdr[tail := hdr[tail].(next := cur)];
      }
    }
  }

  ghost function Last(s: seq<nat>): nat { if s == [] then NULL else s[|s| - 1] }

  /** Once grown, the heap serves the request at once: kmalloc recurs at most once. */
  lemma GrownServes(h: H, need: nat)
    requires HeapInv(h) && h.brk + CHUNK <= LIMIT && need <= HEAP_MAX
    ensures HeapInv(Grown(h)) && FirstFit(Grown(h), need, 0) == 0
  {
    GrownOk(h);
    GrownFits(h, need);
  }

  /** The merge before the blocks in rest, over blocks that tile the heap; folded, OpenMidway unfolds it. */
  ghost predicate Midway(m0: map<nat, nat>, free0: set<nat>, w: Words, first: nat, m: map<nat, nat>, brk: nat,
                         done: seq<nat>, rest: seq<nat>)
  {
    forall u {:trigger Is(u, m)} :: Is(u, m) ==> Tiles(u, BASE, brk) && Merging(m0, free0, w, first, u, done, rest)
  }

  lemma OpenMidway(m0: map<nat, nat>, free0: set<nat>, w: Words, first: nat, m: map<nat, nat>, brk: nat, done: seq<nat>,
                   rest: seq<nat>)
    requires Midway(m0, free0, w, first, m, brk, done, rest)
    ensures Tiles(m, BASE, brk) && Merging(m0, free0, w, first, m, done, rest)
  {
    assert Is(m, m);
  }

  lemma StartMidway(h: H, s: seq<nat>)
    requires Sorted(s) && Tiles(h.spans, BASE, h.brk) && Headed(h.hdr, Elems(s), h.spans)
    ensures Midway(h.spans, Elems(s), h.hdr, NULL, h.spans, h.brk, [], s)
  {
    assert [] + s == s;
  }

  /** The blocks that the merge looks at have headers, and the next one lies behind the last. */
  lemma ListedBlock(m0: map<nat, nat>, free0: set<nat>, w: Words, first: nat, m: map<nat, nat>, brk: nat,
                    done: seq<nat>, rest: seq<nat>)
    requires rest != [] && Midway(m0, free0, w, first, m, brk, done, rest)
    ensures rest[0] in w && rest[0] in m && w[rest[0]].size == m[rest[0]] && rest[0] != NULL
    ensures done != [] ==> var t := done[|done| - 1]; t in w && t in m && w[t].size == m[t] && t != NULL && t != rest[0]
  {
    OpenMidway(m0, free0, w, first, m, brk, done, rest);
    ElemsRest(done, rest);
  }

  lemma ExtendOk(m0: map<nat, nat>, free0: set<nat>, w: Words, first: nat, m: map<nat, nat>, brk: nat, done: seq<nat>,
                 rest: seq<nat>)
    requires rest != [] && rest[0] in w && Midway(m0, free0, w, first, m, brk, done, rest)
    requires done != [] ==> var t := done[|done| - 1]; t in w && t in m && t + m[t] != rest[0]
    ensures var head := if done == [] then rest[0] else first;
            Midway(m0, free0, LinkedTo(w, done, rest[0]), head, m, brk, done + [rest[0]], rest[1..])
  {
    OpenMidway(m0, free0, w, first, m, brk, done, rest);
    ListedHeaders(w, m, done, rest);
    NextIsLinked(w, done, rest);
    Append(m0, free0, w, LinkedTo(w, done, rest[0]), first, m, done, rest);
  }

  lemma ListedHeaders(w: Words, m: map<nat, nat>, done: seq<nat>, rest: seq<nat>)
    requires Headed(w, Elems(done + rest), m)
    ensures forall j :: 0 <= j < |done| ==> done[j] in w
  {
    forall j | 0 <= j < |done| ensures done[j] in w {
      assert (done + rest)[j] in Elems(done + rest);
    }
  }

  ghost function LinkedTo(w: Words, done: seq<nat>, c: nat): Words
    requires c in w && (done != [] ==> done[|done| - 1] in w)
  {
    var w1 := w[c := w[c].(next := NULL)];
    if done == [] then w1 else w1[done[|done| - 1] := w1[done[|done| - 1]].(next := c)]
  }

  lemma NextIsLinked(w: Words, done: seq<nat>, rest: seq<nat>)
    requires rest != [] && Sorted(done + rest) && rest[0] in w && forall j :: 0 <= j < |done| ==> done[j] in w
    ensures LinkedBehind(w, LinkedTo(w, done, rest[0]), done, rest[0])
  {
    var q := done + rest;
    assert q[|done|] == rest[0] && forall j :: 0 <= j < |done| ==> q[j] == done[j];
  }

  lemma WidenOk(m0: map<nat, nat>, free0: set<nat>, w: Words, first: nat, m: map<nat, nat>, brk: nat, done: seq<nat>,
                rest: seq<nat>, t: nat)
    requires Midway(m0, free0, w, first, m, brk, done, rest) && rest != [] && done != [] && t == Last(done)
    requires t in w && t in m && rest[0] in m && t + m[t] == rest[0]
    ensures var w' := w[t := w[t].(size := m[t] + m[rest[0]])];
            Midway(m0, free0, w', first, Joined(m, t, rest[0]), brk, done, rest[1..])
  {
    OpenMidway(m0, free0, w, first, m, brk, done, rest);
    JoinTiles(m, BASE, brk, t, rest[0]);
    Absorb(m0, free0, w, first, m, done, rest, t);
  }

  lemma AllocatedOnceGrown(h: H, need: nat, h': H, p: nat)
    requires FirstFit(h, need, 0) == |h.fl| && FirstFit(Grown(h), need, 0) == 0 && Allocated(Grown(h), need, h', p)
    ensures Allocated(h, need, h', p) && p == h.brk + HDR
  {
  }

  /** The sort of kfree, in place. */
  method InsertionSort(arr: array<nat>, count: nat)
    requires count <= arr.Length
    modifies arr
    ensures arr[..count] == SortOf(old(arr[..count]))
    ensures Ascending(arr[..count]) && multiset(arr[..count]) == multiset(old(arr[..count]))
  {
    ghost var a := arr[..count];
    SortAscends(a);
    var i := 1;
    if count > 0 { SortOne(a); }
    while i < count
      invariant count > 0 ==> 1 <= i <= count && arr[..i] == SortOf(a[..i])
      invariant forall k :: i <= k < count ==> arr[k] == a[k]
    {
      SortNext(a, i);
      InsertAt(arr, i);
      i := i + 1;
    }
    assert a[..count] == a;
    assert count == 0 ==> arr[..count] == [] == SortOf(a);
  }

  lemma SortOne(a: seq<nat>)
    requires a != []
    ensures SortOf(a[..1]) == a[..1]
  {
    assert a[..1] == [a[0]] && a[..1][..0] == [];
  }

  lemma SortNext(a: seq<nat>, i: nat)
    requires i < |a|
    ensures SortOf(a[..i + 1]) == Insert(SortOf(a[..i]), a[i])
  {
    assert a[..i + 1][..i] == a[..i];
  }

  /** One round: the key moves left past every larger element. */
  method InsertAt(arr: array<nat>, i: nat)
    requires 0 < i < arr.Length
    modifies arr
    ensures arr[..i + 1] == Insert(old(arr[..i]), old(arr[i]))
    ensures forall k :: i < k < arr.Length ==> arr[k] == old(arr[k])
  {
    ghost var s := arr[..i];
    var key := arr[i];
    var j := i - 1;
    while j >= 0 && arr[j] > key
      invariant -1 <= j < i
      invariant forall k :: 0 <= k <= j ==> arr[k] == s[k]
      invariant forall k :: j < k < i ==> arr[k + 1] == s[k] && s[k] > key
      invariant forall k :: i < k < arr.Length ==> arr[k] == old(arr[k])
    {
      arr[j + 1] := arr[j];
      j := j - 1;
    }
    arr[j + 1] := key;
    Inserted(arr[..i + 1], s, key, j + 1);
  }

  lemma Inserted(a: seq<nat>, s: seq<nat>, key: nat, j: nat)
    requires |a| == |s| + 1 && j <= |s| && a[j] == key && (j > 0 ==> s[j - 1] <= key)
    requires forall k :: 0 <= k < j ==> a[k] == s[k]
    requires forall k :: j <= k < |s| ==> a[k + 1] == s[k] && s[k] > key
    ensures a == Insert(s, key)
  {
    InsertShift(s, key, j);
    var r := s[..j] + [key] + s[j..];
    assert forall k :: 0 <= k < |a| ==> a[k] == r[k] by {
      forall k | 0 <= k < |a| ensures a[k] == r[k] {
        if k > j { assert a[(k - 1) + 1] == s[k - 1]; }
      }
    }
  }

  lemma UsedIsLive(h: H, b: nat)
    requires HeapInv(h) && b in h.hdr
    ensures h.hdr[b].used <==> b in Live(h)
  {
  }

  lemma ReadyToMerge(h: H, b: nat)
    requires HeapInv(h) && b in Live(h) && b in h.hdr
    ensures Sorted(SortOf(h.fl + [b])) && Elems(SortOf(h.fl + [b])) == Elems(h.fl) + {b}
    ensures var w := h.hdr[b := h.hdr[b].(used := false)];
            Headed(w, Elems(SortOf(h.fl + [b])), h.spans) && Linked(w, h.first, h.fl) && NULL !in h.fl
  {
    assert b !in Elems(h.fl) && NULL !in Elems(h.fl);
    SortSorts(h.fl + [b]);
    ElemsAppend(h.fl, b);
    HeadedFree(h.hdr, Elems(h.fl), h.spans, b);
  }

  lemma HeadedFree(w: Words, free: set<nat>, m: map<nat, nat>, b: nat)
    requires Headed(w, free, m) && b in m
    ensures Headed(w[b := w[b].(used := false)], free + {b}, m)
  {
  }

  /** What the merge leaves is what kfree promises. */
  lemma MergedOk(h: H, b: nat, s: seq<nat>, h': H)
    requires HeapInv(h) && b in Live(h) && Elems(s) == Elems(h.fl) + {b} && h'.brk == h.brk
    requires Tiles(h'.spans, BASE, h'.brk) && Merging(h.spans, Elems(s), h'.hdr, h'.first, h'.spans, h'.fl, [])
    ensures HeapInv(h') && Freed(h, b, h')
  {
    assert h'.fl + [] == h'.fl;
    MergedInv(h, s, h');
    MergedFreed(h, b, s, h');
  }

  lemma MergedInv(h: H, s: seq<nat>, h': H)
    requires BASE < h.brk <= LIMIT && h'.brk == h.brk
    requires Tiles(h'.spans, BASE, h'.brk) && MergeList(h'.hdr, h'.first, h'.spans, h'.fl, [])
    requires Headed(h'.hdr, Elems(h'.fl), h'.spans)
    ensures HeapInv(h') && Sorted(h'.fl) && Gaps(h'.spans, h'.fl)
  {
    assert h'.fl + [] == h'.fl;
  }

  lemma MergedFreed(h: H, b: nat, s: seq<nat>, h': H)
    requires Elems(h.fl) <= h.spans.Keys && b in Live(h) && Elems(s) == Elems(h.fl) + {b}
    requires SameBytes(h.spans, Elems(s), h'.spans, Elems(h'.fl))
    requires Sorted(h'.fl) && Gaps(h'.spans, h'.fl) && h'.brk == h.brk
    ensures Freed(h, b, h')
  {
    assert Live(h') == Live(h) - {b};
    forall x: nat ensures IsFree(h', x) <==> IsFree(h, x) || Holds(h.spans, b, x) {
      OneMoreBlock(h.spans, Elems(h.fl), b, x);
    }
  }

  lemma OneMoreBlock(m: map<nat, nat>, free: set<nat>, b: nat, x: nat)
    ensures InAny(m, free + {b}, x) <==> InAny(m, free, x) || Holds(m, b, x)
  {
    if a :| a in free && Holds(m, a, x) { assert a in free + {b}; }
    if Holds(m, b, x) { assert b in free + {b}; }
  }

  lemma InitOk(h: H)
    requires h == H(map[BASE := Hdr(CHUNK, false, NULL)], BASE, BASE + CHUNK, [BASE], map[BASE := CHUNK])
    ensures HeapInv(h) && Live(h) == {}
  {
    forall x: nat | BASE <= x < h.brk ensures Inside(h.spans, x) { assert Holds(h.spans, BASE, x); }
    assert BASE in h.fl;
  }

  lemma ListBlock(h: H, i: nat)
    requires HeapInv(h) && i < |h.fl|
    ensures h.fl[i] in h.spans && h.fl[i] in h.hdr && h.fl[i] != NULL && !h.hdr[h.fl[i]].used
    ensures h.hdr[h.fl[i]].size == h.spans[h.fl[i]]
    ensures h.hdr[h.fl[i]].next == if i + 1 < |h.fl| then h.fl[i + 1] else NULL
  {
    assert h.fl[i] in Elems(h.fl);
  }
}
