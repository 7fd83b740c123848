/** A sequence of calls after which kfree's array has no slot for the block being freed
    (core/memory/heap.c:94-109). */
module Fragments {
  import opened Blocks
  import opened Heap

  const SIZE: nat := 32
  const BLOCKS: nat := 514

  function Addr(j: nat): nat { BASE + j * SIZE }

  /** Block j is in use. */
  ghost predicate InUse(h: H, j: nat)
  {
    Addr(j) in Live(h) && h.spans[Addr(j)] == SIZE
  }

  /** k blocks have been cut off the front of the first chunk. */
  ghost predicate Row(h: H, k: nat)
  {
    && HeapInv(h) && h.fl == [Addr(k)] && Addr(k) in h.spans && h.spans[Addr(k)] == CHUNK - k * SIZE
    && forall j :: 0 <= j < k ==> InUse(h, j)
  }

  /** Of 514 blocks, the first n with odd numbers have been freed. */
  ghost predicate Comb(h: H, n: nat)
  {
    && HeapInv(h)
    && (forall i :: 0 <= i < n ==> Addr(2 * i + 1) in h.fl)
    && (forall i :: 0 <= i <= SLOTS ==> InUse(h, 2 * i))
    && (forall i :: n <= i <= SLOTS ==> InUse(h, 2 * i + 1))
  }

  lemma LiveByteNotFree(h: H, e: nat, x: nat)
    requires HeapInv(h) && e in Live(h) && Holds(h.spans, e, x)
    ensures !IsFree(h, x)
  {
  }

  /** A free byte behind a byte in use starts a block of the list. */
  lemma StartsBlock(h: H, a: nat, e: nat)
    requires HeapInv(h) && IsFree(h, a) && e in Live(h) && 0 < a && Holds(h.spans, e, a - 1)
    ensures a in h.fl
  {
    LiveByteNotFree(h, e, a - 1);
    assert forall c :: c in Elems(h.fl) ==> !Holds(h.spans, c, a - 1);
  }

  /** A block behind one in use stays in the list, or gets into it. */
  lemma Listed(h: H, b: nat, h': H, a: nat, e: nat)
    requires HeapInv(h) && HeapInv(h') && Freed(h, b, h') && (a in Elems(h.fl) || a == b) && b in Live(h)
    requires e in Live(h) && e != b && e + h.spans[e] == a
    ensures a in h'.fl
  {
    assert Holds(h.spans, a, a);
    assert IsFree(h', a);
    StartsBlock(h', a, e);
  }

  lemma CombNext(h: H, h': H, n: nat)
    requires Comb(h, n) && n < SLOTS && HeapInv(h') && Freed(h, Addr(2 * n + 1), h')
    ensures Comb(h', n + 1)
  {
    forall i | 0 <= i < n + 1 ensures Addr(2 * i + 1) in h'.fl {
      assert InUse(h, 2 * i) && InUse(h, 2 * n + 1);
      Listed(h, Addr(2 * n + 1), h', Addr(2 * i + 1), Addr(2 * i));
    }
    forall i | 0 <= i <= SLOTS ensures InUse(h', 2 * i) {
      assert InUse(h, 2 * i);
    }
    forall i | n + 1 <= i <= SLOTS ensures InUse(h', 2 * i + 1) {
      assert InUse(h, 2 * i + 1);
    }
  }

  lemma CombStarts(h: H)
    requires Row(h, BLOCKS)
    ensures Comb(h, 0)
  {
    forall i | 0 <= i <= SLOTS ensures InUse(h, 2 * i) && InUse(h, 2 * i + 1) {
    }
  }

  ghost function Odds(n: nat): (s: set<nat>)
    ensures |s| == n && forall a :: a in s ==> a < Addr(2 * n)
  {
    if n == 0 then {} else Odds(n - 1) + {Addr(2 * n - 1)}
  }

  lemma {:induction false} OddsListed(h: H, n: nat)
    requires forall i :: 0 <= i < n ==> Addr(2 * i + 1) in h.fl
    ensures Odds(n) <= Elems(h.fl)
  {
    if n > 0 {
      OddsListed(h, n - 1);
      assert Addr(2 * (n - 1) + 1) in h.fl;
    }
  }

  lemma {:induction false} FewElems(s: seq<nat>)
    ensures |Elems(s)| <= |s|
  {
    if s != [] {
      var n := |s| - 1;
      FewElems(s[..n]);
      assert s == s[..n] + [s[n]];
      assert Elems(s) == Elems(s[..n]) + {s[n]};
    }
  }

  lemma ManyListed(h: H, n: nat)
    requires Comb(h, n)
    ensures |h.fl| >= n
  {
    OddsListed(h, n);
    FewElems(h.fl);
    var rest := Elems(h.fl) - Odds(n);
    assert Elems(h.fl) == Odds(n) + rest;
  }

  /** One more block cut off. */
  lemma RowNext(h: H, h': H, p: nat, k: nat)
    requires Row(h, k) && k < BLOCKS && Allocated(h, SIZE, h', p) && HeapInv(h')
    ensures p == Addr(k) + HDR && Row(h', k + 1)
  {
    ListBlock(h, 0);
    var b, c := Addr(k), Addr(k + 1);
    assert FirstFit(h, SIZE, 0) == 0;
    assert h'.fl == [c] && h'.spans == h.spans[b := SIZE][c := CHUNK - k * SIZE - SIZE];
    forall j | 0 <= j < k + 1 ensures InUse(h', j) {
      if j < k { assert InUse(h, j); }
    }
  }

  lemma RowServes(h: H, k: nat)
    requires Row(h, k) && k < BLOCKS
    ensures FirstFit(h, SIZE, 0) == 0
  {
    ListBlock(h, 0);
  }

  lemma HasHeader(h: H, a: nat)
    requires HeapInv(h) && a in Live(h)
    ensures a in h.hdr && a >= BASE
  {
  }

  /** 514 blocks of 16 bytes are allocated. */
  method AllocateAll() returns (heap: Heap)
    ensures fresh(heap) && Row(heap.S(), BLOCKS)
  {
    heap := new Heap(SUPER_PAGES);
    var ok := heap.Init();
    var k := 0;
    while k < BLOCKS
      invariant k <= BLOCKS && Row(heap.S(), k)
    {
      ghost var h := heap.S();
      RowServes(h, k);
      var r := heap.Kmalloc(SIZE - HDR);
      RowNext(h, heap.S(), r.p, k);
      k := k + 1;
    }
  }

  /** Every other one is freed until there is no slot left. */
  method FreeEveryOther() returns (r: FreeOutcome)
    ensures r == NoSlot
  {
    var heap := AllocateAll();
    CombStarts(heap.S());
    var n := 0;
    while true
      invariant n <= SLOTS && Comb(heap.S(), n)
      decreases SLOTS - n
    {
      ghost var h := heap.S();
      assert InUse(h, 2 * n + 1);
      HasHeader(h, Addr(2 * n + 1));
      ManyListed(h, n);
      r := heap.Kfree(Addr(2 * n + 1) + HDR);
      if r == NoSlot { return; }
      CombNext(h, heap.S(), n);
      n := n + 1;
    }
  }
}
