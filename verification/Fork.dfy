/** Fork (core/memory/vmm.c:213-274) as a relation between states: what copying the entries
    lo..hi of one table into its counterpart in the child does, step by step. */
module Fork {
  import opened Common
  import opened PageTables
  import P = Pmm

  /** The copy-on-write form of an entry of a table at the given level. */
  function CowWord(e: Word, level: nat): Word
  {
    if IsLeaf(e, level) && e.u then e.(w := false, cow := true) else e
  }

  /** A user leaf l is shared as l': the same page, read-only and marked. Any other stays as it is. */
  predicate SharedAs(l: Leaf, l': Leaf)
  {
    if l.Mapped? && l.entry.u then l' == Mapped(l.entry.(w := false, cow := true), l.level) else l' == l
  }

  /** dst is the counterpart of src in another space. 1 GiB pages, which fork_table would take
      for tables, do not occur in the parent. */
  ghost predicate Pair(x: St, src: nat, dst: nat)
  {
    && src in x.own && dst in x.own
    && (UserPos(x.own[src]) || x.own[src].Root?)
    && x.own[dst] == Rebase(x.own[src], x.own[dst].space)
    && x.own[dst].space != x.own[src].space
    && x.own[dst].space != KERNEL
    && NoHuge(x, x.own[src].space)
  }

  /** No 1 GiB leaf in the user half of the space. */
  ghost predicate NoHuge(x: St, space: nat)
  {
    forall p, i :: p in x.own && p < |x.m| && 0 <= i < 512 && x.own[p].space == space ==>
                     UserPos(x.own[p]) && Level(x.own[p]) == 2 ==> !IsLeaf(x.m[p][i], 2)
  }

  /** How the sharers and the stored counts move together, with saturation. */
  ghost predicate Counted(x: St, y: St)
  {
    forall f: nat ::
      && Sharers(x, f) <= Sharers(y, f)
      && (Sharers(x, f) == {} ==> Sharers(y, f) == {})
      && (f < x.total ==> y.Stored(f) == Min(REF_MAX, x.Stored(f) + |Sharers(y, f)| - |Sharers(x, f)|))
  }

  function Min(a: int, b: int): int { if a < b then a else b }

  /** The free pages that are gone are the new tables and, if the first counts have been stored, the
      lowest run that holds the array among those left. */
  ghost predicate Spends(x: St, y: St)
  {
    && (x.refs != [] ==> y.refs != [])
    && if x.refs != [] || y.refs == [] then forall p: nat :: p in y.free <==> p in x.free && p !in y.own
       else P.ArrayTaken(x.free - y.own.Keys, y.free, x.total) && exists f: nat :: y.Stored(f) > 0
  }

  /** The same, folded: OpenSpent unfolds it. */
  ghost predicate Spent(x: St, y: St)
  {
    forall u, v {:trigger Is((u, v), (x, y))} :: Is((u, v), (x, y)) ==> Spends(u, v)
  }

  lemma OpenSpent(x: St, y: St)
    requires Spent(x, y)
    ensures Spends(x, y)
  {
    assert Is((x, y), (x, y));
  }

  lemma SpentSelf(x: St)
    requires Base(x)
    ensures Spent(x, x)
  {
  }

  /** No table is added, and a count is stored perhaps. */
  lemma SpentOnce(x: St, y: St, f: nat)
    requires Base(x) && y.own == x.own && (x.refs != [] || y.refs == [] ==> y.free == x.free && |y.refs| == |x.refs|)
    requires x.refs == [] && y.refs != [] ==> P.ArrayTaken(x.free, y.free, x.total) && y.Stored(f) > 0
    ensures Spent(x, y)
  {
    assert x.free - y.own.Keys == x.free;
  }

  /** Two stretches of a fork, with counts that only grow. */
  lemma SpentTwice(x: St, y: St, z: St)
    requires Spent(x, y) && Spent(y, z) && y.total == x.total && z.free <= y.free <= x.free
    requires y.own.Keys <= z.own.Keys && z.own.Keys - y.own.Keys <= y.free
    requires y.free !! y.own.Keys && z.free !! z.own.Keys
    requires forall f: nat :: y.Stored(f) <= z.Stored(f)
    ensures Spent(x, z)
  {
    OpenSpent(x, y);
    OpenSpent(y, z);
    if x.refs == [] && z.refs != [] {
      if y.refs == [] {
        assert x.free - z.own.Keys == y.free - z.own.Keys;
      } else {
        ArrayStays(x.free - y.own.Keys, y.free, x.free - z.own.Keys, z.free, x.total);
      }
    }
  }

  /** The array's run stays the lowest when fewer pages are left beside it. */
  lemma ArrayStays(free: set<nat>, rest: set<nat>, free': set<nat>, rest': set<nat>, total: nat)
    requires P.ArrayTaken(free, rest, total) && free' <= free && rest' <= rest
    requires forall p: nat :: p in free && p !in rest ==> p in free' && p !in rest'
    requires forall p: nat :: p in rest ==> (p in free' <==> p in rest')
    ensures P.ArrayTaken(free', rest', total)
  {
    var n := P.RefPages(total);
    var at: nat :| P.LowestRun(free, at, n) && P.RunTaken(free, rest, at, n);
    forall f: nat | P.RunAt(free', f, n) ensures at <= f {
      assert P.RunAt(free, f, n);
    }
    assert P.LowestRun(free', at, n) && P.RunTaken(free', rest', at, n);
  }

  /** Labels are only added, for pages that were free, below dst through entries lo..hi. */
  ghost predicate Grown(x: St, y: St, dst: nat, lo: nat, hi: nat)
    requires dst in x.own
  {
    && y.total == x.total && |y.m| == |x.m|
    && y.free <= x.free
    && (forall p :: p in x.own ==> p in y.own && y.own[p] == x.own[p])
    && (forall p :: p in y.own && p !in x.own ==> p in x.free && Under(y.own[p], x.own[dst], lo, hi) && Linked(y, p))
  }

  ghost predicate Untouched(x: St, src: nat, dst: nat, lo: nat, hi: nat, p: nat)
    requires src in x.own
  {
    p != src && p != dst && p !in x.free && !(p in x.own && Under(x.own[p], x.own[src], lo, hi))
  }

  /** Outside dst, the only change to a present entry is to its copy-on-write form. */
  ghost predicate Softened(x: St, y: St, dst: nat)
    requires |y.m| == |x.m|
  {
    forall p, i :: p in x.own && p < |x.m| && 0 <= i < 512 && p != dst ==>
                     y.m[p][i] == x.m[p][i] || y.m[p][i] == CowWord(x.m[p][i], Level(x.own[p]))
  }

  /** The pages that change: src and dst in entries lo..hi, tables below src through those
      entries, and pages that were free. */
  ghost predicate Framed(x: St, y: St, src: nat, dst: nat, lo: nat, hi: nat)
    requires src in x.own && dst in x.own
  {
    && |y.m| == |x.m|
    && (forall p :: 0 <= p < |x.m| && Untouched(x, src, dst, lo, hi, p) ==> y.m[p] == x.m[p])
    && (src < |x.m| ==> forall i :: 0 <= i < 512 && !(lo <= i < hi) ==> y.m[src][i] == x.m[src][i])
    && (dst < |x.m| ==> forall i :: 0 <= i < 512 && !(lo <= i < hi) ==> y.m[dst][i] == x.m[dst][i])
    && Softened(x, y, dst)
  }

  /** Both walks of va below src and dst end in the old leaf, now shared. The entries above it grant what
      they did, but that the copies of tables carry no no-execute bit. */
  ghost predicate WalksAs(x: St, y: St, src: nat, dst: nat, va: nat)
    requires src in x.own
  {
    var level := Level(x.own[src]);
    && SharedAs(Walk(x.m, src, level, va), Walk(y.m, src, level, va))
    && Walk(y.m, dst, level, va) == Walk(y.m, src, level, va)
    && Above(y.m, src, level, va) == Above(x.m, src, level, va)
    && Above(y.m, dst, level, va) == Above(x.m, src, level, va).(x := true)
  }

  /** va's walk passes through table src by one of the entries lo..hi. */
  ghost predicate Through(x: St, src: nat, va: nat, lo: nat, hi: nat)
    requires src in x.own
  {
    var level := Level(x.own[src]);
    x.own[src] == At(x.own[src].space, va, level) && lo <= Index(va, level) < hi
  }

  /** Entries lo..hi of src have been copied into dst. */
  ghost predicate Forked(x: St, y: St, src: nat, dst: nat, lo: nat, hi: nat)
  {
    && Pair(x, src, dst)
    && Base(y)
    && Grown(x, y, dst, lo, hi)
    && Framed(x, y, src, dst, lo, hi)
    && Counted(x, y)
    && Spent(x, y)
    && (SmallPages(x) ==> SmallPages(y))
    && forall va: nat :: Through(x, src, va, lo, hi) ==> WalksAs(x, y, src, dst, va)
  }

  /** Walks from src through entries outside lo..hi do not notice the copying. */
  lemma WalkOutside(x: St, y: St, src: nat, dst: nat, lo: nat, hi: nat, va: nat)
    requires Base(x) && Pair(x, src, dst) && Framed(x, y, src, dst, lo, hi)
    requires Through(x, src, va, 0, 512) && !Through(x, src, va, lo, hi) && (x.own[src].Root? ==> UserVa(va))
    ensures Walk(y.m, src, Level(x.own[src]), va) == Walk(x.m, src, Level(x.own[src]), va)
    ensures Walk(y.m, dst, Level(x.own[src]), va) == Walk(x.m, dst, Level(x.own[src]), va)
    ensures Above(y.m, src, Level(x.own[src]), va) == Above(x.m, src, Level(x.own[src]), va)
    ensures Above(y.m, dst, Level(x.own[src]), va) == Above(x.m, dst, Level(x.own[src]), va)
  {
    var level := Level(x.own[src]);
    var s, d := x.own[src].space, x.own[dst].space;
    assert PosOk(x, src) && PosOk(x, dst);
    forall p | p in x.own && Level(x.own[p]) <= level && x.own[p] == At(s, va, Level(x.own[p]))
      ensures y.m[p][Index(va, Level(x.own[p]))] == x.m[p][Index(va, Level(x.own[p]))]
    {
    }
    WalkAgree(x.m, y.m, x.own, s, va, src, level);
    assert At(d, va, level) == x.own[dst];
    WalkAgree(x.m, y.m, x.own, d, va, dst, level);
  }

  lemma LinkedStays(x: St, y: St, p: nat)
    requires Base(x) && Base(y) && p in x.own && Linked(x, p)
    requires forall q :: q in x.own ==> q in y.own && y.own[q] == x.own[q]
    requires |y.m| == |x.m|
    requires forall q, i :: q in x.own && 0 <= i < 512 && Interior(x.m[q][i], Level(x.own[q])) ==>
             y.m[q][i] == x.m[q][i]
    ensures Linked(y, p)
  {
    var q, i :| EntryTo(x, q, i, p);
    assert EntryTo(y, q, i, p);
  }

  /** Interior entries never change: only entries that were absent or leaves do. */
  lemma InteriorStays(x: St, y: St, src: nat, dst: nat, lo: nat, hi: nat)
    requires Base(x) && Pair(x, src, dst) && Framed(x, y, src, dst, lo, hi)
    requires forall i :: lo <= i < hi && i < 512 ==> x.m[dst][i] == ZERO
    ensures forall q, i :: q in x.own && 0 <= i < 512 && Interior(x.m[q][i], Level(x.own[q])) ==> y.m[q][i] == x.m[q][i]
  {
    forall q, i | q in x.own && 0 <= i < 512 && Interior(x.m[q][i], Level(x.own[q])) ensures y.m[q][i] == x.m[q][i] {
    }
  }

  lemma Compose(x: St, y: St, z: St, src: nat, dst: nat, lo: nat, mid: nat, hi: nat)
    requires Base(x) && Forked(x, y, src, dst, lo, mid) && Forked(y, z, src, dst, mid, hi)
    requires lo <= mid <= hi && (x.own[src].Root? ==> hi <= 256)
    requires forall i :: lo <= i < hi && i < 512 ==> x.m[dst][i] == ZERO
    ensures Forked(x, z, src, dst, lo, hi)
  {
    ComposeGrown(x, y, z, src, dst, lo, mid, hi);
    ComposeFramed(x, y, z, src, dst, lo, mid, hi);
    ComposeCounted(x, y, z);
    ComposeSpent(x, y, z, src, dst, lo, mid, hi);
    forall va: nat | Through(x, src, va, lo, hi) ensures WalksAs(x, z, src, dst, va) {
      assert Through(y, src, va, lo, hi);
      if Index(va, Level(x.own[src])) < mid {
        assert Through(x, src, va, lo, mid);
        WalkOutside(y, z, src, dst, mid, hi, va);
      } else {
        assert Through(y, src, va, mid, hi);
        WalkOutside(x, y, src, dst, lo, mid, va);
      }
    }
  }

  lemma ComposeGrown(x: St, y: St, z: St, src: nat, dst: nat, lo: nat, mid: nat, hi: nat)
    requires Base(x) && Forked(x, y, src, dst, lo, mid) && Forked(y, z, src, dst, mid, hi)
    requires lo <= mid <= hi
    requires forall i :: lo <= i < hi && i < 512 ==> x.m[dst][i] == ZERO
    ensures Grown(x, z, dst, lo, hi)
  {
    forall p | p in z.own && p !in x.own ensures p in x.free && Under(z.own[p], x.own[dst], lo, hi) && Linked(z, p) {
      if p in y.own {
        InteriorStays(y, z, src, dst, mid, hi);
        LinkedStays(y, z, p);
      }
    }
  }

  lemma ComposeFramed(x: St, y: St, z: St, src: nat, dst: nat, lo: nat, mid: nat, hi: nat)
    requires Base(x) && Forked(x, y, src, dst, lo, mid) && Forked(y, z, src, dst, mid, hi)
    requires lo <= mid <= hi
    ensures Framed(x, z, src, dst, lo, hi)
  {
    forall p | 0 <= p < |x.m| && Untouched(x, src, dst, lo, hi, p) ensures z.m[p] == x.m[p] {
      assert Untouched(x, src, dst, lo, mid, p);
      assert Untouched(y, src, dst, mid, hi, p);
    }
  }

  lemma ComposeCounted(x: St, y: St, z: St)
    requires Counted(x, y) && Counted(y, z) && y.total == x.total
    ensures Counted(x, z)
  {
    forall f: nat
      ensures Sharers(x, f) <= Sharers(z, f)
      ensures Sharers(x, f) == {} ==> Sharers(z, f) == {}
      ensures f < x.total ==> z.Stored(f) == Min(REF_MAX, x.Stored(f) + |Sharers(z, f)| - |Sharers(x, f)|)
    {
      assert Sharers(x, f) <= Sharers(y, f) <= Sharers(z, f);
      SubsetSize(Sharers(y, f), Sharers(z, f));
    }
  }

  lemma ComposeSpent(x: St, y: St, z: St, src: nat, dst: nat, lo: nat, mid: nat, hi: nat)
    requires Base(x) && Forked(x, y, src, dst, lo, mid) && Forked(y, z, src, dst, mid, hi)
    ensures Spent(x, z)
  {
    forall f: nat ensures y.Stored(f) <= z.Stored(f) {
      assert Sharers(y, f) <= Sharers(z, f);
      SubsetSize(Sharers(y, f), Sharers(z, f));
    }
    SpentTwice(x, y, z);
  }

  lemma NothingForked(x: St, src: nat, dst: nat)
    requires Base(x) && Pair(x, src, dst)
    ensures Forked(x, x, src, dst, 0, 0)
  {
    SpentSelf(x);
  }

  lemma PairStays(x: St, y: St, src: nat, dst: nat, lo: nat, hi: nat)
    requires Base(x) && Forked(x, y, src, dst, lo, hi)
    ensures Pair(y, src, dst)
  {
    var s := x.own[src].space;
    forall p, i | && p in y.own && p < |y.m| && 0 <= i < 512
                  && y.own[p].space == s && UserPos(y.own[p]) && Level(y.own[p]) == 2
      ensures !IsLeaf(y.m[p][i], 2)
    {
      assert p in x.own && p != dst;
      assert !IsLeaf(x.m[p][i], 2);
    }
  }

  /** One turn of the copying loop. */
  lemma OneMore(x: St, y: St, z: St, src: nat, dst: nat, i: nat)
    requires Base(x) && Forked(x, y, src, dst, 0, i) && Forked(y, z, src, dst, i, i + 1)
    requires i < 512 && (x.own[src].Root? ==> i < 256)
    requires forall k :: 0 <= k <= i ==> x.m[dst][k] == ZERO
    ensures Forked(x, z, src, dst, 0, i + 1) && Pair(z, src, dst)
  {
    PairStays(y, z, src, dst, i, i + 1);
    Compose(x, y, z, src, dst, 0, i, i + 1);
  }

  /** Nothing was mapped by entry i of src: nothing is copied. */
  lemma AbsentStep(x: St, src: nat, dst: nat, i: nat)
    requires Base(x) && Pair(x, src, dst) && i < 512 && x.m[dst][i] == ZERO && !x.m[src][i].p
    ensures Forked(x, x, src, dst, i, i + 1)
  {
    SpentSelf(x);
  }

  /** The two writes of a leaf entry. */
  ghost predicate LeafWrite(x: St, y: St, src: nat, dst: nat, i: nat)
  {
    && Pair(x, src, dst) && src < |x.m| && dst < |x.m| && src != dst
    && i < 512 && x.m[dst][i] == ZERO && IsLeaf(x.m[src][i], Level(x.own[src]))
    && var w := CowWord(x.m[src][i], Level(x.own[src]));
    && y.m == x.m[src := x.m[src][i := w]][dst := x.m[dst][i := w]]
    && y.own == x.own && y.free <= x.free && y.total == x.total
    && (y.refs == [] || |y.refs| == x.total) && (forall f :: 0 <= f < |y.refs| ==> y.refs[f] <= REF_MAX)
  }

  /** A leaf: both entries become its copy-on-write form and a user page gains a reference. */
  lemma LeafStep(x: St, y: St, src: nat, dst: nat, i: nat)
    requires Base(x) && LeafWrite(x, y, src, dst, i) && Spent(x, y)
    requires forall f: nat :: f < x.total ==>
             y.Stored(f) == Min(REF_MAX, x.Stored(f) + if x.m[src][i].u && f == x.m[src][i].frame then 1 else 0)
    ensures Forked(x, y, src, dst, i, i + 1)
  {
    LeafStepBase(x, y, src, dst, i);
    LeafStepFramed(x, y, src, dst, i);
    forall f: nat
      ensures (dst, i) !in Sharers(x, f)
      ensures Sharers(y, f) == Sharers(x, f) + if x.m[src][i].u && x.m[src][i].frame == f then {(dst, i)} else {}
      ensures x.m[src][i].u && x.m[src][i].frame == f ==> Sharers(x, f) != {}
    {
      LeafStepSharers(x, y, src, dst, i, f);
    }
    LeafStepSharers(x, y, src, dst, i, 0);
    CountedOneMore(x, y, (dst, i), x.m[src][i].u, x.m[src][i].frame);
  }

  /** One entry more for frame g, if it is a user page, and one reference more. */
  lemma CountedOneMore(x: St, y: St, e: (nat, nat), user: bool, g: nat)
    requires forall f: nat :: e !in Sharers(x, f)
    requires forall f: nat :: Sharers(y, f) == Sharers(x, f) + if user && g == f then {e} else {}
    requires user ==> Sharers(x, g) != {}
    requires forall f: nat :: f < x.total ==> y.Stored(f) == Min(REF_MAX, x.Stored(f) + if user && f == g then 1 else 0)
    ensures Counted(x, y)
  {
  }

  lemma LeafStepFramed(x: St, y: St, src: nat, dst: nat, i: nat)
    requires Base(x) && Base(y) && LeafWrite(x, y, src, dst, i)
    ensures Grown(x, y, dst, i, i + 1) && Framed(x, y, src, dst, i, i + 1)
    ensures forall va: nat :: Through(x, src, va, i, i + 1) ==> WalksAs(x, y, src, dst, va)
  {
  }

  lemma LeafStepBase(x: St, y: St, src: nat, dst: nat, i: nat)
    requires Base(x) && LeafWrite(x, y, src, dst, i)
    ensures Base(y)
  {
    forall p | p in y.own ensures p < |y.m| && Closed(y.m, y.own, p) {
      assert Closed(x.m, x.own, p);
    }
    forall p | p in y.own ensures PosOk(y, p) {
      assert PosOk(x, p);
    }
  }

  lemma LeafStepSharers(x: St, y: St, src: nat, dst: nat, i: nat, f: nat)
    requires Base(x) && LeafWrite(x, y, src, dst, i)
    ensures (dst, i) !in Sharers(x, f)
    ensures Sharers(y, f) == Sharers(x, f) + if x.m[src][i].u && x.m[src][i].frame == f then {(dst, i)} else {}
    ensures x.m[src][i].u && x.m[src][i].frame == f ==> (src, i) in Sharers(x, f)
    ensures SmallPages(x) ==> SmallPages(y)
  {
    assert UserPos(x.own[dst]) && Level(x.own[dst]) == Level(x.own[src]);
    assert LeafAt(x, src, i) <==> x.m[src][i].u;
    forall p, j | p in x.own && 0 <= j < 512
      ensures LeafAt(y, p, j) <==> LeafAt(x, p, j) || (p == dst && j == i && x.m[src][i].u)
    {
    }
  }

  /** A page taken from the free set, zeroed, and labelled as the table it is going to be. */
  function Graft(x: St, t: nat, pos: Pos): St
    requires t < |x.m|
  {
    St(x.m[t := ZeroPage()], x.own[t := pos], x.free - {t}, x.refs, x.total)
  }

  lemma GraftBase(x: St, t: nat, pos: Pos)
    requires Base(x) && t in x.free
    requires pos.Root? ==> pos.space == t
    requires !pos.Root? ==> (pos.a >= 256 <==> pos.space == KERNEL)
    requires !pos.Root? ==> (pos.space != KERNEL ==> pos.space in x.own && x.own[pos.space] == Root(pos.space))
    ensures Base(Graft(x, t, pos))
    ensures forall f: nat :: Sharers(Graft(x, t, pos), f) == Sharers(x, f)
    ensures SmallPages(x) ==> SmallPages(Graft(x, t, pos))
  {
    var y := Graft(x, t, pos);
    forall p | p in y.own ensures p < |y.m| && Closed(y.m, y.own, p) && PosOk(y, p) {
      if p != t { assert Closed(x.m, x.own, p) && PosOk(x, p); }
    }
    forall p: nat, i: nat ensures LeafAt(y, p, i) <==> LeafAt(x, p, i) {
    }
    forall p: nat, i: nat | LeafAt(y, p, i) ensures y.m[p][i] == x.m[p][i] {
    }
    forall f: nat ensures Sharers(y, f) == Sharers(x, f) {
    }
  }

  /** The entry that fork writes for a copied table: the old low flags and the new frame. */
  function LinkWord(e: Word, t: nat): Word { e.(frame := t, nx := false, hi := 0) }

  function SetEntry(x: St, q: nat, j: nat, e: Word): St
    requires q < |x.m| && j < 512
  {
    St(x.m[q := x.m[q][j := e]], x.own, x.free, x.refs, x.total)
  }

  /** A table: a fresh page becomes its copy, is filled recursively, and is then linked into dst. */
  ghost predicate TableCopied(x: St, x2: St, y: St, src: nat, dst: nat, i: nat, t: nat)
  {
    && Base(x) && Pair(x, src, dst) && src < |x.m| && dst < |x.m| && i < 512 && (x.own[src].Root? ==> i < 256)
    && x.m[dst][i] == ZERO && Interior(x.m[src][i], Level(x.own[src])) && t in x.free && t < |x.m|
    && Forked(Graft(x, t, Child(x.own[dst], i)), x2, x.m[src][i].frame, t, 0, 512)
    && dst < |x2.m| && y == SetEntry(x2, dst, i, LinkWord(x.m[src][i], t))
  }

  lemma GraftPair(x: St, src: nat, dst: nat, i: nat, t: nat)
    requires Base(x) && Pair(x, src, dst) && i < 512 && (x.own[src].Root? ==> i < 256)
    requires Interior(x.m[src][i], Level(x.own[src])) && t in x.free
    ensures Base(Graft(x, t, Child(x.own[dst], i))) && Pair(Graft(x, t, Child(x.own[dst], i)), x.m[src][i].frame, t)
    ensures forall f: nat :: Sharers(Graft(x, t, Child(x.own[dst], i)), f) == Sharers(x, f)
    ensures SmallPages(x) ==> SmallPages(Graft(x, t, Child(x.own[dst], i)))
  {
    assert PosOk(x, src) && PosOk(x, dst);
    assert Closed(x.m, x.own, src);
    GraftBase(x, t, Child(x.own[dst], i));
  }

  lemma InteriorStep(x: St, x2: St, y: St, src: nat, dst: nat, i: nat, t: nat)
    requires TableCopied(x, x2, y, src, dst, i, t)
    ensures Forked(x, y, src, dst, i, i + 1)
  {
    InteriorStepRows(x, x2, y, src, dst, i, t);
    InteriorStepBase(x, x2, y, src, dst, i, t);
    InteriorStepGrown(x, x2, y, src, dst, i, t);
    InteriorStepFramed(x, x2, y, src, dst, i, t);
    InteriorStepCounted(x, x2, y, src, dst, i, t);
    InteriorStepSpent(x, x2, y, src, dst, i, t);
    forall va: nat | Through(x, src, va, i, i + 1) ensures WalksAs(x, y, src, dst, va) {
      InteriorStepWalks(x, x2, y, src, dst, i, t, va);
    }
  }

  /** The recursive copy leaves src and dst themselves alone. */
  lemma InteriorStepRows(x: St, x2: St, y: St, src: nat, dst: nat, i: nat, t: nat)
    requires TableCopied(x, x2, y, src, dst, i, t)
    ensures x2.m[src] == x.m[src] && x2.m[dst] == x.m[dst] && src in x2.own && dst in x2.own
    ensures x2.own[src] == x.own[src] && x2.own[dst] == x.own[dst] && x.own[src].space != x.own[dst].space
    ensures src != dst && src != t && dst != t && Level(x.own[src]) == Level(x.own[dst])
    ensures y.m[src] == x.m[src] && y.m[dst] == x.m[dst][i := LinkWord(x.m[src][i], t)]
  {
    GraftPair(x, src, dst, i, t);
    var x1 := Graft(x, t, Child(x.own[dst], i));
    var f := x.m[src][i].frame;
    assert x1.own[src] == x.own[src] && x1.own[dst] == x.own[dst];
    assert Untouched(x1, f, t, 0, 512, src);
    assert Untouched(x1, f, t, 0, 512, dst);
  }

  lemma InteriorStepBase(x: St, x2: St, y: St, src: nat, dst: nat, i: nat, t: nat)
    requires TableCopied(x, x2, y, src, dst, i, t)
    ensures Base(y)
  {
    InteriorStepRows(x, x2, y, src, dst, i, t);
    assert Graft(x, t, Child(x.own[dst], i)).own[t] == Child(x.own[dst], i);
    forall p | p in y.own ensures p < |y.m| && Closed(y.m, y.own, p) && PosOk(y, p) {
      assert Closed(x2.m, x2.own, p) && PosOk(x2, p);
    }
  }

  lemma InteriorStepGrown(x: St, x2: St, y: St, src: nat, dst: nat, i: nat, t: nat)
    requires TableCopied(x, x2, y, src, dst, i, t)
    ensures Grown(x, y, dst, i, i + 1)
  {
    InteriorStepKept(x, x2, y, src, dst, i, t);
    forall p | p in y.own && p !in x.own ensures p in x.free && Under(y.own[p], x.own[dst], i, i + 1) && Linked(y, p) {
      InteriorStepNew(x, x2, y, src, dst, i, t, p);
    }
  }

  lemma InteriorStepKept(x: St, x2: St, y: St, src: nat, dst: nat, i: nat, t: nat)
    requires TableCopied(x, x2, y, src, dst, i, t)
    ensures y.total == x.total && |y.m| == |x.m| && y.free <= x.free
    ensures forall p :: p in x.own ==> p in y.own && y.own[p] == x.own[p]
  {
    var x1 := Graft(x, t, Child(x.own[dst], i));
    assert forall p :: p in x.own ==> p in x1.own && x1.own[p] == x.own[p];
  }

  lemma InteriorStepNew(x: St, x2: St, y: St, src: nat, dst: nat, i: nat, t: nat, p: nat)
    requires TableCopied(x, x2, y, src, dst, i, t) && p in y.own && p !in x.own
    ensures p in x.free && Under(y.own[p], x.own[dst], i, i + 1) && Linked(y, p)
  {
    InteriorStepRows(x, x2, y, src, dst, i, t);
    var x1 := Graft(x, t, Child(x.own[dst], i));
    assert x1.own[t] == Child(x.own[dst], i);
    if p == t {
      assert EntryTo(y, dst, i, t);
    } else {
      assert Under(x2.own[p], x1.own[t], 0, 512);
      LinkKeepsLinked(x2, dst, i, LinkWord(x.m[src][i], t), p);
    }
  }

  lemma LinkKeepsLinked(x: St, q: nat, j: nat, w: Word, p: nat)
    requires q in x.own && q < |x.m| && j < 512 && x.m[q][j] == ZERO
    requires p in x.own && Linked(x, p)
    ensures Linked(SetEntry(x, q, j, w), p)
  {
    var q', i :| EntryTo(x, q', i, p);
    assert EntryTo(SetEntry(x, q, j, w), q', i, p);
  }

  lemma InteriorStepFramed(x: St, x2: St, y: St, src: nat, dst: nat, i: nat, t: nat)
    requires TableCopied(x, x2, y, src, dst, i, t)
    ensures Framed(x, y, src, dst, i, i + 1)
  {
    InteriorStepRows(x, x2, y, src, dst, i, t);
    InteriorStepSoftened(x, x2, y, src, dst, i, t);
    forall p | 0 <= p < |x.m| && Untouched(x, src, dst, i, i + 1, p) ensures y.m[p] == x.m[p] {
      InteriorStepUntouched(x, x2, y, src, dst, i, t, p);
    }
  }

  lemma InteriorStepUntouched(x: St, x2: St, y: St, src: nat, dst: nat, i: nat, t: nat, p: nat)
    requires TableCopied(x, x2, y, src, dst, i, t) && p < |x.m| && Untouched(x, src, dst, i, i + 1, p)
    ensures |y.m| == |x.m| && y.m[p] == x.m[p]
  {
    GraftUntouched(x, src, dst, i, t, p);
  }

  /** What the copy of the table below entry i leaves alone includes what the copy of the entry does. */
  lemma GraftUntouched(x: St, src: nat, dst: nat, i: nat, t: nat, p: nat)
    requires Base(x) && src in x.own && dst in x.own && 0 < Level(x.own[src]) == Level(x.own[dst]) && i < 512
    requires (x.own[src].Root? ==> i < 256) && Interior(x.m[src][i], Level(x.own[src])) && t in x.free
    requires Untouched(x, src, dst, i, i + 1, p)
    ensures var x1, f := Graft(x, t, Child(x.own[dst], i)), x.m[src][i].frame;
            f in x1.own && Untouched(x1, f, t, 0, 512, p)
  {
    var x1 := Graft(x, t, Child(x.own[dst], i));
    var f := x.m[src][i].frame;
    assert Closed(x.m, x.own, src);
    assert x1.own[f] == Child(x.own[src], i);
    assert p in x.own ==> x1.own[p] == x.own[p];
  }

  lemma InteriorStepSoftened(x: St, x2: St, y: St, src: nat, dst: nat, i: nat, t: nat)
    requires TableCopied(x, x2, y, src, dst, i, t)
    ensures |y.m| == |x.m| && Softened(x, y, dst)
  {
    var x1 := Graft(x, t, Child(x.own[dst], i));
    forall p, j | p in x.own && p < |x.m| && 0 <= j < 512 && p != dst
      ensures y.m[p][j] == x.m[p][j] || y.m[p][j] == CowWord(x.m[p][j], Level(x.own[p]))
    {
      assert p != t && x1.m[p] == x.m[p] && x1.own[p] == x.own[p];
    }
  }

  lemma InteriorStepCounted(x: St, x2: St, y: St, src: nat, dst: nat, i: nat, t: nat)
    requires TableCopied(x, x2, y, src, dst, i, t)
    ensures Counted(x, y) && (SmallPages(x) ==> SmallPages(y))
  {
    InteriorStepRows(x, x2, y, src, dst, i, t);
    GraftPair(x, src, dst, i, t);
    LinkSharers(x2, dst, i, LinkWord(x.m[src][i], t));
    CountedSame(x, Graft(x, t, Child(x.own[dst], i)), x2, y);
  }

  lemma InteriorStepSpent(x: St, x2: St, y: St, src: nat, dst: nat, i: nat, t: nat)
    requires TableCopied(x, x2, y, src, dst, i, t)
    ensures Spent(x, y)
  {
    SpentBelow(x, Graft(x, t, Child(x.own[dst], i)), x2, y, t);
  }

  lemma SpentBelow(x: St, x1: St, x2: St, y: St, t: nat)
    requires Spent(x1, x2) && t in x.free && x1.free == x.free - {t} && x1.refs == x.refs && x1.total == x.total
    requires t in x2.own && y.own == x2.own && y.free == x2.free && y.refs == x2.refs
    ensures Spent(x, y)
  {
    OpenSpent(x1, x2);
    assert x1.free - x2.own.Keys == x.free - y.own.Keys;
    if x.refs == [] && y.refs != [] {
      var f: nat :| x2.Stored(f) > 0;
      assert y.Stored(f) > 0;
    }
  }

  /** An entry that leads to a table shares nothing. */
  lemma LinkSharers(x: St, q: nat, j: nat, w: Word)
    requires q in x.own && q < |x.m| && j < 512 && !x.m[q][j].p && Interior(w, Level(x.own[q]))
    ensures forall f: nat :: Sharers(SetEntry(x, q, j, w), f) == Sharers(x, f)
    ensures SmallPages(x) ==> SmallPages(SetEntry(x, q, j, w))
  {
    var y := SetEntry(x, q, j, w);
    forall p: nat, k: nat ensures LeafAt(y, p, k) <==> LeafAt(x, p, k) {
    }
    forall p: nat, k: nat | LeafAt(y, p, k) ensures y.m[p][k] == x.m[p][k] {
    }
    forall f: nat ensures Sharers(y, f) == Sharers(x, f) {
    }
  }

  lemma CountedSame(x: St, x1: St, x2: St, y: St)
    requires Counted(x1, x2) && x1.total == x.total && x1.refs == x.refs && y.refs == x2.refs
    requires forall f: nat :: Sharers(x1, f) == Sharers(x, f)
    requires forall f: nat :: Sharers(y, f) == Sharers(x2, f)
    ensures Counted(x, y)
  {
    forall f: nat
      ensures Sharers(x, f) <= Sharers(y, f)
      ensures Sharers(x, f) == {} ==> Sharers(y, f) == {}
      ensures f < x.total ==> y.Stored(f) == Min(REF_MAX, x.Stored(f) + |Sharers(y, f)| - |Sharers(x, f)|)
    {
      assert Sharers(y, f) == Sharers(x2, f) && Sharers(x1, f) == Sharers(x, f);
      assert y.Stored(f) == x2.Stored(f) && x1.Stored(f) == x.Stored(f);
    }
  }

  lemma InteriorStepWalks(x: St, x2: St, y: St, src: nat, dst: nat, i: nat, t: nat, va: nat)
    requires TableCopied(x, x2, y, src, dst, i, t) && Through(x, src, va, i, i + 1)
    ensures WalksAs(x, y, src, dst, va)
  {
    InteriorStepRows(x, x2, y, src, dst, i, t);
    BelowCopied(x, x2, y, src, dst, i, t, va);
    OneLevelUp(x.m, y.m, src, dst, t, Level(x.own[src]), va);
  }

  /** From the tables below to the entries that lead to them. */
  lemma OneLevelUp(m: Phys, n: Phys, src: nat, dst: nat, t: nat, level: nat, va: nat)
    requires 0 < level < 4 && src < |m| == |n| && dst < |n| && Interior(m[src][Index(va, level)], level)
    requires n[src] == m[src] && n[dst][Index(va, level)] == LinkWord(m[src][Index(va, level)], t)
    requires var f := m[src][Index(va, level)].frame;
             && SharedAs(Walk(m, f, level - 1, va), Walk(n, f, level - 1, va))
             && Walk(n, t, level - 1, va) == Walk(n, f, level - 1, va)
             && Above(n, f, level - 1, va) == Above(m, f, level - 1, va)
             && Above(n, t, level - 1, va) == Above(m, f, level - 1, va).(x := true)
    ensures SharedAs(Walk(m, src, level, va), Walk(n, src, level, va))
    ensures Walk(n, dst, level, va) == Walk(n, src, level, va)
    ensures Above(n, src, level, va) == Above(m, src, level, va)
    ensures Above(n, dst, level, va) == Above(m, src, level, va).(x := true)
  {
  }

  lemma BelowCopied(x: St, x2: St, y: St, src: nat, dst: nat, i: nat, t: nat, va: nat)
    requires TableCopied(x, x2, y, src, dst, i, t) && Through(x, src, va, i, i + 1)
    ensures var level := Level(x.own[src]) - 1; var f := x.m[src][i].frame;
            && SharedAs(Walk(x.m, f, level, va), Walk(y.m, f, level, va))
            && Walk(y.m, t, level, va) == Walk(y.m, f, level, va)
            && Above(y.m, f, level, va) == Above(x.m, f, level, va)
            && Above(y.m, t, level, va) == Above(x.m, f, level, va).(x := true)
  {
    InteriorStepRows(x, x2, y, src, dst, i, t);
    GraftPair(x, src, dst, i, t);
    var x1 := Graft(x, t, Child(x.own[dst], i));
    var f, level := x.m[src][i].frame, Level(x.own[src]);
    var s, d := x.own[src].space, x.own[dst].space;
    assert x1.own[f] == At(s, va, level - 1);
    assert x1.own[t] == At(d, va, level - 1) by {
      assert x.own[dst] == At(d, va, level);
    }
    WalkSkips(x.m, x.own, t, ZeroPage(), s, va, f, level - 1);
    assert Through(x1, f, va, 0, 512);
    assert WalksAs(x1, x2, f, t, va);
    WalkSkips(x2.m, x2.own, dst, y.m[dst], s, va, f, level - 1);
    WalkSkips(x2.m, x2.own, dst, y.m[dst], d, va, t, level - 1);
  }

  /** t is the finished copy of the table below entry i of src: what TableStep needs, folded. */
  ghost predicate Linkable(x: St, x1: St, x2: St, src: nat, dst: nat, i: nat, t: nat)
  {
    forall u, v {:trigger Is((u, v), (x, x2))} :: Is((u, v), (x, x2)) ==>
      && Base(u) && Pair(u, src, dst) && src < |u.m| && dst < |u.m| && i < 512 && (u.own[src].Root? ==> i < 256)
      && u.m[dst][i] == ZERO && Interior(u.m[src][i], Level(u.own[src])) && t in u.free
      && x1 == Graft(u, t, Child(u.own[dst], i)) && Forked(x1, v, u.m[src][i].frame, t, 0, 512)
  }

  /** The interior case as the loop body performs it. */
  lemma TableStep(x: St, x1: St, x2: St, src: nat, dst: nat, i: nat, t: nat)
    requires Linkable(x, x1, x2, src, dst, i, t)
    ensures src in x.own && src < |x.m| && i < 512 && dst < |x2.m|
    ensures Base(SetEntry(x2, dst, i, LinkWord(x.m[src][i], t)))
    ensures Forked(x, SetEntry(x2, dst, i, LinkWord(x.m[src][i], t)), src, dst, i, i + 1)
  {
    assert Is((x, x2), (x, x2));
    InteriorStep(x, x2, SetEntry(x2, dst, i, LinkWord(x.m[src][i], t)), src, dst, i, t);
  }
}
