/** Tearing a user space down (core/cpu/exec.c:30-45 and 126-137): which pages the recursive walk
    gives back, and that it gives each of them back once. */
module Teardown {
  import opened Common
  import opened PageTables
  import opened Spaces

  /** A present entry in a page table of space s. */
  ghost predicate Held(x: St, s: nat, p: nat, i: nat)
  {
    p in x.own && p < |x.m| && i < 512 && x.own[p].space == s && Level(x.own[p]) == 0 && x.m[p][i].p
  }

  /** A space of 4 KiB pages, all of it managed by the allocator, that has no page twice. Its pages may
      be shared with other spaces. */
  ghost predicate Tearable(x: St, s: nat)
  {
    && Base(x) && AllLinked(x) && IsRoot(x, s)
    && (forall p :: p in x.own && x.own[p].space == s ==> p < x.total)
    && (forall p, i :: p in x.own && p < |x.m| && 0 <= i < 512 && x.own[p].space == s ==>
                         1 <= Level(x.own[p]) <= 2 && x.m[p][i].p ==> !x.m[p][i].ps)
    && (forall p: nat, i: nat :: Held(x, s, p, i) ==> HeldOnce(x, s, p, i))
  }

  /** The same, folded: OpenTear unfolds it. */
  ghost predicate CanTear(x: St, s: nat)
  {
    forall u {:trigger Is(u, x)} :: Is(u, x) ==> Tearable(u, s)
  }

  lemma OpenTear(x: St, s: nat)
    requires CanTear(x, s)
    ensures Tearable(x, s)
  {
    assert Is(x, x);
  }

  ghost predicate HeldOnce(x: St, s: nat, p: nat, i: nat)
    requires p < |x.m| && i < 512
  {
    var f := x.m[p][i].frame;
    && 0 < f < x.total && f !in x.free && f !in x.own
    && forall q: nat, j: nat :: Held(x, s, q, j) && x.m[q][j].frame == f ==> q == p && j == i
  }

  /** Tables strictly below pos, through its entries lo..hi. */
  ghost function TablesBelow(x: St, pos: Pos, lo: nat, hi: nat): set<nat>
  {
    set p | p in x.own && Under(x.own[p], pos, lo, hi)
  }

  ghost predicate HeldBelow(x: St, pos: Pos, lo: nat, hi: nat, p: nat, i: nat)
  {
    && Held(x, pos.space, p, i)
    && if Level(pos) == 0 then x.own[p] == pos && lo <= i < hi else Under(x.own[p], pos, lo, hi)
  }

  /** Frames mapped by page tables below pos, through its entries lo..hi. */
  ghost function FramesBelow(x: St, pos: Pos, lo: nat, hi: nat): set<nat>
  {
    set p, i | p in x.own && 0 <= i < 512 && HeldBelow(x, pos, lo, hi, p, i) :: x.m[p][i].frame
  }

  /** The frames among these whose last reference goes with one; none while no counts are kept. */
  ghost function Last(x: St, frames: set<nat>): set<nat>
  {
    if x.refs == [] then {} else set f | f in frames && x.Stored(f) <= 1
  }

  /** What the walk over entries lo..hi gives back: tables, and frames whose last reference goes. */
  ghost function Torn(x: St, pos: Pos, lo: nat, hi: nat): set<nat>
  {
    TablesBelow(x, pos, lo, hi) + Last(x, FramesBelow(x, pos, lo, hi))
  }

  lemma LastSplit(x: St, f: set<nat>, g: set<nat>)
    ensures Last(x, f + g) == Last(x, f) + Last(x, g) && Last(x, f) <= f
  {
  }

  lemma TablesSplit(x: St, pos: Pos, lo: nat, mid: nat, hi: nat)
    requires lo <= mid <= hi
    ensures TablesBelow(x, pos, lo, hi) == TablesBelow(x, pos, lo, mid) + TablesBelow(x, pos, mid, hi)
    ensures TablesBelow(x, pos, lo, mid) !! TablesBelow(x, pos, mid, hi)
  {
  }

  lemma FramesSplit(x: St, pos: Pos, lo: nat, mid: nat, hi: nat)
    requires lo <= mid <= hi
    ensures FramesBelow(x, pos, lo, hi) == FramesBelow(x, pos, lo, mid) + FramesBelow(x, pos, mid, hi)
  {
    forall p: nat, i: nat
      ensures HeldBelow(x, pos, lo, hi, p, i) <==> HeldBelow(x, pos, lo, mid, p, i) || HeldBelow(x, pos, mid, hi, p, i)
    {
    }
  }

  lemma TornSplit(x: St, pos: Pos, lo: nat, mid: nat, hi: nat)
    requires lo <= mid <= hi
    ensures Torn(x, pos, lo, hi) == Torn(x, pos, lo, mid) + Torn(x, pos, mid, hi)
    ensures FramesBelow(x, pos, lo, hi) == FramesBelow(x, pos, lo, mid) + FramesBelow(x, pos, mid, hi)
  {
    TablesSplit(x, pos, lo, mid, hi);
    FramesSplit(x, pos, lo, mid, hi);
    LastSplit(x, FramesBelow(x, pos, lo, mid), FramesBelow(x, pos, mid, hi));
  }

  lemma TornNone(x: St, pos: Pos)
    ensures Torn(x, pos, 0, 0) == {} && FramesBelow(x, pos, 0, 0) == {}
  {
  }

  lemma FramesOnce(x: St, pos: Pos, lo: nat, hi: nat, f: nat) returns (p: nat, i: nat)
    requires Tearable(x, pos.space) && f in FramesBelow(x, pos, lo, hi)
    ensures HeldBelow(x, pos, lo, hi, p, i) && x.m[p][i].frame == f && HeldOnce(x, pos.space, p, i)
  {
    p, i :| p in x.own && 0 <= i < 512 && HeldBelow(x, pos, lo, hi, p, i) && x.m[p][i].frame == f;
  }

  /** Different entries give back different pages. */
  lemma FramesDisjoint(x: St, pos: Pos, lo: nat, mid: nat, hi: nat)
    requires Tearable(x, pos.space) && lo <= mid <= hi
    ensures FramesBelow(x, pos, lo, mid) !! FramesBelow(x, pos, mid, hi)
  {
    forall f | f in FramesBelow(x, pos, lo, mid) && f in FramesBelow(x, pos, mid, hi) ensures false {
      var p, i := FramesOnce(x, pos, lo, mid, f);
      var q, j := FramesOnce(x, pos, mid, hi, f);
    }
  }

  lemma FramesAreNotTables(x: St, pos: Pos, lo: nat, hi: nat)
    requires Tearable(x, pos.space)
    ensures FramesBelow(x, pos, lo, hi) !! x.own.Keys
  {
    forall f | f in FramesBelow(x, pos, lo, hi) ensures f !in x.own {
      var p, i := FramesOnce(x, pos, lo, hi, f);
    }
  }

  lemma TornDisjoint(x: St, pos: Pos, lo: nat, mid: nat, hi: nat)
    requires Tearable(x, pos.space) && lo <= mid <= hi
    ensures Torn(x, pos, lo, mid) !! Torn(x, pos, mid, hi)
  {
    TablesSplit(x, pos, lo, mid, hi);
    FramesDisjoint(x, pos, lo, mid, hi);
    FramesAreNotTables(x, pos, lo, mid);
    FramesAreNotTables(x, pos, mid, hi);
    assert TablesBelow(x, pos, lo, mid) <= x.own.Keys && TablesBelow(x, pos, mid, hi) <= x.own.Keys;
    DisjointUnions(TablesBelow(x, pos, lo, mid), Last(x, FramesBelow(x, pos, lo, mid)),
                   TablesBelow(x, pos, mid, hi), Last(x, FramesBelow(x, pos, mid, hi)));
  }

  lemma DisjointUnions<T>(a: set<T>, b: set<T>, c: set<T>, d: set<T>)
    requires a !! c && a !! d && b !! c && b !! d
    ensures a + b !! c + d
  {
  }

  /** The ancestor of p just below pos. */
  lemma {:induction false} Ancestor(x: St, p: nat, pos: Pos, i: nat) returns (c: nat)
    requires Base(x) && AllLinked(x) && p in x.own && UserPos(x.own[p]) && Under(x.own[p], pos, i, i + 1)
    requires (pos.Root? ==> i < 256)
    ensures c in x.own && x.own[c] == Child(pos, i)
    decreases Level(pos) - Level(x.own[p])
  {
    assert PosOk(x, p);
    if x.own[p] == Child(pos, i) {
      c := p;
    } else {
      var q, k :| EntryTo(x, q, k, p);
      assert PosOk(x, q);
      c := Ancestor(x, q, pos, i);
    }
  }

  /** What one entry of a table above the last level gives back. */
  lemma TornTable(x: St, t: nat, i: nat)
    requires t in x.own && Tearable(x, x.own[t].space) && 0 < Level(x.own[t]) && i < 512 && x.own[t].space != KERNEL
    requires (x.own[t].Root? ==> i < 256)
    requires UserPos(x.own[t]) || x.own[t].Root?
    ensures var e := x.m[t][i]; var pos := x.own[t];
            if e.p then Interior(e, Level(pos)) && e.frame in x.own && x.own[e.frame] == Child(pos, i)
                        && Torn(x, pos, i, i + 1) == Torn(x, Child(pos, i), 0, 512) + {e.frame}
                        && FramesBelow(x, pos, i, i + 1) == FramesBelow(x, Child(pos, i), 0, 512)
            else Torn(x, pos, i, i + 1) == {} && FramesBelow(x, pos, i, i + 1) == {}
  {
    var pos := x.own[t];
    assert Closed(x.m, x.own, t) && PosOk(x, t);
    TornTableTables(x, t, i);
    if x.m[t][i].p {
      TornTableFrames(x, t, i);
      Shuffle(TablesBelow(x, Child(pos, i), 0, 512), Last(x, FramesBelow(x, Child(pos, i), 0, 512)), x.m[t][i].frame);
    } else {
      var hi := i + 1;
      forall p: nat, j: nat ensures HeldBelow(x, pos, i, hi, p, j) ==> p in TablesBelow(x, pos, i, hi) {
      }
      assert FramesBelow(x, pos, i, hi) == {};
    }
  }

  lemma Shuffle<T>(a: set<T>, b: set<T>, e: T)
    ensures a + {e} + b == a + b + {e}
  {
  }

  lemma TornTableTables(x: St, t: nat, i: nat)
    requires t in x.own && Tearable(x, x.own[t].space) && 0 < Level(x.own[t]) && i < 512 && x.own[t].space != KERNEL
    requires (x.own[t].Root? ==> i < 256)
    requires UserPos(x.own[t]) || x.own[t].Root?
    ensures TablesBelow(x, x.own[t], i, i + 1) ==
            if x.m[t][i].p then TablesBelow(x, Child(x.own[t], i), 0, 512) + {x.m[t][i].frame} else {}
  {
    var pos := x.own[t];
    assert Closed(x.m, x.own, t) && PosOk(x, t);
    forall p | p in x.own && Under(x.own[p], pos, i, i + 1)
      ensures x.m[t][i].p && (p == x.m[t][i].frame || Under(x.own[p], Child(pos, i), 0, 512))
    {
      TornTableBelow(x, t, i, p);
    }
  }

  lemma TornTableFrames(x: St, t: nat, i: nat)
    requires t in x.own && Tearable(x, x.own[t].space) && 0 < Level(x.own[t]) && i < 512 && x.own[t].space != KERNEL
    requires (x.own[t].Root? ==> i < 256)
    requires UserPos(x.own[t]) || x.own[t].Root?
    requires x.m[t][i].p
    ensures FramesBelow(x, x.own[t], i, i + 1) == FramesBelow(x, Child(x.own[t], i), 0, 512)
  {
    var pos := x.own[t];
    assert Closed(x.m, x.own, t) && PosOk(x, t);
    var c := Child(pos, i);
    forall p: nat, j: nat ensures HeldBelow(x, pos, i, i + 1, p, j) <==> HeldBelow(x, c, 0, 512, p, j) {
      if HeldBelow(x, pos, i, i + 1, p, j) { TornTableBelow(x, t, i, p); }
    }
  }

  lemma TornTableBelow(x: St, t: nat, i: nat, p: nat)
    requires t in x.own && Tearable(x, x.own[t].space) && 0 < Level(x.own[t]) && i < 512 && x.own[t].space != KERNEL
    requires (x.own[t].Root? ==> i < 256)
    requires UserPos(x.own[t]) || x.own[t].Root?
    requires p in x.own && Under(x.own[p], x.own[t], i, i + 1)
    ensures x.m[t][i].p && (p == x.m[t][i].frame || Under(x.own[p], Child(x.own[t], i), 0, 512))
  {
    var pos := x.own[t];
    assert PosOk(x, p) && PosOk(x, t);
    var c := Ancestor(x, p, pos, i);
    assert PosOk(x, c);
    var q, k :| EntryTo(x, q, k, c);
    assert PosOk(x, q);
    assert x.own[q] == pos && k == i;
    PositionsUnique(x, q, t);
    if x.own[p] == Child(pos, i) {
      PositionsUnique(x, p, c);
    } else {
      var q', k' :| EntryTo(x, q', k', p);
      if Level(x.own[p]) + 1 < Level(Child(pos, i)) { var q'', k'' :| EntryTo(x, q'', k'', q'); }
    }
  }

  /** What one entry of a page table gives back. */
  lemma TornLeaf(x: St, t: nat, i: nat)
    requires t in x.own && Tearable(x, x.own[t].space) && Level(x.own[t]) == 0 && i < 512 && UserPos(x.own[t])
    ensures TablesBelow(x, x.own[t], i, i + 1) == {}
    ensures FramesBelow(x, x.own[t], i, i + 1) == if x.m[t][i].p then {x.m[t][i].frame} else {}
    ensures x.m[t][i].p ==> HeldOnce(x, x.own[t].space, t, i)
  {
    var pos, hi := x.own[t], i + 1;
    forall p: nat, j: nat ensures HeldBelow(x, pos, i, hi, p, j) <==> p == t && j == i && x.m[t][i].p {
      if HeldBelow(x, pos, i, hi, p, j) { PositionsUnique(x, p, t); }
    }
    if x.m[t][i].p { assert Held(x, pos.space, t, i); }
  }

  /** The part of the allocator's state that teardown changes. */
  datatype Alloc = Alloc(free: set<nat>, refs: seq<nat>) {
    function Stored(f: nat): nat { if f < |refs| then refs[f] else 0 }
  }

  /** The count after one reference less. */
  function CountLess(n: nat): nat { if n > 1 then n - 1 else 0 }

  /** The walk over entries lo..hi of pos has not begun: what it gives back is not free yet, and its
      counts are what they were. */
  ghost predicate Pending(a: Alloc, x: St, pos: Pos, lo: nat, hi: nat)
  {
    && |a.refs| == |x.refs| && a.free !! Torn(x, pos, lo, hi)
    && forall f :: f in FramesBelow(x, pos, lo, hi) ==> a.Stored(f) == x.Stored(f)
  }

  /** The walk over entries lo..hi of pos is done: what it gives back is free, each of its frames has
      one reference less, and other counts are kept. */
  ghost predicate Freed(a: Alloc, b: Alloc, x: St, pos: Pos, lo: nat, hi: nat)
  {
    |a.refs| == |b.refs| == |x.refs| && Gave(a, b, Torn(x, pos, lo, hi), FramesBelow(x, pos, lo, hi))
  }

  ghost predicate GaveBack(a: Alloc, b: Alloc, back: set<nat>, f: set<nat>)
  {
    && b.free == a.free + back
    && forall k :: b.Stored(k) == if k in f then CountLess(a.Stored(k)) else a.Stored(k)
  }

  /** The same, folded: OpenGave unfolds it. */
  ghost predicate Gave(a: Alloc, b: Alloc, back: set<nat>, f: set<nat>)
  {
    forall u {:trigger Is(u, b)} :: Is(u, b) ==> GaveBack(a, u, back, f)
  }

  lemma OpenGave(a: Alloc, b: Alloc, back: set<nat>, f: set<nat>)
    requires Gave(a, b, back, f)
    ensures GaveBack(a, b, back, f)
  {
    assert Is(b, b);
  }

  lemma FreedNothing(a: Alloc, x: St, pos: Pos)
    requires |a.refs| == |x.refs|
    ensures Freed(a, a, x, pos, 0, 0)
  {
    TornNone(x, pos);
  }

  lemma PendingNext(a: Alloc, b: Alloc, x: St, pos: Pos, i: nat)
    requires CanTear(x, pos.space) && i < 512 && Pending(a, x, pos, 0, 512) && Freed(a, b, x, pos, 0, i)
    ensures Pending(b, x, pos, i, i + 1) && FramesBelow(x, pos, 0, i) !! FramesBelow(x, pos, i, i + 1)
  {
    OpenTear(x, pos.space);
    TornDisjoint(x, pos, 0, i, i + 1);
    FramesDisjoint(x, pos, 0, i, i + 1);
    NextIsPart(x, pos, i);
    OpenGave(a, b, Torn(x, pos, 0, i), FramesBelow(x, pos, 0, i));
    StillPending(a, b, Torn(x, pos, 0, i), Torn(x, pos, i, i + 1), Torn(x, pos, 0, 512),
                 FramesBelow(x, pos, 0, i), FramesBelow(x, pos, i, i + 1), FramesBelow(x, pos, 0, 512));
  }

  lemma NextIsPart(x: St, pos: Pos, i: nat)
    requires i < 512
    ensures Torn(x, pos, i, i + 1) <= Torn(x, pos, 0, 512)
    ensures FramesBelow(x, pos, i, i + 1) <= FramesBelow(x, pos, 0, 512)
  {
    TornSplit(x, pos, 0, i, 512);
    TornSplit(x, pos, i, i + 1, 512);
    PartOf(Torn(x, pos, 0, i), Torn(x, pos, i, i + 1), Torn(x, pos, i + 1, 512));
    PartOf(FramesBelow(x, pos, 0, i), FramesBelow(x, pos, i, i + 1), FramesBelow(x, pos, i + 1, 512));
  }

  lemma PartOf<T>(a: set<T>, b: set<T>, c: set<T>)
    ensures b <= a + (b + c)
  {
  }

  lemma StillPending(a: Alloc, b: Alloc, done: set<nat>, next: set<nat>, all: set<nat>, fdone: set<nat>,
                     fnext: set<nat>, fall: set<nat>)
    requires a.free !! all && b.free == a.free + done && done !! next && next <= all
    requires fdone !! fnext && fnext <= fall
    requires forall f :: f !in fdone ==> b.Stored(f) == a.Stored(f)
    ensures b.free !! next && forall f :: f in fnext ==> b.Stored(f) == a.Stored(f)
  {
  }

  lemma FreedOneMore(a: Alloc, b: Alloc, c: Alloc, x: St, pos: Pos, i: nat)
    requires Freed(a, b, x, pos, 0, i) && Freed(b, c, x, pos, i, i + 1)
    requires FramesBelow(x, pos, 0, i) !! FramesBelow(x, pos, i, i + 1)
    ensures Freed(a, c, x, pos, 0, i + 1)
  {
    var next := i + 1;
    TornSplit(x, pos, 0, i, next);
    GaveTwice(a, b, c, Torn(x, pos, 0, i), Torn(x, pos, i, next),
              FramesBelow(x, pos, 0, i), FramesBelow(x, pos, i, next));
  }

  lemma GaveTwice(a: Alloc, b: Alloc, c: Alloc, s: set<nat>, t: set<nat>, f: set<nat>, g: set<nat>)
    requires Gave(a, b, s, f) && Gave(b, c, t, g) && f !! g
    ensures Gave(a, c, s + t, f + g)
  {
    OpenGave(a, b, s, f);
    OpenGave(b, c, t, g);
  }

  /** An entry of an inner table names a table in use, with a subtree of its own to free first. */
  lemma TablePending(a: Alloc, x: St, t: nat, i: nat)
    requires t in x.own && CanTear(x, x.own[t].space) && t < |x.m| && 0 < Level(x.own[t]) && i < 512
    requires x.own[t].space != KERNEL
    requires (x.own[t].Root? ==> i < 256)
    requires UserPos(x.own[t]) || x.own[t].Root?
    requires Pending(a, x, x.own[t], i, i + 1) && x.m[t][i].p
    ensures var c := x.m[t][i].frame;
            && c in x.own && x.own[c] == Child(x.own[t], i) && c < x.total && c !in a.free
            && c < |x.m| && UserPos(x.own[c]) && x.own[c].space == x.own[t].space
            && Pending(a, x, x.own[c], 0, 512)
            && c !in Torn(x, x.own[c], 0, 512)
  {
    OpenTear(x, x.own[t].space);
    TornTable(x, t, i);
    FramesAreNotTables(x, Child(x.own[t], i), 0, 512);
  }

  /** The subtree and then the table make up the entry. */
  lemma FreedTable(a: Alloc, b: Alloc, x: St, t: nat, i: nat)
    requires t in x.own && CanTear(x, x.own[t].space) && t < |x.m| && 0 < Level(x.own[t]) && i < 512
    requires x.own[t].space != KERNEL
    requires (x.own[t].Root? ==> i < 256)
    requires UserPos(x.own[t]) || x.own[t].Root?
    requires x.m[t][i].p && x.m[t][i].frame in x.own && Freed(a, b, x, x.own[x.m[t][i].frame], 0, 512)
    ensures Freed(a, Alloc(b.free + {x.m[t][i].frame}, b.refs), x, x.own[t], i, i + 1)
  {
    OpenTear(x, x.own[t].space);
    TornTable(x, t, i);
    var c := x.own[x.m[t][i].frame];
    OpenGave(a, b, Torn(x, c, 0, 512), FramesBelow(x, c, 0, 512));
  }

  lemma FreedAbsent(a: Alloc, x: St, t: nat, i: nat)
    requires t in x.own && CanTear(x, x.own[t].space) && t < |x.m| && i < 512 && x.own[t].space != KERNEL
    requires (x.own[t].Root? ==> i < 256)
    requires UserPos(x.own[t]) || x.own[t].Root?
    requires |a.refs| == |x.refs| && !x.m[t][i].p
    ensures Freed(a, a, x, x.own[t], i, i + 1)
  {
    OpenTear(x, x.own[t].space);
    if Level(x.own[t]) > 0 { TornTable(x, t, i); } else { TornLeaf(x, t, i); }
  }

  /** A page entry: one reference goes, and with the last one the page, if counts are kept at all. */
  lemma FreedLeaf(a: Alloc, b: Alloc, x: St, t: nat, i: nat)
    requires t in x.own && CanTear(x, x.own[t].space) && t < |x.m| && Level(x.own[t]) == 0 && i < 512
    requires UserPos(x.own[t])
    requires Pending(a, x, x.own[t], i, i + 1) && x.m[t][i].p
    ensures var f := x.m[t][i].frame; f < x.total && (x.refs != [] && a.Stored(f) <= 1 ==> f !in a.free)
    ensures Dropped(a, b, x, x.m[t][i].frame) ==> Freed(a, b, x, x.own[t], i, i + 1)
  {
    OpenTear(x, x.own[t].space);
    TornLeaf(x, t, i);
  }

  /** pmm_unref of f. */
  ghost predicate Dropped(a: Alloc, b: Alloc, x: St, f: nat)
  {
    if x.refs == [] then b == a
    else
      && f < |a.refs|
      && b == Alloc(if a.refs[f] > 1 then a.free else a.free + {f}, a.refs[f := CountLess(a.refs[f])])
  }

  /** Everything a space gives back: its tables, its pages and its root. */
  ghost function TornSpace(x: St, s: nat): set<nat>
  {
    Torn(x, Root(s), 0, 256) + {s}
  }

  /** At the start nothing of the space is free. */
  lemma PendingAll(x: St, s: nat)
    requires CanTear(x, s) && s != KERNEL
    ensures Pending(Alloc(x.free, x.refs), x, Root(s), 0, 512)
  {
    OpenTear(x, s);
    forall f | f in FramesBelow(x, Root(s), 0, 512) ensures f !in x.free {
      var p, i :| p in x.own && 0 <= i < 512 && HeldBelow(x, Root(s), 0, 512, p, i) && x.m[p][i].frame == f;
      assert HeldOnce(x, s, p, i);
    }
  }

  lemma RootNotTorn(x: St, s: nat)
    requires Tearable(x, s)
    ensures s !in Torn(x, Root(s), 0, 256) && s !in x.free && s < x.total && x.free !! TornSpace(x, s)
    ensures forall free: set<nat> :: free == x.free + Torn(x, Root(s), 0, 256) ==>
            s !in free && free + {s} == x.free + TornSpace(x, s)
  {
    FramesAreNotTables(x, Root(s), 0, 256);
    TornSplit(x, Root(s), 0, 256, 512);
    PendingAll(x, s);
  }
}
