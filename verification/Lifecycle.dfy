/** A space from birth to teardown: what it took from the allocator is what it gives back. */
module Lifecycle {
  import opened Common
  import opened PageTables
  import opened Spaces
  import opened Maps
  import opened Cow
  import opened Teardown

  /** No page of s has a count above 1: nobody else uses it. */
  ghost predicate Unshared(x: St, s: nat)
  {
    forall p: nat, i: nat :: Held(x, s, p, i) ==> x.Stored(x.m[p][i].frame) <= 1
  }

  /** Every page that belongs to s: its tables, its pages and its root. */
  ghost function Whole(x: St, s: nat): set<nat>
  {
    TablesBelow(x, Root(s), 0, 256) + FramesBelow(x, Root(s), 0, 256) + {s}
  }

  /** Space s can be torn down, and its pages are those that x0 had free beyond those free now. */
  ghost predicate InBalance(x0: St, x: St, s: nat)
  {
    && Inv(x) && CountExact(x) && s != KERNEL && Tearable(x, s) && Unshared(x, s)
    && x0.free == x.free + Whole(x, s)
  }

  /** The same, folded: OpenBalanced unfolds it. */
  ghost predicate Balanced(x0: St, x: St, s: nat)
  {
    forall u {:trigger Is(u, x)} :: Is(u, x) ==> InBalance(x0, u, s)
  }

  lemma OpenBalanced(x0: St, x: St, s: nat)
    requires Balanced(x0, x, s)
    ensures InBalance(x0, x, s)
  {
    assert Is(x, x);
  }

  /** Some page of s is mapped. */
  ghost predicate HasPages(x: St, s: nat)
  {
    exists p: nat, i: nat :: Held(x, s, p, i)
  }

  /** Tearing s down gives all of it back exactly when counts are kept or no page is mapped: without the
      count array pmm_unref returns at once. */
  lemma GivesAllBackIff(x0: St, x: St, s: nat)
    requires Balanced(x0, x, s)
    ensures x.free + TornSpace(x, s) == x0.free <==> x.refs != [] || !HasPages(x, s)
  {
    OpenBalanced(x0, x, s);
    var frames := FramesBelow(x, Root(s), 0, 256);
    FramesOfSpace(x, s);
    FramesAreNotTables(x, Root(s), 0, 256);
    FramesNotFree(x, s);
    assert frames == {} <==> !HasPages(x, s) by {
      if p: nat, i: nat :| Held(x, s, p, i) { assert Names(x, s, x.m[p][i].frame); }
      if f :| f in frames { assert Names(x, s, f); }
    }
    if x.refs != [] { assert Last(x, frames) == frames; }
    AllBackIff(x.free, TablesBelow(x, Root(s), 0, 256), frames, s, Last(x, frames), x.own.Keys);
  }

  lemma AllBackIff(free: set<nat>, tables: set<nat>, frames: set<nat>, s: nat, last: set<nat>, own: set<nat>)
    requires tables <= own && s in own && frames !! own && frames !! free && (last == frames || last == {})
    ensures free + (tables + last + {s}) == free + (tables + frames + {s}) <==> last == frames
  {
    if f :| f in frames && f !in last {
      assert f in free + (tables + frames + {s}) && f !in free + (tables + last + {s});
    }
  }

  lemma FramesNotFree(x: St, s: nat)
    requires Tearable(x, s)
    ensures FramesBelow(x, Root(s), 0, 256) !! x.free
    ensures Unshared(x, s) ==> forall f :: f in FramesBelow(x, Root(s), 0, 256) ==> x.Stored(f) <= 1
  {
    forall f | f in FramesBelow(x, Root(s), 0, 256) ensures f !in x.free && (Unshared(x, s) ==> x.Stored(f) <= 1) {
      var p, i := FramesOnce(x, Root(s), 0, 256, f);
    }
  }

  lemma Born(x0: St, x: St, root: nat, t: nat)
    requires Inv(x0) && CountExact(x0) && SpaceMade(x0, x, root, t)
    ensures Balanced(x0, x, t)
  {
    SpaceMadeBase(x0, x, root, t);
    BornCount(x0, x, root, t);
    BornEmpty(x0, x, root, t);
    NothingHeld(x, t);
  }

  lemma BornCount(x0: St, x: St, root: nat, t: nat)
    requires CountExact(x0) && x.refs == x0.refs && forall f: nat :: Sharers(x, f) == Sharers(x0, f)
    ensures CountExact(x)
  {
    forall f: nat ensures x.Stored(f) == x0.Stored(f) && Sharers(x, f) == Sharers(x0, f) {
    }
  }

  /** The root is the only table of the new space. */
  lemma BornEmpty(x0: St, x: St, root: nat, t: nat)
    requires Base(x0) && SpaceMade(x0, x, root, t)
    ensures t != KERNEL && forall p :: p in x.own && x.own[p].space == t ==> p == t && x.own[p] == Root(t)
  {
    forall p | p in x0.own ensures x0.own[p].space != t {
      assert PosOk(x0, p);
    }
  }

  lemma NothingHeld(x: St, t: nat)
    requires forall p :: p in x.own && x.own[p].space == t ==> p == t && x.own[p] == Root(t)
    ensures TablesBelow(x, Root(t), 0, 256) == {} && FramesBelow(x, Root(t), 0, 256) == {}
    ensures forall p: nat, i: nat :: !Held(x, t, p, i)
  {
    forall p: nat, i: nat ensures !Held(x, t, p, i) {
    }
  }

  /** Mapping a fresh page: the space now gives back that page and the tables it needed. */
  lemma Grew(x0: St, x: St, y: St, s: nat, va: nat, w: Word, z: St, pt: nat)
    requires Balanced(x0, x, s) && MappedFresh(x, y, s, va, w, z, pt)
    ensures Balanced(x0, y, s)
  {
    OpenBalanced(x0, x, s);
    MappedFreshKeeps(x, y, s, va, w, z, pt);
    GrewHeld(x, y, s, va, w, z, pt);
    GrewTearable(x, y, s, va, w, z, pt);
    GrewTorn(x, y, s, va, w, z, pt);
  }

  /** The page table entries of s are the old ones and the new one. */
  lemma GrewHeld(x: St, y: St, s: nat, va: nat, w: Word, z: St, pt: nat)
    requires Inv(x) && s != KERNEL && MappedFresh(x, y, s, va, w, z, pt)
    ensures pt in y.own && y.own[pt].space == s && Held(y, s, pt, Index(va, 0)) && y.m[pt][Index(va, 0)] == w
    ensures forall p: nat, i: nat :: Held(y, s, p, i) <==> Held(x, s, p, i) || (p == pt && i == Index(va, 0))
    ensures forall p: nat, i: nat :: Held(x, s, p, i) ==> (p != pt || i != Index(va, 0)) && y.m[p][i] == x.m[p][i]
  {
    TakenKeeps(x, w.frame);
    ReachesLabel(z, s, s, 3, va, pt);
    UserPath(s, va, 0);
    forall p: nat, i: nat ensures Held(z, s, p, i) <==> Held(x, s, p, i) {
      if Held(z, s, p, i) { assert OldEntry(Taken(x, w.frame), z, p, i) || NewEntry(z, p, i); }
    }
  }

  lemma GrewTearable(x: St, y: St, s: nat, va: nat, w: Word, z: St, pt: nat)
    requires Inv(x) && CountExact(x) && s != KERNEL && Tearable(x, s) && Unshared(x, s)
    requires MappedFresh(x, y, s, va, w, z, pt) && Inv(y)
    ensures Tearable(y, s) && Unshared(y, s)
  {
    GrewTablesOk(x, y, s, va, w, z, pt);
    GrewHeld(x, y, s, va, w, z, pt);
    forall p: nat, i: nat | Held(y, s, p, i) ensures HeldOnce(y, s, p, i) && y.Stored(y.m[p][i].frame) <= 1 {
      GrewAlone(x, y, s, va, w, z, pt, p, i);
    }
  }

  lemma GrewTablesOk(x: St, y: St, s: nat, va: nat, w: Word, z: St, pt: nat)
    requires Inv(x) && Tearable(x, s) && MappedFresh(x, y, s, va, w, z, pt)
    ensures IsRoot(y, s)
    ensures forall p :: p in y.own && y.own[p].space == s ==> p < y.total
    ensures forall p, i :: p in y.own && p < |y.m| && 0 <= i < 512 && y.own[p].space == s ==>
                             1 <= Level(y.own[p]) <= 2 && y.m[p][i].p ==> !y.m[p][i].ps
  {
    forall p, i | && p in y.own && p < |y.m| && 0 <= i < 512
                  && y.own[p].space == s && 1 <= Level(y.own[p]) <= 2 && y.m[p][i].p
      ensures !y.m[p][i].ps
    {
      assert y.m[p][i] == z.m[p][i];
      assert OldEntry(Taken(x, w.frame), z, p, i) || NewEntry(z, p, i);
    }
  }

  lemma GrewAlone(x: St, y: St, s: nat, va: nat, w: Word, z: St, pt: nat, p: nat, i: nat)
    requires Inv(x) && CountExact(x) && s != KERNEL && Tearable(x, s) && Unshared(x, s)
    requires MappedFresh(x, y, s, va, w, z, pt) && Inv(y)
    requires Held(y, s, p, i)
    ensures HeldOnce(y, s, p, i) && y.Stored(y.m[p][i].frame) <= 1
  {
    GrewHeld(x, y, s, va, w, z, pt);
    FreshIsUnused(x, w.frame);
    if !(p == pt && i == Index(va, 0)) { assert HeldOnce(x, s, p, i); }
    FrameKept(x, y, s, va, w, z, pt, y.m[p][i].frame);
    forall q: nat, j: nat | Held(y, s, q, j) && y.m[q][j].frame == y.m[p][i].frame ensures q == p && j == i {
      if !(q == pt && j == Index(va, 0)) { assert HeldOnce(x, s, q, j); }
    }
  }

  lemma FreshIsUnused(x: St, g: nat)
    requires Inv(x) && CountExact(x) && g in x.free
    ensures x.Stored(g) == 0
  {
    TakenKeeps(x, g);
  }

  /** Pages in use stay in use. */
  lemma FrameKept(x: St, y: St, s: nat, va: nat, w: Word, z: St, pt: nat, f: nat)
    requires Inv(x) && MappedFresh(x, y, s, va, w, z, pt)
    requires (f == w.frame || (0 < f < x.total && f !in x.free && f !in x.own))
    ensures 0 < f < y.total && f !in y.free && f !in y.own && y.Stored(f) == x.Stored(f)
  {
  }

  lemma GrewTorn(x: St, y: St, s: nat, va: nat, w: Word, z: St, pt: nat)
    requires Inv(x) && s != KERNEL && IsRoot(x, s) && MappedFresh(x, y, s, va, w, z, pt) && Inv(y)
    ensures y.free + Whole(y, s) == x.free + Whole(x, s)
  {
    GrewTables(x, y, s, va, w, z, pt);
    GrewFrames(x, y, s, va, w, z, pt);
    var taken := y.own.Keys - x.own.Keys;
    assert y.free == x.free - {w.frame} - taken && taken <= x.free;
    Balance(x.free, taken, w.frame, TablesBelow(x, Root(s), 0, 256), FramesBelow(x, Root(s), 0, 256), s);
  }

  lemma Balance<T>(free: set<T>, taken: set<T>, g: T, tables: set<T>, frames: set<T>, s: T)
    requires taken <= free && g in free
    ensures (free - {g} - taken) + ((tables + taken) + (frames + {g}) + {s}) == free + (tables + frames + {s})
  {
  }

  lemma GrewTables(x: St, y: St, s: nat, va: nat, w: Word, z: St, pt: nat)
    requires Inv(x) && s != KERNEL && IsRoot(x, s) && MappedFresh(x, y, s, va, w, z, pt)
    ensures TablesBelow(y, Root(s), 0, 256) == TablesBelow(x, Root(s), 0, 256) + (y.own.Keys - x.own.Keys)
  {
    forall p | p in y.own && p !in x.own ensures Under(y.own[p], Root(s), 0, 256) {
      assert y.own[p] == At(s, va, Level(y.own[p]));
      assert !y.own[p].Root? by { assert PosOk(z, p); }
      UserPath(s, va, Level(y.own[p]));
    }
  }

  lemma GrewFrames(x: St, y: St, s: nat, va: nat, w: Word, z: St, pt: nat)
    requires Inv(x) && s != KERNEL && MappedFresh(x, y, s, va, w, z, pt) && Inv(y)
    ensures FramesBelow(y, Root(s), 0, 256) == FramesBelow(x, Root(s), 0, 256) + {w.frame}
  {
    GrewHeld(x, y, s, va, w, z, pt);
    FramesOfSpace(x, s);
    FramesOfSpace(y, s);
    forall f ensures f in FramesBelow(y, Root(s), 0, 256) <==> f in FramesBelow(x, Root(s), 0, 256) + {w.frame} {
      GrewFrame(x, y, s, va, w, z, pt, f);
    }
  }

  ghost predicate Names(x: St, s: nat, f: nat)
  {
    exists p: nat, j: nat :: Held(x, s, p, j) && x.m[p][j].frame == f
  }

  lemma GrewFrame(x: St, y: St, s: nat, va: nat, w: Word, z: St, pt: nat, f: nat)
    requires Inv(x) && s != KERNEL && MappedFresh(x, y, s, va, w, z, pt) && Inv(y)
    ensures Names(y, s, f) <==> Names(x, s, f) || f == w.frame
  {
    GrewHeld(x, y, s, va, w, z, pt);
    if p: nat, j: nat :| Held(y, s, p, j) && y.m[p][j].frame == f && !Held(x, s, p, j) {
      assert f == w.frame;
    }
    if p: nat, j: nat :| Held(x, s, p, j) && x.m[p][j].frame == f {
      assert Held(y, s, p, j) && y.m[p][j].frame == f;
    }
  }

  /** The frames of a space are those its page tables hold. */
  lemma FramesOfSpace(x: St, s: nat)
    requires Base(x) && s != KERNEL
    ensures forall f :: f in FramesBelow(x, Root(s), 0, 256) <==> Names(x, s, f)
  {
    forall p: nat, j: nat ensures Held(x, s, p, j) <==> HeldBelow(x, Root(s), 0, 256, p, j) {
      if Held(x, s, p, j) { assert PosOk(x, p); }
    }
  }

  /** Programs writing to their pages change nothing of this. */
  lemma WroteFrame(x: St, y: St, s: nat, f: nat)
    requires forall p: nat, i: nat :: Held(y, s, p, i) <==> Held(x, s, p, i)
    requires forall p: nat, i: nat :: Held(x, s, p, i) ==> p < |y.m| && y.m[p][i] == x.m[p][i]
    ensures Names(y, s, f) <==> Names(x, s, f)
  {
    if p: nat, j: nat :| Held(y, s, p, j) && y.m[p][j].frame == f { assert Held(x, s, p, j) && x.m[p][j].frame == f; }
    if p: nat, j: nat :| Held(x, s, p, j) && x.m[p][j].frame == f { assert Held(y, s, p, j) && y.m[p][j].frame == f; }
  }

  lemma Wrote(x0: St, x: St, y: St, s: nat)
    requires Balanced(x0, x, s) && DataWritten(x, y)
    ensures Balanced(x0, y, s)
  {
    OpenBalanced(x0, x, s);
    DataWrittenKeeps(x, y);
    WroteTearable(x, y, s);
    WroteWhole(x, y, s);
  }

  lemma WroteHeld(x: St, y: St, s: nat)
    requires Base(x) && DataWritten(x, y)
    ensures forall p: nat, i: nat :: Held(y, s, p, i) <==> Held(x, s, p, i)
    ensures forall p: nat, i: nat :: Held(x, s, p, i) ==> p < |y.m| && y.m[p][i] == x.m[p][i]
  {
  }

  lemma WroteTearable(x: St, y: St, s: nat)
    requires Tearable(x, s) && Base(y) && AllLinked(y) && DataWritten(x, y)
    ensures Tearable(y, s) && (Unshared(x, s) ==> Unshared(y, s))
  {
    WroteHeld(x, y, s);
    forall p: nat, i: nat | Held(y, s, p, i) ensures HeldOnce(y, s, p, i) {
      assert HeldOnce(x, s, p, i);
    }
  }

  lemma WroteWhole(x: St, y: St, s: nat)
    requires Base(x) && Base(y) && s != KERNEL && DataWritten(x, y)
    ensures Whole(y, s) == Whole(x, s)
  {
    WroteHeld(x, y, s);
    FramesOfSpace(x, s);
    FramesOfSpace(y, s);
    forall f ensures f in FramesBelow(y, Root(s), 0, 256) <==> f in FramesBelow(x, Root(s), 0, 256) {
      WroteFrame(x, y, s, f);
    }
    assert FramesBelow(y, Root(s), 0, 256) == FramesBelow(x, Root(s), 0, 256);
    assert TablesBelow(y, Root(s), 0, 256) == TablesBelow(x, Root(s), 0, 256);
  }

  /** A life of space s: created, then pages mapped into it and written. */
  ghost predicate Life(run: seq<St>, s: nat)
  {
    && |run| >= 2
    && if |run| == 2 then exists root :: SpaceMade(run[0], run[1], root, s)
       else Life(run[..|run| - 1], s) && LifeStep(run[|run| - 2], run[|run| - 1], s)
  }

  ghost predicate LifeStep(x: St, y: St, s: nat)
  {
    DataWritten(x, y) || exists va, w, z, pt :: MappedFresh(x, y, s, va, w, z, pt)
  }

  lemma BalancedStep(x0: St, x: St, y: St, s: nat)
    requires Balanced(x0, x, s) && LifeStep(x, y, s)
    ensures Balanced(x0, y, s)
  {
    if DataWritten(x, y) {
      Wrote(x0, x, y, s);
    } else {
      var va, w, z, pt :| MappedFresh(x, y, s, va, w, z, pt);
      Grew(x0, x, y, s, va, w, z, pt);
    }
  }

  /** After any such life, the pages of the space are exactly those taken since the start. */
  lemma {:induction false} LifeIsBalanced(run: seq<St>, s: nat)
    requires Life(run, s) && Inv(run[0]) && CountExact(run[0])
    ensures Balanced(run[0], run[|run| - 1], s)
  {
    if |run| == 2 {
      var root :| SpaceMade(run[0], run[1], root, s);
      Born(run[0], run[1], root, s);
    } else {
      LifeIsBalanced(run[..|run| - 1], s);
      BalancedStep(run[0], run[|run| - 2], run[|run| - 1], s);
    }
  }

  /** And teardown gives exactly them back, if counts are kept or none of them is mapped; only then. */
  lemma TeardownRestoresFreeIff(run: seq<St>, s: nat)
    requires Life(run, s) && Inv(run[0]) && CountExact(run[0])
    ensures var x := run[|run| - 1];
            x.free + TornSpace(x, s) == run[0].free <==> x.refs != [] || !HasPages(x, s)
  {
    LifeIsBalanced(run, s);
    GivesAllBackIff(run[0], run[|run| - 1], s);
  }

  lemma LifeStepIsStep(x: St, y: St, s: nat)
    requires LifeStep(x, y, s)
    ensures Step(x, y)
  {
  }

  /** In a space that was created empty the tables grant everything at every user address, whatever was
      mapped into it: what a program may do with a page is decided by the entry of the page. */
  lemma {:induction false} LifeGrantsAll(run: seq<St>, s: nat, va: nat)
    requires Life(run, s) && Inv(run[0]) && UserVa(va)
    ensures var x := run[|run| - 1]; Inv(x) && IsRoot(x, s) && Above(x.m, s, 3, va) == ALL
  {
    var x, y := run[|run| - 2], run[|run| - 1];
    if |run| == 2 {
      var root :| SpaceMade(x, y, root, s);
      SpaceMadeBase(x, y, root, s);
      SpaceMadeWalks(x, y, root, s, va);
    } else {
      LifeGrantsAll(run[..|run| - 1], s, va);
      LifeStepIsStep(x, y, s);
      StillGrants(x, y, s, va);
    }
  }
}
