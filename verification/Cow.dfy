/** The copy-on-write fault (core/memory/vmm.c:296-328) and what the reference count of
    core/memory/pmm.c:106-152 is worth over whole runs. */
module Cow {
  import opened Common
  import opened PageTables
  import opened Fork
  import opened Spaces
  import opened Maps

  /** The entry for a private copy: present, writable, user, and the old no-execute bit. */
  function PrivateWord(n: nat, nx: bool): Word { Word(true, true, true, false, false, nx, n, 0, 0) }

  /** A handled fault on entry i of page table pt; n is the page taken if a copy is made. */
  ghost predicate Faulted(x: St, y: St, pt: nat, i: nat, n: nat)
  {
    && pt in x.own && pt < |x.m| && UserPos(x.own[pt]) && Level(x.own[pt]) == 0 && i < 512
    && var e := x.m[pt][i];
    && e.p && e.u && e.cow
    && if x.Stored(e.frame) > 1 then
         && n in x.free && n < |x.m| && e.frame < |x.m| && e.frame < |x.refs|
         && y == St(x.m[n := x.m[e.frame]][pt := x.m[pt][i := PrivateWord(n, e.nx)]], x.own, x.free - {n},
                    x.refs[e.frame := x.refs[e.frame] - 1], x.total)
       else
         y == SetEntry(x, pt, i, e.(cow := false, w := true))
  }

  /** What a user program reads at va: nothing, or the word its leaf leads to. */
  datatype View = Nothing | Seen(word: Word)

  ghost function UserView(x: St, r: nat, va: nat): View
  {
    var l := Walk(x.m, r, 3, va);
    if UserVa(va) && l.Mapped? && l.entry.u && l.level == 0 && l.entry.frame < |x.m| then
      Seen(x.m[l.entry.frame][va / 8 % 512])
    else
      Nothing
  }

  /** The entry a walk ends in belongs to a table labelled with the path of the walk. */
  lemma {:induction false} WalkEndsAt(x: St, r: nat, t: nat, level: nat, va: nat) returns (p: nat)
    requires Base(x) && level < 4 && t in x.own && x.own[t] == At(r, va, level) && Walk(x.m, t, level, va).Mapped?
    ensures var l := Walk(x.m, t, level, va);
            && l.level <= level && p in x.own && x.own[p] == At(r, va, l.level)
            && x.m[p][Index(va, l.level)] == l.entry && IsLeaf(l.entry, l.level)
    decreases level
  {
    var e := x.m[t][Index(va, level)];
    if Interior(e, level) {
      assert Closed(x.m, x.own, t);
      p := WalkEndsAt(x, r, e.frame, level - 1, va);
    } else {
      p := t;
    }
  }

  /** User-accessible memory is neither free nor a table. */
  lemma UserFrame(x: St, r: nat, va: nat)
    requires Base(x) && UserPages(x) && IsRoot(x, r) && UserVa(va)
    ensures var l := Walk(x.m, r, 3, va); l.Mapped? && l.entry.u ==>
              l.level == 0 && l.entry.frame < x.total && l.entry.frame !in x.free && l.entry.frame !in x.own
  {
    var l := Walk(x.m, r, 3, va);
    if l.Mapped? && l.entry.u {
      var p := WalkEndsAt(x, r, r, 3, va);
      assert !x.own[p].Root?;
      assert LeafAt(x, p, Index(va, l.level));
    }
  }

  lemma FaultBase(x: St, y: St, pt: nat, i: nat, n: nat)
    requires Base(x) && Faulted(x, y, pt, i, n)
    ensures Base(y)
  {
    forall p | p in y.own ensures p < |y.m| && Closed(y.m, y.own, p) && PosOk(y, p) {
      assert Closed(x.m, x.own, p) && PosOk(x, p);
    }
  }

  /** Only the faulting entry moves between frames. */
  lemma FaultSharers(x: St, y: St, pt: nat, i: nat, n: nat, f: nat)
    requires Base(x) && UserPages(x) && Faulted(x, y, pt, i, n)
    ensures (pt, i) in Sharers(x, x.m[pt][i].frame)
    ensures x.Stored(x.m[pt][i].frame) <= 1 ==> Sharers(y, f) == Sharers(x, f)
    ensures x.Stored(x.m[pt][i].frame) > 1 ==> n != x.m[pt][i].frame && Sharers(x, n) == {}
    ensures x.Stored(x.m[pt][i].frame) > 1 ==>
              Sharers(y, f) == if f == n then {(pt, i)}
                               else if f == x.m[pt][i].frame then Sharers(x, f) - {(pt, i)}
                               else Sharers(x, f)
  {
    assert LeafAt(x, pt, i) && LeafAt(y, pt, i);
    forall p: nat, j: nat ensures LeafAt(y, p, j) <==> LeafAt(x, p, j) {
    }
    forall p: nat, j: nat | LeafAt(x, p, j) && (p, j) != (pt, i) ensures y.m[p][j] == x.m[p][j] {
    }
  }

  lemma FaultInv(x: St, y: St, pt: nat, i: nat, n: nat)
    requires Base(x) && UserPages(x) && Faulted(x, y, pt, i, n)
    ensures UserPages(y) && (AllLinked(x) ==> AllLinked(y))
  {
    forall p: nat, j: nat | LeafAt(y, p, j)
      ensures Level(y.own[p]) == 0 && y.m[p][j].frame !in y.free && y.m[p][j].frame !in y.own
      ensures y.m[p][j].frame < y.total
    {
      assert LeafAt(x, p, j);
      if (p, j) != (pt, i) {
        assert y.m[p][j] == x.m[p][j];
      }
    }
    if AllLinked(x) { AllLinkedStays(x, y); }
  }

  /** How a fault changes walks: the faulting entry, wherever it is reached, and nothing else. */
  lemma FaultWalks(x: St, y: St, pt: nat, i: nat, n: nat, r: nat, va: nat)
    requires Base(x) && Faulted(x, y, pt, i, n) && IsRoot(x, r)
    ensures Walk(y.m, r, 3, va) ==
            if Reaches(x.m, r, 3, va, pt) && Index(va, 0) == i then Mapped(y.m[pt][i], 0) else Walk(x.m, r, 3, va)
    ensures Reaches(x.m, r, 3, va, pt) && Index(va, 0) == i ==> Walk(x.m, r, 3, va) == Mapped(x.m[pt][i], 0)
    ensures Above(y.m, r, 3, va) == Above(x.m, r, 3, va)
  {
    var w := y.m[pt][i];
    SetLeafWalk(x, pt, i, w, r, 3, va);
    var z := SetEntry(x, pt, i, w);
    if x.Stored(x.m[pt][i].frame) > 1 {
      assert y.m == z.m[n := y.m[n]];
      FaultBaseNoCopy(x, pt, i, w);
      WalkSkips(z.m, z.own, n, y.m[n], r, va, r, 3);
    }
    if Reaches(x.m, r, 3, va, pt) {
      AbsentWalk(x.m, r, 3, va, pt);
    }
  }

  lemma FaultBaseNoCopy(x: St, pt: nat, i: nat, w: Word)
    requires Base(x) && pt in x.own && Level(x.own[pt]) == 0 && i < 512
    ensures Tables(SetEntry(x, pt, i, w).m, x.own)
  {
    forall p | p in x.own ensures Closed(SetEntry(x, pt, i, w).m, x.own, p) {
      assert Closed(x.m, x.own, p);
    }
  }

  /** A handled fault changes nothing that any program in any space reads at any user address. */
  lemma FaultChangesNoView(x: St, y: St, pt: nat, i: nat, n: nat, r: nat, va: nat)
    requires Base(x) && UserPages(x) && Faulted(x, y, pt, i, n) && IsRoot(x, r)
    ensures UserView(y, r, va) == UserView(x, r, va)
  {
    if UserVa(va) {
      FaultWalks(x, y, pt, i, n, r, va);
      UserFrame(x, r, va);
      assert LeafAt(x, pt, i);
    }
  }

  /** At the faulting address the program may afterwards do all that the tables above the entry grant,
      writing included, but execute only if it could before; the mark is gone. Elsewhere nothing changes. */
  lemma FaultMakesWritable(x: St, y: St, pt: nat, i: nat, n: nat, r: nat, va: nat)
    requires Base(x) && Faulted(x, y, pt, i, n) && IsRoot(x, r)
    ensures Reaches(x.m, r, 3, va, pt) && Index(va, 0) == i ==>
              var l := Walk(y.m, r, 3, va);
              && l.Mapped? && l.level == 0 && l.entry.w && l.entry.u && !l.entry.cow && l.entry.nx == x.m[pt][i].nx
              && Access(y.m, r, va) == Above(x.m, r, 3, va).(x := Access(x.m, r, va).x)
    ensures !(Reaches(x.m, r, 3, va, pt) && Index(va, 0) == i) ==> Access(y.m, r, va) == Access(x.m, r, va)
  {
    FaultWalks(x, y, pt, i, n, r, va);
  }

  /** Entry i of pt is the only user entry for its page. */
  ghost predicate Private(x: St, pt: nat, i: nat)
    requires pt < |x.m| && i < 512
  {
    Sharers(x, x.m[pt][i].frame) == {(pt, i)}
  }

  /** The page is private after the fault exactly when it was counted more than once or had one user. */
  lemma FaultPrivateIff(x: St, y: St, pt: nat, i: nat, n: nat)
    requires Base(x) && UserPages(x) && Faulted(x, y, pt, i, n)
    ensures Private(y, pt, i) <==> x.Stored(x.m[pt][i].frame) > 1 || |Sharers(x, x.m[pt][i].frame)| == 1
  {
    var f := x.m[pt][i].frame;
    FaultSharers(x, y, pt, i, n, y.m[pt][i].frame);
    if |Sharers(x, f)| == 1 {
      SingletonSet(Sharers(x, f), (pt, i));
    }
  }

  lemma SingletonSet<T>(s: set<T>, e: T)
    requires e in s && |s| == 1
    ensures s == {e}
  {
    assert |s - {e}| == 0;
  }

  /** A count that is at least the number of sharers would make every fault private. */
  lemma FaultPrivateIfCounted(x: St, y: St, pt: nat, i: nat, n: nat)
    requires Base(x) && UserPages(x) && Faulted(x, y, pt, i, n)
    requires x.Stored(x.m[pt][i].frame) >= |Sharers(x, x.m[pt][i].frame)|
    ensures Private(y, pt, i)
  {
    FaultSharers(x, y, pt, i, n, 0);
    FaultPrivateIff(x, y, pt, i, n);
    assert |Sharers(x, x.m[pt][i].frame)| > 0;
  }

  /** What the count really is: one less than the number of entries. */
  ghost predicate CountExact(x: St)
  {
    forall f: nat :: x.Stored(f) == if Sharers(x, f) == {} then 0 else |Sharers(x, f)| - 1
  }

  /** So a fault is private exactly when the page does not have two users: with two, the count
      is 1 and the code takes the branch of the last reference. */
  lemma FaultPrivateUnlessTwo(x: St, y: St, pt: nat, i: nat, n: nat)
    requires Base(x) && UserPages(x) && CountExact(x) && Faulted(x, y, pt, i, n)
    ensures Private(y, pt, i) <==> |Sharers(x, x.m[pt][i].frame)| != 2
  {
    FaultSharers(x, y, pt, i, n, 0);
    FaultPrivateIff(x, y, pt, i, n);
    assert |Sharers(x, x.m[pt][i].frame)| > 0;
  }

  /** A user program stores a word through a writable leaf. */
  ghost function Store(x: St, f: nat, k: nat, w: Word): St
    requires f < |x.m| && k < 512
  {
    SetEntry(x, f, k, w)
  }

  /** With two users, a store after the fault shows up in the other space. */
  lemma StoreLeaks(x: St, y: St, pt: nat, i: nat, n: nat, r: nat, va: nat, r': nat, vb: nat, w: Word)
    requires Base(x) && UserPages(x) && CountExact(x) && Faulted(x, y, pt, i, n)
    requires |Sharers(x, x.m[pt][i].frame)| == 2
    requires IsRoot(x, r) && Reaches(x.m, r, 3, va, pt) && Index(va, 0) == i
    requires IsRoot(x, r') && UserVa(vb) && va / 8 % 512 == vb / 8 % 512
    requires var l := Walk(x.m, r', 3, vb); l.Mapped? && l.entry.u && l.entry.frame == x.m[pt][i].frame
    ensures var l := Walk(y.m, r, 3, va);
            && l.Mapped? && l.entry.w && l.entry.frame < |y.m|
            && UserView(Store(y, l.entry.frame, va / 8 % 512, w), r', vb) == Seen(w)
  {
    var f := x.m[pt][i].frame;
    assert x.Stored(f) == 1;
    FaultWalks(x, y, pt, i, n, r', vb);
    UserFrame(x, r', vb);
    FaultWalks(x, y, pt, i, n, r, va);
    FaultBase(x, y, pt, i, n);
    StoreSeen(y, f, va / 8 % 512, r', vb, w);
  }

  /** A store into a frame is seen wherever that frame is mapped. */
  lemma StoreSeen(y: St, f: nat, k: nat, r: nat, vb: nat, w: Word)
    requires Base(y) && IsRoot(y, r) && f < |y.m| && f !in y.own && k == vb / 8 % 512
    requires UserVa(vb)
    requires var l := Walk(y.m, r, 3, vb); l.Mapped? && l.entry.u && l.level == 0 && l.entry.frame == f
    ensures UserView(Store(y, f, k, w), r, vb) == Seen(w)
  {
    WalkSkips(y.m, y.own, f, Store(y, f, k, w).m[f], r, vb, r, 3);
  }

  /** The page mapped before a fork has exactly one more user entry after it: the child's. */
  lemma ForkAddsOneSharer(x: St, y: St, root: nat, child: nat, g: nat, pt: nat, i: nat)
    requires Base(x) && AllLinked(x) && UserPages(x) && ForkedSpace(x, y, root, child)
    requires Sharers(x, g) == {(pt, i)}
    ensures |Sharers(y, g)| <= 2
  {
    var was, now := Sharers(x, g), Sharers(y, g);
    forall a, b | a in now && a !in was && b in now && b !in was ensures a == b {
      OnlyOneNew(x, y, root, child, g, pt, i, a.0, a.1, b.0, b.1);
    }
    OneNew(was, now, (pt, i));
  }

  lemma OnlyOneNew(x: St, y: St, root: nat, child: nat, g: nat, pt: nat, i: nat, p: nat, j: nat, p': nat, j': nat)
    requires Base(x) && AllLinked(x) && UserPages(x) && ForkedSpace(x, y, root, child) && Sharers(x, g) == {(pt, i)}
    requires (p, j) in Sharers(y, g) && (p, j) !in Sharers(x, g) && (p', j') in Sharers(y, g)
    requires (p', j') !in Sharers(x, g)
    ensures (p, j) == (p', j')
  {
    ForkedSpaceFresh(x, y, root, child);
    ForkedSpaceInv(x, y, root, child);
    NewSharer(x, y, root, child, g, pt, i, p, j);
    NewSharer(x, y, root, child, g, pt, i, p', j');
    PositionsUnique(y, p, p');
  }

  lemma OneNew<T>(was: set<T>, now: set<T>, one: T)
    requires was == {one} && forall a, b :: a in now && a !in was && b in now && b !in was ==> a == b
    ensures |now| <= 2
  {
    if a :| a in now && a !in was {
      assert now <= {one, a};
      SubsetSize(now, {one, a});
    } else {
      SubsetSize(now, {one});
    }
  }

  /** An entry that fork added sits where the parent's entry for the same page sits. */
  lemma NewSharer(x: St, y: St, root: nat, child: nat, g: nat, pt: nat, i: nat, p: nat, j: nat)
    requires Base(x) && UserPages(x) && ForkedSpace(x, y, root, child) && IsRoot(x, root)
    requires AllLinked(y) && UserPages(y) && Base(y)
    requires Sharers(x, g) == {(pt, i)} && (p, j) in Sharers(y, g) && (p, j) !in Sharers(x, g)
    requires forall q :: q in y.own && y.own[q].space != child ==> q in x.own
    ensures j == i && pt in x.own && p in y.own && y.own[p] == Rebase(x.own[pt], child)
  {
    assert LeafAt(y, p, j);
    assert y.own[p].space == child by {
      if y.own[p].space != child { OldSharer(x, y, root, child, p, j); }
    }
    var v := LeafVa(y, p, j);
    var q := ParentLeaf(x, y, root, child, v);
    assert (q, j) in Sharers(x, g);
  }

  /** The parent's entry behind a user translation of the child. */
  lemma ParentLeaf(x: St, y: St, root: nat, child: nat, v: nat) returns (q: nat)
    requires Base(x) && UserPages(x) && ForkedSpace(x, y, root, child) && IsRoot(x, root) && UserVa(v)
    requires Walk(y.m, child, 3, v).Mapped? && Walk(y.m, child, 3, v).entry.u
    ensures LeafAt(x, q, Index(v, 0)) && x.own[q] == Pt(root, Index(v, 3), Index(v, 2), Index(v, 1))
    ensures x.m[q][Index(v, 0)].frame == Walk(y.m, child, 3, v).entry.frame
  {
    ForkedSpaceWalks(x, y, root, child, v);
    q := UserLeafOf(x, root, v);
  }

  /** An address that the entry translates. */
  lemma LeafVa(y: St, p: nat, j: nat) returns (v: nat)
    requires Base(y) && AllLinked(y) && p in y.own && UserPos(y.own[p]) && Level(y.own[p]) == 0 && j < 512
    requires y.m[p][j].p
    ensures var r := y.own[p].space;
            && UserVa(v) && Index(v, 0) == j && y.own[p] == Pt(r, Index(v, 3), Index(v, 2), Index(v, 1))
            && IsRoot(y, r) && Walk(y.m, r, 3, v) == Mapped(y.m[p][j], 0)
  {
    var pos := y.own[p];
    assert PosOk(y, p);
    LabelBounds(y, p);
    v := VaThrough(pos, j);
    ThroughEntry(pos, j);
    PathTo(pos.space, v);
    LinkedPasses(y, pos.space, v, 0, p);
    PassesDown(y.m, pos.space, 3, v, 0, p);
    AbsentWalk(y.m, pos.space, 3, v, p);
  }

  lemma PathTo(r: nat, v: nat)
    requires UserVa(v)
    ensures At(r, v, 0) == Pt(r, Index(v, 3), Index(v, 2), Index(v, 1))
  {
    assert At(r, v, 2) == Pdpt(r, Index(v, 3));
    assert At(r, v, 1) == Pd(r, Index(v, 3), Index(v, 2));
  }

  /** The entry behind a user translation. */
  lemma UserLeafOf(x: St, r: nat, v: nat) returns (q: nat)
    requires Base(x) && UserPages(x) && IsRoot(x, r) && UserVa(v) && Walk(x.m, r, 3, v).Mapped?
    requires Walk(x.m, r, 3, v).entry.u
    ensures LeafAt(x, q, Index(v, 0)) && x.own[q] == Pt(r, Index(v, 3), Index(v, 2), Index(v, 1))
    ensures x.m[q][Index(v, 0)] == Walk(x.m, r, 3, v).entry
  {
    q := WalkEndsAt(x, r, r, 3, v);
    UserFrame(x, r, v);
    PathTo(r, v);
  }

  lemma OldSharer(x: St, y: St, root: nat, child: nat, p: nat, j: nat)
    requires Base(x) && ForkedSpace(x, y, root, child) && p in x.own && LeafAt(y, p, j)
    ensures (p, j) in Sharers(x, y.m[p][j].frame)
  {
    var x1 :| SpaceMade(x, x1, root, child) && Forked(x1, y, root, child, 0, 256);
    assert p in x1.own && p != child;
    assert y.m[p][j] == x1.m[p][j] || y.m[p][j] == CowWord(x1.m[p][j], Level(x1.own[p]));
    assert LeafAt(x, p, j);
  }

  /** Map a page, fork, and let the parent write: the parent's entry is writable and the child
      still has the same page. This holds on every machine, so copy-on-write never takes effect
      after a single fork. */
  lemma WriteAfterForkIsShared(x: St, y1: St, y2: St, y3: St, root: nat, va: nat, w: Word, z: St, pt: nat, child: nat,
                               pt': nat, n: nat)
    requires Inv(x) && CountExact(x) && MappedFresh(x, y1, root, va, w, z, pt)
    requires ForkedSpace(y1, y2, root, child)
    requires Faulted(y2, y3, pt', Index(va, 0), n) && Reaches(y2.m, root, 3, va, pt')
    ensures Walk(y3.m, root, 3, va).Mapped? && Walk(y3.m, child, 3, va).Mapped?
    ensures Walk(y3.m, root, 3, va).entry.w
    ensures Walk(y3.m, root, 3, va).entry.frame == Walk(y3.m, child, 3, va).entry.frame == w.frame
  {
    MappedFreshKeeps(x, y1, root, va, w, z, pt);
    FreshSharer(x, y1, root, va, w, z, pt);
    MapWalks(Taken(x, w.frame), y1, root, va, w, z, pt, root, va);
    ForkThenFault(y1, y2, y3, root, va, w, pt, child, pt', n);
  }

  lemma ForkThenFault(y1: St, y2: St, y3: St, root: nat, va: nat, w: Word, pt: nat, child: nat, pt': nat, n: nat)
    requires Inv(y1) && CountExact(y1) && IsRoot(y1, root) && UserVa(va) && ForkedSpace(y1, y2, root, child)
    requires Walk(y1.m, root, 3, va) == Mapped(w, 0) && Sharers(y1, w.frame) == {(pt, Index(va, 0))}
    requires Faulted(y2, y3, pt', Index(va, 0), n) && Reaches(y2.m, root, 3, va, pt')
    ensures Walk(y3.m, root, 3, va).Mapped? && Walk(y3.m, child, 3, va).Mapped?
    ensures Walk(y3.m, root, 3, va).entry.w
    ensures Walk(y3.m, root, 3, va).entry.frame == Walk(y3.m, child, 3, va).entry.frame == w.frame
  {
    CountAfterFork(y1, y2, root, child, w.frame, pt, Index(va, 0));
    ForkedSpaceFresh(y1, y2, root, child);
    ForkedSpaceWalks(y1, y2, root, child, va);
    assert IsRoot(y2, root) && root != child;
    FaultInOneSpace(y2, y3, pt', Index(va, 0), n, root, child, va);
  }

  lemma CountAfterFork(x: St, y: St, root: nat, child: nat, g: nat, pt: nat, i: nat)
    requires Inv(x) && CountExact(x) && ForkedSpace(x, y, root, child) && Sharers(x, g) == {(pt, i)}
    ensures y.Stored(g) <= 1
  {
    ForkAddsOneSharer(x, y, root, child, g, pt, i);
    ForkedSpaceFresh(x, y, root, child);
    assert x.Stored(g) == 0;
    assert LeafAt(x, pt, i);
  }

  lemma FaultInOneSpace(x: St, y: St, pt: nat, i: nat, n: nat, r: nat, r': nat, va: nat)
    requires Base(x) && Faulted(x, y, pt, i, n) && IsRoot(x, r) && IsRoot(x, r') && r != r' && UserVa(va)
    requires Reaches(x.m, r, 3, va, pt) && Index(va, 0) == i
    ensures Walk(y.m, r, 3, va) == Mapped(y.m[pt][i], 0) && Walk(x.m, r, 3, va) == Mapped(x.m[pt][i], 0)
    ensures Walk(y.m, r', 3, va) == Walk(x.m, r', 3, va)
  {
    FaultWalks(x, y, pt, i, n, r, va);
    FaultWalks(x, y, pt, i, n, r', va);
    if Reaches(x.m, r', 3, va, pt) {
      SameTable(x, r, va, r', va, pt);
    }
  }

  lemma FreshSharer(x: St, y: St, root: nat, va: nat, w: Word, z: St, pt: nat)
    requires Inv(x) && MappedFresh(x, y, root, va, w, z, pt)
    ensures Sharers(y, w.frame) == {(pt, Index(va, 0))}
  {
    var x1 := Taken(x, w.frame);
    TakenKeeps(x, w.frame);
    ExtendedInv(x1, z);
    SetUserLeaf(z, root, va, pt, w);
    assert Sharers(z, w.frame) == Sharers(x1, w.frame) == {};
  }

  /** pmm_unref of a frame with a count of its own (core/memory/pmm.c:133-144). */
  function Unref(x: St, f: nat): St
    requires f < |x.refs|
  {
    if x.refs[f] > 1 then St(x.m, x.own, x.free, x.refs[f := x.refs[f] - 1], x.total)
    else St(x.m, x.own, x.free + {f}, x.refs[f := 0], x.total)
  }

  /** Dropping one entry gives away a page that another entry still names exactly when the page
      has two users: one exec after one fork. */
  lemma UnrefGivesAwaySharedIffTwo(x: St, f: nat, e: (nat, nat))
    requires Inv(x) && CountExact(x) && x.refs != [] && e in Sharers(x, f)
    ensures f < |x.refs|
    ensures f in Unref(x, f).free && Sharers(x, f) - {e} != {} <==> |Sharers(x, f)| == 2
  {
    assert LeafAt(x, e.0, e.1);
    assert |Sharers(x, f) - {e}| == |Sharers(x, f)| - 1;
  }

  // ---------- Runs ----------

  ghost predicate Inv(x: St) { Base(x) && AllLinked(x) && UserPages(x) }

  /** pmm_alloc of page g, and vmm_map of it as a present user page. */
  ghost predicate MappedFresh(x: St, y: St, root: nat, va: nat, w: Word, z: St, pt: nat)
  {
    && w.frame in x.free && w.p && w.u && UserVa(va)
    && MappedAt(Taken(x, w.frame), y, root, va, w, z, pt)
  }

  /** x without g in the free set. */
  function Taken(x: St, g: nat): St { St(x.m, x.own, x.free - {g}, x.refs, x.total) }

  /** Programs write to their pages: tables, free pages and counts stay as they are. */
  ghost predicate DataWritten(x: St, y: St)
  {
    && |y.m| == |x.m| && y == St(y.m, x.own, x.free, x.refs, x.total)
    && forall p :: p in x.own && p < |x.m| ==> y.m[p] == x.m[p]
  }

  /** vmm_map in the kernel half: of a page just allocated, as the heap does, or of any other. */
  ghost predicate KernelMapped(x: St, y: St, root: nat, va: nat, w: Word, z: St, pt: nat)
  {
    && !UserVa(va)
    && (MappedAt(x, y, root, va, w, z, pt) || (w.frame in x.free && MappedAt(Taken(x, w.frame), y, root, va, w, z, pt)))
  }

  /** One step of a run without teardown. */
  ghost predicate Step(x: St, y: St)
  {
    || (exists root, t :: SpaceMade(x, y, root, t))
    || (exists root, va, w, z, pt :: MappedFresh(x, y, root, va, w, z, pt))
    || (exists root, va, w, z, pt :: KernelMapped(x, y, root, va, w, z, pt))
    || (exists root, child :: ForkedSpace(x, y, root, child))
    || (exists pt, i, n :: Faulted(x, y, pt, i, n))
    || DataWritten(x, y)
  }

  /** No page has more users than a 16-bit count of users beyond the first can tell. */
  ghost predicate BelowSaturation(x: St)
  {
    forall f: nat :: |Sharers(x, f)| <= REF_MAX + 1
  }

  lemma MappedFreshKeeps(x: St, y: St, root: nat, va: nat, w: Word, z: St, pt: nat)
    requires Inv(x) && MappedFresh(x, y, root, va, w, z, pt)
    ensures Inv(y) && (CountExact(x) ==> CountExact(y))
  {
    var x1 := Taken(x, w.frame);
    TakenKeeps(x, w.frame);
    ExtendedInv(x1, z);
    assert w.frame !in z.own && w.frame !in z.free;
    SetUserLeaf(z, root, va, pt, w);
    if CountExact(x) { MappedFreshCount(x, x1, y, z, w.frame, pt, Index(va, 0)); }
  }

  lemma MappedFreshCount(x: St, x1: St, y: St, z: St, g: nat, pt: nat, i: nat)
    requires CountExact(x) && Sharers(x, g) == {} && y.refs == x.refs
    requires forall f: nat :: Sharers(x1, f) == Sharers(x, f)
    requires forall f: nat :: Sharers(z, f) == Sharers(x1, f)
    requires forall f: nat :: Sharers(y, f) == Sharers(z, f) + if f == g then {(pt, i)} else {}
    ensures CountExact(y)
  {
    forall f: nat ensures y.Stored(f) == if Sharers(y, f) == {} then 0 else |Sharers(y, f)| - 1 {
      assert Sharers(z, f) == Sharers(x1, f) == Sharers(x, f);
      assert y.Stored(f) == x.Stored(f);
    }
  }

  /** A kernel map touches no user entry and no count. */
  lemma KernelMappedKeeps(x: St, y: St, root: nat, va: nat, w: Word, z: St, pt: nat)
    requires Inv(x) && KernelMapped(x, y, root, va, w, z, pt)
    ensures Inv(y) && y.refs == x.refs && forall f: nat :: Sharers(y, f) == Sharers(x, f)
  {
    if MappedAt(x, y, root, va, w, z, pt) {
      KernelLeafKeeps(x, y, root, va, w, z, pt);
    } else {
      TakenKeeps(x, w.frame);
      KernelLeafKeeps(Taken(x, w.frame), y, root, va, w, z, pt);
    }
  }

  lemma KernelLeafKeeps(x: St, y: St, root: nat, va: nat, w: Word, z: St, pt: nat)
    requires Inv(x) && !UserVa(va) && MappedAt(x, y, root, va, w, z, pt)
    ensures Inv(y) && y.refs == x.refs && forall f: nat :: Sharers(y, f) == Sharers(x, f)
  {
    ExtendedInv(x, z);
    ReachesLabel(z, root, root, 3, va, pt);
    KernelPath(root, va);
    NewLeafBase(z, pt, Index(va, 0), w);
    AllLinkedStays(z, y);
    KernelLeafSharers(z, y, pt, Index(va, 0), w);
  }

  lemma KernelPath(r: nat, va: nat)
    requires !UserVa(va)
    ensures !UserPos(At(r, va, 0))
  {
    assert At(r, va, 2) == Pdpt(KERNEL, Index(va, 3));
    assert At(r, va, 1) == Pd(KERNEL, Index(va, 3), Index(va, 2));
  }

  lemma KernelLeafSharers(z: St, y: St, pt: nat, i: nat, w: Word)
    requires UserPages(z) && pt in z.own && pt < |z.m| && !UserPos(z.own[pt]) && i < 512 && y == SetEntry(z, pt, i, w)
    ensures UserPages(y) && forall f: nat :: Sharers(y, f) == Sharers(z, f)
  {
    forall p: nat, j: nat ensures LeafAt(y, p, j) <==> LeafAt(z, p, j) {
    }
    forall p: nat, j: nat | LeafAt(z, p, j) ensures y.m[p][j] == z.m[p][j] {
    }
  }

  lemma TakenBase(x: St, g: nat)
    requires Base(x)
    ensures Base(Taken(x, g))
  {
    forall p | p in x.own ensures PosOk(Taken(x, g), p) {
      assert PosOk(x, p);
    }
  }

  lemma TakenKeeps(x: St, g: nat)
    requires Inv(x) && g in x.free
    ensures Inv(Taken(x, g)) && Sharers(x, g) == {}
    ensures forall f: nat :: Sharers(Taken(x, g), f) == Sharers(x, f)
  {
    var y := Taken(x, g);
    forall p | p in y.own ensures PosOk(y, p) {
      assert PosOk(x, p);
    }
    forall p: nat, i: nat ensures LeafAt(y, p, i) <==> LeafAt(x, p, i) {
    }
    forall f: nat ensures Sharers(y, f) == Sharers(x, f) {
    }
    AllLinkedStays(x, y);
  }

  /** An absent entry becomes a leaf for a page nobody else uses. */
  lemma SetUserLeaf(z: St, root: nat, va: nat, pt: nat, w: Word)
    requires Inv(z) && IsRoot(z, root) && UserVa(va) && Reaches(z.m, root, 3, va, pt) && pt in z.own
    requires Level(z.own[pt]) == 0
    requires !z.m[pt][Index(va, 0)].p && w.p && w.u && w.frame !in z.own && w.frame !in z.free && w.frame < z.total
    ensures Inv(SetEntry(z, pt, Index(va, 0), w))
    ensures forall f: nat :: Sharers(SetEntry(z, pt, Index(va, 0), w), f) ==
                             Sharers(z, f) + if f == w.frame then {(pt, Index(va, 0))} else {}
  {
    ReachesLabel(z, root, root, 3, va, pt);
    NewLeafSharers(z, pt, Index(va, 0), w);
    NewLeafBase(z, pt, Index(va, 0), w);
    AllLinkedStays(z, SetEntry(z, pt, Index(va, 0), w));
  }

  lemma NewLeafBase(z: St, pt: nat, i: nat, w: Word)
    requires Base(z) && pt in z.own && Level(z.own[pt]) == 0 && i < 512
    ensures Base(SetEntry(z, pt, i, w))
  {
    FaultBaseNoCopy(z, pt, i, w);
    forall p | p in z.own ensures PosOk(SetEntry(z, pt, i, w), p) {
      assert PosOk(z, p);
    }
  }

  lemma NewLeafSharers(z: St, pt: nat, i: nat, w: Word)
    requires UserPages(z) && pt in z.own && pt < |z.m| && Level(z.own[pt]) == 0 && UserPos(z.own[pt]) && i < 512
    requires !z.m[pt][i].p
    requires w.p && w.u && w.frame !in z.own && w.frame !in z.free && w.frame < z.total
    ensures UserPages(SetEntry(z, pt, i, w))
    ensures forall f: nat :: Sharers(SetEntry(z, pt, i, w), f) == Sharers(z, f) + if f == w.frame then {(pt, i)} else {}
  {
    var y := SetEntry(z, pt, i, w);
    forall p: nat, j: nat ensures LeafAt(y, p, j) <==> LeafAt(z, p, j) || (p, j) == (pt, i) {
    }
    forall p: nat, j: nat | LeafAt(z, p, j) ensures (p, j) != (pt, i) && y.m[p][j] == z.m[p][j] {
    }
  }

  lemma FaultKeepsCount(x: St, y: St, pt: nat, i: nat, n: nat)
    requires Inv(x) && CountExact(x) && Faulted(x, y, pt, i, n)
    ensures CountExact(y)
  {
    var g := x.m[pt][i].frame;
    forall f: nat ensures y.Stored(f) == if Sharers(y, f) == {} then 0 else |Sharers(y, f)| - 1 {
      FaultCountOf(x, y, pt, i, n, f);
    }
  }

  lemma FaultCountOf(x: St, y: St, pt: nat, i: nat, n: nat, f: nat)
    requires Inv(x) && CountExact(x) && Faulted(x, y, pt, i, n)
    ensures y.Stored(f) == if Sharers(y, f) == {} then 0 else |Sharers(y, f)| - 1
  {
    var g := x.m[pt][i].frame;
    assert x.Stored(f) == if Sharers(x, f) == {} then 0 else |Sharers(x, f)| - 1;
    OneLess(Sharers(x, g), (pt, i));
    FaultSharers(x, y, pt, i, n, f);
  }

  lemma OneLess<T>(s: set<T>, e: T)
    ensures e in s ==> |s - {e}| == |s| - 1
  {
  }

  lemma ForkKeepsCount(x: St, y: St, root: nat, child: nat)
    requires Inv(x) && CountExact(x) && ForkedSpace(x, y, root, child) && BelowSaturation(y)
    ensures CountExact(y)
  {
    ForkedSpaceFresh(x, y, root, child);
    ForkedSpaceInv(x, y, root, child);
    forall f: nat ensures y.Stored(f) == if Sharers(y, f) == {} then 0 else |Sharers(y, f)| - 1 {
      assert |Sharers(y, f)| <= REF_MAX + 1;
      if f < x.total {
        SubsetSize(Sharers(x, f), Sharers(y, f));
      } else {
        assert forall p: nat, j: nat :: LeafAt(y, p, j) ==> y.m[p][j].frame < y.total;
        assert Sharers(y, f) == {};
      }
    }
  }

  lemma DataWrittenKeeps(x: St, y: St)
    requires Inv(x) && DataWritten(x, y)
    ensures Inv(y) && (CountExact(x) ==> CountExact(y))
  {
    forall p | p in y.own ensures p < |y.m| && Closed(y.m, y.own, p) && PosOk(y, p) {
      assert Closed(x.m, x.own, p) && PosOk(x, p);
    }
    forall p: nat, i: nat ensures LeafAt(y, p, i) <==> LeafAt(x, p, i) {
    }
    forall f: nat ensures Sharers(y, f) == Sharers(x, f) && y.Stored(f) == x.Stored(f) {
    }
    AllLinkedStays(x, y);
  }

  lemma StepKeeps(x: St, y: St)
    requires Inv(x) && Step(x, y)
    ensures Inv(y)
    ensures CountExact(x) && BelowSaturation(y) ==> CountExact(y)
  {
    if root, t :| SpaceMade(x, y, root, t) {
      SpaceMadeBase(x, y, root, t);
      forall f: nat ensures y.Stored(f) == x.Stored(f) && Sharers(y, f) == Sharers(x, f) {
      }
    } else if root, va, w, z, pt :| MappedFresh(x, y, root, va, w, z, pt) {
      MappedFreshKeeps(x, y, root, va, w, z, pt);
    } else if root, va, w, z, pt :| KernelMapped(x, y, root, va, w, z, pt) {
      KernelMappedKeeps(x, y, root, va, w, z, pt);
    } else if root, child :| ForkedSpace(x, y, root, child) {
      ForkedSpaceFresh(x, y, root, child);
      ForkedSpaceInv(x, y, root, child);
      if CountExact(x) && BelowSaturation(y) { ForkKeepsCount(x, y, root, child); }
    } else if pt, i, n :| Faulted(x, y, pt, i, n) {
      FaultBase(x, y, pt, i, n);
      FaultInv(x, y, pt, i, n);
      if CountExact(x) { FaultKeepsCount(x, y, pt, i, n); }
    } else {
      DataWrittenKeeps(x, y);
    }
  }

  /** No step changes what the tables of a space grant at any address. */
  lemma StepGrants(x: St, y: St, r: nat, va: nat)
    requires Inv(x) && Step(x, y) && IsRoot(x, r)
    ensures IsRoot(y, r) && Above(y.m, r, 3, va) == Above(x.m, r, 3, va)
  {
    if root, t :| SpaceMade(x, y, root, t) {
      SpaceMadeWalks(x, y, root, t, va);
    } else if root, vb, w, z, pt :| MappedFresh(x, y, root, vb, w, z, pt) {
      MapAccess(Taken(x, w.frame), y, root, vb, w, z, pt, r, va);
    } else if root, vb, w, z, pt :| KernelMapped(x, y, root, vb, w, z, pt) {
      KernelMapGrants(x, y, root, vb, w, z, pt, r, va);
    } else if root, child :| ForkedSpace(x, y, root, child) {
      ForkGrants(x, y, root, child, r, va);
    } else if pt, i, n :| Faulted(x, y, pt, i, n) {
      FaultWalks(x, y, pt, i, n, r, va);
    } else {
      WalkAgree(x.m, y.m, x.own, r, va, r, 3);
    }
  }

  lemma KernelMapGrants(x: St, y: St, root: nat, vb: nat, w: Word, z: St, pt: nat, r: nat, va: nat)
    requires KernelMapped(x, y, root, vb, w, z, pt) && IsRoot(x, r)
    ensures IsRoot(y, r) && Above(y.m, r, 3, va) == Above(x.m, r, 3, va)
  {
    if MappedAt(x, y, root, vb, w, z, pt) {
      MapAccess(x, y, root, vb, w, z, pt, r, va);
    } else {
      MapAccess(Taken(x, w.frame), y, root, vb, w, z, pt, r, va);
    }
  }

  lemma ForkGrants(x: St, y: St, root: nat, child: nat, r: nat, va: nat)
    requires Base(x) && ForkedSpace(x, y, root, child) && IsRoot(x, r)
    ensures IsRoot(y, r) && Above(y.m, r, 3, va) == Above(x.m, r, 3, va)
  {
    ForkedSpaceFresh(x, y, root, child);
    ForkedSpaceElsewhere(x, y, root, child, va);
    if UserVa(va) { ForkedSpaceWalks(x, y, root, child, va); }
  }

  /** A run below saturation. */
  ghost predicate Run(run: seq<St>)
  {
    && |run| > 0 && BelowSaturation(run[|run| - 1])
    && (|run| > 1 ==> Run(run[..|run| - 1]) && Step(run[|run| - 2], run[|run| - 1]))
  }

  /** Over every run without teardown and below saturation the stored count of a page is its
      number of user entries minus one. */
  lemma {:induction false} CountIsSharersMinusOne(run: seq<St>)
    requires Run(run) && Inv(run[0]) && CountExact(run[0])
    ensures Inv(run[|run| - 1]) && CountExact(run[|run| - 1])
  {
    if |run| > 1 {
      CountIsSharersMinusOne(run[..|run| - 1]);
      StepKeeps(run[|run| - 2], run[|run| - 1]);
    }
  }

  /** A run without teardown. */
  ghost predicate Path(run: seq<St>)
  {
    |run| > 0 && (|run| > 1 ==> Path(run[..|run| - 1]) && Step(run[|run| - 2], run[|run| - 1]))
  }

  /** Over every such run the tables of a space grant the same at every address, so that what a program
      may do there is decided by the leaf. */
  lemma {:induction false} TablesGrantTheSame(run: seq<St>, r: nat, va: nat)
    requires Path(run) && Inv(run[0]) && IsRoot(run[0], r)
    ensures var y := run[|run| - 1]; Inv(y) && IsRoot(y, r) && Above(y.m, r, 3, va) == Above(run[0].m, r, 3, va)
  {
    if |run| > 1 {
      var before := run[..|run| - 1];
      assert before[0] == run[0] && before[|before| - 1] == run[|run| - 2];
      TablesGrantTheSame(before, r, va);
      StillGrants(run[|run| - 2], run[|run| - 1], r, va);
    }
  }

  lemma StillGrants(x: St, y: St, r: nat, va: nat)
    requires Inv(x) && Step(x, y) && IsRoot(x, r)
    ensures Inv(y) && IsRoot(y, r) && Above(y.m, r, 3, va) == Above(x.m, r, 3, va)
  {
    StepKeeps(x, y);
    StepGrants(x, y, r, va);
  }
}
