/** Cloning the boot loader's page tables (core/memory/vmm.c:183-208 and 276-294). */
module Clone {
  import opened Common
  import opened PageTables
  import opened Fork
  import opened Spaces
  import opened Maps

  /** The tables of the source tree, with their levels: closed under interior entries. */
  ghost predicate SourceTree(m: Phys, tree: set<(nat, nat)>)
  {
    forall n :: n in tree ==> n.0 < |m| && n.1 < 4 && SourceClosed(m, tree, n.0, n.1)
  }

  ghost predicate SourceClosed(m: Phys, tree: set<(nat, nat)>, t: nat, level: nat)
    requires t < |m|
  {
    forall i :: 0 <= i < 512 && Interior(m[t][i], level) ==> level > 0 && (m[t][i].frame, level - 1) in tree
  }

  /** Bit 7 is clear in the entries of the top level, as the architecture requires. */
  ghost predicate PlainRoots(m: Phys, tree: set<(nat, nat)>)
  {
    forall t, i :: (t, 3) in tree && t < |m| && 0 <= i < 512 ==> !m[t][i].ps
  }

  /** Walks from labelled tables stay in labelled tables. */
  lemma {:induction false} LabelledWalk(m: Phys, n: Phys, lab: map<nat, Pos>, t: nat, level: nat, va: nat)
    requires Tables(m, lab) && t in lab && level == Level(lab[t]) && |n| == |m|
    requires forall p :: p in lab ==> n[p] == m[p]
    ensures Walk(n, t, level, va) == Walk(m, t, level, va) && Above(n, t, level, va) == Above(m, t, level, va)
    decreases level
  {
    var e := m[t][Index(va, level)];
    if Interior(e, level) {
      assert Closed(m, lab, t);
      LabelledWalk(m, n, lab, e.frame, level - 1, va);
    }
  }

  /** pos belongs to the tree that grows from `top`; below a root both halves do. */
  predicate Within(pos: Pos, top: Pos, lo: nat, hi: nat)
  {
    if top.Root? then !pos.Root? && lo <= pos.a < hi && pos.space == (if pos.a < 256 then top.space else KERNEL)
    else Under(pos, top, lo, hi)
  }

  /** Every address translates the same below the two tables, and the entries above the leaf grant the
      same, but that copies of tables carry no no-execute bit. */
  ghost predicate SameWalks(m: Phys, t: nat, m0: Phys, t0: nat, level: nat)
    requires level < 4
  {
    forall va: nat ::
      && Walk(m, t, level, va) == Walk(m0, t0, level, va)
      && Above(m, t, level, va) == Above(m0, t0, level, va).(x := true)
  }

  /** Entry i of the clone: absent, shared as it is, or leading to a clone of the next table. */
  ghost predicate EntryCloned(m0: Phys, m: Phys, lab: map<nat, Pos>, e: Word, d: Word, pos: Pos, i: nat)
  {
    if !e.p then d == ZERO
    else if IsLeaf(e, Level(pos)) then d == e
    else
      && d == LinkWord(e, d.frame) && Level(pos) > 0
      && d.frame in lab && lab[d.frame] == Child(pos, i)
      && SameWalks(m, d.frame, m0, e.frame, Level(pos) - 1)
  }

  /** Entries 0..i of table t have been cloned into dst; lab labels the tables made below it. */
  ghost predicate PartCopied(m0: Phys, m: Phys, lab: map<nat, Pos>, t: nat, dst: nat, pos: Pos, i: nat)
  {
    && t < |m0| && dst < |m| && |m| == |m0| && i <= 512
    && Tables(m, lab) && dst !in lab
    && (forall p :: p in lab ==> Within(lab[p], pos, 0, i))
    && (forall j :: 0 <= j < i ==> EntryCloned(m0, m, lab, m0[t][j], m[dst][j], pos, j))
  }

  /** dst is a clone of table t. */
  ghost predicate Copied(m0: Phys, m: Phys, lab: map<nat, Pos>, t: nat, dst: nat, pos: Pos)
  {
    && |m| == |m0| && Tables(m, lab) && dst in lab && lab[dst] == pos
    && (forall p :: p in lab && p != dst ==> Within(lab[p], pos, 0, 512))
    && SameWalks(m, dst, m0, t, Level(pos))
  }

  lemma FinishCopy(m0: Phys, m: Phys, lab: map<nat, Pos>, t: nat, dst: nat, pos: Pos)
    requires PartCopied(m0, m, lab, t, dst, pos, 512)
    ensures Copied(m0, m, lab[dst := pos], t, dst, pos)
  {
    var all := lab[dst := pos];
    forall p | p in all ensures p < |m| && Closed(m, all, p) {
      if p == dst {
        forall i | 0 <= i < 512 && Interior(m[dst][i], Level(pos))
          ensures m[dst][i].frame in all && all[m[dst][i].frame] == Child(pos, i)
        {
          assert EntryCloned(m0, m, lab, m0[t][i], m[dst][i], pos, i);
        }
      } else {
        assert Closed(m, lab, p);
      }
    }
    forall va: nat
      ensures Walk(m, dst, Level(pos), va) == Walk(m0, t, Level(pos), va)
      ensures Above(m, dst, Level(pos), va) == Above(m0, t, Level(pos), va).(x := true)
    {
      var i := Index(va, Level(pos));
      assert EntryCloned(m0, m, lab, m0[t][i], m[dst][i], pos, i);
    }
  }

  /** Writing entry i of dst, which no label covers, and keeping the labelled tables. */
  lemma Extend(m0: Phys, m: Phys, n: Phys, lab: map<nat, Pos>, more: map<nat, Pos>, t: nat, dst: nat, pos: Pos, i: nat)
    requires PartCopied(m0, m, lab, t, dst, pos, i) && i < 512
    requires |n| == |m| && (forall p :: p in lab ==> n[p] == m[p])
    requires (forall j :: 0 <= j < i ==> n[dst][j] == m[dst][j])
    requires lab.Keys !! more.Keys && dst !in more && Tables(n, more)
    requires (forall p :: p in more ==> Within(more[p], pos, i, i + 1))
    requires EntryCloned(m0, n, more, m0[t][i], n[dst][i], pos, i)
    ensures PartCopied(m0, n, lab + more, t, dst, pos, i + 1)
  {
    var all := lab + more;
    forall p | p in all ensures p < |n| && Closed(n, all, p) {
      if p in lab { assert Closed(m, lab, p); } else { assert Closed(n, more, p); }
    }
    forall j | 0 <= j < i + 1 ensures EntryCloned(m0, n, all, m0[t][j], n[dst][j], pos, j) {
      if j < i {
        var e, d := m0[t][j], m[dst][j];
        assert EntryCloned(m0, m, lab, e, d, pos, j);
        if e.p && !IsLeaf(e, Level(pos)) {
          var l := Level(pos) - 1;
          forall va: nat
            ensures Walk(n, d.frame, l, va) == Walk(m0, e.frame, l, va)
            ensures Above(n, d.frame, l, va) == Above(m0, e.frame, l, va).(x := true)
          {
            LabelledWalk(m, n, lab, d.frame, l, va);
          }
        }
      }
    }
  }

  /** The finished clone of the next table, linked by an entry w with e's low flags. */
  lemma LinkClone(m0: Phys, m: Phys, n: Phys, more: map<nat, Pos>, e: Word, w: Word, child: nat, dst: nat, top: Pos,
                  i: nat)
    requires 0 < Level(top) && Interior(e, Level(top)) && Copied(m0, m, more, e.frame, child, Child(top, i))
    requires dst !in more && dst < |m| && |n| == |m| && (forall p :: 0 <= p < |m| && p != dst ==> n[p] == m[p])
    requires w == LinkWord(e, child)
    ensures Tables(n, more) && (forall p :: p in more ==> Within(more[p], top, i, i + 1))
    ensures EntryCloned(m0, n, more, e, w, top, i)
  {
    forall p | p in more ensures p < |n| && Closed(n, more, p) {
      assert Closed(m, more, p);
    }
    var l := Level(top) - 1;
    forall va: nat
      ensures Walk(n, child, l, va) == Walk(m0, e.frame, l, va)
      ensures Above(n, child, l, va) == Above(m0, e.frame, l, va).(x := true)
    {
      LabelledWalk(m, n, more, child, l, va);
    }
  }

  /** An absent entry or a leaf: nothing below it. */
  lemma CopyPlain(m0: Phys, m: Phys, lab: map<nat, Pos>, t: nat, dst: nat, pos: Pos, i: nat, w: Word)
    requires PartCopied(m0, m, lab, t, dst, pos, i) && i < 512
    requires w == if m0[t][i].p then m0[t][i] else ZERO
    requires m0[t][i].p ==> IsLeaf(m0[t][i], Level(pos))
    ensures PartCopied(m0, m[dst := m[dst][i := w]], lab, t, dst, pos, i + 1)
  {
    Extend(m0, m, m[dst := m[dst][i := w]], lab, map[], t, dst, pos, i);
    assert lab + map[] == lab;
  }

  /** A table: its clone, linked. */
  lemma CopyTable(m0: Phys, m: Phys, n: Phys, lab: map<nat, Pos>, more: map<nat, Pos>, t: nat, dst: nat, pos: Pos,
                  i: nat, w: Word)
    requires PartCopied(m0, m, lab, t, dst, pos, i) && i < 512 && 0 < Level(pos) && Interior(m0[t][i], Level(pos))
    requires |n| == |m| && (forall p :: p in lab ==> n[p] == m[p]) && n[dst] == m[dst] && lab.Keys !! more.Keys
    requires dst !in more
    requires Copied(m0, n, more, m0[t][i].frame, w.frame, Child(pos, i)) && w == LinkWord(m0[t][i], w.frame)
    ensures PartCopied(m0, n[dst := n[dst][i := w]], lab + more, t, dst, pos, i + 1)
  {
    var n' := n[dst := n[dst][i := w]];
    LinkClone(m0, n, n', more, m0[t][i], w, w.frame, dst, pos, i);
    Extend(m0, m, n', lab, more, t, dst, pos, i);
  }

  // ---------- No table is left hanging ----------

  /** Some entry of a labelled table leads to p. */
  ghost predicate Hangs(m: Phys, lab: map<nat, Pos>, p: nat)
  {
    exists q, i :: HangsBy(m, lab, q, i, p)
  }

  ghost predicate HangsBy(m: Phys, lab: map<nat, Pos>, q: nat, i: nat, p: nat)
  {
    && q in lab && q < |m| && i < 512 && p in lab
    && Interior(m[q][i], Level(lab[q])) && m[q][i].frame == p && lab[p] == Child(lab[q], i)
  }

  /** The same for all tables made so far, dst being the one under construction. */
  ghost predicate PartHangs(m: Phys, lab: map<nat, Pos>, dst: nat, pos: Pos)
  {
    forall p :: p in lab ==> Hangs(m, lab[dst := pos], p)
  }

  ghost predicate AllHang(m: Phys, lab: map<nat, Pos>, dst: nat)
  {
    forall p :: p in lab && p != dst ==> Hangs(m, lab, p)
  }

  /** Entries 0..i of table t have been cloned into dst; folded, OpenPart unfolds it. */
  ghost predicate PartCloned(m0: Phys, m: Phys, lab: map<nat, Pos>, t: nat, dst: nat, pos: Pos, i: nat)
  {
    forall u {:trigger Is(u, m)} ::
      Is(u, m) ==> PartCopied(m0, u, lab, t, dst, pos, i) && PartHangs(u, lab, dst, pos)
  }

  /** dst is a clone of table t, made of the tables in lab; folded, OpenCloned unfolds it. */
  ghost predicate Cloned(m0: Phys, m: Phys, lab: map<nat, Pos>, t: nat, dst: nat, pos: Pos)
  {
    forall u {:trigger Is(u, m)} :: Is(u, m) ==> Copied(m0, u, lab, t, dst, pos) && AllHang(u, lab, dst)
  }

  lemma OpenPart(m0: Phys, m: Phys, lab: map<nat, Pos>, t: nat, dst: nat, pos: Pos, i: nat)
    requires PartCloned(m0, m, lab, t, dst, pos, i)
    ensures PartCopied(m0, m, lab, t, dst, pos, i) && PartHangs(m, lab, dst, pos)
  {
    assert Is(m, m);
  }

  lemma OpenCloned(m0: Phys, m: Phys, lab: map<nat, Pos>, t: nat, dst: nat, pos: Pos)
    requires Cloned(m0, m, lab, t, dst, pos)
    ensures Copied(m0, m, lab, t, dst, pos) && AllHang(m, lab, dst)
  {
    assert Is(m, m);
  }

  lemma PartBounds(m0: Phys, m: Phys, lab: map<nat, Pos>, t: nat, dst: nat, pos: Pos, i: nat)
    requires PartCloned(m0, m, lab, t, dst, pos, i)
    ensures t < |m0| && dst < |m| && |m| == |m0| && dst !in lab && forall p :: p in lab ==> p < |m|
  {
    OpenPart(m0, m, lab, t, dst, pos, i);
  }

  lemma StillHangs(m: Phys, n: Phys, lab: map<nat, Pos>, more: map<nat, Pos>, dst: nat, pos: Pos, i: nat, p: nat)
    requires |n| == |m| && dst < |m| && lab.Keys !! more.Keys && dst !in lab && dst !in more && p in lab + more
    requires (forall q :: q in lab ==> q < |m| && n[q] == m[q])
    requires (forall j :: 0 <= j < i < 512 ==> n[dst][j] == m[dst][j])
    requires p in lab ==> Within(lab[p], pos, 0, i) && Hangs(m, lab[dst := pos], p)
    requires p in more ==> Hangs(n, more[dst := pos], p)
    requires i < 512
    ensures Hangs(n, (lab + more)[dst := pos], p)
  {
    if p in lab {
      var q, j :| HangsBy(m, lab[dst := pos], q, j, p);
      assert HangsBy(n, (lab + more)[dst := pos], q, j, p);
    } else {
      var q, j :| HangsBy(n, more[dst := pos], q, j, p);
      assert HangsBy(n, (lab + more)[dst := pos], q, j, p);
    }
  }

  lemma LinkHangs(m: Phys, n: Phys, more: map<nat, Pos>, w: Word, child: nat, dst: nat, top: Pos, i: nat, p: nat)
    requires 0 < Level(top) && p in more && child in more && more[child] == Child(top, i)
    requires (p != child ==> Hangs(m, more, p))
    requires dst !in more && dst < |m| && |n| == |m| && (forall q :: 0 <= q < |m| && q != dst ==> n[q] == m[q])
    requires w.frame == child && Interior(w, Level(top)) && i < 512 && n[dst][i] == w
    ensures Hangs(n, more[dst := top], p)
  {
    if p == child {
      assert HangsBy(n, more[dst := top], dst, i, p);
    } else {
      var q, j :| HangsBy(m, more, q, j, p);
      assert HangsBy(n, more[dst := top], q, j, p);
    }
  }

  lemma Finish(m0: Phys, m: Phys, lab: map<nat, Pos>, t: nat, dst: nat, pos: Pos)
    requires PartCloned(m0, m, lab, t, dst, pos, 512)
    ensures Cloned(m0, m, lab[dst := pos], t, dst, pos)
  {
    OpenPart(m0, m, lab, t, dst, pos, 512);
    FinishCopy(m0, m, lab, t, dst, pos);
  }

  /** An absent entry or a leaf: nothing below it. */
  lemma ExtendPlain(m0: Phys, m: Phys, lab: map<nat, Pos>, t: nat, dst: nat, pos: Pos, i: nat, w: Word)
    requires PartCloned(m0, m, lab, t, dst, pos, i) && i < 512 && t < |m0| && dst < |m|
    requires w == if m0[t][i].p then m0[t][i] else ZERO
    requires m0[t][i].p ==> IsLeaf(m0[t][i], Level(pos))
    ensures PartCloned(m0, m[dst := m[dst][i := w]], lab, t, dst, pos, i + 1)
  {
    OpenPart(m0, m, lab, t, dst, pos, i);
    CopyPlain(m0, m, lab, t, dst, pos, i, w);
    PlainHangs(m, m[dst := m[dst][i := w]], lab, dst, pos, i);
  }

  lemma PlainHangs(m: Phys, n: Phys, lab: map<nat, Pos>, dst: nat, pos: Pos, i: nat)
    requires PartHangs(m, lab, dst, pos) && (forall p :: p in lab ==> p < |m| && Within(lab[p], pos, 0, i)) && i < 512
    requires |n| == |m| && dst < |m| && dst !in lab && (forall q :: q in lab ==> n[q] == m[q])
    requires (forall j :: 0 <= j < i ==> n[dst][j] == m[dst][j])
    ensures PartHangs(n, lab, dst, pos)
  {
    forall p | p in lab ensures Hangs(n, lab[dst := pos], p) {
      var none: map<nat, Pos> := map[];
      StillHangs(m, n, lab, none, dst, pos, i, p);
      assert lab + none == lab;
    }
  }

  /** A table: its clone, linked. */
  lemma ExtendTable(m0: Phys, m: Phys, n: Phys, lab: map<nat, Pos>, more: map<nat, Pos>, t: nat, dst: nat, pos: Pos,
                    i: nat, w: Word)
    requires PartCloned(m0, m, lab, t, dst, pos, i) && i < 512 && 0 < Level(pos)
    requires t < |m0| && dst < |m| && (forall p :: p in lab ==> p < |m|) && Interior(m0[t][i], Level(pos))
    requires |n| == |m| && (forall p :: p in lab ==> n[p] == m[p]) && n[dst] == m[dst] && lab.Keys !! more.Keys
    requires dst !in more
    requires Cloned(m0, n, more, m0[t][i].frame, w.frame, Child(pos, i)) && w == LinkWord(m0[t][i], w.frame)
    ensures PartCloned(m0, n[dst := n[dst][i := w]], lab + more, t, dst, pos, i + 1)
  {
    OpenPart(m0, m, lab, t, dst, pos, i);
    OpenCloned(m0, n, more, m0[t][i].frame, w.frame, Child(pos, i));
    TableHangs(m, n, lab, more, dst, pos, i, w);
    CopyTable(m0, m, n, lab, more, t, dst, pos, i, w);
  }

  lemma TableHangs(m: Phys, n: Phys, lab: map<nat, Pos>, more: map<nat, Pos>, dst: nat, pos: Pos, i: nat, w: Word)
    requires PartHangs(m, lab, dst, pos) && (forall p :: p in lab ==> p < |m| && Within(lab[p], pos, 0, i)) && i < 512
    requires 0 < Level(pos)
    requires AllHang(n, more, w.frame) && w.frame in more && more[w.frame] == Child(pos, i) && Interior(w, Level(pos))
    requires |n| == |m| && dst < |m| && dst !in lab && dst !in more && lab.Keys !! more.Keys
    requires (forall q :: q in lab ==> n[q] == m[q]) && n[dst] == m[dst]
    ensures PartHangs(n[dst := n[dst][i := w]], lab + more, dst, pos)
  {
    var n' := n[dst := n[dst][i := w]];
    forall p | p in lab + more ensures Hangs(n', (lab + more)[dst := pos], p) {
      if p in more { LinkHangs(n, n', more, w, w.frame, dst, pos, i, p); }
      StillHangs(m, n', lab, more, dst, pos, i, p);
    }
  }

  /** A cloned root makes a space of its own: every label is as it should be. */
  lemma ClonedBase(x: St, root: nat)
    requires root in x.own && x.own[root] == Root(root) && Tables(x.m, x.own)
    requires forall p :: p in x.own && p != root ==> Within(x.own[p], Root(root), 0, 512)
    requires x.total <= |x.m| && (forall p :: p in x.free ==> 0 < p < x.total)
    requires (forall p :: p in x.own ==> p != 0 && p !in x.free)
    requires (x.refs == [] || |x.refs| == x.total) && (forall f :: 0 <= f < |x.refs| ==> x.refs[f] <= REF_MAX)
    ensures Base(x)
  {
    forall p | p in x.own ensures PosOk(x, p) {
    }
  }

  /** ... and none of its tables is left hanging. */
  lemma ClonedLinked(x: St, root: nat)
    requires root in x.own && x.own[root] == Root(root) && forall p :: p in x.own && p != root ==> Hangs(x.m, x.own, p)
    ensures AllLinked(x)
  {
    forall p | p in x.own && UserPos(x.own[p]) ensures Linked(x, p) {
      var q, i :| HangsBy(x.m, x.own, q, i, p);
      assert EntryTo(x, q, i, p);
    }
  }

  /** No user address of the space under cr3 leads to memory that users may touch. */
  ghost predicate NoUserLeaf(m: Phys, cr3: nat)
  {
    forall va: nat :: UserVa(va) ==> var l := Walk(m, cr3, 3, va); !(l.Mapped? && l.entry.u)
  }

  /** A clone of such a space has no user leaf in any of its tables. */
  lemma ClonedNoLeaf(x: St, root: nat, m0: Phys, cr3: nat, p: nat, i: nat)
    requires Base(x) && AllLinked(x) && IsRoot(x, root) && SameWalks(x.m, root, m0, cr3, 3) && NoUserLeaf(m0, cr3)
    requires forall q :: q in x.own && q != root ==> Within(x.own[q], Root(root), 0, 512)
    ensures !LeafAt(x, p, i)
  {
    if LeafAt(x, p, i) {
      var pos := x.own[p];
      var va := VaThrough(pos, i);
      LabelBounds(x, p);
      ThroughEntry(pos, i);
      LinkedPasses(x, root, va, Level(pos), p);
      PassesDown(x.m, root, 3, va, Level(pos), p);
    }
  }
}
