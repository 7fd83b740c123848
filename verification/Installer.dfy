/** Whole runs of the installer on the cache and the log: install, undo, and uninstall later. */
module Installer {
  import opened Bytes
  import opened UndoLog
  import opened BlockCache

  /** What an installation does to the device. */
  datatype Op = WriteOp(data: seq<Byte>, loc: nat) | FlushOp | ReadOp(loc: nat, count: nat)

  ghost predicate OpInWhole(op: Op, bs: nat, len: nat)
    requires bs > 0
  {
    match op
    case WriteOp(data, loc) => InWhole(loc + |data|, bs, len)
    case FlushOp => true
    case ReadOp(loc, count) => InWhole(loc + count, bs, len)
  }

  /** The places and sizes of the writes, and those of the logged entries. */
  function Places(op: Op): seq<(nat, nat)>
  {
    if op.WriteOp? then [(op.loc, |op.data|)] else []
  }

  function Writes(ops: seq<Op>): seq<(nat, nat)>
  {
    if ops == [] then [] else Writes(ops[..|ops| - 1]) + Places(ops[|ops| - 1])
  }

  function Shape(log: seq<Entry>): seq<(nat, nat)>
  {
    seq(|log|, i requires 0 <= i < |log| => (log[i].loc, |log[i].data|))
  }

  lemma ShapeNext(log: seq<Entry>, e: Entry)
    ensures Shape(log + [e]) == Shape(log) + [(e.loc, |e.data|)]
  {
  }

  lemma {:induction false} WritesGrow(ops: seq<Op>, n: nat)
    requires n <= |ops|
    ensures |Writes(ops[..n])| <= |Writes(ops)|
  {
    if n == |ops| {
      assert ops[..n] == ops;
    } else {
      WritesGrow(ops[..|ops| - 1], n);
      assert ops[..|ops| - 1][..n] == ops[..n];
    }
  }

  lemma WritesNext(ops: seq<Op>, n: nat)
    requires n < |ops|
    ensures Writes(ops[..n + 1]) == Writes(ops[..n]) + Places(ops[n])
  {
    assert ops[..n + 1][..n] == ops[..n];
  }

  /** Every write lies in a device of len bytes. */
  ghost predicate OpsFit(ops: seq<Op>, len: nat)
  {
    forall i :: 0 <= i < |ops| && ops[i].WriteOp? ==> ops[i].loc + |ops[i].data| <= len
  }

  /** A device of bytes d after the writes, one after the other. */
  ghost function Applied(d: seq<Byte>, ops: seq<Op>): (r: seq<Byte>)
    requires OpsFit(ops, |d|)
    ensures |r| == |d|
  {
    if ops == [] then d else AppliedOne(Applied(d, ops[..|ops| - 1]), ops[|ops| - 1])
  }

  ghost function AppliedOne(d: seq<Byte>, op: Op): (r: seq<Byte>)
    requires op.WriteOp? ==> op.loc + |op.data| <= |d|
    ensures |r| == |d|
  {
    if op.WriteOp? then Overwrite(d, op.loc, op.data) else d
  }

  lemma {:induction false} AppliedNext(d: seq<Byte>, ops: seq<Op>, n: nat)
    requires OpsFit(ops, |d|) && n < |ops|
    ensures OpsFit(ops[..n], |d|) && OpsFit(ops[..n + 1], |d|)
    ensures Applied(d, ops[..n + 1]) == AppliedOne(Applied(d, ops[..n]), ops[n])
  {
    assert ops[..n + 1][..n] == ops[..n];
  }

  lemma FitInWhole(ops: seq<Op>, bs: nat, len: nat)
    requires bs > 0 && forall i :: 0 <= i < |ops| ==> OpInWhole(ops[i], bs, len)
    ensures OpsFit(ops, len)
  {
    forall i | 0 <= i < |ops| && ops[i].WriteOp? ensures ops[i].loc + |ops[i].data| <= len {
      InWholeIn(ops[i].loc + |ops[i].data|, bs, len);
    }
  }

  /** Some write has no bytes. */
  ghost predicate EmptyWrite(ops: seq<Op>)
  {
    exists i :: 0 <= i < |ops| && ops[i].WriteOp? && ops[i].data == []
  }

  lemma {:induction false} EmptyWriteIff(ops: seq<Op>)
    ensures EmptyWrite(ops) <==> exists k :: 0 <= k < |Writes(ops)| && Writes(ops)[k].1 == 0
  {
    if ops != [] {
      var n := |ops| - 1;
      var before, all := Writes(ops[..n]), Writes(ops);
      EmptyWriteIff(ops[..n]);
      assert EmptyWrite(ops) <==> EmptyWrite(ops[..n]) || (ops[n].WriteOp? && ops[n].data == []) by {
        assert forall i :: 0 <= i < n ==> ops[..n][i] == ops[i];
      }
      assert forall k :: 0 <= k < |before| ==> all[k] == before[k];
      if ops[n].WriteOp? { assert all[|before|] == (ops[n].loc, |ops[n].data|); }
    }
  }

  /** The log and the device determine the original bytes. */
  ghost predicate Recoverable(dev: Device, orig: seq<Byte>)
    reads dev, dev.cache, dev.log
    requires dev.Valid()
  {
    Saves(orig, dev.Log()) && SameElsewhere(orig, dev.Log(), dev.disk) && SameElsewhere(orig, dev.Log(), dev.Shown())
  }

  /** One logged write keeps it. */
  lemma StillRecoverable(orig: seq<Byte>, log: seq<Entry>, disk: seq<Byte>, shown: seq<Byte>, disk': seq<Byte>,
                         loc: nat, data: seq<Byte>)
    requires Saves(orig, log) && SameElsewhere(orig, log, disk) && SameElsewhere(orig, log, shown)
    requires loc + |data| <= |orig|
    requires Device.Elsewhere(disk', disk, shown, loc, loc + |data|)
    ensures var e := Entry(loc, shown[loc..loc + |data|]);
            && Saves(orig, log + [e]) && SameElsewhere(orig, log + [e], disk')
            && SameElsewhere(orig, log + [e], Overwrite(shown, loc, data))
  {
    var e := Entry(loc, shown[loc..loc + |data|]);
    SavesOneMore(orig, log, shown, e);
    forall x | 0 <= x < |orig| && !Covered(log + [e], x)
      ensures disk'[x] == orig[x] && Overwrite(shown, loc, data)[x] == orig[x]
    {
      CoveredOneMore(log, e, x);
    }
  }

  method LoggedWrite(dev: Device, data: seq<Byte>, loc: nat, ghost orig: seq<Byte>) returns (ok: bool)
    requires dev.Valid() && dev.LogInWhole() && !dev.uninstalling && Recoverable(dev, orig)
    requires InWhole(loc + |data|, dev.cache.Length, |dev.disk|)
    modifies dev`disk, dev`dirty, dev`cachedBlock, dev`start, dev`logged, dev.cache, dev.log
    ensures dev.Valid() && dev.LogInWhole() && Recoverable(dev, orig) && |dev.disk| == |old(dev.disk)|
    ensures ok <==> |old(dev.Log())| < MAX_ENTRIES
    ensures Shape(dev.Log()) == old(Shape(dev.Log())) + if ok then [(loc, |data|)] else []
    ensures ok ==> loc + |data| <= |old(dev.disk)| && dev.Shown() == Overwrite(old(dev.Shown()), loc, data)
  {
    InWholeIn(loc + |data|, dev.cache.Length, |dev.disk|);
    ghost var before, disk, shown := dev.Log(), dev.disk, dev.Shown();
    ok := dev.Write(data, loc);
    KeptInWhole(dev, before, loc, |data|, ok);
    if ok {
      ShapeNext(before, dev.Log()[|before|]);
      StillRecoverable(orig, before, disk, shown, dev.disk, loc, data);
    }
  }

  method Perform(dev: Device, op: Op, ghost orig: seq<Byte>) returns (ok: bool)
    requires dev.Valid() && dev.LogInWhole() && !dev.uninstalling && Recoverable(dev, orig)
    requires OpInWhole(op, dev.cache.Length, |dev.disk|)
    modifies dev`disk, dev`dirty, dev`cachedBlock, dev`start, dev`logged, dev.cache, dev.log
    ensures dev.Valid() && dev.LogInWhole() && Recoverable(dev, orig) && |dev.disk| == |old(dev.disk)|
    ensures ok <==> |old(Shape(dev.Log())) + Places(op)| <= MAX_ENTRIES
    ensures ok ==> Shape(dev.Log()) == old(Shape(dev.Log())) + Places(op)
    ensures op.WriteOp? ==> op.loc + |op.data| <= |old(dev.disk)|
    ensures ok ==> dev.Shown() == AppliedOne(old(dev.Shown()), op)
  {
    match op {
      case WriteOp(data, loc) =>
        InWholeIn(loc + |data|, dev.cache.Length, |dev.disk|);
        ok := LoggedWrite(dev, data, loc, orig);
      case FlushOp =>
        dev.Flush();
        ok := true;
      case ReadOp(loc, count) =>
        var buffer := dev.Read(loc, count);
        ok := true;
    }
  }

  lemma KeptInWhole(dev: Device, before: seq<Entry>, loc: nat, count: nat, ok: bool)
    requires dev.Valid() && InWhole(loc + count, dev.cache.Length, |dev.disk|)
    requires forall i :: 0 <= i < |before| ==> InWhole(before[i].loc + |before[i].data|, dev.cache.Length, |dev.disk|)
    requires if ok then
               && |dev.Log()| == |before| + 1 && dev.Log()[..|before|] == before
               && dev.Log()[|before|].loc == loc && |dev.Log()[|before|].data| == count
             else dev.Log() == before
    ensures dev.LogInWhole()
  {
    forall i | 0 <= i < dev.logged ensures InWhole(dev.log[i].loc + |dev.log[i].data|, dev.cache.Length, |dev.disk|) {
      assert dev.log[i] == dev.Log()[i];
      if i < |before| { assert dev.Log()[..|before|][i] == before[i]; }
    }
  }

  /** The operations of an installation, up to the first that fails: the write for which the log has
      no room. If none fails, readers see the original bytes with every write applied. */
  method Install(dev: Device, ops: seq<Op>) returns (ok: bool)
    requires dev.Valid() && dev.logged == 0 && !dev.uninstalling && !dev.dirty
    requires forall i :: 0 <= i < |ops| ==> OpInWhole(ops[i], dev.cache.Length, |dev.disk|)
    modifies dev`disk, dev`dirty, dev`cachedBlock, dev`start, dev`logged, dev.cache, dev.log
    ensures dev.Valid() && dev.LogInWhole() && Recoverable(dev, old(dev.disk)) && |dev.disk| == |old(dev.disk)|
    ensures ok <==> |Writes(ops)| <= MAX_ENTRIES
    ensures ok ==> Shape(dev.Log()) == Writes(ops)
    ensures OpsFit(ops, |old(dev.disk)|) && (ok ==> dev.Shown() == Applied(old(dev.disk), ops))
  {
    ghost var orig := dev.disk;
    FitInWhole(ops, dev.cache.Length, |orig|);
    ok := true;
    var i := 0;
    assert ops[..0] == [];
    while i < |ops| && ok
      invariant 0 <= i <= |ops| && |dev.disk| == |orig|
      invariant dev.Valid() && dev.LogInWhole() && Recoverable(dev, orig)
      invariant ok ==> Done(dev, ops[..i], orig)
      invariant !ok ==> |Writes(ops[..i])| > MAX_ENTRIES
    {
      ok := PerformNext(dev, ops, i, orig);
      i := i + 1;
    }
    WritesGrow(ops, i);
    assert ops[..|ops|] == ops;
  }

  /** The log names the writes done so far, and readers see them. */
  ghost predicate Done(dev: Device, ops: seq<Op>, orig: seq<Byte>)
    reads dev, dev.cache, dev.log
    requires dev.Valid()
  {
    Shape(dev.Log()) == Writes(ops) && OpsFit(ops, |orig|) && dev.Shown() == Applied(orig, ops)
  }

  method PerformNext(dev: Device, ops: seq<Op>, i: nat, ghost orig: seq<Byte>) returns (ok: bool)
    requires i < |ops| && OpsFit(ops, |orig|) && |dev.disk| == |orig|
    requires dev.Valid() && dev.LogInWhole() && !dev.uninstalling && Recoverable(dev, orig) && Done(dev, ops[..i], orig)
    requires OpInWhole(ops[i], dev.cache.Length, |dev.disk|)
    modifies dev`disk, dev`dirty, dev`cachedBlock, dev`start, dev`logged, dev.cache, dev.log
    ensures dev.Valid() && dev.LogInWhole() && Recoverable(dev, orig) && |dev.disk| == |orig|
    ensures if ok then Done(dev, ops[..i + 1], orig) else |Writes(ops[..i + 1])| > MAX_ENTRIES
  {
    ok := Perform(dev, ops[i], orig);
    WritesNext(ops, i);
    AppliedNext(orig, ops, i);
  }

  /** An installation given up at any point: reversing the log and uninstalling brings back the original bytes,
      although the dirty block in the cache is thrown away. */
  method InstallThenUndo(dev: Device, ops: seq<Op>)
    requires dev.Valid() && dev.logged == 0 && !dev.uninstalling && !dev.dirty
    requires forall i :: 0 <= i < |ops| ==> OpInWhole(ops[i], dev.cache.Length, |dev.disk|)
    modifies dev, dev.cache, dev.log, dev.rev
    ensures dev.disk == old(dev.disk)
  {
    ghost var orig := dev.disk;
    var ok := Install(dev, ops);
    ReversedReplayRestores(orig, dev.Log(), dev.disk);
    Undo(dev);
  }

  /** The tail of bios_install after a failure. */
  method Undo(dev: Device)
    requires dev.Valid() && dev.LogInWhole() && AllFit(Reversed(dev.Log()), |dev.disk|)
    modifies dev, dev.cache, dev.log, dev.rev
    ensures AllFit(Reversed(old(dev.Log())), |old(dev.disk)|)
    ensures dev.disk == Replay(old(dev.disk), Reversed(old(dev.Log())))
  {
    ghost var before := dev.Log();
    dev.ReverseLog();
    ReversedInWhole(dev, before);
    dev.Uninstall();
  }

  lemma ReversedInWhole(dev: Device, before: seq<Entry>)
    requires dev.Valid() && dev.Log() == Reversed(before)
    requires forall i :: 0 <= i < |before| ==> InWhole(before[i].loc + |before[i].data|, dev.cache.Length, |dev.disk|)
    ensures dev.LogInWhole()
  {
    forall i | 0 <= i < dev.logged ensures InWhole(dev.log[i].loc + |dev.log[i].data|, dev.cache.Length, |dev.disk|) {
      assert dev.log[i] == dev.Log()[i] == before[|before| - 1 - i];
    }
  }

  lemma StoredIsStorable(entries: seq<Entry>, len: nat, bs: nat)
    requires bs > 0 && len < NO_BLOCK && |entries| <= MAX_ENTRIES
    requires !HasEmpty(entries)
    requires forall i :: 0 <= i < |entries| ==> InWhole(entries[i].loc + |entries[i].data|, bs, len)
    ensures Storable(entries)
  {
    forall i | 0 <= i < |entries| ensures StorableEntry(entries[i]) {
      InWholeIn(entries[i].loc + |entries[i].data|, bs, len);
    }
  }

  /** bios_install, and later, in another process, the uninstallation from the stored log. A failed
      installation is undone at once, although the dirty block in the cache is thrown away. A completed
      one leaves the device itself, not the cache alone, with every write applied, and can be uninstalled
      exactly when no write was empty; the device then has its original bytes again. */
  method InstallThenUninstall(dev: Device, ops: seq<Op>) returns (ok: bool, later: Device?)
    requires dev.Valid() && dev.logged == 0 && !dev.uninstalling && !dev.dirty
    requires forall i :: 0 <= i < |ops| ==> OpInWhole(ops[i], dev.cache.Length, |dev.disk|)
    modifies dev, dev.cache, dev.log, dev.rev
    ensures ok <==> |Writes(ops)| <= MAX_ENTRIES
    ensures !ok ==> dev.disk == old(dev.disk) && later == null
    ensures OpsFit(ops, |old(dev.disk)|) && (ok ==> dev.disk == Applied(old(dev.disk), ops))
    ensures ok ==> (later == null <==> EmptyWrite(ops))
    ensures later != null ==> later.disk == old(dev.disk)
  {
    ghost var orig := dev.disk;
    later := null;
    ok := Install(dev, ops);
    if !ok {
      ReversedReplayRestores(orig, dev.Log(), dev.disk);
      Undo(dev);
    } else {
      ghost var log := dev.Log();
      var stored, file := StoreReversed(dev, orig);
      EmptyEntryIff(ops, log);
      if stored { later := UninstallFrom(dev.disk, dev.cache.Length, file, dev.Log()); }
    }
  }

  lemma EmptyEntryIff(ops: seq<Op>, log: seq<Entry>)
    requires Shape(log) == Writes(ops)
    ensures EmptyWrite(ops) <==> HasEmpty(log)
  {
    EmptyWriteIff(ops);
    assert |Shape(log)| == |log|;
    assert forall k :: 0 <= k < |log| ==> Shape(log)[k].1 == |log[k].data|;
  }

  ghost predicate HasEmpty(log: seq<Entry>)
  {
    exists i :: 0 <= i < |log| && |log[i].data| == 0
  }

  lemma ReversedEmpty(log: seq<Entry>)
    ensures HasEmpty(Reversed(log)) <==> HasEmpty(log)
  {
    var rev := Reversed(log);
    if i :| 0 <= i < |log| && |log[i].data| == 0 { assert rev[|log| - 1 - i] == log[i]; }
  }

  /** The end of bios_install: the last flush, then the log is reversed and stored. */
  method StoreReversed(dev: Device, ghost orig: seq<Byte>) returns (stored: bool, file: seq<Byte>)
    requires dev.Valid() && dev.LogInWhole() && Recoverable(dev, orig)
    modifies dev, dev.cache, dev.log, dev.rev
    ensures dev.Valid() && dev.LogInWhole() && AllFit(dev.Log(), |dev.disk|) && Replay(dev.disk, dev.Log()) == orig
    ensures stored <==> !HasEmpty(old(dev.Log()))
    ensures stored ==> file == Encode(dev.Log()) && !HasEmpty(dev.Log())
    ensures dev.disk == old(dev.Shown())
  {
    ReversedEmpty(dev.Log());
    FlushAndReverse(dev, orig);
    stored, file := Store(dev.log[..dev.logged]);
  }

  method FlushAndReverse(dev: Device, ghost orig: seq<Byte>)
    requires dev.Valid() && dev.LogInWhole() && Recoverable(dev, orig)
    modifies dev, dev.cache, dev.log, dev.rev
    ensures dev.Valid() && dev.LogInWhole() && dev.Log() == Reversed(old(dev.Log()))
    ensures AllFit(dev.Log(), |dev.disk|) && Replay(dev.disk, dev.Log()) == orig
    ensures dev.disk == old(dev.Shown())
  {
    dev.Flush();
    ghost var before := dev.Log();
    ReversedReplayRestores(orig, before, dev.disk);
    dev.ReverseLog();
    ReversedInWhole(dev, before);
  }

  /** Uninstall mode: a new process opens the device, loads the stored log and writes it back. */
  method UninstallFrom(disk: seq<Byte>, bs: nat, file: seq<Byte>, ghost entries: seq<Entry>) returns (later: Device)
    requires 0 < bs <= |disk| < NO_BLOCK && |entries| <= MAX_ENTRIES && file == Encode(entries)
    requires !HasEmpty(entries)
    requires forall i :: 0 <= i < |entries| ==> InWhole(entries[i].loc + |entries[i].data|, bs, |disk|)
    ensures AllFit(entries, |disk|) && later.disk == Replay(disk, entries)
  {
    StoredIsStorable(entries, |disk|, bs);
    later := new Device(disk, bs);
    var loaded := Load(file, entries);
    later.TakeLog(loaded.log);
    assert forall i :: 0 <= i < |entries| ==> later.log[i] == later.Log()[i] == entries[i];
    later.Uninstall();
  }

  // ---------- What bios_install writes ----------

  /** The bytes of the device after an installation of the boot loader image img with stage 2 at loc: the
      boot sector with the place of stage 2 in it and with the old timestamp and partition table, stage 2,
      and the original bytes elsewhere. */
  function Staged(d: seq<Byte>, img: seq<Byte>, loc: nat, x: nat): Byte
    requires |img| >= 512 && x < |d|
  {
    if 218 <= x < 224 || 440 <= x < 510 then d[x]
    else if 0x1a4 <= x < 0x1ac then ToLE(loc, 8)[x - 0x1a4]
    else if x < 512 then img[x]
    else if loc <= x < loc + (|img| - 512) then img[512 + (x - loc)]
    else d[x]
  }

  /** The five writes: the boot sector a, stage 2 b at loc, its place c, the timestamp t and the table u. */
  function Stages(a: seq<Byte>, b: seq<Byte>, loc: nat, c: seq<Byte>, t: seq<Byte>, u: seq<Byte>): seq<Op>
  {
    [WriteOp(a, 0), WriteOp(b, loc), WriteOp(c, 0x1a4), WriteOp(t, 218), WriteOp(u, 440)]
  }

  predicate StagesFit(d: seq<Byte>, a: seq<Byte>, b: seq<Byte>, loc: nat, c: seq<Byte>, t: seq<Byte>, u: seq<Byte>)
  {
    |a| == 512 <= loc && loc + |b| <= |d| && |c| == 8 && |t| == 6 && |u| == 70
  }

  ghost function FirstStages(d: seq<Byte>, a: seq<Byte>, b: seq<Byte>, loc: nat): (r: seq<Byte>)
    requires |a| == 512 <= loc && loc + |b| <= |d|
    ensures |r| == |d|
  {
    Overwrite(Overwrite(d, 0, a), loc, b)
  }

  ghost function Patched(d: seq<Byte>, c: seq<Byte>, t: seq<Byte>, u: seq<Byte>): (r: seq<Byte>)
    requires 512 <= |d| && |c| == 8 && |t| == 6 && |u| == 70
    ensures |r| == |d|
  {
    Overwrite(Overwrite(Overwrite(d, 0x1a4, c), 218, t), 440, u)
  }

  lemma {:induction false} StagesApplied(d: seq<Byte>, a: seq<Byte>, b: seq<Byte>, loc: nat, c: seq<Byte>, t: seq<Byte>,
                                         u: seq<Byte>)
    requires StagesFit(d, a, b, loc, c, t, u)
    ensures OpsFit(Stages(a, b, loc, c, t, u), |d|)
    ensures Applied(d, Stages(a, b, loc, c, t, u)) == Patched(FirstStages(d, a, b, loc), c, t, u)
  {
    var ops := Stages(a, b, loc, c, t, u);
    FirstTwo(d, ops);
    LastThree(d, ops, FirstStages(d, a, b, loc));
  }

  lemma {:induction false} FirstTwo(d: seq<Byte>, ops: seq<Op>)
    requires |ops| == 5 && OpsFit(ops, |d|)
    ensures OpsFit(ops[..2], |d|) && Applied(d, ops[..2]) == AppliedOne(AppliedOne(d, ops[0]), ops[1])
  {
    AppliedNext(d, ops, 1);
    AppliedNext(d, ops, 0);
    assert ops[..0] == [];
  }

  lemma {:induction false} LastThree(d: seq<Byte>, ops: seq<Op>, d2: seq<Byte>)
    requires |ops| == 5 && OpsFit(ops, |d|) && OpsFit(ops[..2], |d|) && Applied(d, ops[..2]) == d2
    ensures |d2| == |d| && Applied(d, ops) == AppliedOne(AppliedOne(AppliedOne(d2, ops[2]), ops[3]), ops[4])
  {
    AppliedNext(d, ops, 4);
    AppliedNext(d, ops, 3);
    AppliedNext(d, ops, 2);
    assert ops[..5] == ops;
  }

  lemma FirstAt(d: seq<Byte>, a: seq<Byte>, b: seq<Byte>, loc: nat, x: nat)
    requires |a| == 512 <= loc && loc + |b| <= |d| && x < |d|
    ensures FirstStages(d, a, b, loc)[x] == if x < 512 then a[x] else if loc <= x < loc + |b| then b[x - loc] else d[x]
  {
  }

  lemma PatchedAt(d: seq<Byte>, c: seq<Byte>, t: seq<Byte>, u: seq<Byte>, x: nat)
    requires 512 <= |d| && |c| == 8 && |t| == 6 && |u| == 70 && x < |d|
    ensures Patched(d, c, t, u)[x] == if 440 <= x < 510 then u[x - 440] else if 218 <= x < 224 then t[x - 218]
                                      else if 0x1a4 <= x < 0x1ac then c[x - 0x1a4] else d[x]
  {
  }

  /** bios_install from the reading of the timestamp to the flush. */
  method InstallStages(dev: Device, img: seq<Byte>, loc: nat) returns (ok: bool)
    requires dev.Valid() && dev.logged == 0 && !dev.uninstalling && !dev.dirty
    requires |img| >= 512 && 512 <= loc && InWhole(512, dev.cache.Length, |dev.disk|)
    requires InWhole(loc + |img| - 512, dev.cache.Length, |dev.disk|)
    modifies dev`disk, dev`dirty, dev`cachedBlock, dev`start, dev`logged, dev.cache, dev.log
    ensures ok && dev.Valid() && dev.LogInWhole() && Recoverable(dev, old(dev.disk)) && |dev.disk| == |old(dev.disk)|
    ensures forall x :: 0 <= x < |dev.disk| ==> dev.disk[x] == Staged(old(dev.disk), img, loc, x)
  {
    ghost var d := dev.disk;
    InWholeIn(512, dev.cache.Length, |d|);
    InWholeIn(loc + |img| - 512, dev.cache.Length, |d|);
    var timestamp := dev.Read(218, 6);
    var table := dev.Read(440, 70);
    ok := WriteStages(dev, img[..512], img[512..], loc, ToLE(loc, 8), timestamp, table);
    forall x | 0 <= x < |d| ensures dev.disk[x] == Staged(d, img, loc, x) {
      StagedAt(d, img, loc, timestamp, table, x);
    }
  }

  lemma StagedAt(d: seq<Byte>, img: seq<Byte>, loc: nat, t: seq<Byte>, u: seq<Byte>, x: nat)
    requires |img| >= 512 && 512 <= loc && 512 <= |d| && loc + |img| - 512 <= |d| && x < |d|
    requires t == d[218..224] && u == d[440..510]
    ensures Patched(FirstStages(d, img[..512], img[512..], loc), ToLE(loc, 8), t, u)[x] == Staged(d, img, loc, x)
  {
    FirstAt(d, img[..512], img[512..], loc, x);
    PatchedAt(FirstStages(d, img[..512], img[512..], loc), ToLE(loc, 8), t, u, x);
  }

  method WriteStages(dev: Device, a: seq<Byte>, b: seq<Byte>, loc: nat, c: seq<Byte>, t: seq<Byte>, u: seq<Byte>)
    returns (ok: bool)
    requires dev.Valid() && dev.logged == 0 && !dev.uninstalling && !dev.dirty
    requires StagesFit(dev.disk, a, b, loc, c, t, u)
    requires InWhole(512, dev.cache.Length, |dev.disk|) && InWhole(loc + |b|, dev.cache.Length, |dev.disk|)
    modifies dev`disk, dev`dirty, dev`cachedBlock, dev`start, dev`logged, dev.cache, dev.log
    ensures ok && dev.Valid() && dev.LogInWhole() && Recoverable(dev, old(dev.disk))
    ensures dev.disk == Patched(FirstStages(old(dev.disk), a, b, loc), c, t, u)
  {
    StagesApplied(dev.disk, a, b, loc, c, t, u);
    FiveWrites(Stages(a, b, loc, c, t, u));
    ok := Install(dev, Stages(a, b, loc, c, t, u));
    dev.Flush();
  }

  lemma {:induction false} FiveWrites(ops: seq<Op>)
    requires |ops| == 5
    ensures |Writes(ops)| <= MAX_ENTRIES
  {
    WritesNext(ops, 4);
    WritesNext(ops, 3);
    WritesNext(ops, 2);
    WritesNext(ops, 1);
    WritesNext(ops, 0);
    assert ops[..5] == ops;
  }
}
