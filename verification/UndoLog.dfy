/** The undo log of the installer (boot/limine/limine-install.c:314-443): what reversing and
    replaying it does to a device, and its file format. */
module UndoLog {
  import opened Bytes

  const MAX_ENTRIES: nat := 256

  /** The bytes found at loc before a write; their number is the entry's count. */
  datatype Entry = Entry(loc: nat, data: seq<Byte>) {
    predicate Covers(x: nat) { loc <= x < loc + |data| }
    predicate Fits(len: nat) { loc + |data| <= len }
  }

  /** d with data written at loc. */
  function Overwrite(d: seq<Byte>, loc: nat, data: seq<Byte>): (r: seq<Byte>)
    requires loc + |data| <= |d|
    ensures |r| == |d|
    ensures forall x :: 0 <= x < |d| ==> r[x] == if loc <= x < loc + |data| then data[x - loc] else d[x]
  {
    d[..loc] + data + d[loc + |data|..]
  }

  ghost predicate AllFit(log: seq<Entry>, len: nat)
  {
    forall i :: 0 <= i < |log| ==> log[i].Fits(len)
  }

  ghost predicate Covered(log: seq<Entry>, x: nat)
  {
    exists i :: 0 <= i < |log| && log[i].Covers(x)
  }

  /** Writing the entries of a log in order. */
  ghost function Replay(d: seq<Byte>, log: seq<Entry>): (r: seq<Byte>)
    requires AllFit(log, |d|)
    ensures |r| == |d|
    decreases |log|
  {
    if log == [] then d
    else
      assert log[0].Fits(|d|);
      Replay(Overwrite(d, log[0].loc, log[0].data), log[1..])
  }

  lemma {:induction false} ReplayAppend(d: seq<Byte>, log: seq<Entry>, e: Entry)
    requires AllFit(log, |d|) && e.Fits(|d|)
    ensures AllFit(log + [e], |d|) && Replay(d, log + [e]) == Overwrite(Replay(d, log), e.loc, e.data)
    decreases |log|
  {
    if log == [] {
      assert log + [e] == [e];
      assert [e][1..] == [];
    } else {
      assert log[0].Fits(|d|);
      var d' := Overwrite(d, log[0].loc, log[0].data);
      assert (log + [e])[1..] == log[1..] + [e];
      ReplayAppend(d', log[1..], e);
    }
  }

  function Reversed<T>(s: seq<T>): (r: seq<T>)
    ensures |r| == |s|
    ensures forall i :: 0 <= i < |s| ==> r[i] == s[|s| - 1 - i]
  {
    if s == [] then [] else [s[|s| - 1]] + Reversed(s[..|s| - 1])
  }

  /** For every byte, the first entry that covers it holds the original value. */
  ghost predicate Saves(orig: seq<Byte>, log: seq<Entry>)
  {
    log == [] || (
      var before, e := log[..|log| - 1], log[|log| - 1];
      && Saves(orig, before) && e.Fits(|orig|)
      && forall x :: e.loc <= x < e.loc + |e.data| && !Covered(before, x) ==> e.data[x - e.loc] == orig[x])
  }

  /** d is the original wherever the log wrote nothing. */
  ghost predicate SameElsewhere(orig: seq<Byte>, log: seq<Entry>, d: seq<Byte>)
  {
    |d| == |orig| && forall x :: 0 <= x < |d| && !Covered(log, x) ==> d[x] == orig[x]
  }

  lemma {:induction false} SavesFit(orig: seq<Byte>, log: seq<Entry>)
    requires Saves(orig, log)
    ensures AllFit(log, |orig|) && AllFit(Reversed(log), |orig|)
  {
    if log != [] {
      SavesFit(orig, log[..|log| - 1]);
      assert forall i :: 0 <= i < |log| - 1 ==> log[i] == log[..|log| - 1][i];
    }
  }

  /** Replaying the reversed log restores the original bytes, whatever the device holds in the
      places the log covers. */
  lemma {:induction false} ReversedReplayRestores(orig: seq<Byte>, log: seq<Entry>, d: seq<Byte>)
    requires Saves(orig, log) && SameElsewhere(orig, log, d)
    ensures AllFit(Reversed(log), |d|) && Replay(d, Reversed(log)) == orig
  {
    SavesFit(orig, log);
    if log == [] {
      assert forall x :: 0 <= x < |d| ==> !Covered(log, x);
      assert d == orig;
    } else {
      var before, e := log[..|log| - 1], log[|log| - 1];
      var d' := Overwrite(d, e.loc, e.data);
      forall x | 0 <= x < |d'| && !Covered(before, x) ensures d'[x] == orig[x] {
        if !e.Covers(x) {
          assert !Covered(log, x) by {
            assert forall i :: 0 <= i < |log| - 1 ==> log[i] == before[i];
          }
        }
      }
      ReversedReplayRestores(orig, before, d');
      assert Reversed(log)[1..] == Reversed(before);
    }
  }

  /** Logging one more write: the entry holds what the device showed there before. */
  lemma SavesOneMore(orig: seq<Byte>, log: seq<Entry>, shown: seq<Byte>, e: Entry)
    requires Saves(orig, log) && SameElsewhere(orig, log, shown) && e.Fits(|orig|)
    requires e.data == shown[e.loc..e.loc + |e.data|]
    ensures Saves(orig, log + [e])
  {
    var all := log + [e];
    assert all[..|all| - 1] == log;
  }

  lemma CoveredOneMore(log: seq<Entry>, e: Entry, x: nat)
    ensures Covered(log + [e], x) <==> Covered(log, x) || e.Covers(x)
  {
    var all := log + [e];
    assert all[|log|] == e;
    if Covered(log, x) {
      var i :| 0 <= i < |log| && log[i].Covers(x);
      assert all[i].Covers(x);
    }
  }

  // ---------- The log as a file ----------

  /** What the file can hold: 64-bit fields, and no empty entry, since a write of zero bytes
      reports no item written. */
  predicate Storable(log: seq<Entry>)
  {
    |log| <= MAX_ENTRIES && forall i :: 0 <= i < |log| ==> StorableEntry(log[i])
  }

  predicate StorableEntry(e: Entry)
  {
    e.loc < 0x1_0000_0000_0000_0000 && 0 < |e.data| < 0x1_0000_0000_0000_0000
  }

  function EncodeEntry(e: Entry): (s: seq<Byte>)
    ensures |s| == 16 + |e.data|
  {
    ToLE(e.loc, 8) + ToLE(|e.data|, 8) + e.data
  }

  function EncodeEntries(log: seq<Entry>): seq<Byte>
  {
    if log == [] then [] else EncodeEntries(log[..|log| - 1]) + EncodeEntry(log[|log| - 1])
  }

  function Encode(log: seq<Entry>): seq<Byte>
  {
    ToLE(|log|, 8) + EncodeEntries(log)
  }

  datatype Loaded = Failed | Loaded(log: seq<Entry>)

  /** store_uninstall_data. */
  method Store(log: seq<Entry>) returns (ok: bool, file: seq<Byte>)
    ensures ok <==> forall i :: 0 <= i < |log| ==> |log[i].data| != 0
    ensures ok ==> file == Encode(log)
  {
    file := ToLE(|log|, 8);
    var i := 0;
    while i < |log|
      invariant 0 <= i <= |log|
      invariant file == ToLE(|log|, 8) + EncodeEntries(log[..i])
      invariant forall j :: 0 <= j < i ==> |log[j].data| != 0
    {
      file := file + ToLE(log[i].loc, 8);
      file := file + ToLE(|log[i].data|, 8);
      if |log[i].data| == 0 { return false, file; }
      file := file + log[i].data;
      assert log[..i + 1][..i] == log[..i];
      assert file == ToLE(|log|, 8) + (EncodeEntries(log[..i]) + EncodeEntry(log[i]));
      i := i + 1;
    }
    assert log[..|log|] == log;
    ok := true;
  }

  /** load_uninstall_data: reads fail at the end of the file and for items of size zero. A log is
      loaded exactly when it can be stored and the file begins with its encoding. */
  method Load(file: seq<Byte>, ghost log: seq<Entry>) returns (r: Loaded)
    ensures r == Loaded(log) <==> Storable(log) && Encode(log) <= file
  {
    if |file| < 8 { return Failed; }
    var n := FromLE(file[..8]);
    Field64(file[..8]);
    if Storable(log) && Encode(log) <= file { HeaderReadsBack(log, file); }
    if n > MAX_ENTRIES { return Failed; }
    var pos, i := 8, 0;
    var got: seq<Entry> := [];
    while i < n
      invariant 0 <= i <= n && 8 <= pos <= |file| && |got| == i
      invariant Storable(got) && file[..pos] == ToLE(n, 8) + EncodeEntries(got)
      invariant Storable(log) && Encode(log) <= file ==> |log| == n && log[..i] == got
    {
      if Storable(log) && Encode(log) <= file { NextReadsBack(log, file, i, pos); }
      if pos + 16 > |file| { return Failed; }
      var loc := FromLE(file[pos..pos + 8]);
      var count := FromLE(file[pos + 8..pos + 16]);
      if count == 0 || pos + 16 + count > |file| { return Failed; }
      var e := Entry(loc, file[pos + 16..pos + 16 + count]);
      EntryRead(file, ToLE(n, 8), got, pos, e, pos + 16 + count);
      got := got + [e];
      pos := pos + 16 + count;
      i := i + 1;
    }
    r := Loaded(got);
    assert file[..pos] <= file;
  }

  /** The count at the head of the file. */
  lemma {:induction false} HeaderReadsBack(log: seq<Entry>, file: seq<Byte>)
    requires Storable(log) && Encode(log) <= file
    ensures |file| >= 8 && FromLE(file[..8]) == |log|
  {
    Word64(|log|);
    assert file[..8] == Encode(log)[..8] == ToLE(|log|, 8);
  }

  /** Entry i, read at its position in the file. */
  lemma {:induction false} NextReadsBack(log: seq<Entry>, file: seq<Byte>, i: nat, pos: nat)
    requires Storable(log) && Encode(log) <= file && i < |log| && pos == 8 + |EncodeEntries(log[..i])|
    ensures var e := log[i];
            && pos + 16 + |e.data| <= |file| && 0 < |e.data|
            && FromLE(file[pos..pos + 8]) == e.loc && FromLE(file[pos + 8..pos + 16]) == |e.data|
            && file[pos + 16..pos + 16 + |e.data|] == e.data
  {
    var e := log[i];
    assert StorableEntry(e);
    Word64(e.loc);
    Word64(|e.data|);
    EntryInFile(ToLE(|log|, 8), log, file, i, e, ToLE(e.loc, 8), ToLE(|e.data|, 8));
    Fields(file, ToLE(|log|, 8) + EncodeEntries(log[..i]), ToLE(e.loc, 8), ToLE(|e.data|, 8), e.data);
  }

  lemma {:induction false} EntryInFile(h: seq<Byte>, log: seq<Entry>, file: seq<Byte>, i: nat, e: Entry, a: seq<Byte>,
                                       b: seq<Byte>)
    requires h + EncodeEntries(log) <= file && i < |log| && e == log[i] && ToLE(e.loc, 8) == a && ToLE(|e.data|, 8) == b
    ensures h + EncodeEntries(log[..i]) + (a + b + e.data) <= file
  {
    EntriesPrefix(log, i + 1);
    assert log[..i] + [e] == log[..i + 1];
    EncodeAppend(log[..i], e, a, b);
    Below(h, EncodeEntries(log[..i]), a + b + e.data, EncodeEntries(log), file);
  }

  lemma Below<T>(h: seq<T>, a: seq<T>, b: seq<T>, all: seq<T>, file: seq<T>)
    requires a + b <= all && h + all <= file
    ensures h + a + b <= file
  {
    assert h + (a + b) <= h + all;
    assert h + a + b == h + (a + b);
  }

  /** The fields of an entry that follows `head` in the file. */
  lemma Fields<T>(file: seq<T>, head: seq<T>, a: seq<T>, b: seq<T>, c: seq<T>)
    requires head + (a + b + c) <= file && |a| == |b| == 8
    ensures var pos := |head|;
            && file[pos..pos + 8] == a && file[pos + 8..pos + 16] == b && file[pos + 16..pos + 16 + |c|] == c
  {
    var pos, all := |head|, head + (a + b + c);
    assert file[..|all|] == all;
    assert file[pos..pos + 8] == all[pos..pos + 8];
    assert file[pos + 8..pos + 16] == all[pos + 8..pos + 16];
    assert file[pos + 16..pos + 16 + |c|] == all[pos + 16..pos + 16 + |c|];
  }

  lemma {:induction false} EntriesPrefix(log: seq<Entry>, i: nat)
    requires i <= |log|
    ensures EncodeEntries(log[..i]) <= EncodeEntries(log)
  {
    if i == |log| {
      assert log[..i] == log;
    } else {
      var before := log[..|log| - 1];
      EntriesPrefix(before, i);
      assert before[..i] == log[..i];
    }
  }

  /** What was read so far, and one entry more, is what the file holds. */
  lemma {:induction false} EntryRead(file: seq<Byte>, h: seq<Byte>, got: seq<Entry>, pos: nat, e: Entry, end: nat)
    requires Storable(got) && |got| < MAX_ENTRIES && 8 <= pos && 0 < |e.data|
    requires pos + 16 <= end == pos + 16 + |e.data| <= |file| && e.data == file[pos + 16..end]
    requires file[..pos] == h + EncodeEntries(got)
    requires e.loc == FromLE(file[pos..pos + 8]) && |e.data| == FromLE(file[pos + 8..pos + 16])
    ensures Storable(got + [e]) && file[..end] == h + EncodeEntries(got + [e])
  {
    Field64(file[pos..pos + 8]);
    Field64(file[pos + 8..pos + 16]);
    assert StorableEntry(e);
    EntryGlued(file, h, got, pos, e, end);
  }

  lemma {:induction false} EntryGlued(file: seq<Byte>, h: seq<Byte>, got: seq<Entry>, pos: nat, e: Entry, end: nat)
    requires pos + 16 <= end == pos + 16 + |e.data| <= |file| && e.data == file[pos + 16..end]
    requires file[..pos] == h + EncodeEntries(got)
    requires ToLE(e.loc, 8) == file[pos..pos + 8] && ToLE(|e.data|, 8) == file[pos + 8..pos + 16]
    ensures file[..end] == h + EncodeEntries(got + [e])
  {
    EncodeAppend(got, e, file[pos..pos + 8], file[pos + 8..pos + 16]);
    Glue(file, h, EncodeEntries(got), pos, pos + 8, pos + 16, end);
  }

  lemma {:induction false} EncodeAppend(got: seq<Entry>, e: Entry, a: seq<Byte>, b: seq<Byte>)
    requires ToLE(e.loc, 8) == a && ToLE(|e.data|, 8) == b
    ensures EncodeEntries(got + [e]) == EncodeEntries(got) + (a + b + e.data)
  {
    assert (got + [e])[..|got|] == got;
  }

  lemma Glue<T>(file: seq<T>, h: seq<T>, es: seq<T>, a: nat, b: nat, c: nat, d: nat)
    requires a <= b <= c <= d <= |file| && file[..a] == h + es
    ensures file[..d] == h + (es + (file[a..b] + file[b..c] + file[c..d]))
  {
    var tail := file[a..b] + file[b..c] + file[c..d];
    assert tail == file[a..d];
    assert file[..d] == file[..a] + file[a..d];
    assert h + es + tail == h + (es + tail);
  }
}
