/** A packed image read back: tools/mkuixfs.py and personality/fs/uixfs.c agree. */
module RoundTrip {
  import opened Bytes
  import opened Image
  import opened Uixfs
  import Pmm

  /** Names without NUL that stay apart once cut to 23 bytes. */
  ghost predicate Named(files: seq<File>)
  {
    && (forall i :: 0 <= i < |files| ==> 0 !in files[i].name)
    && (forall i, j :: 0 <= i < j < |files| ==> Cut(files[i].name) != Cut(files[j].name))
  }

  /** The directory as mount reads it. */
  ghost predicate Directory(img: seq<Byte>, entries: seq<Entry>, n: nat)
  {
    n <= |entries| && forall i :: 0 <= i < n ==> SECT + ENTRY * i + ENTRY <= |img| && entries[i] == EntryAt(img, i)
  }

  lemma PackedMounts(img: seq<Byte>, files: seq<File>)
    requires Fits(files) && Packed(img, files)
    ensures Mountable(img) && CountOf(img) == |files|
  {
    var head := Magic() + ToLE(|files|, 4);
    assert img[0..8] == head;
    assert img[..4] == img[0..8][..4] == Magic();
    assert img[4..8] == img[0..8][4..] == ToLE(|files|, 4);
    Widths();
    LERoundTrip(|files|, 4);
  }

  lemma {:induction false} PackedEntry(img: seq<Byte>, files: seq<File>, i: nat)
    requires Fits(files) && Packed(img, files) && i < |files|
    ensures SECT + ENTRY * i + ENTRY <= |img|
    ensures EntryAt(img, i) == Entry(Padded(files[i].name), |files[i].blob|, Start(files, i) / SECT)
    ensures HasAt(img, Start(files, i), files[i].blob)
    ensures Start(files, i) + RoundUp(|files[i].blob|) <= |img|
  {
    assert Stored(img, files, i);
    StartsInOrder(files, i, |files|);
    RoundedStarts(files, i, |files|);
    RecordRead(files[i], Start(files, i));
  }

  lemma {:induction false} RoundedStarts(files: seq<File>, i: nat, j: nat)
    requires i < j <= |files|
    ensures Start(files, i) + RoundUp(|files[i].blob|) <= Start(files, j)
    decreases j - i
  {
    if i < j - 1 { RoundedStarts(files, i, j - 1); }
  }

  lemma PaddedName(name: seq<Byte>)
    requires 0 !in name
    ensures CStr(Padded(name)) == Cut(name) && 0 in Padded(name) && 0 !in Cut(name)
  {
    var c := Cut(name);
    CStrPadded(c, NAME - |c|);
    assert Padded(name)[|c|] == 0;
  }

  /** A packed file is found under its cut name, and nowhere else. */
  lemma {:induction false} PackedFound(img: seq<Byte>, files: seq<File>, entries: seq<Entry>, k: nat)
    requires Fits(files) && Packed(img, files) && Named(files) && Directory(img, entries, |files|) && k < |files|
    ensures FirstNamed(entries, |files|, Cut(files[k].name), 0) == k
  {
    forall i | 0 <= i < |files| ensures CStr(entries[i].name) == Cut(files[i].name) {
      PackedEntry(img, files, i);
      PaddedName(files[i].name);
    }
    var r := FirstNamed(entries, |files|, Cut(files[k].name), 0);
    assert r == k || r < k || k < r;
  }

  /** The name given to the packer finds its file exactly when it has at most 23 bytes. */
  lemma {:induction false} FullNameFoundIff(img: seq<Byte>, files: seq<File>, entries: seq<Entry>, k: nat)
    requires Fits(files) && Packed(img, files) && Named(files) && Directory(img, entries, |files|) && k < |files|
    ensures FirstNamed(entries, |files|, files[k].name, 0) == (if |files[k].name| <= 23 then k else |files|)
  {
    if |files[k].name| <= 23 {
      PackedFound(img, files, entries, k);
    } else {
      forall i | 0 <= i < |files| ensures CStr(entries[i].name) != files[k].name {
        PackedEntry(img, files, i);
        PaddedName(files[i].name);
      }
    }
  }

  /** The answer of uixfs_read for a packed file: its size, unless it is empty or there is no room. */
  lemma {:induction false} PackedAnswer(img: seq<Byte>, files: seq<File>, entries: seq<Entry>, k: nat, all: set<nat>)
    requires Fits(files) && Packed(img, files) && Named(files) && Directory(img, entries, |files|) && k < |files|
    ensures Answer(img, true, entries, |files|, Cut(files[k].name), all)
            == if files[k].blob != [] && Pmm.HasRun(all, PagesFor(|files[k].blob|)) then |files[k].blob| else -12
    ensures var at := SECT * entries[k].start;
            at + |files[k].blob| <= |img| && img[at..at + |files[k].blob|] == files[k].blob
  {
    PackedEntry(img, files, k);
    EntryReads(img, entries[k], Start(files, k), files[k].blob, all);
    PackedFound(img, files, entries, k);
  }

  lemma EntryReads(img: seq<Byte>, e: Entry, at: nat, blob: seq<Byte>, all: set<nat>)
    requires e.size == |blob| && at % SECT == 0 && e.start == at / SECT && at + RoundUp(|blob|) <= |img|
    requires HasAt(img, at, blob)
    ensures EntryAnswer(img, e, all) == if blob != [] && Pmm.HasRun(all, PagesFor(|blob|)) then |blob| else -12
    ensures SECT * e.start + |blob| <= |img| && img[SECT * e.start..SECT * e.start + |blob|] == blob
  {
    assert SECT * e.start == at;
  }

  method PackAndMount(files: seq<File>, pmm: Pmm.Pmm) returns (fs: Fs)
    requires Fits(files) && Named(files) && pmm.Valid() && 0 !in pmm.free
    ensures fresh(fs) && fresh(fs.sector) && fs.pmm == pmm && fs.Valid() && fs.mounted && fs.buf == 0
    ensures fs.bufPages == 0
    ensures Packed(fs.disk, files) && fs.nfiles == |files| && Directory(fs.disk, fs.entries, |files|)
  {
    var img := Pack(files);
    fs := new Fs(img[..], pmm);
    PackedMounts(fs.disk, files);
    var r := fs.Mount();
  }

  /** Pack, mount and read by name: exactly the bytes that were packed. */
  method PackMountRead(files: seq<File>, k: nat, pmm: Pmm.Pmm) returns (fs: Fs, r: int)
    requires Fits(files) && Named(files) && k < |files| && files[k].blob != []
    requires pmm.Valid() && 0 !in pmm.free && Pmm.HasRun(pmm.free, PagesFor(|files[k].blob|))
    modifies pmm, pmm.bitmap
    ensures r == |files[k].blob| && fs.data.Length >= r && fs.data[..r] == files[k].blob
  {
    ghost var all := pmm.free;
    fs := PackAndMount(files, pmm);
    Terminated(fs.disk, files, fs.entries, fs.nfiles);
    PaddedName(files[k].name);
    NameAsGiven(Cut(files[k].name));
    PackedAnswer(fs.disk, files, fs.entries, k, all);
    PackedFound(fs.disk, files, fs.entries, k);
    r := fs.Read(Cut(files[k].name) + [0], all);
  }

  lemma NameAsGiven(name: seq<Byte>)
    requires 0 !in name
    ensures CStr(name + [0]) == name
  {
    CStrPadded(name, 1);
    assert Zeros(1) == [0];
  }

  lemma {:induction false} Terminated(img: seq<Byte>, files: seq<File>, entries: seq<Entry>, n: nat)
    requires Fits(files) && Packed(img, files) && Named(files) && Directory(img, entries, n) && n == |files|
    ensures forall i :: 0 <= i < n ==> 0 in entries[i].name
  {
    forall i | 0 <= i < n ensures 0 in entries[i].name {
      PackedEntry(img, files, i);
      PaddedName(files[i].name);
    }
  }
}
