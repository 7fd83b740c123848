/** UIXFS disk images: the packer (tools/mkuixfs.py) and what it lays down. */
module Image {
  import opened Bytes

  const SECT: nat := 512
  const NFILES_MAX: nat := 32
  const IMAGE_SIZE: nat := 8388608
  /** Bytes of a directory entry: name[24], size and start. */
  const ENTRY: nat := 32
  const NAME: nat := 24
  const DATA: nat := 1536

  datatype File = File(name: seq<Byte>, blob: seq<Byte>)

  datatype Entry = Entry(name: seq<Byte>, size: nat, start: nat)

  function Magic(): seq<Byte> { [0x55, 0x49, 0x58, 0x46] }

  function Zeros(n: nat): (s: seq<Byte>)
    ensures |s| == n && forall i :: 0 <= i < n ==> s[i] == 0
  {
    seq(n, _ => 0)
  }

  /** name.encode()[:23]. */
  function Cut(name: seq<Byte>): (s: seq<Byte>)
    ensures |s| <= 23 && s <= name
  {
    if |name| <= 23 then name else name[..23]
  }

  /** The 24-byte name field. */
  function Padded(name: seq<Byte>): (s: seq<Byte>)
    ensures |s| == NAME
  {
    Cut(name) + Zeros(NAME - |Cut(name)|)
  }

  function RoundUp(n: nat): (r: nat)
    ensures n <= r < n + SECT && r % SECT == 0
  {
    (n + SECT - 1) / SECT * SECT
  }

  /** Where file i starts, in bytes. */
  function Start(files: seq<File>, i: nat): (r: nat)
    requires i <= |files|
    ensures r >= DATA && r % SECT == 0
  {
    if i == 0 then DATA else Start(files, i - 1) + RoundUp(|files[i - 1].blob|)
  }

  function Record(f: File, start: nat): (s: seq<Byte>)
    ensures |s| == ENTRY
  {
    Padded(f.name) + ToLE(|f.blob|, 4) + ToLE(start / SECT, 4)
  }

  ghost predicate HasAt(img: seq<Byte>, off: nat, s: seq<Byte>)
  {
    off + |s| <= |img| && img[off..off + |s|] == s
  }

  /** File i is in the image. */
  ghost predicate Stored(img: seq<Byte>, files: seq<File>, i: nat)
    requires i < |files|
  {
    HasAt(img, SECT + ENTRY * i, Record(files[i], Start(files, i))) && HasAt(img, Start(files, i), files[i].blob)
  }

  ghost predicate Packed(img: seq<Byte>, files: seq<File>)
  {
    && |img| == IMAGE_SIZE && HasAt(img, 0, Magic() + ToLE(|files|, 4))
    && forall i :: 0 <= i < |files| ==> Stored(img, files, i)
  }

  /** The image can hold the files. */
  ghost predicate Fits(files: seq<File>)
  {
    |files| <= NFILES_MAX && Start(files, |files|) <= IMAGE_SIZE
  }

  lemma {:induction false} StartsInOrder(files: seq<File>, i: nat, j: nat)
    requires i < j <= |files|
    ensures Start(files, i) + |files[i].blob| <= Start(files, j)
    decreases j - i
  {
    if i < j - 1 { StartsInOrder(files, i, j - 1); }
  }

  // ---------- The packer ----------

  /** A write that leaves the rest alone. */
  ghost predicate Written(before: seq<Byte>, after: seq<Byte>, off: nat, s: seq<Byte>)
  {
    && |after| == |before| && HasAt(after, off, s)
    && forall k :: 0 <= k < |before| && !(off <= k < off + |s|) ==> after[k] == before[k]
  }

  lemma HasStill(before: seq<Byte>, after: seq<Byte>, off: nat, s: seq<Byte>, at: nat, t: seq<Byte>)
    requires Written(before, after, off, s) && HasAt(before, at, t) && (at + |t| <= off || off + |s| <= at)
    ensures HasAt(after, at, t)
  {
  }

  lemma StoredStill(before: seq<Byte>, after: seq<Byte>, off: nat, s: seq<Byte>, files: seq<File>, i: nat)
    requires i < |files| && Stored(before, files, i) && Written(before, after, off, s)
    requires off >= SECT + ENTRY * (i + 1) && (off + |s| <= DATA || off >= Start(files, i) + |files[i].blob|)
    requires i < NFILES_MAX
    ensures Stored(after, files, i)
  {
    HasStill(before, after, off, s, SECT + ENTRY * i, Record(files[i], Start(files, i)));
    HasStill(before, after, off, s, Start(files, i), files[i].blob);
  }

  /** struct.pack_into and slice assignment, within the image. */
  method Put(img: array<Byte>, off: nat, s: seq<Byte>)
    requires off + |s| <= img.Length
    modifies img
    ensures Written(old(img[..]), img[..], off, s)
  {
    var i := 0;
    while i < |s|
      invariant i <= |s|
      invariant forall k :: 0 <= k < img.Length ==> img[k] == if off <= k < off + i then s[k - off] else old(img[k])
    {
      img[off + i] := s[i];
      i := i + 1;
    }
    assert img[..][off..off + |s|] == s;
  }

  /** The header and the first i files are in the image. */
  ghost predicate PackedTo(img: seq<Byte>, files: seq<File>, i: nat)
    requires i <= |files|
  {
    |img| == IMAGE_SIZE && HasAt(img, 0, Magic() + ToLE(|files|, 4)) && forall j :: 0 <= j < i ==> Stored(img, files, j)
  }

  /** One turn of the packer's loop. */
  method PackNext(img: array<Byte>, files: seq<File>, i: nat, cur: nat)
    requires i < |files| && Fits(files) && cur == Start(files, i) && PackedTo(img[..], files, i)
    modifies img
    ensures PackedTo(img[..], files, i + 1)
  {
    ghost var a := img[..];
    StartsInOrder(files, i, |files|);
    Put(img, SECT + i * ENTRY, Record(files[i], cur));
    ghost var b := img[..];
    Put(img, cur, files[i].blob);
    NextStored(a, b, img[..], files, i);
  }

  lemma {:induction false} OldStored(a: seq<Byte>, b: seq<Byte>, c: seq<Byte>, files: seq<File>, i: nat, j: nat)
    requires j < i < |files| <= NFILES_MAX && Stored(a, files, j)
    requires Written(a, b, SECT + i * ENTRY, Record(files[i], Start(files, i)))
    requires Written(b, c, Start(files, i), files[i].blob)
    ensures Stored(c, files, j)
  {
    StartsInOrder(files, j, i);
    StoredStill(a, b, SECT + i * ENTRY, Record(files[i], Start(files, i)), files, j);
    StoredStill(b, c, Start(files, i), files[i].blob, files, j);
  }

  lemma {:induction false} NewStored(a: seq<Byte>, b: seq<Byte>, c: seq<Byte>, files: seq<File>, i: nat)
    requires i < |files| <= NFILES_MAX && HasAt(a, 0, Magic() + ToLE(|files|, 4))
    requires Written(a, b, SECT + i * ENTRY, Record(files[i], Start(files, i)))
    requires Written(b, c, Start(files, i), files[i].blob)
    ensures HasAt(c, 0, Magic() + ToLE(|files|, 4)) && Stored(c, files, i)
  {
    var rec, blob := Record(files[i], Start(files, i)), files[i].blob;
    HasStill(a, b, SECT + i * ENTRY, rec, 0, Magic() + ToLE(|files|, 4));
    HasStill(b, c, Start(files, i), blob, 0, Magic() + ToLE(|files|, 4));
    HasStill(b, c, Start(files, i), blob, SECT + i * ENTRY, rec);
  }

  lemma {:induction false} NextStored(a: seq<Byte>, b: seq<Byte>, c: seq<Byte>, files: seq<File>, i: nat)
    requires i < |files| && Fits(files) && PackedTo(a, files, i)
    requires Written(a, b, SECT + i * ENTRY, Record(files[i], Start(files, i)))
    requires Written(b, c, Start(files, i), files[i].blob)
    ensures PackedTo(c, files, i + 1)
  {
    NewStored(a, b, c, files, i);
    forall j | 0 <= j < i ensures Stored(c, files, j) {
      OldStored(a, b, c, files, i, j);
    }
  }

  /** main, for files that fit. */
  method Pack(files: seq<File>) returns (img: array<Byte>)
    requires Fits(files)
    ensures fresh(img) && Packed(img[..], files)
  {
    img := new Byte[IMAGE_SIZE](_ => 0);
    Put(img, 0, Magic() + ToLE(|files|, 4));
    var cur := DATA;
    var i := 0;
    while i < |files|
      invariant i <= |files| && cur == Start(files, i) && PackedTo(img[..], files, i)
    {
      PackNext(img, files, i, cur);
      cur := cur + RoundUp(|files[i].blob|);
      i := i + 1;
    }
  }

  // ---------- What the reader finds ----------

  /** The entry the reader copies out of the directory. */
  function EntryOf(rec: seq<Byte>): Entry
    requires |rec| == ENTRY
  {
    Entry(rec[..NAME], FromLE(rec[NAME..NAME + 4]), FromLE(rec[NAME + 4..]))
  }

  lemma RecordRead(f: File, start: nat)
    requires start % SECT == 0 && start + |f.blob| <= IMAGE_SIZE
    ensures EntryOf(Record(f, start)) == Entry(Padded(f.name), |f.blob|, start / SECT)
  {
    var rec := Record(f, start);
    Widths();
    LERoundTrip(|f.blob|, 4);
    LERoundTrip(start / SECT, 4);
    assert rec[..NAME] == Padded(f.name);
    assert rec[NAME..NAME + 4] == ToLE(|f.blob|, 4);
    assert rec[NAME + 4..] == ToLE(start / SECT, 4);
  }

  /** A C string: the bytes up to the first NUL. */
  function CStr(s: seq<Byte>): (r: seq<Byte>)
    ensures r <= s && 0 !in r
  {
    if s == [] || s[0] == 0 then [] else [s[0]] + CStr(s[1..])
  }

  lemma {:induction false} CStrPadded(name: seq<Byte>, n: nat)
    requires 0 !in name && n > 0
    ensures CStr(name + Zeros(n)) == name
  {
    if name == [] {
      assert (name + Zeros(n))[0] == 0;
    } else {
      CStrPadded(name[1..], n);
      assert (name + Zeros(n))[1..] == name[1..] + Zeros(n);
      assert name == [name[0]] + name[1..];
    }
  }
}
