/** The UIXFS reader (personality/fs/uixfs.c) over a drive with a fixed image, and the round trip
    from the packer through mount and read. */
module Uixfs {
  import opened Common
  import opened Bytes
  import opened Image
  import Pmm

  ghost function SectorAt(disk: seq<Byte>, lba: nat): seq<Byte>
    requires SECT * lba + SECT <= |disk|
  {
    disk[SECT * lba..SECT * lba + SECT]
  }

  /** Enough pages for `size` bytes, and no more. */
  function PagesFor(size: nat): (n: nat)
    ensures n * PAGE_SIZE >= size && (n > 0 ==> (n - 1) * PAGE_SIZE < size)
  {
    (size + PAGE_SIZE - 1) / PAGE_SIZE
  }

  /** The first of the n entries, from i on, with this name; n if there is none. */
  function FirstNamed(entries: seq<Entry>, n: nat, name: seq<Byte>, i: nat): (r: nat)
    requires i <= n <= |entries|
    ensures i <= r <= n && (r < n ==> CStr(entries[r].name) == name)
    ensures forall j :: i <= j < r ==> CStr(entries[j].name) != name
    decreases n - i
  {
    if i == n || CStr(entries[i].name) == name then i else FirstNamed(entries, n, name, i + 1)
  }

  /** What a mount of this drive finds. */
  ghost predicate Mountable(disk: seq<Byte>)
  {
    && SECT <= |disk| && disk[..4] == Magic()
    && var n := CountOf(disk);
       SECT + (n + 15) / 16 * SECT <= |disk|
  }

  function CountOf(disk: seq<Byte>): (n: nat)
    requires SECT <= |disk|
    ensures n <= NFILES_MAX
  {
    var n := FromLE(disk[4..8]);
    if n > NFILES_MAX then NFILES_MAX else n
  }

  ghost function EntryAt(disk: seq<Byte>, i: nat): Entry
    requires SECT + ENTRY * i + ENTRY <= |disk|
  {
    EntryOf(disk[SECT + ENTRY * i..SECT + ENTRY * i + ENTRY])
  }

  /** strcmp: zero exactly when the strings agree. */
  method StrCmp(a: seq<Byte>, b: seq<Byte>) returns (r: int)
    requires 0 in a && 0 in b
    ensures r == 0 <==> CStr(a) == CStr(b)
  {
    var i := 0;
    assert a[0..] == a && b[0..] == b;
    while a[i] != 0 && a[i] == b[i]
      invariant i < |a| && i < |b| && 0 in a[i..] && 0 in b[i..]
      invariant CStr(a) == CStr(b) <==> CStr(a[i..]) == CStr(b[i..])
      decreases |a| - i
    {
      CStrNext(a, i);
      CStrNext(b, i);
      TailsAgree(a[i], CStr(a[i + 1..]), CStr(b[i + 1..]));
      i := i + 1;
    }
    CStrHere(a, i);
    CStrHere(b, i);
    r := a[i] as int - b[i] as int;
  }

  lemma {:induction false} CStrNext(s: seq<Byte>, i: nat)
    requires i < |s| && s[i] != 0 && 0 in s[i..]
    ensures CStr(s[i..]) == [s[i]] + CStr(s[i + 1..]) && 0 in s[i + 1..]
  {
    assert s[i..][1..] == s[i + 1..];
    assert s[i..] == [s[i]] + s[i + 1..];
  }

  lemma {:induction false} CStrHere(s: seq<Byte>, i: nat)
    requires i < |s|
    ensures if s[i] == 0 then CStr(s[i..]) == [] else CStr(s[i..]) != [] && CStr(s[i..])[0] == s[i]
  {
    assert s[i..][0] == s[i];
  }

  lemma TailsAgree(x: Byte, s: seq<Byte>, t: seq<Byte>)
    ensures [x] + s == [x] + t <==> s == t
  {
    assert ([x] + s)[1..] == s && ([x] + t)[1..] == t;
  }

  /** The set `more` is `free` and the n pages from `first` on, none of which is in `free`. */
  ghost predicate Adds(free: set<nat>, first: nat, n: nat, more: set<nat>)
  {
    && (forall p: nat :: p in more <==> p in free || first <= p < first + n)
    && (forall p: nat :: p in free ==> !(first <= p < first + n))
  }

  /** Pages first .. first + n go back to the PMM; none of the calls panics. */
  method FreeRun(pmm: Pmm.Pmm, first: nat, n: nat, ghost all: set<nat>)
    requires pmm.Valid() && first + n <= pmm.bitmap.Length && Adds(pmm.free, first, n, all)
    modifies pmm`freeCount, pmm`free, pmm.bitmap
    ensures pmm.Valid() && pmm.free == all
  {
    ghost var g := pmm.free;
    var i := 0;
    while i < n
      invariant i <= n && pmm.Valid() && Adds(g, first, i, pmm.free)
    {
      FreePage(pmm, first + i);
      i := i + 1;
    }
    assert forall p :: p in pmm.free <==> p in all;
  }

  /** pmm_free of a page in use: it does not panic. */
  method FreePage(pmm: Pmm.Pmm, page: nat)
    requires pmm.Valid() && page < pmm.bitmap.Length && page !in pmm.free
    modifies pmm`freeCount, pmm`free, pmm.bitmap
    ensures pmm.Valid() && pmm.free == old(pmm.free) + {page}
  {
    var ok := pmm.Free(page);
    assert ok;
  }

  /** pmm_alloc_pages when page 0 is never free: 0 means that there is no run. */
  method AllocRun(pmm: Pmm.Pmm, n: nat) returns (page: nat)
    requires pmm.Valid() && 0 !in pmm.free
    modifies pmm, pmm.bitmap
    ensures pmm.Valid() && (page == 0 <==> n == 0 || !Pmm.HasRun(old(pmm.free), n))
    ensures page == 0 ==> pmm.free == old(pmm.free)
    ensures page != 0 ==> page + n <= pmm.bitmap.Length && Adds(pmm.free, page, n, old(pmm.free))
  {
    page := pmm.AllocPages(n);
    if page != 0 { assert page + n - 1 in old(pmm.free); }
    if n > 0 && page == 0 { assert 0 !in old(pmm.free); }
  }

  class Fs {
    const disk: seq<Byte>
    const pmm: Pmm.Pmm
    const sector: array<Byte>
    var entries: seq<Entry>
    var nfiles: nat
    var mounted: bool
    /** The result buffer: its first page (0 for none), its pages, and what they hold. */
    var buf: nat
    var bufPages: nat
    var data: array<Byte>

    ghost predicate Valid()
      reads this, sector, pmm, pmm.bitmap
    {
      && sector.Length == SECT && data != sector && |entries| == NFILES_MAX && nfiles <= NFILES_MAX
      && pmm.Valid() && 0 !in pmm.free
      && (buf == 0 ==> bufPages == 0) && buf + bufPages <= pmm.bitmap.Length
    }

    constructor (disk: seq<Byte>, pmm: Pmm.Pmm)
      requires pmm.Valid() && 0 !in pmm.free
      ensures Valid() && !mounted && buf == 0 && this.disk == disk && this.pmm == pmm && fresh(sector)
    {
      this.disk, this.pmm := disk, pmm;
      entries := seq(NFILES_MAX, _ => Entry([], 0, 0));
      nfiles, mounted, buf, bufPages := 0, false, 0, 0;
      sector := new Byte[SECT](_ => 0);
      data := new Byte[0];
    }

    /** virtio_blk_read into the sector buffer. */
    method ReadSector(lba: nat) returns (ok: bool)
      requires sector.Length == SECT
      modifies sector
      ensures ok <==> SECT * lba + SECT <= |disk|
      ensures ok ==> sector[..] == SectorAt(disk, lba)
    {
      ok := SECT * lba + SECT <= |disk|;
      if ok {
        forall k | 0 <= k < SECT { sector[k] := disk[SECT * lba + k]; }
      }
    }

    /** uixfs_mount: 0 exactly when the drive can be mounted, and then the directory is in `entries`. */
    method Mount() returns (r: int)
      requires Valid()
      modifies this`entries, this`nfiles, this`mounted, sector
      ensures Valid() && (r == 0 || r == -1) && (r == 0 <==> Mountable(disk))
      ensures r != 0 ==> mounted == old(mounted)
      ensures r == 0 ==> mounted && nfiles == CountOf(disk)
      ensures r == 0 ==> forall i :: 0 <= i < nfiles ==>
              SECT + ENTRY * i + ENTRY <= |disk| && entries[i] == EntryAt(disk, i)
    {
      var ok := ReadHeader();
      if !ok { return -1; }
      ok := ReadDirectory();
      if !ok { return -1; }
      mounted := true;
      return 0;
    }

    method ReadDirectory() returns (ok: bool)
      requires sector.Length == SECT && |entries| == NFILES_MAX && SECT <= |disk| && nfiles <= NFILES_MAX
      modifies this`entries, sector
      ensures |entries| == NFILES_MAX && (ok <==> SECT + (nfiles + 15) / 16 * SECT <= |disk|)
      ensures ok ==> forall i :: 0 <= i < nfiles ==>
              SECT + ENTRY * i + ENTRY <= |disk| && entries[i] == EntryAt(disk, i)
    {
      var i := 0;
      while i < nfiles
        invariant i <= nfiles && |entries| == NFILES_MAX && Loaded(i)
      {
        ok := MountNext(i);
        MoreSectors(i, nfiles);
        if !ok { return; }
        i := i + 1;
      }
      return true;
    }

    method ReadHeader() returns (ok: bool)
      requires sector.Length == SECT && nfiles <= NFILES_MAX
      modifies this`nfiles, sector
      ensures nfiles <= NFILES_MAX && (ok <==> SECT <= |disk| && disk[..4] == Magic())
      ensures (ok ==> nfiles == CountOf(disk))
    {
      ok := ReadSector(0);
      if !ok { return; }
      assert sector[..] == disk[..SECT] && sector[..4] == disk[..4] && sector[4..8] == disk[4..8];
      if sector[..4] != Magic() { return false; }
      nfiles := FromLE(sector[4..8]);
      if nfiles > NFILES_MAX { nfiles := NFILES_MAX; }
    }

    /** The first i entries are read, and the sector of the next one is at hand unless it starts one. */
    ghost predicate Loaded(i: nat)
      reads this`entries, sector
      requires sector.Length == SECT && |entries| == NFILES_MAX && i <= NFILES_MAX
    {
      && SECT + (i + 15) / 16 * SECT <= |disk|
      && (i % 16 != 0 ==> SECT * (1 + i / 16) + SECT <= |disk| && sector[..] == SectorAt(disk, 1 + i / 16))
      && forall j :: 0 <= j < i ==> SECT + ENTRY * j + ENTRY <= |disk| && entries[j] == EntryAt(disk, j)
    }

    /** One turn of the loop of uixfs_mount. */
    method MountNext(i: nat) returns (ok: bool)
      requires sector.Length == SECT && |entries| == NFILES_MAX && i < NFILES_MAX && Loaded(i)
      modifies this`entries, sector
      ensures |entries| == NFILES_MAX && (ok <==> SECT + (i + 16) / 16 * SECT <= |disk|)
      ensures ok ==> Loaded(i + 1)
    {
      Slots(i);
      var lba, off := 1 + i * 32 / 512, i * 32 % 512;
      ok := true;
      if off == 0 { ok := ReadSector(lba); }
      if ok { CopyEntry(i, lba, off); }
    }

    /** memcpy of entry i out of the sector at hand. */
    method CopyEntry(i: nat, ghost lba: nat, off: nat)
      requires i < |entries| && sector.Length == SECT && off + ENTRY <= SECT && SECT * lba + off == SECT + ENTRY * i
      requires SECT * lba + SECT <= |disk| && sector[..] == SectorAt(disk, lba)
      modifies this`entries
      ensures SECT + ENTRY * i + ENTRY <= |disk| && entries == old(entries)[i := EntryAt(disk, i)]
    {
      ghost var at := SECT + ENTRY * i;
      SubSector(disk, lba, off);
      assert sector[..][off..off + ENTRY] == disk[at..at + ENTRY];
      entries := entries[i := EntryOf(sector[off..off + ENTRY])];
    }

    /** file_buf_free: every page of the buffer goes back, and no page twice. */
    method BufFree(ghost all: set<nat>)
      requires Valid() && Adds(pmm.free, buf, bufPages, all)
      modifies this`buf, this`bufPages, pmm, pmm.bitmap
      ensures Valid() && buf == 0 && pmm.free == all
    {
      if buf == 0 {
        assert forall p :: p in pmm.free <==> p in all;
        return;
      }
      FreeRun(pmm, buf, bufPages, all);
      buf, bufPages := 0, 0;
    }

    method BufTake(pages: nat) returns (ok: bool)
      requires Valid() && buf == 0
      modifies this`buf, this`bufPages, pmm, pmm.bitmap
      ensures Valid() && (ok <==> pages > 0 && Pmm.HasRun(old(pmm.free), pages))
      ensures Adds(pmm.free, buf, bufPages, old(pmm.free)) && (if ok then bufPages == pages else buf == 0)
    {
      var pa := AllocRun(pmm, pages);
      if pa == 0 { return false; }
      buf, bufPages := pa, pages;
      return true;
    }

    /** file_buf_alloc: a buffer of whole pages, exactly when the PMM has such a run. */
    method BufAlloc(size: nat, ghost all: set<nat>) returns (ok: bool)
      requires Valid() && Adds(pmm.free, buf, bufPages, all)
      modifies this`buf, this`bufPages, this`data, pmm, pmm.bitmap
      ensures Valid() && fresh(data) && Adds(pmm.free, buf, bufPages, all)
      ensures ok <==> size > 0 && Pmm.HasRun(all, PagesFor(size))
      ensures if ok then bufPages == PagesFor(size) && data.Length == bufPages * PAGE_SIZE >= size else buf == 0
    {
      BufFree(all);
      ok := BufTake(PagesFor(size));
      data := new Byte[bufPages * PAGE_SIZE];
    }

    /** memcpy from the sector buffer. */
    method CopyChunk(done: nat, chunk: nat)
      requires sector.Length == SECT && chunk <= SECT && done + chunk <= data.Length && data != sector
      modifies data
      ensures data[..done + chunk] == old(data[..done]) + sector[..chunk]
    {
      forall k | 0 <= k < chunk { data[done + k] := sector[k]; }
    }

    /** The read loop of uixfs_read: false when the drive ends before the file does. */
    method ReadBlocks(start: nat, size: nat) returns (ok: bool)
      requires sector.Length == SECT && size <= data.Length && data != sector
      modifies sector, data
      ensures ok <==> SECT * start + RoundUp(size) <= |disk| || size == 0
      ensures ok && size > 0 ==>
                SECT * start + size <= |disk| && data[..size] == disk[SECT * start..SECT * start + size]
    {
      var lba, done := start, 0;
      ghost var k, at := 0, SECT * start;
      while done < size
        invariant lba == start + k && done == (if SECT * k <= size then SECT * k else size)
        invariant (k > 0 ==> SECT * (k - 1) < size)
        invariant done > 0 ==> at + SECT * k <= |disk| && data[..done] == disk[at..at + done]
      {
        MoreBlocks(k, size);
        ok := ReadSector(lba);
        if !ok { return; }
        var chunk := size - done;
        if chunk > SECT { chunk := SECT; }
        CopyChunk(done, chunk);
        Extends(disk, at, done, chunk, lba, sector[..]);
        done := done + chunk;
        lba := lba + 1;
        k := k + 1;
      }
      if k > 0 { MoreBlocks(k - 1, size); }
      return true;
    }

    /** uixfs_read: the size of the file, now in the buffer, or a negative errno. */
    method Read(name: seq<Byte>, ghost all: set<nat>) returns (r: int)
      requires Valid() && 0 in name && (forall i :: 0 <= i < nfiles ==> 0 in entries[i].name)
      requires Adds(pmm.free, buf, bufPages, all)
      modifies this`buf, this`bufPages, this`data, sector, pmm, pmm.bitmap
      ensures Valid() && Adds(pmm.free, buf, bufPages, all)
      ensures r == Answer(disk, mounted, entries, nfiles, CStr(name), all)
      ensures r >= 0 ==> data.Length >= r && var e := entries[FirstNamed(entries, nfiles, CStr(name), 0)];
                         SECT * e.start + r <= |disk| && data[..r] == disk[SECT * e.start..SECT * e.start + r]
    {
      if !mounted { return -1; }
      var i := Lookup(name);
      if i == nfiles { return -2; }
      r := ReadEntry(entries[i], all);
    }

    method Lookup(name: seq<Byte>) returns (i: nat)
      requires 0 in name && nfiles <= |entries| && forall i :: 0 <= i < nfiles ==> 0 in entries[i].name
      ensures i == FirstNamed(entries, nfiles, CStr(name), 0)
    {
      i := 0;
      while i < nfiles
        invariant i <= nfiles
        invariant FirstNamed(entries, nfiles, CStr(name), 0) == FirstNamed(entries, nfiles, CStr(name), i)
      {
        var c := StrCmp(entries[i].name, name);
        if c == 0 { return; }
        i := i + 1;
      }
    }

    method ReadEntry(e: Entry, ghost all: set<nat>) returns (r: int)
      requires Valid() && Adds(pmm.free, buf, bufPages, all)
      modifies this`buf, this`bufPages, this`data, sector, pmm, pmm.bitmap
      ensures Valid() && Adds(pmm.free, buf, bufPages, all)
      ensures r == EntryAnswer(disk, e, all)
      ensures r >= 0 ==> data.Length >= r && SECT * e.start + r <= |disk|
      ensures r >= 0 ==> data[..r] == disk[SECT * e.start..SECT * e.start + r]
    {
      var ok := BufAlloc(e.size, all);
      if !ok { return -12; }
      ok := ReadBlocks(e.start, e.size);
      if !ok { return -5; }
      r := e.size;
    }
  }

  /** What reading this entry returns when these pages are free or in the buffer. */
  ghost function EntryAnswer(disk: seq<Byte>, e: Entry, all: set<nat>): int
  {
    if e.size == 0 || !Pmm.HasRun(all, PagesFor(e.size)) then -12
    else if SECT * e.start + RoundUp(e.size) > |disk| then -5
    else e.size
  }

  ghost function Answer(disk: seq<Byte>, mounted: bool, entries: seq<Entry>, nfiles: nat, name: seq<Byte>,
                        all: set<nat>): int
    requires nfiles <= |entries|
  {
    if !mounted then -1
    else
      var i := FirstNamed(entries, nfiles, name, 0);
      if i == nfiles then -2 else EntryAnswer(disk, entries[i], all)
  }

  lemma MoreBlocks(k: nat, size: nat)
    requires SECT * k < size
    ensures RoundUp(size) >= SECT * (k + 1) && (SECT * (k + 1) >= size ==> RoundUp(size) == SECT * (k + 1))
  {
  }

  lemma Extends(disk: seq<Byte>, at: nat, done: nat, chunk: nat, lba: nat, sec: seq<Byte>)
    requires at + done == SECT * lba && chunk <= SECT && SECT * lba + SECT <= |disk| && sec == SectorAt(disk, lba)
    ensures disk[at..at + (done + chunk)] == disk[at..at + done] + sec[..chunk]
  {
    SliceOfSlice(disk, SECT * lba, SECT, 0, chunk);
    assert sec[..chunk] == disk[at + done..at + done + chunk];
  }

  lemma SubSector(disk: seq<Byte>, lba: nat, off: nat)
    requires SECT * lba + SECT <= |disk| && off + ENTRY <= SECT
    ensures SectorAt(disk, lba)[off..off + ENTRY] == disk[SECT * lba + off..SECT * lba + off + ENTRY]
  {
    SliceOfSlice(disk, SECT * lba, SECT, off, ENTRY);
  }

  lemma SliceOfSlice(s: seq<Byte>, at: nat, n: nat, off: nat, k: nat)
    requires at + n <= |s| && off + k <= n
    ensures s[at..at + n][off..off + k] == s[at + off..at + off + k]
  {
    var t := s[at..at + n];
    var u, v := t[off..off + k], s[at + off..at + off + k];
    forall j | 0 <= j < k ensures u[j] == v[j] {
      assert t[off + j] == s[at + (off + j)];
    }
  }

  lemma MoreSectors(i: nat, n: nat)
    requires i < n
    ensures (i + 16) / 16 <= (n + 15) / 16
  {
  }

  /** Sixteen entries to a sector. */
  lemma Slots(i: nat)
    ensures 1 + i * 32 / 512 == 1 + i / 16 && i * 32 % 512 == i % 16 * 32
    ensures SECT * (1 + i / 16) + i % 16 * 32 == SECT + ENTRY * i
    ensures (i + 16) / 16 == i / 16 + 1 && (i % 16 == 0 ==> (i + 15) / 16 == i / 16)
    ensures (i % 16 != 0 ==> (i + 15) / 16 == i / 16 + 1)
    ensures (i + 1) % 16 != 0 ==> (i + 1) / 16 == i / 16 && (i % 16 != 0 || i % 16 == 0)
  {
    var q, k := i / 16, i % 16;
    assert i == 16 * q + k;
    assert i * 32 == 512 * q + 32 * k && 32 * k < 512;
  }
}
