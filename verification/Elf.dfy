/** The ELF loader (core/cpu/elf.c): from the bytes of an image to the pages of a user space. */
module Elf {
  import opened Common
  import opened Bytes
  import opened PageTables
  import opened Cow
  import opened Memory
  import Maps
  import Spaces
  import V = Vmm

  const EHDR: nat := 64
  const PHDR: nat := 56
  const PT_LOAD: nat := 1
  const TOP: nat := 0x1_0000_0000_0000_0000
  const USER_TOP: nat := 0x8000_0000_0000

  datatype Seg = Seg(kind: nat, offset: nat, vaddr: nat, filesz: nat, memsz: nat)

  // ---------- The headers ----------

  function Field(img: seq<Byte>, at: nat, width: nat): nat
    requires at + width <= |img|
  {
    FromLE(img[at..at + width])
  }

  function Phoff(img: seq<Byte>): nat requires |img| >= EHDR { Field(img, 32, 8) }

  function Phnum(img: seq<Byte>): nat requires |img| >= EHDR { Field(img, 56, 2) }

  function Phentsize(img: seq<Byte>): nat requires |img| >= EHDR { Field(img, 54, 2) }

  /** The checks before the first program header is looked at; the sum is taken in 64 bits. */
  predicate Accepts(img: seq<Byte>)
  {
    && |img| >= EHDR && img[..4] == [0x7F, 0x45, 0x4C, 0x46] && img[4] == 2 && Field(img, 18, 2) == 0x3E
    && Phnum(img) != 0 && Phentsize(img) >= PHDR
    && (Phoff(img) + Phnum(img) * Phentsize(img)) % TOP <= |img|
  }

  /** The headers are 56 bytes apart, as ph[i] reads them, and lie in the image. */
  predicate Plain(img: seq<Byte>)
    requires |img| >= EHDR
  {
    Phentsize(img) == PHDR && Phoff(img) + Phnum(img) * PHDR <= |img|
  }

  /** A 56-byte table that is accepted lies in the image, unless the check's sum wraps. */
  lemma AcceptedIsPlainIff(img: seq<Byte>)
    requires Accepts(img) && Phentsize(img) == PHDR && |img| < TOP
    ensures Plain(img) <==> Phoff(img) + Phnum(img) * PHDR < TOP
  {
  }

  function SegAt(img: seq<Byte>, i: nat): Seg
    requires |img| >= EHDR && Plain(img) && i < Phnum(img)
  {
    var at := Phoff(img) + i * PHDR;
    assert i * PHDR + PHDR <= Phnum(img) * PHDR;
    Seg(Field(img, at, 4), Field(img, at + 8, 8), Field(img, at + 16, 8),
        Field(img, at + 32, 8), Field(img, at + 40, 8))
  }

  // ---------- The file format ----------

  /** The 64 bytes of a file header of the ELF-64 format, for x86-64: the identification, whose bytes
      behind the class are `rest`, type, machine and version; entry point and places of the tables; flags
      and sizes. */
  function FileHeader(rest: seq<Byte>, kind: nat, version: nat, entry: nat, phoff: nat, shoff: nat, sizes: seq<Byte>)
    : (h: seq<Byte>)
    requires |rest| == 11 && |sizes| == 16
    ensures |h| == EHDR
  {
    Identity(rest, kind, version) + (ToLE(entry, 8) + ToLE(phoff, 8) + ToLE(shoff, 8)) + sizes
  }

  function Identity(rest: seq<Byte>, kind: nat, version: nat): (h: seq<Byte>)
    requires |rest| == 11
    ensures |h| == 24
  {
    [0x7F, 0x45, 0x4C, 0x46, 2] + rest + ToLE(kind, 2) + ToLE(0x3E, 2) + ToLE(version, 4)
  }

  function Sizes(flags: nat, ehsize: nat, phentsize: nat, phnum: nat, tail: seq<Byte>): (h: seq<Byte>)
    requires |tail| == 6
    ensures |h| == 16
  {
    ToLE(flags, 4) + ToLE(ehsize, 2) + ToLE(phentsize, 2) + ToLE(phnum, 2) + tail
  }

  /** The 56 bytes of a program header. */
  function ProgramHeader(s: Seg, flags: nat, paddr: nat, align: nat): (h: seq<Byte>)
    ensures |h| == PHDR
  {
    ToLE(s.kind, 4) + ToLE(flags, 4) + ToLE(s.offset, 8) + ToLE(s.vaddr, 8) + ToLE(paddr, 8) + ToLE(s.filesz, 8)
    + ToLE(s.memsz, 8) + ToLE(align, 8)
  }

  /** Field by field, when k bytes encode n at the given place. */
  lemma FieldReads(img: seq<Byte>, at: nat, n: nat, k: nat)
    requires at + k <= |img| && img[at..at + k] == ToLE(n, k) && n < Pow256(k)
    ensures Field(img, at, k) == n
  {
    LERoundTrip(n, k);
  }

  /** A part of a slice is a slice. */
  lemma PartOf(img: seq<Byte>, at: nat, h: seq<Byte>, off: nat, part: seq<Byte>)
    requires at + |h| <= |img| && img[at..at + |h|] == h && off + |part| <= |h| && h[off..off + |part|] == part
    ensures img[at + off..at + off + |part|] == part
  {
    forall k | 0 <= k < |part| ensures img[at + off..at + off + |part|][k] == part[k] {
      assert img[at..at + |h|][off + k] == h[off + k] && h[off..off + |part|][k] == part[k];
    }
  }

  lemma ReadsPart(img: seq<Byte>, at: nat, h: seq<Byte>, off: nat, n: nat, k: nat)
    requires at + |h| <= |img| && img[at..at + |h|] == h && off + k <= |h| && h[off..off + k] == ToLE(n, k)
    requires n < Pow256(k)
    ensures Field(img, at + off, k) == n
  {
    PartOf(img, at, h, off, ToLE(n, k));
    FieldReads(img, at + off, n, k);
  }

  predicate Fits64(s: Seg)
  {
    s.kind < Pow256(4) && s.offset < Pow256(8) && s.vaddr < Pow256(8) && s.filesz < Pow256(8) && s.memsz < Pow256(8)
  }

  /** The loader reads a program header as the format writes it. */
  lemma SegReadsBack(img: seq<Byte>, i: nat, s: Seg, flags: nat, paddr: nat, align: nat)
    requires |img| >= EHDR && Plain(img) && i < Phnum(img) && Fits64(s)
    requires var at := Phoff(img) + i * PHDR;
             at + PHDR <= |img| && img[at..at + PHDR] == ProgramHeader(s, flags, paddr, align)
    ensures SegAt(img, i) == s
  {
    var at, h := Phoff(img) + i * PHDR, ProgramHeader(s, flags, paddr, align);
    ReadsPart(img, at, h, 0, s.kind, 4);
    ReadsPart(img, at, h, 8, s.offset, 8);
    ReadsPart(img, at, h, 16, s.vaddr, 8);
    ReadsPart(img, at, h, 32, s.filesz, 8);
    ReadsPart(img, at, h, 40, s.memsz, 8);
  }

  /** It reads a file header as the format writes it, and accepts the file if there are program headers of
      56 bytes or more that lie in it. */
  lemma HeaderReadsBack(img: seq<Byte>, rest: seq<Byte>, kind: nat, version: nat, entry: nat, phoff: nat, shoff: nat,
                        flags: nat, ehsize: nat, phentsize: nat, phnum: nat, tail: seq<Byte>)
    requires |rest| == 11 && |tail| == 6 && EHDR <= |img| < TOP
    requires img[..EHDR] ==
             FileHeader(rest, kind, version, entry, phoff, shoff, Sizes(flags, ehsize, phentsize, phnum, tail))
    requires entry < Pow256(8) && phoff < Pow256(8) && phentsize < Pow256(2) && phnum < Pow256(2)
    ensures Field(img, 24, 8) == entry && Phoff(img) == phoff && Phentsize(img) == phentsize && Phnum(img) == phnum
    ensures phnum > 0 && phentsize >= PHDR && phoff + phnum * phentsize <= |img| ==> Accepts(img)
    ensures phnum == 0 || phentsize < PHDR ==> !Accepts(img)
  {
    var sizes := Sizes(flags, ehsize, phentsize, phnum, tail);
    IdentityReads(img, rest, kind, version, entry, phoff, shoff, sizes);
    PlacesRead(img, rest, kind, version, entry, phoff, shoff, sizes);
    SizesAt(img, rest, kind, version, entry, phoff, shoff, sizes);
    SizesRead(img, flags, ehsize, phentsize, phnum, tail);
    AcceptedIf(img);
  }

  lemma AcceptedIf(img: seq<Byte>)
    requires EHDR <= |img| < TOP && img[..4] == [0x7F, 0x45, 0x4C, 0x46] && img[4] == 2 && Field(img, 18, 2) == 0x3E
    ensures Phnum(img) > 0 && Phentsize(img) >= PHDR && Phoff(img) + Phnum(img) * Phentsize(img) <= |img| ==>
              Accepts(img)
    ensures Phnum(img) == 0 || Phentsize(img) < PHDR ==> !Accepts(img)
  {
    var sum := Phoff(img) + Phnum(img) * Phentsize(img);
    assert 0 <= sum < TOP ==> sum % TOP == sum;
  }

  lemma SizesAt(img: seq<Byte>, rest: seq<Byte>, kind: nat, version: nat, entry: nat, phoff: nat, shoff: nat,
                sizes: seq<Byte>)
    requires |rest| == 11 && |sizes| == 16 && |img| >= EHDR
    requires img[..EHDR] == FileHeader(rest, kind, version, entry, phoff, shoff, sizes)
    ensures img[48..48 + 16] == sizes
  {
    assert img[48..48 + 16] == img[..EHDR][48..64];
  }

  lemma IdentityReads(img: seq<Byte>, rest: seq<Byte>, kind: nat, version: nat, entry: nat, phoff: nat, shoff: nat,
                      sizes: seq<Byte>)
    requires |rest| == 11 && |sizes| == 16 && |img| >= EHDR
    requires img[..EHDR] == FileHeader(rest, kind, version, entry, phoff, shoff, sizes)
    ensures img[..4] == [0x7F, 0x45, 0x4C, 0x46] && img[4] == 2 && Field(img, 18, 2) == 0x3E
  {
    var id := Identity(rest, kind, version);
    assert img[0..0 + 24] == img[..EHDR][..24] == id;
    assert 0x3E < Pow256(2) by { assert Pow256(1) == 256; }
    ReadsPart(img, 0, id, 18, 0x3E, 2);
    assert id[..4] == [0x7F, 0x45, 0x4C, 0x46] && id[4] == 2;
    assert img[..4] == id[..4];
  }

  lemma PlacesRead(img: seq<Byte>, rest: seq<Byte>, kind: nat, version: nat, entry: nat, phoff: nat, shoff: nat,
                   sizes: seq<Byte>)
    requires |rest| == 11 && |sizes| == 16 && |img| >= EHDR && entry < Pow256(8) && phoff < Pow256(8)
    requires img[..EHDR] == FileHeader(rest, kind, version, entry, phoff, shoff, sizes)
    ensures Field(img, 24, 8) == entry && Phoff(img) == phoff
  {
    var mid := ToLE(entry, 8) + ToLE(phoff, 8) + ToLE(shoff, 8);
    assert img[24..24 + 24] == img[..EHDR][24..48] == mid;
    ReadsPart(img, 24, mid, 0, entry, 8);
    ReadsPart(img, 24, mid, 8, phoff, 8);
  }

  lemma SizesRead(img: seq<Byte>, flags: nat, ehsize: nat, phentsize: nat, phnum: nat, tail: seq<Byte>)
    requires |tail| == 6 && |img| >= EHDR && phentsize < Pow256(2) && phnum < Pow256(2)
    requires img[48..48 + 16] == Sizes(flags, ehsize, phentsize, phnum, tail)
    ensures Phentsize(img) == phentsize && Phnum(img) == phnum
  {
    var sizes := Sizes(flags, ehsize, phentsize, phnum, tail);
    ReadsPart(img, 48, sizes, 6, phentsize, 2);
    ReadsPart(img, 48, sizes, 8, phnum, 2);
  }

  /** And it accepts nothing else: an accepted file begins with such a header, with program headers of 56
      bytes or more. */
  lemma AcceptedHeader(img: seq<Byte>)
    returns (rest: seq<Byte>, kind: nat, version: nat, entry: nat, phoff: nat, shoff: nat, flags: nat, ehsize: nat,
             phentsize: nat, phnum: nat, tail: seq<Byte>)
    requires Accepts(img)
    ensures |rest| == 11 && |tail| == 6
    ensures img[..EHDR] ==
            FileHeader(rest, kind, version, entry, phoff, shoff, Sizes(flags, ehsize, phentsize, phnum, tail))
    ensures phnum > 0 && phentsize >= PHDR && (phoff + phnum * phentsize) % TOP <= |img|
  {
    rest, tail := img[5..16], img[58..64];
    kind, version := Field(img, 16, 2), Field(img, 20, 4);
    entry, phoff, shoff := Field(img, 24, 8), Phoff(img), Field(img, 40, 8);
    flags, ehsize, phentsize, phnum := Field(img, 48, 4), Field(img, 52, 2), Phentsize(img), Phnum(img);
    WrittenIdentity(img, rest, kind, version);
    WrittenSizes(img, flags, ehsize, phentsize, phnum, tail);
    WrittenHeader(img, rest, kind, version, entry, phoff, shoff, img[48..64]);
  }

  lemma WrittenHeader(img: seq<Byte>, rest: seq<Byte>, kind: nat, version: nat, entry: nat, phoff: nat, shoff: nat,
                      sizes: seq<Byte>)
    requires |img| >= EHDR && |rest| == 11 && img[..24] == Identity(rest, kind, version) && sizes == img[48..64]
    requires entry == Field(img, 24, 8) && phoff == Field(img, 32, 8) && shoff == Field(img, 40, 8)
    ensures img[..EHDR] == FileHeader(rest, kind, version, entry, phoff, shoff, sizes)
  {
    Written(img, 24, 8);
    Written(img, 32, 8);
    Written(img, 40, 8);
    FiveParts(img, Identity(rest, kind, version), ToLE(entry, 8), ToLE(phoff, 8), ToLE(shoff, 8), sizes);
  }

  /** A field is the encoding of what is read from it. */
  lemma Written(img: seq<Byte>, at: nat, k: nat)
    requires at + k <= |img|
    ensures ToLE(Field(img, at, k), k) == img[at..at + k]
  {
    LEInverse(img[at..at + k]);
  }

  lemma WrittenIdentity(img: seq<Byte>, rest: seq<Byte>, kind: nat, version: nat)
    requires |img| >= EHDR && img[..4] == [0x7F, 0x45, 0x4C, 0x46] && img[4] == 2 && Field(img, 18, 2) == 0x3E
    requires rest == img[5..16] && kind == Field(img, 16, 2) && version == Field(img, 20, 4)
    ensures img[..24] == Identity(rest, kind, version)
  {
    Written(img, 16, 2);
    Written(img, 18, 2);
    Written(img, 20, 4);
    assert img[..5] == img[..4] + [img[4]];
    assert img[..24] == img[..5] + img[5..16] + img[16..18] + img[18..20] + img[20..24];
  }

  lemma WrittenSizes(img: seq<Byte>, flags: nat, ehsize: nat, phentsize: nat, phnum: nat, tail: seq<Byte>)
    requires |img| >= EHDR && tail == img[58..64] && flags == Field(img, 48, 4) && ehsize == Field(img, 52, 2)
    requires phentsize == Phentsize(img) && phnum == Phnum(img)
    ensures img[48..64] == Sizes(flags, ehsize, phentsize, phnum, tail)
  {
    Written(img, 48, 4);
    Written(img, 52, 2);
    Written(img, 54, 2);
    Written(img, 56, 2);
    assert img[48..64] == img[48..52] + img[52..54] + img[54..56] + img[56..58] + img[58..64];
  }

  lemma FiveParts(img: seq<Byte>, id: seq<Byte>, a: seq<Byte>, b: seq<Byte>, c: seq<Byte>, sizes: seq<Byte>)
    requires |img| >= EHDR && img[..24] == id && img[24..32] == a && img[32..40] == b && img[40..48] == c
    requires img[48..64] == sizes
    ensures img[..EHDR] == id + (a + b + c) + sizes
  {
    assert img[24..48] == a + b + c;
    assert img[..EHDR] == img[..24] + img[24..48] + img[48..64];
  }

  // ---------- What a segment puts where ----------

  /** The pages from the one that holds vaddr to the one that holds the last byte. */
  predicate InSeg(s: Seg, p: nat)
  {
    s.kind == PT_LOAD && s.vaddr / PAGE_SIZE <= p < (s.vaddr + s.memsz + PAGE_SIZE - 1) / PAGE_SIZE
  }

  /** These are exactly the pages that meet the segment's memory. */
  lemma InSegIff(s: Seg, p: nat)
    requires s.kind == PT_LOAD && s.memsz > 0
    ensures InSeg(s, p) <==> p * PAGE_SIZE < s.vaddr + s.memsz && s.vaddr < p * PAGE_SIZE + PAGE_SIZE
  {
  }

  /** The segment's file part lies in the image and in its memory, which lies in the user half; the
      page that holds its start has a place in the file. */
  predicate Sound(img: seq<Byte>, s: Seg)
  {
    s.kind == PT_LOAD ==>
      && s.offset + s.filesz <= |img| && s.filesz <= s.memsz
      && s.vaddr + s.memsz <= USER_TOP && s.vaddr % PAGE_SIZE <= s.offset
  }

  /** Byte j of the segment in the file. */
  function FileByte(img: seq<Byte>, s: Seg, j: nat): Byte
    requires Sound(img, s) && s.kind == PT_LOAD && j < s.filesz
  {
    img[s.offset + j]
  }

  /** The byte that the loader leaves at address x of a page of the segment: pages that start before
      vaddr get no file bytes. */
  function Left(img: seq<Byte>, s: Seg, x: nat): Byte
    requires Sound(img, s) && s.kind == PT_LOAD
  {
    if s.vaddr <= x / PAGE_SIZE * PAGE_SIZE && x < s.vaddr + s.filesz then
      InPage(s.vaddr, x);
      FileByte(img, s, x - s.vaddr)
    else 0
  }

  lemma InPage(v: nat, x: nat)
    ensures x / PAGE_SIZE * PAGE_SIZE <= x < x / PAGE_SIZE * PAGE_SIZE + PAGE_SIZE
  {
  }

  /** The byte that program header semantics put there: file bytes, then zeros. */
  function Meant(img: seq<Byte>, s: Seg, x: nat): Byte
    requires Sound(img, s) && s.kind == PT_LOAD
  {
    if s.vaddr <= x < s.vaddr + s.filesz then FileByte(img, s, x - s.vaddr) else 0
  }

  function PageOf(img: seq<Byte>, s: Seg, p: nat): (t: seq<Byte>)
    requires Sound(img, s) && s.kind == PT_LOAD
    ensures |t| == PAGE_SIZE
  {
    seq<Byte>(PAGE_SIZE, k requires 0 <= k < PAGE_SIZE => Left(img, s, p * PAGE_SIZE + k))
  }

  lemma PageOfAt(img: seq<Byte>, s: Seg, x: nat)
    requires Sound(img, s) && s.kind == PT_LOAD
    ensures PageOf(img, s, x / PAGE_SIZE)[x % PAGE_SIZE] == Left(img, s, x)
  {
    assert x / PAGE_SIZE * PAGE_SIZE + x % PAGE_SIZE == x;
  }

  /** A segment that starts on a page boundary is laid out as meant. */
  lemma AlignedAsMeant(img: seq<Byte>, s: Seg, x: nat)
    requires Sound(img, s) && s.kind == PT_LOAD && s.vaddr % PAGE_SIZE == 0
    ensures Left(img, s, x) == Meant(img, s, x)
  {
    var q, v := x / PAGE_SIZE, s.vaddr / PAGE_SIZE;
    assert x == q * PAGE_SIZE + x % PAGE_SIZE && s.vaddr == v * PAGE_SIZE;
    assert s.vaddr <= x ==> v <= q;
  }

  /** The file bytes that fall before the first page boundary. */
  ghost predicate HeadIsZero(img: seq<Byte>, s: Seg)
    requires Sound(img, s) && s.kind == PT_LOAD
  {
    || s.vaddr % PAGE_SIZE == 0
    || forall j: nat :: j < s.filesz && s.vaddr % PAGE_SIZE + j < PAGE_SIZE ==> FileByte(img, s, j) == 0
  }

  /** In general it is laid out as meant exactly when it is aligned or no file byte but zero falls
      before the first page boundary. */
  lemma AsMeantIff(img: seq<Byte>, s: Seg)
    requires Sound(img, s) && s.kind == PT_LOAD
    ensures (forall x: nat :: Left(img, s, x) == Meant(img, s, x)) <==> HeadIsZero(img, s)
  {
    if s.vaddr % PAGE_SIZE == 0 {
      forall x: nat ensures Left(img, s, x) == Meant(img, s, x) { AlignedAsMeant(img, s, x); }
    } else {
      if HeadIsZero(img, s) {
        forall x: nat ensures Left(img, s, x) == Meant(img, s, x) { UnalignedAt(img, s, x); }
      }
      if forall x: nat :: Left(img, s, x) == Meant(img, s, x) {
        forall j: nat | j < s.filesz && s.vaddr % PAGE_SIZE + j < PAGE_SIZE ensures FileByte(img, s, j) == 0 {
          assert Left(img, s, s.vaddr + j) == Meant(img, s, s.vaddr + j);
          HeadAt(img, s, j);
        }
      }
    }
  }

  /** One byte at address 1: the loader leaves zero there. */
  lemma UnalignedByteIsLost()
    ensures var img, s := [0, 7], Seg(PT_LOAD, 1, 1, 1, 1);
            Sound(img, s) && Meant(img, s, 1) == 7 && Left(img, s, 1) == 0
  {
  }

  lemma UnalignedAt(img: seq<Byte>, s: Seg, x: nat)
    requires Sound(img, s) && s.kind == PT_LOAD && HeadIsZero(img, s) && s.vaddr % PAGE_SIZE != 0
    ensures Left(img, s, x) == Meant(img, s, x)
  {
    var q, v := x / PAGE_SIZE, s.vaddr / PAGE_SIZE;
    assert x == q * PAGE_SIZE + x % PAGE_SIZE && s.vaddr == v * PAGE_SIZE + s.vaddr % PAGE_SIZE;
    if s.vaddr <= x < s.vaddr + s.filesz && q * PAGE_SIZE < s.vaddr {
      var j := x - s.vaddr;
      assert q <= v;
      assert s.vaddr % PAGE_SIZE + j < PAGE_SIZE;
      assert FileByte(img, s, j) == 0;
    }
  }

  lemma HeadAt(img: seq<Byte>, s: Seg, j: nat)
    requires Sound(img, s) && s.kind == PT_LOAD && s.vaddr % PAGE_SIZE != 0 && j < s.filesz
    requires s.vaddr % PAGE_SIZE + j < PAGE_SIZE
    requires Left(img, s, s.vaddr + j) == Meant(img, s, s.vaddr + j)
    ensures FileByte(img, s, j) == 0
  {
    var v := s.vaddr / PAGE_SIZE;
    assert s.vaddr == v * PAGE_SIZE + s.vaddr % PAGE_SIZE;
    assert (s.vaddr + j) / PAGE_SIZE == v;
  }

  // ---------- The loader ----------

  /** elf_load returns the entry point, or 0 for a refused image or when no page is left; vmm_map
      panics on a page that is mapped already, or when no page is left for a table. */
  datatype Outcome = Loaded(entry: nat) | Refused | NoMemory | NoTable | Panic

  /** The first n segments. */
  ghost function Segs(img: seq<Byte>, n: nat): (s: seq<Seg>)
    requires |img| >= EHDR && Plain(img) && n <= Phnum(img)
    ensures |s| == n && forall i :: 0 <= i < n ==> s[i] == SegAt(img, i)
  {
    seq(n, i requires 0 <= i < n => SegAt(img, i))
  }

  ghost predicate AllSound(img: seq<Byte>, segs: seq<Seg>)
  {
    forall i :: 0 <= i < |segs| ==> Sound(img, segs[i])
  }

  /** One of the segments holds page p. */
  ghost predicate Holds(segs: seq<Seg>, p: nat)
  {
    exists i :: 0 <= i < |segs| && InSeg(segs[i], p)
  }

  /** The segment wants a page that is mapped already, or that an earlier one holds. */
  ghost predicate Contested(s: Seg, earlier: seq<Seg>, before: map<nat, Cell>)
  {
    exists p: nat :: InSeg(s, p) && (p in before || Holds(earlier, p))
  }

  ghost predicate Clash(segs: seq<Seg>, before: map<nat, Cell>)
  {
    exists i :: 0 <= i < |segs| && Contested(segs[i], segs[..i], before)
  }

  /** No segment before n wants such a page. */
  ghost predicate NoneContested(segs: seq<Seg>, n: nat, before: map<nat, Cell>)
    requires n <= |segs|
  {
    forall i :: 0 <= i < n ==> !Contested(segs[i], segs[..i], before)
  }

  /** The segments are in place, and nothing else has changed. */
  ghost predicate InPlace(img: seq<Byte>, segs: seq<Seg>, before: map<nat, Cell>, after: map<nat, Cell>)
    requires AllSound(img, segs)
  {
    && (forall p: nat :: p in after <==> p in before || Holds(segs, p))
    && (forall p :: p in before ==> p in after && after[p] == before[p])
    && (forall i :: 0 <= i < |segs| ==> SegInPlace(img, segs[i], after))
  }

  /** The same for the first n segments; folded, OpenPlaced unfolds it. */
  ghost predicate Placed(img: seq<Byte>, segs: seq<Seg>, n: nat, before: map<nat, Cell>, after: map<nat, Cell>)
  {
    forall m {:trigger Is(m, after)} ::
      Is(m, after) ==>
        n <= |segs| && AllSound(img, segs) && InPlace(img, segs[..n], before, m) && NoneContested(segs, n, before)
  }

  lemma OpenPlaced(img: seq<Byte>, segs: seq<Seg>, n: nat, before: map<nat, Cell>, after: map<nat, Cell>)
    requires Placed(img, segs, n, before, after)
    ensures n <= |segs| && AllSound(img, segs) && InPlace(img, segs[..n], before, after)
    ensures NoneContested(segs, n, before)
  {
    assert Is(after, after);
  }

  lemma AllPlaced(img: seq<Byte>, segs: seq<Seg>, before: map<nat, Cell>, after: map<nat, Cell>)
    requires Placed(img, segs, |segs|, before, after)
    ensures AllSound(img, segs) && InPlace(img, segs, before, after) && !Clash(segs, before)
  {
    OpenPlaced(img, segs, |segs|, before, after);
    assert segs[..|segs|] == segs;
  }

  /** An entry for a user page that may be read, written and executed. */
  function UserWord(f: nat): Word { Word(true, true, true, false, false, false, f, 0, 0) }

  /** The page is writable for the user and has the bytes of page p of the segment. */
  predicate PageInPlace(img: seq<Byte>, s: Seg, p: nat, c: Cell)
    requires Sound(img, s) && s.kind == PT_LOAD
  {
    c.leaf.Mapped? && c.leaf == Mapped(UserWord(c.leaf.entry.frame), 0) && c.bytes == PageOf(img, s, p)
  }

  ghost predicate SegInPlace(img: seq<Byte>, s: Seg, after: map<nat, Cell>)
    requires Sound(img, s)
  {
    forall p: nat :: InSeg(s, p) ==> p in after && PageInPlace(img, s, p, after[p])
  }

  /** The pages below page `to` of the segment are in place. */
  ghost predicate PartInPlace(img: seq<Byte>, s: Seg, to: nat, before: map<nat, Cell>, after: map<nat, Cell>)
    requires Sound(img, s)
  {
    && (forall p: nat :: p in after <==> p in before || (InSeg(s, p) && p < to))
    && (forall p :: p in before ==> p in after && after[p] == before[p])
    && (forall p: nat :: InSeg(s, p) && p < to ==> p !in before && p in after && PageInPlace(img, s, p, after[p]))
  }

  /** The checks of elf_load, in order. */
  method CheckHeader(img: seq<Byte>) returns (ok: bool)
    ensures ok <==> Accepts(img)
  {
    if |img| < EHDR { return false; }
    if img[..4] != [0x7F, 0x45, 0x4C, 0x46] || img[4] != 2 || Field(img, 18, 2) != 0x3E { return false; }
    if Phnum(img) == 0 || Phentsize(img) < PHDR { return false; }
    return (Phoff(img) + Phnum(img) * Phentsize(img)) % TOP <= |img|;
  }

  /** The pages of the space that the loader fills. */
  ghost function Current(v: V.Vmm): map<nat, Cell>
    reads v, v.pmm
  {
    Mem(v.S(), v.pml4)
  }

  ghost predicate Ready(v: V.Vmm)
    reads v, v.pmm, v.pmm.bitmap
  {
    v.Valid() && Orderly(v.S())
  }

  /** The loader has worked on v since x: memory management is in order, counts are as exact as they
      were, and nothing has changed outside the user half of the current space. */
  ghost predicate Since(x: St, v: V.Vmm)
    reads v, v.pmm, v.pmm.bitmap
  {
    Ready(v) && Filling(x, v.S(), v.pml4)
  }

  /** pmm_alloc, memset and vmm_map for the page at va. */
  method MapZeroed(v: V.Vmm, va: nat) returns (r: Outcome, pg: nat, ghost z: St, ghost pt: nat)
    requires Ready(v) && va % PAGE_SIZE == 0 && va < USER_TOP
    modifies v`phys, v`own, v.pmm, v.pmm.bitmap
    ensures r == NoMemory <==> old(v.pmm.free) == {}
    ensures r == Panic <==> old(v.pmm.free) != {} && va / PAGE_SIZE in old(Current(v))
    ensures r == NoMemory || r == NoTable ==> v.pmm.free == {}
    ensures r != Refused
    ensures r == NoMemory ==> Ready(v) && v.S() == old(v.S())
    ensures r.Loaded? ==> v.Valid() && pg in old(v.pmm.free) && pg < |old(v.phys)| && UserVa(va)
    ensures r.Loaded? ==> MappedFresh(SetPage(old(v.S()), pg, ZeroPage()), v.S(), v.pml4, va, UserWord(pg), z, pt)
  {
    z, pt := v.S(), 0;
    pg := v.pmm.Alloc();
    if pg == 0 { return NoMemory, 0, z, pt; }
    OpenOrderly(old(v.S()));
    ZeroedInv(old(v.S()), pg, v.pml4, va);
    v.phys := v.phys[pg := ZeroPage()];
    var m;
    m, z, pt := v.Map(va, pg, UserWord(0));
    match m
    case MapOk => r := Loaded(0);
    case OutOfMemory => r := NoTable;
    case Remap => r := Panic;
    case UnderLarge => r := Panic;
  }

  /** The allocated and cleared page: still in order, and the page at va is mapped or not as before. */
  lemma ZeroedInv(x: St, pg: nat, r: nat, va: nat)
    requires Inv(x) && pg in x.free && Spaces.IsRoot(x, r) && va % PAGE_SIZE == 0 && va < USER_TOP
    ensures pg < |x.m| && Inv(Taken(SetPage(x, pg, ZeroPage()), pg)) && UserVa(va)
    ensures Walk(SetPage(x, pg, ZeroPage()).m, r, 3, va).Mapped? <==> va / PAGE_SIZE in Mem(x, r)
  {
    var x0 := SetPage(x, pg, ZeroPage());
    DataWrittenKeeps(x, x0);
    TakenKeeps(x0, pg);
    SetPageWalk(x, pg, ZeroPage(), r, va);
    UserPagesDiffer(va / PAGE_SIZE, va / PAGE_SIZE);
    assert va / PAGE_SIZE * PAGE_SIZE == va;
  }

  /** The inner loop's body: a fresh page at va, and the part of the file that covers it. The copy
      goes through the mapping, as the processor translates va. */
  method LoadPage(v: V.Vmm, img: seq<Byte>, s: Seg, va: nat) returns (r: Outcome)
    requires Ready(v) && |img| < TOP && s.kind == PT_LOAD && Sound(img, s)
    requires va % PAGE_SIZE == 0 && s.vaddr < va + PAGE_SIZE && va < USER_TOP
    modifies v`phys, v`own, v.pmm, v.pmm.bitmap
    ensures r == NoMemory <==> old(v.pmm.free) == {}
    ensures r == Panic <==> old(v.pmm.free) != {} && va / PAGE_SIZE in old(Current(v))
    ensures r == NoMemory || r == NoTable ==> v.pmm.free == {}
    ensures r != Refused
    ensures r == NoMemory ==> Ready(v) && v.S() == old(v.S())
    ensures r.Loaded? ==> Since(old(v.S()), v) && va / PAGE_SIZE !in old(Current(v)) && va / PAGE_SIZE in Current(v)
    ensures r.Loaded? ==> Current(v) == old(Current(v))[va / PAGE_SIZE := Current(v)[va / PAGE_SIZE]]
    ensures r.Loaded? ==> PageInPlace(img, s, va / PAGE_SIZE, Current(v)[va / PAGE_SIZE])
  {
    ghost var x := v.S();
    var pg;
    ghost var z, pt;
    r, pg, z, pt := MapZeroed(v, va);
    if !r.Loaded? { return; }
    ghost var y1 := v.S();
    OpenOrderly(x);
    Mapped0(x, y1, v.pml4, va, pg, z, pt);
    CopyFile(v, img, s, va, pg);
    FilledPage(x, v.S(), v.pml4, va, pg, y1, z, pt);
    FillingBase(x, v.S(), v.pml4);
  }

  /** memcpy of the file part that covers the page at va, which is still clear. */
  method CopyFile(v: V.Vmm, img: seq<Byte>, s: Seg, va: nat, ghost pg: nat)
    requires |img| < TOP && s.kind == PT_LOAD && Sound(img, s) && va % PAGE_SIZE == 0 && s.vaddr < va + PAGE_SIZE
    requires va < USER_TOP
    requires Walk(v.phys, v.pml4, 3, va) == Mapped(UserWord(pg), 0) && pg < |v.phys| && v.phys[pg] == ZeroPage()
    modifies v`phys
    ensures pg < |v.phys| && v.phys == old(v.phys)[pg := v.phys[pg]]
    ensures PageBytes(v.phys[pg]) == PageOf(img, s, va / PAGE_SIZE)
  {
    // offset + (va - vaddr) in 64 bits
    var fileOff := (s.offset + va + TOP - s.vaddr) % TOP;
    FileOff(img, s, va, fileOff);
    if fileOff >= s.offset && va < s.vaddr + s.filesz {
      var copy := s.vaddr + s.filesz - va;
      if copy > PAGE_SIZE { copy := PAGE_SIZE; }
      if fileOff + copy > |img| { copy := |img| - fileOff; }
      var to := Walk(v.phys, v.pml4, 3, va).entry.frame;
      ZeroBytes();
      var bytes := img[fileOff..fileOff + copy] + PageBytes(v.phys[to])[copy..];
      CopiedPage(img, s, va, copy, bytes);
      PageRoundTrip(bytes);
      v.phys := v.phys[to := PageFrom(bytes)];
    } else {
      BlankPage(img, s, va);
    }
  }

  /** What the processor finds at va: the page just cleared. */
  lemma Mapped0(x: St, y: St, root: nat, va: nat, pg: nat, z: St, pt: nat)
    requires Inv(x) && pg in x.free && pg < |x.m| && Base(y)
    requires MappedFresh(SetPage(x, pg, ZeroPage()), y, root, va, UserWord(pg), z, pt)
    ensures Walk(y.m, root, 3, va) == Mapped(UserWord(pg), 0) && pg < |y.m| && y.m[pg] == ZeroPage() && pg !in y.own
  {
    var x1 := Taken(SetPage(x, pg, ZeroPage()), pg);
    Maps.MapWalks(x1, y, root, va, UserWord(pg), z, pt, root, va);
    assert Maps.Extended(x1, z);
    assert pg !in z.own && z.m[pg] == x1.m[pg];
  }

  /** Filling it with any content adds the page to the space. */
  lemma FilledPage(x: St, y: St, root: nat, va: nat, pg: nat, y1: St, z: St, pt: nat)
    requires Inv(x) && pg in x.free && pg < |x.m| && va % PAGE_SIZE == 0 && va < USER_TOP
    requires MappedFresh(SetPage(x, pg, ZeroPage()), y1, root, va, UserWord(pg), z, pt)
    requires Base(y1) && pg < |y1.m| && pg < |y.m| && y == SetPage(y1, pg, y.m[pg])
    ensures Filling(x, y, root) && va / PAGE_SIZE < USER_PAGES
    ensures Mem(y, root) == Mem(x, root)[va / PAGE_SIZE := Cell(Mapped(UserWord(pg), 0), PageBytes(y.m[pg]))]
  {
    var p, page := va / PAGE_SIZE, y.m[pg];
    assert p * PAGE_SIZE == va;
    assert Filled(x, y, root, p, UserWord(pg), page, y1, z, pt);
    FilledInv(x, y, root, p, UserWord(pg), page, y1, z, pt);
    FilledMem(x, y, root, p, UserWord(pg), page, y1, z, pt);
    FilledBalance(x, y, root, p, UserWord(pg), page, y1, z, pt);
  }

  /** The pages of one PT_LOAD segment. */
  method LoadSegment(v: V.Vmm, img: seq<Byte>, s: Seg) returns (r: Outcome)
    requires Ready(v) && s.kind == PT_LOAD && Sound(img, s) && |img| < TOP
    modifies v`phys, v`own, v.pmm, v.pmm.bitmap
    ensures r.Loaded? || r == NoMemory ==> Since(old(v.S()), v)
    ensures r.Loaded? ==> PartInPlace(img, s, TOP, old(Current(v)), Current(v))
    ensures r == Panic ==> exists p: nat :: InSeg(s, p) && p in old(Current(v))
    ensures r == NoMemory || r == NoTable ==> v.pmm.free == {}
    ensures r != Refused
  {
    ghost var x, before := v.S(), Current(v);
    FillingSelf(x, v.pml4);
    var start := s.vaddr / PAGE_SIZE * PAGE_SIZE;
    var end := (s.vaddr + s.memsz + PAGE_SIZE - 1) / PAGE_SIZE * PAGE_SIZE;
    NothingLoaded(img, s, start, before);
    var va := start;
    while va < end
      invariant va % PAGE_SIZE == 0 && start <= va
      invariant Since(x, v) && PartInPlace(img, s, va / PAGE_SIZE, before, Current(v))
      decreases end - va
    {
      r, va := LoadNextPage(v, img, s, va, x, before);
      if !r.Loaded? { return; }
    }
    AllLoaded(img, s, va, before, Current(v));
    return Loaded(0);
  }

  lemma NothingLoaded(img: seq<Byte>, s: Seg, start: nat, before: map<nat, Cell>)
    requires Sound(img, s) && start == s.vaddr / PAGE_SIZE * PAGE_SIZE
    ensures start % PAGE_SIZE == 0 && PartInPlace(img, s, start / PAGE_SIZE, before, before)
  {
    assert start / PAGE_SIZE == s.vaddr / PAGE_SIZE;
  }

  lemma AllLoaded(img: seq<Byte>, s: Seg, va: nat, before: map<nat, Cell>, after: map<nat, Cell>)
    requires Sound(img, s) && s.kind == PT_LOAD && va % PAGE_SIZE == 0
    requires va >= (s.vaddr + s.memsz + PAGE_SIZE - 1) / PAGE_SIZE * PAGE_SIZE
    requires PartInPlace(img, s, va / PAGE_SIZE, before, after)
    ensures PartInPlace(img, s, TOP, before, after)
  {
    BehindTheSegment(s, va);
    BehindTheSegment(s, TOP);
  }

  /** One turn of that loop. */
  method LoadNextPage(v: V.Vmm, img: seq<Byte>, s: Seg, va: nat, ghost x: St, ghost before: map<nat, Cell>)
    returns (r: Outcome, next: nat)
    requires Since(x, v) && s.kind == PT_LOAD && Sound(img, s) && |img| < TOP && va % PAGE_SIZE == 0
    requires s.vaddr / PAGE_SIZE * PAGE_SIZE <= va < (s.vaddr + s.memsz + PAGE_SIZE - 1) / PAGE_SIZE * PAGE_SIZE
    requires PartInPlace(img, s, va / PAGE_SIZE, before, Current(v))
    modifies v`phys, v`own, v.pmm, v.pmm.bitmap
    ensures next == va + PAGE_SIZE && next % PAGE_SIZE == 0
    ensures r.Loaded? || r == NoMemory ==> Since(x, v)
    ensures r.Loaded? ==> PartInPlace(img, s, next / PAGE_SIZE, before, Current(v))
    ensures r == Panic ==> exists p: nat :: InSeg(s, p) && p in before
    ensures r == NoMemory || r == NoTable ==> v.pmm.free == {}
    ensures r != Refused
  {
    InTheSegment(s, va);
    next := va + PAGE_SIZE;
    ghost var y, m := v.S(), Current(v);
    r := LoadPage(v, img, s, va);
    if r.Loaded? {
      OnePageMore(img, s, va / PAGE_SIZE, before, m, Current(v));
      FillingTwice(x, y, v.S(), v.pml4);
    }
  }

  lemma OnePageMore(img: seq<Byte>, s: Seg, p: nat, before: map<nat, Cell>, m: map<nat, Cell>, after: map<nat, Cell>)
    requires Sound(img, s) && InSeg(s, p) && PartInPlace(img, s, p, before, m)
    requires p !in m && p in after && after == m[p := after[p]] && PageInPlace(img, s, p, after[p])
    ensures PartInPlace(img, s, p + 1, before, after)
  {
  }

  /** elf_load, for an image with 56-byte headers in the file. */
  method Load(v: V.Vmm, img: seq<Byte>) returns (r: Outcome)
    requires Ready(v) && |img| < TOP && (Accepts(img) ==> Plain(img) && AllSound(img, Segs(img, Phnum(img))))
    modifies v`phys, v`own, v.pmm, v.pmm.bitmap
    ensures r == Refused <==> !Accepts(img)
    ensures r == Refused ==> v.S() == old(v.S())
    ensures r.Loaded? || r == NoMemory || r == Refused ==> Since(old(v.S()), v)
    ensures r.Loaded? ==> r.entry == Field(img, 24, 8) && !Clash(Segs(img, Phnum(img)), old(Current(v)))
    ensures r.Loaded? ==> InPlace(img, Segs(img, Phnum(img)), old(Current(v)), Current(v))
    ensures r == Panic ==> Clash(Segs(img, Phnum(img)), old(Current(v)))
    ensures r == NoMemory || r == NoTable ==> v.pmm.free == {}
  {
    var ok := CheckHeader(img);
    if !ok {
      FillingSelf(v.S(), v.pml4);
      return Refused;
    }
    r := LoadAll(v, img, Segs(img, Phnum(img)));
  }

  /** The loop over the program headers. */
  method LoadAll(v: V.Vmm, img: seq<Byte>, ghost segs: seq<Seg>) returns (r: Outcome)
    requires Ready(v) && EHDR <= |img| < TOP && Plain(img) && segs == Segs(img, Phnum(img)) && AllSound(img, segs)
    modifies v`phys, v`own, v.pmm, v.pmm.bitmap
    ensures r.Loaded? || r == NoMemory ==> Since(old(v.S()), v)
    ensures r.Loaded? ==> r.entry == Field(img, 24, 8) && !Clash(segs, old(Current(v)))
    ensures r.Loaded? ==> InPlace(img, segs, old(Current(v)), Current(v))
    ensures r == Panic ==> Clash(segs, old(Current(v)))
    ensures r == NoMemory || r == NoTable ==> v.pmm.free == {}
    ensures r != Refused
  {
    ghost var x, before := v.S(), Current(v);
    FillingSelf(x, v.pml4);
    var i := 0;
    while i < Phnum(img)
      invariant i <= Phnum(img) && Since(x, v) && Placed(img, segs, i, before, Current(v))
    {
      r := LoadNext(v, img, SegAt(img, i), i, segs, x, before);
      if !r.Loaded? { return; }
      i := i + 1;
    }
    AllPlaced(img, segs, before, Current(v));
    return Loaded(Field(img, 24, 8));
  }

  /** One turn of the outer loop. */
  method LoadNext(v: V.Vmm, img: seq<Byte>, s: Seg, i: nat, ghost segs: seq<Seg>, ghost x: St,
                  ghost before: map<nat, Cell>)
    returns (r: Outcome)
    requires Since(x, v) && |img| < TOP && Sound(img, s) && i < |segs| && s == segs[i]
    requires Placed(img, segs, i, before, Current(v))
    modifies v`phys, v`own, v.pmm, v.pmm.bitmap
    ensures r.Loaded? || r == NoMemory ==> Since(x, v)
    ensures r.Loaded? ==> Placed(img, segs, i + 1, before, Current(v))
    ensures r == Panic ==> Contested(s, segs[..i], before)
    ensures r == NoMemory || r == NoTable ==> v.pmm.free == {}
    ensures r != Refused
  {
    ghost var y, m := v.S(), Current(v);
    OpenPlaced(img, segs, i, before, m);
    if s.kind != PT_LOAD {
      NotLoaded(img, segs, i, before, m);
      return Loaded(0);
    }
    r := LoadSegment(v, img, s);
    if r.Loaded? || r == NoMemory { FillingTwice(x, y, v.S(), v.pml4); }
    if r.Loaded? { OneMoreSegment(img, segs, i, before, m, Current(v)); }
  }

  /** A user program may read, write and execute at address a, by every entry of the walk, and b is the
      byte there. */
  predicate Holding(y: St, root: nat, a: nat, b: Byte)
  {
    var l := Walk(y.m, root, 3, a);
    && Access(y.m, root, a) == ALL && l.Mapped? && l.level == 0 && l.entry.frame < |y.m|
    && PageBytes(y.m[l.entry.frame])[a % PAGE_SIZE] == b
  }

  /** From the segment's start to the end of its last page. */
  predicate InPages(s: Seg, a: nat)
  {
    s.vaddr <= a < (s.vaddr + s.memsz + PAGE_SIZE - 1) / PAGE_SIZE * PAGE_SIZE
  }

  /** Every byte of the pages of an aligned segment, read at its address after a successful load: the
      file's bytes, then zeros to the end of the last page, in memory that the user may read, write and
      execute if the tables above grant all that. */
  lemma SegmentBytes(img: seq<Byte>, s: Seg, y: St, root: nat, a: nat)
    requires Sound(img, s) && SegInPlace(img, s, Mem(y, root)) && s.vaddr % PAGE_SIZE == 0
    requires s.kind == PT_LOAD && InPages(s, a) && Above(y.m, root, 3, a) == ALL
    ensures Holding(y, root, a, if a < s.vaddr + s.filesz then img[s.offset + (a - s.vaddr)] else 0)
  {
    AddressInSeg(s, a);
    AlignedByte(img, s, a);
    ReadAt(y, root, a);
  }

  /** The same for all addresses of its pages. */
  ghost predicate SegmentHeld(img: seq<Byte>, s: Seg, y: St, root: nat)
    requires Sound(img, s) && s.kind == PT_LOAD
  {
    forall a: nat :: InPages(s, a) ==> Holding(y, root, a, Meant(img, s, a))
  }

  /** Every aligned segment is there, in a space whose tables grant everything. */
  ghost predicate Runnable(img: seq<Byte>, segs: seq<Seg>, y: St, root: nat)
    requires AllSound(img, segs)
  {
    forall i :: 0 <= i < |segs| && segs[i].kind == PT_LOAD && segs[i].vaddr % PAGE_SIZE == 0 ==>
      SegmentHeld(img, segs[i], y, root)
  }

  lemma AllRunnable(img: seq<Byte>, segs: seq<Seg>, before: map<nat, Cell>, y: St, root: nat)
    requires AllSound(img, segs) && InPlace(img, segs, before, Mem(y, root))
    requires forall a: nat :: UserVa(a) ==> Above(y.m, root, 3, a) == ALL
    ensures Runnable(img, segs, y, root)
  {
    forall i | 0 <= i < |segs| && segs[i].kind == PT_LOAD && segs[i].vaddr % PAGE_SIZE == 0
      ensures SegmentHeld(img, segs[i], y, root)
    {
      var s := segs[i];
      forall a: nat | InPages(s, a) ensures Holding(y, root, a, Meant(img, s, a)) {
        BelowUserTop(img, s, a);
        SegmentBytes(img, s, y, root, a);
      }
    }
  }

  lemma BelowUserTop(img: seq<Byte>, s: Seg, a: nat)
    requires Sound(img, s) && s.kind == PT_LOAD && InPages(s, a)
    ensures a < USER_TOP && UserVa(a)
  {
    assert a / PAGE_SIZE < USER_PAGES;
    V.PageBase(a);
  }

  lemma AddressInSeg(s: Seg, a: nat)
    requires s.kind == PT_LOAD && InPages(s, a)
    ensures InSeg(s, a / PAGE_SIZE)
  {
  }

  lemma AlignedByte(img: seq<Byte>, s: Seg, a: nat)
    requires Sound(img, s) && s.vaddr % PAGE_SIZE == 0 && InSeg(s, a / PAGE_SIZE)
    ensures s.vaddr <= a
    ensures PageOf(img, s, a / PAGE_SIZE)[a % PAGE_SIZE] ==
            if a < s.vaddr + s.filesz then img[s.offset + (a - s.vaddr)] else 0
  {
    assert s.vaddr == s.vaddr / PAGE_SIZE * PAGE_SIZE;
    PageOfAt(img, s, a);
    AlignedAsMeant(img, s, a);
  }

  /** Reading at an address, by the page that holds it. */
  lemma ReadAt(y: St, root: nat, a: nat)
    requires a / PAGE_SIZE in Mem(y, root) && Above(y.m, root, 3, a) == ALL
    ensures var c := Mem(y, root)[a / PAGE_SIZE];
            c.leaf.Mapped? && Past(c.leaf.entry, ALL) == ALL && |c.bytes| == PAGE_SIZE ==>
              Holding(y, root, a, c.bytes[a % PAGE_SIZE])
  {
    V.PageBase(a);
    V.WalkOfBase(y.m, root, 3, a / PAGE_SIZE * PAGE_SIZE, a);
  }

  lemma InTheSegment(s: Seg, va: nat)
    requires s.kind == PT_LOAD && va % PAGE_SIZE == 0
    requires s.vaddr / PAGE_SIZE * PAGE_SIZE <= va < (s.vaddr + s.memsz + PAGE_SIZE - 1) / PAGE_SIZE * PAGE_SIZE
    ensures InSeg(s, va / PAGE_SIZE) && s.vaddr < va + PAGE_SIZE && va < s.vaddr + s.memsz + PAGE_SIZE
    ensures (va + PAGE_SIZE) / PAGE_SIZE == va / PAGE_SIZE + 1 && (va + PAGE_SIZE) % PAGE_SIZE == 0
  {
    assert va == va / PAGE_SIZE * PAGE_SIZE;
  }

  lemma BehindTheSegment(s: Seg, va: nat)
    requires va % PAGE_SIZE == 0 && va >= (s.vaddr + s.memsz + PAGE_SIZE - 1) / PAGE_SIZE * PAGE_SIZE
    ensures forall p: nat :: InSeg(s, p) ==> p < va / PAGE_SIZE
  {
    assert va == va / PAGE_SIZE * PAGE_SIZE;
  }

  lemma HoldsNext(segs: seq<Seg>, n: nat)
    requires n < |segs|
    ensures forall p: nat :: Holds(segs[..n + 1], p) <==> Holds(segs[..n], p) || InSeg(segs[n], p)
  {
    forall p: nat ensures Holds(segs[..n + 1], p) <==> Holds(segs[..n], p) || InSeg(segs[n], p) {
      if InSeg(segs[n], p) { assert segs[..n + 1][n] == segs[n]; }
      if j :| 0 <= j < n && InSeg(segs[..n][j], p) { assert segs[..n + 1][j] == segs[..n][j]; }
    }
  }

  /** A segment that is not loaded changes nothing. */
  lemma NotLoaded(img: seq<Byte>, segs: seq<Seg>, n: nat, before: map<nat, Cell>, m: map<nat, Cell>)
    requires AllSound(img, segs) && n < |segs| && segs[n].kind != PT_LOAD && InPlace(img, segs[..n], before, m)
    requires NoneContested(segs, n, before)
    ensures Placed(img, segs, n + 1, before, m)
  {
    NotLoadedInPlace(img, segs, n, before, m);
    assert !Contested(segs[n], segs[..n], before);
    NextUncontested(segs, n, before);
  }

  lemma NotLoadedInPlace(img: seq<Byte>, segs: seq<Seg>, n: nat, before: map<nat, Cell>, m: map<nat, Cell>)
    requires AllSound(img, segs) && n < |segs| && segs[n].kind != PT_LOAD && InPlace(img, segs[..n], before, m)
    ensures InPlace(img, segs[..n + 1], before, m)
  {
    HoldsNext(segs, n);
    var first := segs[..n + 1];
    forall j | 0 <= j < |first| ensures SegInPlace(img, first[j], m) {
      if j < n { assert first[j] == segs[..n][j]; }
    }
  }

  lemma NextUncontested(segs: seq<Seg>, n: nat, before: map<nat, Cell>)
    requires n < |segs| && NoneContested(segs, n, before) && !Contested(segs[n], segs[..n], before)
    ensures NoneContested(segs, n + 1, before)
  {
  }

  lemma OneMoreSegment(img: seq<Byte>, segs: seq<Seg>, n: nat, before: map<nat, Cell>, m: map<nat, Cell>,
                       after: map<nat, Cell>)
    requires AllSound(img, segs) && n < |segs| && InPlace(img, segs[..n], before, m) && NoneContested(segs, n, before)
    requires segs[n].kind == PT_LOAD && PartInPlace(img, segs[n], TOP, m, after)
    ensures Placed(img, segs, n + 1, before, after)
  {
    OneMoreInPlace(img, segs, n, before, m, after);
    WasUncontested(img, segs, n, before, m, after);
    NextUncontested(segs, n, before);
  }

  lemma WasUncontested(img: seq<Byte>, segs: seq<Seg>, n: nat, before: map<nat, Cell>, m: map<nat, Cell>,
                       after: map<nat, Cell>)
    requires AllSound(img, segs) && n < |segs| && InPlace(img, segs[..n], before, m)
    requires segs[n].kind == PT_LOAD && PartInPlace(img, segs[n], TOP, m, after)
    ensures !Contested(segs[n], segs[..n], before)
  {
    BehindTheSegment(segs[n], TOP);
    forall p: nat | InSeg(segs[n], p) ensures p !in before && !Holds(segs[..n], p) {
      assert p !in m;
    }
  }

  lemma OneMoreInPlace(img: seq<Byte>, segs: seq<Seg>, n: nat, before: map<nat, Cell>, m: map<nat, Cell>,
                       after: map<nat, Cell>)
    requires AllSound(img, segs) && n < |segs| && InPlace(img, segs[..n], before, m)
    requires segs[n].kind == PT_LOAD && PartInPlace(img, segs[n], TOP, m, after)
    ensures InPlace(img, segs[..n + 1], before, after)
  {
    BehindTheSegment(segs[n], TOP);
    PartKeeps(img, segs[n], before, m, after);
    var first := segs[..n + 1];
    forall j | 0 <= j < |first| ensures SegInPlace(img, first[j], after) {
      if j < n { StillInPlace(img, segs[..n][j], m, after); }
    }
    HoldsNext(segs, n);
  }

  lemma PartKeeps(img: seq<Byte>, s: Seg, before: map<nat, Cell>, m: map<nat, Cell>, after: map<nat, Cell>)
    requires Sound(img, s) && PartInPlace(img, s, TOP, m, after) && (forall p: nat :: InSeg(s, p) ==> p < TOP)
    requires forall p :: p in before ==> p in m && m[p] == before[p]
    ensures forall p: nat :: p in after <==> p in m || InSeg(s, p)
    ensures forall p :: p in before ==> p in after && after[p] == before[p]
    ensures forall p :: p in m ==> p in after && after[p] == m[p]
  {
  }

  lemma StillInPlace(img: seq<Byte>, s: Seg, m: map<nat, Cell>, after: map<nat, Cell>)
    requires Sound(img, s) && SegInPlace(img, s, m) && forall p :: p in m ==> p in after && after[p] == m[p]
    ensures SegInPlace(img, s, after)
  {
  }

  /** The guard of the copy holds exactly for pages that start in the file part. */
  lemma FileOff(img: seq<Byte>, s: Seg, va: nat, fileOff: nat)
    requires Sound(img, s) && s.kind == PT_LOAD && |img| < TOP && s.vaddr < va + PAGE_SIZE && va % PAGE_SIZE == 0
    requires va < TOP
    requires fileOff == (s.offset + va + TOP - s.vaddr) % TOP
    ensures fileOff >= s.offset && va < s.vaddr + s.filesz <==> s.vaddr <= va < s.vaddr + s.filesz
    ensures s.vaddr <= va < s.vaddr + s.filesz ==> fileOff == s.offset + (va - s.vaddr)
  {
    if va < s.vaddr {
      assert s.vaddr - va == s.vaddr % PAGE_SIZE;
      assert fileOff == s.offset + va - s.vaddr;
    } else if s.offset + (va - s.vaddr) < TOP {
      assert fileOff == s.offset + (va - s.vaddr);
    } else {
      assert fileOff == s.offset + (va - s.vaddr) - TOP;
    }
  }

  lemma CopiedPage(img: seq<Byte>, s: Seg, va: nat, copy: nat, page: seq<Byte>)
    requires Sound(img, s) && s.kind == PT_LOAD && va % PAGE_SIZE == 0 && s.vaddr <= va < s.vaddr + s.filesz
    requires copy == (if s.vaddr + s.filesz - va > PAGE_SIZE then PAGE_SIZE else s.vaddr + s.filesz - va)
    requires |page| == PAGE_SIZE
    requires forall k :: 0 <= k < PAGE_SIZE ==> page[k] == if k < copy then img[s.offset + (va - s.vaddr) + k] else 0
    ensures page == PageOf(img, s, va / PAGE_SIZE)
  {
    forall k | 0 <= k < PAGE_SIZE ensures page[k] == PageOf(img, s, va / PAGE_SIZE)[k] {
      AtOffset(va, k);
    }
  }

  lemma BlankPage(img: seq<Byte>, s: Seg, va: nat)
    requires Sound(img, s) && s.kind == PT_LOAD && va % PAGE_SIZE == 0 && !(s.vaddr <= va < s.vaddr + s.filesz)
    ensures PageBytes(ZeroPage()) == PageOf(img, s, va / PAGE_SIZE)
  {
    forall k | 0 <= k < PAGE_SIZE ensures PageOf(img, s, va / PAGE_SIZE)[k] == 0 {
      AtOffset(va, k);
    }
    ZeroBytes();
    BothZero(PageBytes(ZeroPage()), PageOf(img, s, va / PAGE_SIZE));
  }

  lemma BothZero(s: seq<Byte>, t: seq<Byte>)
    requires |s| == |t| && (forall k :: 0 <= k < |s| ==> s[k] == 0) && forall k :: 0 <= k < |t| ==> t[k] == 0
    ensures s == t
  {
  }

  lemma AtOffset(va: nat, k: nat)
    requires va % PAGE_SIZE == 0 && k < PAGE_SIZE
    ensures va / PAGE_SIZE * PAGE_SIZE + k == va + k && (va + k) / PAGE_SIZE * PAGE_SIZE == va
  {
  }
}
