/** The one-block write-back cache of the installer and its logged writes
    (boot/limine/limine-install.c:223-312 and 445-574), for runs in which reads, writes and seeks
    within the whole blocks of the device succeed. */
module BlockCache {
  import opened Bytes
  import opened UndoLog

  /** (uint64_t)-1: no block is cached. */
  const NO_BLOCK: nat := 0xFFFF_FFFF_FFFF_FFFF

  /** Block b of size bs lies in a device of len bytes. */
  predicate BlockIn(b: nat, bs: nat, len: nat) { b * bs + bs <= len }

  lemma BlockOf(x: nat, bs: nat)
    requires bs > 0
    ensures x / bs * bs + x % bs == x && 0 <= x % bs < bs
  {
  }

  /** The last byte of a range lies in the block of its first byte or in a later one. */
  lemma BlockInRange(x: nat, bs: nat, len: nat)
    requires bs > 0 && x < len / bs * bs
    ensures BlockIn(x / bs, bs, len)
  {
    BlockOf(x, bs);
    BlockOf(len, bs);
    if len / bs <= x / bs {
      BlocksInOrder(len / bs, x / bs, bs);
    } else {
      BlocksInOrder(x / bs + 1, len / bs, bs);
    }
  }

  lemma BlocksInOrder(a: nat, b: nat, bs: nat)
    requires a <= b
    ensures a * bs <= b * bs
  {
  }

  /** The bytes before `end` lie in whole blocks of the device. */
  predicate InWhole(end: nat, bs: nat, len: nat)
    requires bs > 0
  {
    end <= len / bs * bs
  }

  lemma InWholeIn(end: nat, bs: nat, len: nat)
    requires bs > 0 && InWhole(end, bs, len)
    ensures end <= len
  {
    BlockOf(len, bs);
  }

  /** The block of byte x and the offset there. */
  method Locate(x: nat, bs: nat, ghost len: nat) returns (block: nat, offset: nat)
    requires bs > 0 && InWhole(x + 1, bs, len)
    ensures block * bs + offset == x && offset < bs && BlockIn(block, bs, len)
  {
    block, offset := x / bs, x % bs;
    BlockOf(x, bs);
    BlockInRange(x, bs, len);
  }

  class Device {
    /** The bytes of the device itself. */
    var disk: seq<Byte>
    /** One block; its length is the block size. */
    const cache: array<Byte>
    var cachedBlock: nat
    /** Where the cached block starts. */
    ghost var start: nat
    var dirty: bool
    var uninstalling: bool
    /** uninstall_data and its scratch copy. */
    const log: array<Entry>
    const rev: array<Entry>
    var logged: nat

    ghost predicate Valid()
      reads this, cache
    {
      && 0 < cache.Length <= |disk| && log.Length == rev.Length == MAX_ENTRIES && log != rev && logged <= MAX_ENTRIES
      && |disk| < NO_BLOCK
      && (cachedBlock == NO_BLOCK ==> !dirty)
      && (cachedBlock != NO_BLOCK ==> start == cachedBlock * cache.Length && start + cache.Length <= |disk|)
      && (cachedBlock != NO_BLOCK && !dirty ==> cache[..] == disk[start..start + cache.Length])
    }

    /** What a reader sees: the device with the dirty block over it. */
    ghost function Shown(): (d: seq<Byte>)
      requires Valid()
      reads this, cache
      ensures |d| == |disk|
    {
      if dirty then Overwrite(disk, start, cache[..]) else disk
    }

    ghost function Log(): seq<Entry>
      requires logged <= log.Length
      reads this, log
    {
      log[..logged]
    }

    /** device_init, once the block size is known: block 0 is read into the cache. */
    constructor (disk: seq<Byte>, blockSize: nat)
      requires 0 < blockSize <= |disk| < NO_BLOCK
      ensures Valid() && Shown() == disk == this.disk && cache.Length == blockSize && logged == 0 && !uninstalling
      ensures fresh(cache) && fresh(log) && fresh(rev)
    {
      this.disk := disk;
      cache := new Byte[blockSize](i requires 0 <= i < blockSize => disk[i]);
      cachedBlock, start, dirty, uninstalling, logged := 0, 0, false, false, 0;
      log := new Entry[MAX_ENTRIES](_ => Entry(0, []));
      rev := new Entry[MAX_ENTRIES](_ => Entry(0, []));
      new;
      assert cache[..] == disk[..blockSize];
    }

    /** device_flush_cache. */
    method Flush()
      requires Valid()
      modifies this`disk, this`dirty
      ensures Valid() && !dirty && disk == old(Shown()) == Shown()
    {
      if !dirty { return; }
      disk := Overwrite(disk, cachedBlock * cache.Length, cache[..]);
      dirty := false;
      assert cache[..] == disk[start..start + cache.Length];
    }

    /** device_cache_block. */
    method CacheBlock(block: nat)
      requires Valid() && BlockIn(block, cache.Length, |disk|)
      modifies this`disk, this`dirty, this`cachedBlock, this`start, cache
      ensures Valid() && cachedBlock == block != NO_BLOCK && start == block * cache.Length && Shown() == old(Shown())
      ensures (disk == old(disk) || disk == old(Shown())) && (dirty ==> old(dirty))
    {
      assert block * 1 <= block * cache.Length;
      if cachedBlock == block { return; }
      if dirty { Flush(); }
      var at := block * cache.Length;
      forall i | 0 <= i < cache.Length { cache[i] := disk[at + i]; }
      cachedBlock, start := block, at;
      assert cache[..] == disk[at..at + cache.Length];
    }

    /** The bytes of the cached block are what the device shows there. */
    ghost predicate Window()
      reads this, cache
      requires Valid()
    {
      && cachedBlock != NO_BLOCK && start + cache.Length <= |disk|
      && Shown()[start..start + cache.Length] == cache[..]
    }

    lemma CachedBytes()
      requires Valid() && cachedBlock != NO_BLOCK
      ensures Window()
    {
    }

    /** Cache the block that holds byte x; its offset there. */
    method CacheAt(x: nat) returns (offset: nat)
      requires Valid() && InWhole(x + 1, cache.Length, |disk|)
      modifies this`disk, this`dirty, this`cachedBlock, this`start, cache
      ensures Valid() && Shown() == old(Shown()) && (dirty ==> old(dirty))
      ensures disk == old(disk) || disk == old(Shown())
      ensures Window() && start + offset == x && offset < cache.Length
    {
      var block;
      block, offset := Locate(x, cache.Length, |disk|);
      CacheBlock(block);
      CachedBytes();
    }

    /** How much of a transfer stays in the block. */
    static function Chunk(offset: nat, left: nat, bs: nat): (c: nat)
      requires offset < bs && left > 0
      ensures 0 < c <= left && offset + c <= bs
      ensures c == left || offset + c == bs
    {
      if left > bs - offset then bs - offset else left
    }

    /** _device_read. */
    method Read(loc: nat, count: nat) returns (buffer: seq<Byte>)
      requires Valid() && InWhole(loc + count, cache.Length, |disk|)
      modifies this`disk, this`dirty, this`cachedBlock, this`start, cache
      ensures Valid() && Shown() == old(Shown()) && (dirty ==> old(dirty))
      ensures disk == old(disk) || disk == old(Shown())
      ensures loc + count <= |Shown()| && buffer == Shown()[loc..loc + count]
    {
      InWholeIn(loc + count, cache.Length, |disk|);
      buffer := [];
      var progress := 0;
      while progress < count
        invariant progress <= count && InWhole(loc + count, cache.Length, |disk|) && loc + count <= |disk|
        invariant Valid() && Shown() == old(Shown()) && (disk == old(disk) || disk == old(Shown()))
        invariant dirty ==> old(dirty)
        invariant buffer == Shown()[loc..loc + progress]
      {
        var offset := CacheAt(loc + progress);
        var chunk := Chunk(offset, count - progress, cache.Length);
        buffer := buffer + cache[offset..offset + chunk];
        ReadChunk(Shown(), cache[..], start, loc, progress, offset, chunk);
        progress := progress + chunk;
      }
    }

    static lemma ReadChunk(shown: seq<Byte>, cached: seq<Byte>, at: nat, loc: nat, progress: nat, offset: nat,
                           chunk: nat)
      requires at + offset == loc + progress && offset + chunk <= |cached| && loc + progress + chunk <= |shown|
      requires at + |cached| <= |shown|
      requires shown[at..at + |cached|] == cached
      ensures shown[loc..loc + progress] + cached[offset..offset + chunk] == shown[loc..loc + progress + chunk]
    {
      var part := shown[loc + progress..loc + progress + chunk];
      forall k | 0 <= k < chunk ensures part[k] == cached[offset..offset + chunk][k] {
        assert shown[at..at + |cached|][offset + k] == shown[at + (offset + k)];
      }
      assert part == cached[offset..offset + chunk];
      assert shown[loc..loc + progress] + shown[loc + progress..loc + progress + chunk] ==
        shown[loc..loc + progress + chunk];
    }

    /** memcpy into the cached block, which becomes dirty. */
    method WriteChunk(offset: nat, data: seq<Byte>)
      requires Valid() && Window() && offset + |data| <= cache.Length
      modifies this`dirty, cache
      ensures Valid() && start + offset + |data| <= |disk| && Shown() == Overwrite(old(Shown()), start + offset, data)
    {
      ghost var shown, was := Shown(), cache[..];
      CopyIn(offset, data);
      dirty := true;
      WroteChunk(disk, shown, was, start, offset, data, old(dirty));
    }

    method CopyIn(offset: nat, data: seq<Byte>)
      requires offset + |data| <= cache.Length
      modifies cache
      ensures cache[..] == Overwrite(old(cache[..]), offset, data)
    {
      ghost var was := cache[..];
      forall i | 0 <= i < |data| { cache[offset + i] := data[i]; }
      assert forall k :: 0 <= k < cache.Length ==>
        cache[k] == if offset <= k < offset + |data| then data[k - offset] else was[k];
    }

    static lemma WroteChunk(disk: seq<Byte>, shown: seq<Byte>, was: seq<Byte>, at: nat, offset: nat, data: seq<Byte>,
                            dirty: bool)
      requires at + |was| <= |disk| == |shown| && offset + |data| <= |was| && shown[at..at + |was|] == was
      requires shown == if dirty then Overwrite(disk, at, was) else disk
      ensures Overwrite(disk, at, Overwrite(was, offset, data)) == Overwrite(shown, at + offset, data)
    {
      forall x | 0 <= x < |disk|
        ensures Overwrite(disk, at, Overwrite(was, offset, data))[x] == Overwrite(shown, at + offset, data)[x]
      {
        if at <= x < at + |was| { assert shown[at..at + |was|][x - at] == shown[x]; }
      }
    }

    /** Outside lo..hi every byte of the device is the old one or the one that was shown. */
    static ghost predicate Elsewhere(d: seq<Byte>, d0: seq<Byte>, shown: seq<Byte>, lo: nat, hi: nat)
    {
      |d| == |d0| == |shown| && forall x :: 0 <= x < |d| && !(lo <= x < hi) ==> d[x] == d0[x] || d[x] == shown[x]
    }

    /** The loop of _device_write. */
    method WriteBytes(buffer: seq<Byte>, loc: nat)
      requires Valid() && InWhole(loc + |buffer|, cache.Length, |disk|)
      modifies this`disk, this`dirty, this`cachedBlock, this`start, cache
      ensures Valid() && |disk| == |old(disk)| && loc + |buffer| <= |disk|
      ensures Shown() == Overwrite(old(Shown()), loc, buffer)
      ensures Elsewhere(disk, old(disk), old(Shown()), loc, loc + |buffer|)
    {
      InWholeIn(loc + |buffer|, cache.Length, |disk|);
      ghost var shown, disk0 := Shown(), disk;
      var progress := 0;
      assert Overwrite(shown, loc, buffer[..0]) == shown;
      while progress < |buffer|
        invariant progress <= |buffer| && |disk| == |disk0|
        invariant Valid() && Shown() == Overwrite(shown, loc, buffer[..progress])
        invariant Elsewhere(disk, disk0, shown, loc, loc + |buffer|)
      {
        progress := WriteNext(buffer, loc, progress, shown, disk0);
      }
      assert buffer[..|buffer|] == buffer;
    }

    /** One turn of that loop. */
    method WriteNext(buffer: seq<Byte>, loc: nat, progress: nat, ghost shown: seq<Byte>, ghost disk0: seq<Byte>)
      returns (next: nat)
      requires Valid() && InWhole(loc + |buffer|, cache.Length, |disk|) && progress < |buffer|
      requires loc + |buffer| <= |shown|
      requires Shown() == Overwrite(shown, loc, buffer[..progress])
      requires Elsewhere(disk, disk0, shown, loc, loc + |buffer|)
      modifies this`disk, this`dirty, this`cachedBlock, this`start, cache
      ensures progress < next <= |buffer| && |disk| == |disk0|
      ensures Valid() && Shown() == Overwrite(shown, loc, buffer[..next])
      ensures Elsewhere(disk, disk0, shown, loc, loc + |buffer|)
    {
      var offset := CacheAt(loc + progress);
      var chunk := Chunk(offset, |buffer| - progress, cache.Length);
      assert Elsewhere(disk, disk0, shown, loc, loc + |buffer|);
      next := progress + chunk;
      WriteChunk(offset, buffer[progress..next]);
      OverwriteTwice(shown, loc, buffer, progress, next);
    }

    static lemma OverwriteTwice(d: seq<Byte>, loc: nat, buffer: seq<Byte>, a: nat, b: nat)
      requires a <= b <= |buffer| && loc + |buffer| <= |d|
      ensures Overwrite(Overwrite(d, loc, buffer[..a]), loc + a, buffer[a..b]) == Overwrite(d, loc, buffer[..b])
    {
    }

    /** _device_write: save what is there, unless uninstalling, then write. Fails only when the log is full. */
    method Write(buffer: seq<Byte>, loc: nat) returns (ok: bool)
      requires Valid() && InWhole(loc + |buffer|, cache.Length, |disk|)
      modifies this`disk, this`dirty, this`cachedBlock, this`start, this`logged, cache, log
      ensures Valid() && |disk| == |old(disk)| && loc + |buffer| <= |disk|
      ensures ok <==> old(uninstalling) || old(logged) < MAX_ENTRIES
      ensures !ok ==> Shown() == old(Shown()) && disk == old(disk) && Log() == old(Log())
      ensures ok ==> Shown() == Overwrite(old(Shown()), loc, buffer)
      ensures ok && old(uninstalling) ==> Log() == old(Log())
      ensures ok && !old(uninstalling) ==> Log() == old(Log()) + [Entry(loc, old(Shown())[loc..loc + |buffer|])]
      ensures Elsewhere(disk, old(disk), old(Shown()), loc, loc + |buffer|)
    {
      InWholeIn(loc + |buffer|, cache.Length, |disk|);
      if !uninstalling {
        if logged >= MAX_ENTRIES { return false; }
        var data := Read(loc, |buffer|);
        log[logged] := Entry(loc, data);
      }
      WriteBytes(buffer, loc);
      if !uninstalling { logged := logged + 1; }
      ok := true;
    }
  
    /** reverse_uninstall_data. */
    method ReverseLog()
      requires Valid()
      modifies log, rev
      ensures Valid() && Log() == Reversed(old(Log()))
    {
      var i := 0;
      while i < logged
        invariant 0 <= i <= logged
        invariant log[..] == old(log[..])
        invariant forall k :: 0 <= k < i ==> rev[logged - 1 - k] == log[k]
      {
        rev[logged - 1 - i] := log[i];
        i := i + 1;
      }
      ghost var was := log[..logged];
      assert forall k :: 0 <= k < logged ==> rev[k] == was[logged - 1 - k];
      forall k | 0 <= k < logged { log[k] := rev[k]; }
      assert Log() == Reversed(was);
    }

    /** Every entry of the log lies in whole blocks. */
    ghost predicate LogInWhole()
      reads this, log
      requires logged <= log.Length && cache.Length > 0
    {
      forall i :: 0 <= i < logged ==> InWhole(log[i].loc + |log[i].data|, cache.Length, |disk|)
    }

    /** uninstall: forget the cached block, even a dirty one, write the log back in order, and flush. */
    method Uninstall()
      requires Valid() && LogInWhole()
      modifies this`disk, this`dirty, this`cachedBlock, this`start, this`uninstalling, this`logged, cache, log
      ensures Valid() && !dirty && |disk| == |old(disk)| && AllFit(old(Log()), |old(disk)|)
      ensures disk == Replay(old(disk), old(Log()))
    {
      uninstalling, dirty, cachedBlock := true, false, NO_BLOCK;
      ghost var d, entries := disk, Log();
      var i := 0;
      while i < logged
        invariant 0 <= i <= logged == |entries| && Log() == entries && uninstalling
        invariant Valid() && |disk| == |d| && LogInWhole()
        invariant AllFit(entries[..i], |d|) && Shown() == Replay(d, entries[..i])
      {
        InWholeIn(log[i].loc + |log[i].data|, cache.Length, |disk|);
        assert log[i] == entries[i] && entries[..i + 1] == entries[..i] + [entries[i]];
        ReplayAppend(d, entries[..i], entries[i]);
        var ok := Write(log[i].data, log[i].loc);
        assert forall k :: 0 <= k < logged ==> log[k] == Log()[k] == entries[k];
        i := i + 1;
      }
      assert entries[..i] == entries;
      Flush();
    }
  
    /** The entries that load_uninstall_data has read become the log. */
    method TakeLog(entries: seq<Entry>)
      requires Valid() && |entries| <= MAX_ENTRIES
      modifies this`logged, log
      ensures Valid() && Log() == entries
    {
      forall i | 0 <= i < |entries| { log[i] := entries[i]; }
      logged := |entries|;
    }
  }
}
