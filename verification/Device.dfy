/**
 The installer's view of its target device (limine/host/limine.c): a one-block write-back cache
 over the host file, and the undo log filled by every write.
 */
module Device {
  import opened Blocks
  import opened Bytes
  import opened Crc32
  import opened UndoLog

  /** `(uint64_t)-1`: no block is cached. */
  const NO_BLOCK: nat := 0xffff_ffff_ffff_ffff
  const UNDO_MAX: nat := 256

  datatype CacheState = Clean | Dirty

  class Device {
    const blockSize: nat
    const cache: array<byte>
    var disk: seq<byte>
    var cachedBlock: nat
    var cacheState: CacheState
    var uninstalling: bool
    /** The host file's operations succeed wherever there is something to read or write. */
    const reliable: bool
    const undoData: array<Record>
    const undoRev: array<Record>
    var undoCount: nat
    /** A write was refused because the undo log was full. */
    ghost var logFull: bool
    /** How often the undo has tried to write a record back. */
    ghost var tries: nat
    /** The device content when the install began. */
    ghost const initial: seq<byte>

    /** A reliable device of whole blocks. */
    ghost predicate Dependable()
      reads `disk
    {
      reliable && blockSize > 0 && |disk| % blockSize == 0
    }

    ghost predicate CacheValid()
      reads `disk, `cachedBlock, `cacheState, cache
    {
      && blockSize >= 512 && |disk| < U64_LIMIT
      && cache.Length == blockSize
      && (cachedBlock != NO_BLOCK ==> BlockStart(cachedBlock, blockSize) + blockSize <= |disk|)
      && (cacheState == Dirty ==> cachedBlock != NO_BLOCK)
      && (cacheState == Clean && cachedBlock != NO_BLOCK ==>
            cache[..] == disk[BlockStart(cachedBlock, blockSize)..BlockStart(cachedBlock, blockSize) + blockSize])
    }

    ghost predicate Valid()
      reads this, cache
    {
      && CacheValid()
      && undoData.Length == undoRev.Length == UNDO_MAX && undoData != undoRev
      && undoCount <= UNDO_MAX
    }

    /** The byte array the cache and the device stand for together. */
    ghost function Logical(): (s: seq<byte>)
      requires CacheValid()
      reads `disk, `cachedBlock, `cacheState, cache
      ensures |s| == |disk|
    {
      if cachedBlock == NO_BLOCK then disk else Splice(disk, BlockStart(cachedBlock, blockSize), cache[..])
    }

    ghost function Log(): seq<Record>
      requires Valid()
      reads this, cache, undoData
    {
      undoData[..undoCount]
    }

    /** The install so far can be undone from the log, whatever part of it has reached the device. */
    ghost predicate UndoReady()
      requires Valid()
      reads this, cache, undoData
    {
      Undoable(initial, Log(), disk, Logical())
    }

    /** After `device_init` has read block 0. */
    constructor (content: seq<byte>, blockSize: nat, reliable: bool)
      requires blockSize in {512, 2048, 4096} && blockSize <= |content| < U64_LIMIT
      ensures Valid() && UndoReady() && !uninstalling && !logFull
      ensures this.blockSize == blockSize && this.reliable == reliable && disk == content == initial && Logical() == content && Log() == []
      ensures fresh(cache) && fresh(undoData) && fresh(undoRev)
    {
      this.blockSize, this.reliable := blockSize, reliable;
      cache := new byte[blockSize](i requires 0 <= i < blockSize => content[i]);
      disk, cachedBlock, cacheState, uninstalling := content, 0, Clean, false;
      undoData := new Record[UNDO_MAX](_ => Record(0, []));
      undoRev := new Record[UNDO_MAX](_ => Record(0, []));
      undoCount, logFull, tries := 0, false, 0;
      initial := content;
      new;
      assert cache[..] == content[..blockSize];
    }

    // ---- The host file ---------------------------------------------------------------------

    /** `fread` of one block: any failure may leave part of a block behind. */
    method ReadBlock(block: nat) returns (ok: bool)
      requires cache.Length == blockSize
      modifies cache
      ensures ok ==> BlockStart(block, blockSize) + blockSize <= |disk|
      ensures reliable && BlockStart(block, blockSize) + blockSize <= |disk| ==> ok
      ensures ok ==> cache[..] == disk[BlockStart(block, blockSize)..BlockStart(block, blockSize) + blockSize]
    {
      var base := BlockStart(block, blockSize);
      if base > |disk| { return false; }
      var there := if |disk| - base < blockSize then |disk| - base else blockSize;
      var got :| 0 <= got <= there && (reliable ==> got == there);
      forall k | 0 <= k < got { cache[k] := disk[base + k]; }
      ok := got == blockSize;
    }

    /** `fwrite` and `fflush` of the cached block: a failure may leave any part of it written. */
    method WriteBlock() returns (ok: bool)
      requires Valid() && cachedBlock != NO_BLOCK
      modifies `disk
      ensures |disk| == |old(disk)|
      ensures ok ==> disk == Splice(old(disk), BlockStart(cachedBlock, blockSize), cache[..])
      ensures reliable ==> ok
      ensures Mixed(old(disk), Splice(old(disk), BlockStart(cachedBlock, blockSize), cache[..]), disk)
      ensures BlockStart(cachedBlock, blockSize) + blockSize <= |disk|
      ensures Splice(disk, BlockStart(cachedBlock, blockSize), cache[..]) == Splice(old(disk), BlockStart(cachedBlock, blockSize), cache[..])
    {
      var put :| 0 <= put <= blockSize && (reliable ==> put == blockSize);
      PartialSplice(disk, BlockStart(cachedBlock, blockSize), cache[..], put);
      assert cache[..put] == cache[..][..put];
      disk := Splice(disk, BlockStart(cachedBlock, blockSize), cache[..put]);
      ok := put == blockSize;
      var flushed: bool := *;
      ok := ok && (flushed || reliable);
    }

    // ---- The cache -------------------------------------------------------------------------

    /** `device_flush_cache`. */
    method FlushCache() returns (ok: bool)
      requires Valid()
      modifies `disk, `cacheState
      ensures Valid() && Logical() == old(Logical()) && |disk| == |old(disk)|
      ensures Mixed(old(disk), Logical(), disk)
      ensures ok ==> cacheState == Clean && disk == Logical()
      ensures !ok ==> cacheState == Dirty
      ensures reliable ==> ok
    {
      if cacheState == Clean {
        return true;
      }
      ok := WriteBlock();
      if ok {
        cacheState := Clean;
        assert cache[..] == disk[BlockStart(cachedBlock, blockSize)..BlockStart(cachedBlock, blockSize) + blockSize];
      }
    }

    /** `device_cache_block`. */
    method CacheBlock(block: nat) returns (ok: bool)
      requires Valid() && block != NO_BLOCK
      modifies `disk, `cacheState, `cachedBlock, cache
      ensures Valid() && Logical() == old(Logical()) && |disk| == |old(disk)|
      ensures Mixed(old(disk), Logical(), disk)
      ensures ok ==> cachedBlock == block
      ensures reliable && BlockStart(block, blockSize) + blockSize <= |disk| ==> ok
    {
      if cachedBlock == block {
        return true;
      }
      hide CacheValid, Logical;
      if cacheState == Dirty {
        ok := FlushCache();
        if !ok { return false; }
      }
      CleanIsDisk();
      ok := LoadBlock(block);
    }

    lemma CleanIsDisk()
      requires Valid() && cacheState == Clean
      ensures Logical() == disk
    {
      hide Splice, BlockStart;
      if cachedBlock != NO_BLOCK { SpliceSame(disk, BlockStart(cachedBlock, blockSize), cache[..]); }
    }

    /** The second half of `device_cache_block`: the marker stands while the block is being read. */
    method LoadBlock(block: nat) returns (ok: bool)
      requires Valid() && cacheState == Clean && block != NO_BLOCK
      modifies `cachedBlock, cache
      ensures Valid() && Logical() == disk
      ensures ok ==> cachedBlock == block
      ensures reliable && BlockStart(block, blockSize) + blockSize <= |disk| ==> ok
    {
      CleanIsDisk();
      var sought: bool := *;
      if !sought && !reliable { return false; }
      cachedBlock := NO_BLOCK;
      ok := ReadBlock(block);
      if !ok { return false; }
      cachedBlock := block;
      CleanIsDisk();
    }

    /** The block number of a 64-bit byte address never equals the "no block" marker. */
    lemma BlockIsReal(x: nat)
      requires x < U64_LIMIT && blockSize >= 512
      ensures x / blockSize != NO_BLOCK
      ensures x == BlockStart(x / blockSize, blockSize) + x % blockSize
    {
      DivMod(x, blockSize);
      BlockStartIsProduct(x / blockSize, blockSize);
      ProductAtLeast(x / blockSize, blockSize);
    }

    lemma WholeBlock(x: nat)
      requires CacheValid() && Dependable() && x < |disk|
      ensures BlockStart(x / blockSize, blockSize) + blockSize <= |disk|
    {
      Locate(x, blockSize);
      AlignedEnd(|disk|, blockSize);
      var b, n := x / blockSize, |disk| / blockSize;
      if n <= b { BlockStartMonotone(n, b, blockSize); } else { BlockStartMonotone(b, n, blockSize); }
    }

    /** Cache the block that holds address `x`. */
    method FetchFor(x: nat) returns (ok: bool, offset: nat)
      requires Valid() && x < U64_LIMIT
      modifies `disk, `cacheState, `cachedBlock, cache
      ensures Valid() && Logical() == old(Logical()) && |disk| == |old(disk)|
      ensures Mixed(old(disk), Logical(), disk)
      ensures ok ==> cachedBlock != NO_BLOCK && offset < blockSize && x == BlockStart(cachedBlock, blockSize) + offset
      ensures Dependable() && x < |disk| ==> ok
    {
      BlockIsReal(x);
      if Dependable() && x < |disk| { WholeBlock(x); }
      offset := x % blockSize;
      ok := CacheBlock(x / blockSize);
    }

    /** The part of the cached block from `offset` on is a slice of the logical content. */
    method LoadChunk(x: nat, offset: nat, chunk: nat) returns (d: seq<byte>)
      requires Valid() && cachedBlock != NO_BLOCK
      requires x == BlockStart(cachedBlock, blockSize) + offset && offset + chunk <= blockSize
      ensures x + chunk <= |disk|
      ensures d == Logical()[x..x + chunk]
    {
      d := cache[offset..offset + chunk];
      ghost var base := BlockStart(cachedBlock, blockSize);
      assert Logical()[base..base + blockSize] == cache[..];
      assert Logical()[x..x + chunk] == Logical()[base..base + blockSize][offset..offset + chunk];
    }

    /** Storing a chunk into the cached block changes exactly that range of the logical content. */
    method StoreChunk(x: nat, offset: nat, chunk: seq<byte>)
      requires Valid() && cachedBlock != NO_BLOCK
      requires x == BlockStart(cachedBlock, blockSize) + offset && offset + |chunk| <= blockSize
      modifies `cacheState, cache
      ensures Valid() && x + |chunk| <= |disk|
      ensures Logical() == Splice(old(Logical()), x, chunk)
    {
      forall k | 0 <= k < |chunk| { cache[offset + k] := chunk[k]; }
      cacheState := Dirty;
    }

    /** `device_read_raw`: through the cache, chunk by chunk. */
    method ReadRaw(loc: nat, count: nat) returns (ok: bool, data: seq<byte>)
      requires Valid() && loc + count < U64_LIMIT
      modifies `disk, `cacheState, `cachedBlock, cache
      ensures Valid() && Logical() == old(Logical()) && |disk| == |old(disk)|
      ensures Mixed(old(disk), Logical(), disk)
      ensures ok && count > 0 ==> loc + count <= |disk| && data == Logical()[loc..loc + count]
      ensures ok ==> |data| == count
      ensures Dependable() && loc + count <= |disk| ==> ok
    {
      hide CacheValid, Logical;
      data := [];
      ghost var L0, d0 := Logical(), disk;
      var progress := 0;
      while progress < count
        invariant progress == |data| <= count
        invariant Valid() && Logical() == L0 && |disk| == |d0| && Mixed(d0, L0, disk)
        invariant progress > 0 ==> loc + progress <= |L0| && data == L0[loc..loc + progress]
      {
        var offset;
        ok, offset := FetchFor(loc + progress);
        if !ok { return false, []; }
        var chunk := if count - progress > blockSize - offset then blockSize - offset else count - progress;
        var d := LoadChunk(loc + progress, offset, chunk);
        SliceJoin(L0, loc, progress, chunk);
        data := data + d;
        progress := progress + chunk;
      }
      ok := true;
    }

    /** One chunk of the copying loop: up to the end of the block that holds `x`. */
    method WriteChunk(x: nat, data: seq<byte>) returns (ok: bool, chunk: nat)
      requires Valid() && x < U64_LIMIT && data != []
      modifies `disk, `cacheState, `cachedBlock, cache
      ensures Valid() && |disk| == |old(disk)|
      ensures Mixed(old(disk), old(Logical()), disk)
      ensures ok ==> 0 < chunk <= |data| && x + chunk <= |disk|
      ensures ok ==> Logical() == Splice(old(Logical()), x, data[..chunk])
      ensures !ok ==> Logical() == old(Logical())
      ensures Dependable() && x < |disk| ==> ok
    {
      var offset;
      chunk := 0;
      ok, offset := FetchFor(x);
      if !ok { return; }
      chunk := if |data| > blockSize - offset then blockSize - offset else |data|;
      StoreChunk(x, offset, data[..chunk]);
    }

    /** The copying loop of `device_write_raw`. */
    method WriteChunks(data: seq<byte>, loc: nat) returns (ok: bool, ghost done: nat)
      requires Valid() && loc + |data| < U64_LIMIT
      modifies `disk, `cacheState, `cachedBlock, cache
      ensures Valid() && |disk| == |old(disk)|
      ensures done <= |data| && (ok ==> done == |data|)
      ensures Overwritten(old(Logical()), loc, data[..done], Logical())
      ensures MixedOutside(old(disk), old(Logical()), disk, loc, done)
      ensures Dependable() && loc + |data| <= |disk| ==> ok
      ensures data == [] ==> ok
    {
      hide CacheValid, Logical, Splice, Mixed, MixedOutside, Overwritten;
      ghost var L0, d0 := Logical(), disk;
      var progress := 0;
      assert data[..0] == [];
      NothingWritten(d0, L0, d0, loc);
      while progress < |data|
        invariant 0 <= progress <= |data|
        invariant Valid() && |disk| == |d0|
        invariant Overwritten(L0, loc, data[..progress], Logical())
        invariant MixedOutside(d0, L0, disk, loc, progress)
      {
        ghost var L1, d1 := Logical(), disk;
        var chunk;
        ok, chunk := WriteChunk(loc + progress, data[progress..]);
        MixedOutsideStep(d0, L0, d1, L1, disk, loc, data[..progress]);
        if !ok { return false, progress; }
        assert data[progress..][..chunk] == data[progress..progress + chunk];
        OverwrittenJoin(L0, loc, data, progress, chunk, L1, Logical());
        MixedOutsideMore(d0, L0, disk, loc, progress, progress + chunk);
        progress := progress + chunk;
      }
      return true, |data|;
    }

    /**
     `device_write_raw`. On success the range is overwritten and, outside an undo, its former
     content is on the log. On failure `done` bytes of it have been overwritten without a record;
     that is none unless the failure came after the save-read.
     */
    method WriteRaw(data: seq<byte>, loc: u64) returns (ok: bool, ghost done: nat)
      requires Valid() && loc + |data| < U64_LIMIT
      modifies `disk, `cacheState, `cachedBlock, `undoCount, `logFull, cache, undoData
      ensures Valid() && |disk| == |old(disk)|
      ensures done <= |data| && (ok ==> done == |data|)
      ensures Overwritten(old(Logical()), loc, data[..done], Logical())
      ensures MixedOutside(old(disk), old(Logical()), disk, loc, done)
      ensures !uninstalling && ok ==>
                (data != [] ==> loc + |data| <= |disk|) && Log() == old(Log()) + [Saved(old(Logical()), loc, |data|)]
      ensures uninstalling || !ok ==> Log() == old(Log())
      ensures Dependable() && loc + |data| <= |disk| && (uninstalling || old(undoCount) < 256) ==> ok
      ensures data == [] && uninstalling ==> ok
      ensures !uninstalling && old(undoCount) >= 256 ==> !ok && done == 0 && logFull
      ensures uninstalling || old(undoCount) < 256 ==> logFull == old(logFull)
      ensures !uninstalling && old(UndoReady()) && (ok || done == 0) ==> UndoReady()
    {
      hide CacheValid, Logical, Undoable, Splice, Mixed, MixedOutside, Overwritten;
      ghost var L0, d0, log0 := Logical(), disk, Log();
      assert data[..0] == [];
      NothingWritten(d0, L0, d0, loc);
      var saved: seq<byte> := [];
      if !uninstalling {
        if undoCount >= UNDO_MAX {
          logFull := true;
          return false, 0;
        }
        ok, saved := ReadRaw(loc, |data|);
        KeepUndo(d0, L0);
        NothingWritten(d0, L0, disk, loc);
        if !ok { return false, 0; }
      }
      ghost var d1 := disk;
      ok, done := WriteChunks(data, loc);
      MixedFirst(d0, L0, d1, disk, loc, done);
      assert Log() == log0;
      if !ok {
        if done == 0 {
          NothingStored(L0, loc, Logical());
          KeepUndo(d1, L0);
        }
        return false, done;
      }
      assert data[..|data|] == data;
      if !uninstalling {
        WriteIsUndoable(data, loc, d1, L0, log0);
        undoData[undoCount] := Record(loc, saved);
        undoCount := undoCount + 1;
        assert undoData[..undoCount] == log0 + [Saved(L0, loc, |data|)];
      }
    }

    lemma WriteIsUndoable(data: seq<byte>, loc: u64, d1: seq<byte>, L0: seq<byte>, log0: seq<Record>)
      requires Valid() && |d1| == |L0| == |disk| && (data != [] ==> loc + |data| <= |L0|)
      requires Overwritten(L0, loc, data, Logical()) && MixedOutside(d1, L0, disk, loc, |data|)
      ensures Undoable(initial, log0, d1, L0) ==>
                Undoable(initial, log0 + [Saved(L0, loc, |data|)], disk, Logical())
    {
      hide Undoable;
      if Undoable(initial, log0, d1, L0) {
        UndoableWrite(initial, log0, d1, L0, loc, |data|, disk, Logical());
      }
    }

    lemma UndoSize()
      requires Valid() && UndoReady()
      ensures |disk| == |initial| && SavesOriginal(initial, Log())
    {
    }

    lemma UncoveredOf()
      requires Valid() && UndoReady()
      ensures UncoveredIntact(initial, Log(), disk)
    {
    }

    lemma KeepUndo(d0: seq<byte>, L0: seq<byte>)
      requires Valid() && Logical() == L0 && |d0| == |disk| && Mixed(d0, L0, disk)
      ensures Undoable(initial, Log(), d0, L0) ==> UndoReady()
    {
      if Undoable(initial, Log(), d0, L0) { UndoableMixed(initial, Log(), d0, L0, disk); }
    }

    // ---- Undo --------------------------------------------------------------------------------

    /** `reverse_uninstall_data`: through the second array and back. */
    method ReverseUndoData()
      requires Valid()
      modifies undoData, undoRev
      ensures Valid() && Log() == Reverse(old(Log()))
    {
      ghost var log0 := Log();
      for i := 0 to undoCount
        invariant undoData[..undoCount] == log0
        invariant forall k :: undoCount - i <= k < undoCount ==> undoRev[k] == log0[undoCount - 1 - k]
      {
        undoRev[undoCount - 1 - i] := undoData[i];
      }
      forall k | 0 <= k < undoCount { undoData[k] := undoRev[k]; }
    }

    /** Forget the cached block, dirty or not. */
    method DiscardCache()
      requires Valid()
      modifies `cacheState, `cachedBlock
      ensures Valid() && Logical() == disk && cacheState == Clean && cachedBlock == NO_BLOCK
    {
      cacheState := Clean;
      cachedBlock := NO_BLOCK;
    }

    /** One attempt to write a record back; another one starts from an empty cache. */
    method TryRecord(r: Record, ghost again: bool) returns (written: bool, ghost done: nat)
      requires Valid() && uninstalling && Fits(r, |disk|)
      requires again ==> cachedBlock == NO_BLOCK && cacheState == Clean
      modifies `disk, `cacheState, `cachedBlock, `undoCount, `logFull, `tries, cache, undoData
      ensures Valid() && |disk| == |old(disk)| && Log() == old(Log()) && tries == old(tries) + 1
      ensures done <= |r.data| && (written ==> done == |r.data|)
      ensures Overwritten(old(Logical()), r.loc, r.data[..done], Logical())
      ensures Dependable() ==> written
    {
      hide Logical, Overwritten, MixedOutside;
      tries := tries + 1;
      written, done := WriteRaw(r.data, r.loc);
    }

    /** Writing one record back, with one retry: what is not written has been tried twice. */
    method RestoreRecord(r: Record) returns (written: bool, flushed: bool)
      requires Valid() && uninstalling && Fits(r, |disk|)
      modifies `disk, `cacheState, `cachedBlock, `undoCount, `logFull, `tries, cache, undoData
      ensures Valid() && |disk| == |old(disk)| && Log() == old(Log())
      ensures old(tries) < tries <= old(tries) + 2
      ensures !written ==> tries == old(tries) + 2
      ensures written && flushed ==> Logical() == Restore(old(Logical()), r)
      ensures Dependable() ==> written && flushed
    {
      hide Logical;
      ghost var L0 := Logical();
      ghost var done;
      flushed := true;
      written, done := TryRecord(r, false);
      if !written {
        flushed := FlushCache();
        ghost var L1 := Logical();
        DiscardCache();
        written, done := TryRecord(r, true);
        if written && flushed { OverwrittenAgain(L0, r, L1, Logical()); }
      }
      assert r.data[..|r.data|] == r.data;
    }

    /**
     `uninstall`: the cached block is thrown away first, then the log is written back as it
     stands. Success means the device itself holds the result.
     */
    method Uninstall() returns (ret: bool)
      requires Valid() && InRange(Log(), |disk|)
      modifies this, cache, undoData
      ensures Valid() && |disk| == |old(disk)| && Log() == old(Log())
      ensures ret ==> disk == Replay(old(Log()), old(disk)) && cacheState == Clean
      ensures tries >= old(tries) + old(undoCount)
      ensures Dependable() ==> ret
    {
      hide Logical, CacheValid, Restore, Fits;
      uninstalling := true;
      DiscardCache();
      ghost var log0, d0 := Log(), disk;
      var writeFailed, flushFailed := false, false;
      assert log0[..0] == [];
      for i := 0 to undoCount
        invariant Valid() && uninstalling && |disk| == |d0| && Log() == log0 && undoCount == |log0|
        invariant InRange(log0[..i], |d0|) && tries >= old(tries) + i
        invariant !writeFailed && !flushFailed ==> Logical() == Replay(log0[..i], d0)
        invariant Dependable() ==> !writeFailed && !flushFailed
      {
        var r := undoData[i];
        assert r == log0[i];
        assert log0[..i + 1] == log0[..i] + [r];
        ReplayAppend(log0[..i], r, d0);
        var written, flushed := RestoreRecord(r);
        if !written { writeFailed := true; }
        if !flushed { flushFailed := true; }
      }
      assert log0[..|log0|] == log0;
      var flushed := FlushCache();
      if !flushed { flushFailed := true; }
      ret := !writeFailed && !flushFailed;
    }

    /**
     The failure path of `bios_install`. When the undo's own I/O succeeds, the device is back to
     its original content exactly if every byte no record covers was intact on the device itself,
     whatever the discarded cache block held; a failed write that saved nothing is such a case.
     */
    method AbortInstall() returns (ret: bool)
      requires Valid() && SavesOriginal(initial, Log()) && |disk| == |initial|
      modifies this, cache, undoData, undoRev
      ensures Valid() && |disk| == |old(disk)|
      ensures ret ==> (disk == initial <==> UncoveredIntact(initial, old(Log()), old(disk)))
      ensures ret && old(UndoReady()) ==> disk == initial
      ensures Dependable() ==> ret
    {
      ghost var log0, d0 := Log(), disk;
      UndoRestoresExactly(initial, log0, d0);
      ReverseUndoData();
      ret := Uninstall();
    }
  }

  // ---- Whole installs ----------------------------------------------------------------------

  datatype Op = Read(loc: u64, count: nat) | Write(loc: u64, data: seq<byte>) | Flush

  predicate Addressable(op: Op) {
    match op
    case Read(loc, count) => loc + count < U64_LIMIT
    case Write(loc, data) => loc + |data| < U64_LIMIT
    case Flush => true
  }

  predicate InBounds(op: Op, size: nat) {
    match op
    case Read(loc, count) => loc + count <= size
    case Write(loc, data) => loc + |data| <= size
    case Flush => true
  }

  /** Nothing keeps these operations from going through: a reliable device, in bounds, and room in the log. */
  ghost predicate Feasible(dev: Device, ops: seq<Op>)
    reads dev`disk, dev`undoCount
  {
    && dev.Dependable() && dev.undoCount + |ops| <= UNDO_MAX
    && (forall i :: 0 <= i < |ops| ==> InBounds(ops[i], |dev.disk|))
  }

  /** What a sequence of operations does to a flat byte array. */
  ghost function Applied(ops: seq<Op>, s: seq<byte>): seq<byte> {
    if ops == [] then s
    else
      var before := Applied(ops[..|ops| - 1], s);
      match ops[|ops| - 1]
      case Write(loc, data) =>
        if data != [] && loc + |data| <= |before| then Splice(before, loc, data) else before
      case _ => before
  }

  /**
   Any sequence of reads, writes and flushes, then the final flush of `bios_install`; on a failure,
   its clean-up. A completed run leaves the device with exactly the writes applied in order and
   still undoable; a failed run that is undone leaves it as it was if and only if the bytes without
   a record were intact on the device when the run stopped, which they are unless a write had failed
   after its save-read (`unsaved` counts the bytes it had overwritten by then).
   */
  method RunInstall(dev: Device, ops: seq<Op>) returns (completed: bool, restored: bool, ghost unsaved: nat, ghost log: seq<Record>, ghost stopped: seq<byte>)
    requires dev.Valid() && dev.UndoReady() && !dev.uninstalling
    requires forall i :: 0 <= i < |ops| ==> Addressable(ops[i])
    modifies dev, dev.cache, dev.undoData, dev.undoRev
    ensures dev.Valid()
    ensures completed ==> dev.disk == Applied(ops, old(dev.Logical())) && dev.UndoReady()
    ensures !completed && restored ==> (dev.disk == dev.initial <==> UncoveredIntact(dev.initial, log, stopped))
    ensures !completed && restored && unsaved == 0 ==> dev.disk == dev.initial
    ensures old(dev.Dependable()) && !completed ==> restored
    ensures old(Feasible(dev, ops)) ==> completed
  {
    hide Splice, SavesOriginal, UncoveredIntact, Mixed, Device.Logical, Device.CacheValid;
    ghost var L0 := dev.Logical();
    dev.UndoSize();
    unsaved, restored, log, stopped := 0, false, [], [];
    completed := true;
    var i := 0;
    while completed && i < |ops|
      invariant 0 <= i <= |ops|
      invariant dev.Valid() && !dev.uninstalling
      invariant SavesOriginal(dev.initial, dev.Log()) && |dev.disk| == |dev.initial|
      invariant unsaved == 0 ==> dev.UndoReady()
      invariant completed ==> unsaved == 0 && dev.Logical() == Applied(ops[..i], L0)
      invariant completed ==> dev.undoCount <= old(dev.undoCount) + i
      invariant old(Feasible(dev, ops)) ==> completed
      decreases |ops| - i, completed
    {
      completed, unsaved := Perform(dev, ops[i]);
      if completed {
        assert ops[..i + 1][..i] == ops[..i] && ops[..i + 1][i] == ops[i];
        i := i + 1;
      }
    }
    if completed {
      assert ops[..|ops|] == ops;
      ghost var d1 := dev.disk;
      completed := dev.FlushCache();
      dev.KeepUndo(d1, dev.Logical());
    }
    log, stopped := dev.Log(), dev.disk;
    if !completed {
      restored := dev.AbortInstall();
    }
  }

  /** The effect of one operation. */
  lemma AppliedOne(op: Op, s: seq<byte>)
    ensures Applied([op], s) ==
            if op.Write? && op.data != [] && op.loc + |op.data| <= |s| then Splice(s, op.loc, op.data) else s
  {
    hide Splice;
    assert [op][..0] == [];
    assert Applied([op][..0], s) == s;
  }

  lemma WrittenWhole(before: seq<byte>, loc: nat, data: seq<byte>, after: seq<byte>)
    requires Overwritten(before, loc, data, after)
    ensures if data == [] then after == before else loc + |data| <= |before| && after == Splice(before, loc, data)
  {
  }

  /**
   A write that cannot be undone: two blocks of zeros are to be overwritten; the first has reached
   the device to make room in the cache, and reading the second then fails. Everything
   `device_write_raw` promises of a failed write holds, no record covers the first block, and
   writing the log back leaves it changed.
   */
  lemma FailedWriteIsLost()
    ensures var initial, data, after := Row(0, 1024), Row(1, 1024), Row(1, 512) + Row(0, 512);
            && Overwritten(initial, 0, data[..512], after) && MixedOutside(initial, initial, after, 0, 512)
            && SavesOriginal(initial, []) && !UncoveredIntact(initial, [], after)
            && Replay(Reverse([]), after) != initial
  {
    var initial, data, after := Row(0, 1024), Row(1, 1024), Row(1, 512) + Row(0, 512);
    assert after[0] == 1 && initial[0] == 0;
    assert after == Splice(initial, 0, data[..512]);
  }

  function Row(b: byte, n: nat): (s: seq<byte>)
    ensures |s| == n && forall k :: 0 <= k < n ==> s[k] == b
  {
    seq(n, _ => b)
  }

  /** One operation of an install. */
  method Perform(dev: Device, op: Op) returns (ok: bool, ghost unsaved: nat)
    requires dev.Valid() && dev.UndoReady() && !dev.uninstalling && Addressable(op)
    modifies dev`disk, dev`cacheState, dev`cachedBlock, dev`undoCount, dev`logFull, dev.cache, dev.undoData
    ensures dev.Valid() && |dev.disk| == |old(dev.disk)|
    ensures SavesOriginal(dev.initial, dev.Log())
    ensures unsaved == 0 ==> dev.UndoReady()
    ensures ok ==> unsaved == 0 && dev.Logical() == Applied([op], old(dev.Logical()))
    ensures old(dev.undoCount) <= dev.undoCount <= old(dev.undoCount) + (if op.Write? then 1 else 0)
    ensures old(dev.undoCount) < UNDO_MAX ==> dev.logFull == old(dev.logFull)
    ensures dev.Dependable() && old(dev.undoCount) < UNDO_MAX && InBounds(op, |dev.disk|) ==> ok
  {
    hide Splice, Mixed, MixedOutside, Overwritten, SavesOriginal, UncoveredIntact, Applied, Device.CacheValid, Device.Logical;
    dev.UndoSize();
    AppliedOne(op, dev.Logical());
    unsaved := 0;
    ghost var d0, L0, log0 := dev.disk, dev.Logical(), dev.Log();
    match op
    case Read(loc, count) =>
      var data;
      ok, data := dev.ReadRaw(loc, count);
      dev.KeepUndo(d0, L0);
    case Write(loc, data) =>
      ghost var done;
      ok, done := dev.WriteRaw(data, loc);
      unsaved := if ok then 0 else done;
      assert data[..|data|] == data;
      if ok { WrittenWhole(L0, loc, data, dev.Logical()); }
      if !ok && done > 0 { assert dev.Log() == log0; }
    case Flush =>
      ok := dev.FlushCache();
      dev.KeepUndo(d0, L0);
  }

  /** `gpt_entry_array_crc`: the checksum of a device range, read in 512-byte pieces. */
  method EntryArrayCrc(dev: Device, loc: u64, size: nat) returns (ok: bool, out: bv32)
    requires dev.Valid() && loc + size < U64_LIMIT && size > 0
    modifies dev`disk, dev`cacheState, dev`cachedBlock, dev.cache
    ensures dev.Valid() && dev.Logical() == old(dev.Logical())
    ensures dev.Dependable() && loc + size <= |dev.disk| ==> ok
    ensures ok ==> loc + size <= |dev.disk| && out == Crc(dev.Logical()[loc..loc + size])
  {
    hide Splice, Update;
    ghost var L0, d0 := dev.Logical(), dev.disk;
    var crc: bv32 := 0xffff_ffff;
    var done := 0;
    out := 0;
    while done < size
      invariant 0 <= done <= size
      invariant dev.Valid() && dev.Logical() == L0 && |dev.disk| == |d0|
      invariant done > 0 ==> loc + done <= |L0| && crc == Update(0xffff_ffff, L0[loc..loc + done])
      invariant done == 0 ==> crc == 0xffff_ffff
    {
      var step := if size - done < 512 then size - done else 512;
      var chunk;
      ok, chunk := dev.ReadRaw(loc + done, step);
      if !ok { return; }
      crc := UpdateLoop(crc, chunk);
      if done > 0 {
        SliceJoin(L0, loc, done, step);
        UpdateConcat(0xffff_ffff, L0[loc..loc + done], chunk);
      }
      done := done + step;
    }
    return true, !crc;
  }

  // ---- Byte ranges -------------------------------------------------------------------------

  lemma ProductAtLeast(q: nat, d: nat)
    requires d >= 2
    ensures q * d >= 2 * q
  {
    assert q * d == 2 * q + q * (d - 2);
  }

  lemma SpliceSame(s: seq<byte>, at: nat, d: seq<byte>)
    requires at + |d| <= |s| && s[at..at + |d|] == d
    ensures Splice(s, at, d) == s
  {
  }

  /** Writing part of a block mixes old and new bytes, and the whole block still goes over it. */
  lemma PartialSplice(s: seq<byte>, at: nat, d: seq<byte>, k: nat)
    requires at + |d| <= |s| && k <= |d|
    ensures Mixed(s, Splice(s, at, d), Splice(s, at, d[..k]))
    ensures Splice(Splice(s, at, d[..k]), at, d) == Splice(s, at, d)
    ensures k == |d| ==> Splice(s, at, d[..k]) == Splice(s, at, d)
  {
  }

  /** `after` is `before` with `d` written at `loc`; an empty `d` may lie anywhere. */
  ghost predicate Overwritten(before: seq<byte>, loc: nat, d: seq<byte>, after: seq<byte>) {
    if d == [] then after == before
    else loc + |d| <= |before| && after == Splice(before, loc, d)
  }

  lemma OverwrittenJoin(L0: seq<byte>, loc: nat, data: seq<byte>, p: nat, c: nat, L1: seq<byte>, L2: seq<byte>)
    requires p + c <= |data| && loc + p + c <= |L1|
    requires Overwritten(L0, loc, data[..p], L1)
    requires L2 == Splice(L1, loc + p, data[p..p + c])
    ensures Overwritten(L0, loc, data[..p + c], L2)
  {
    if p + c > 0 {
      assert L2 == Splice(L0, loc, data[..p + c]);
    }
  }

  /** Repeating a write that stopped part way gives what the whole write gives. */
  lemma OverwrittenAgain(L0: seq<byte>, r: Record, L1: seq<byte>, L2: seq<byte>)
    requires exists k: nat :: k <= |r.data| && Overwritten(L0, r.loc, r.data[..k], L1)
    requires Overwritten(L1, r.loc, r.data, L2) && Fits(r, |L0|)
    ensures L2 == Restore(L0, r)
  {
  }

  /** Outside the first `n` bytes at `loc`, each device byte is old, or the logical one. */
  ghost predicate MixedOutside(before: seq<byte>, logical: seq<byte>, after: seq<byte>, loc: nat, n: nat) {
    && |before| == |logical| == |after|
    && (forall x :: 0 <= x < |after| && !(loc <= x < loc + n) ==> after[x] == before[x] || after[x] == logical[x])
  }

  lemma NothingWritten(d0: seq<byte>, L0: seq<byte>, d1: seq<byte>, loc: nat)
    requires |d0| == |L0| && (d1 == d0 || Mixed(d0, L0, d1))
    ensures Overwritten(L0, loc, [], L0) && MixedOutside(d0, L0, d1, loc, 0)
  {
  }

  lemma NothingStored(L0: seq<byte>, loc: nat, L1: seq<byte>)
    requires Overwritten(L0, loc, [], L1)
    ensures L1 == L0
  {
  }

  /** Cached bytes that reach the device before a write leave nothing but old and logical bytes. */
  lemma MixedFirst(d0: seq<byte>, L0: seq<byte>, d1: seq<byte>, d2: seq<byte>, loc: nat, n: nat)
    requires |d0| == |L0| && (d1 == d0 || Mixed(d0, L0, d1)) && MixedOutside(d1, L0, d2, loc, n)
    ensures MixedOutside(d0, L0, d2, loc, n)
    ensures n == 0 ==> Mixed(d1, L0, d2)
  {
  }

  lemma MixedOutsideMore(before: seq<byte>, logical: seq<byte>, after: seq<byte>, loc: nat, m: nat, n: nat)
    requires MixedOutside(before, logical, after, loc, m) && m <= n
    ensures MixedOutside(before, logical, after, loc, n)
  {
  }

  lemma MixedOutsideStep(d0: seq<byte>, L0: seq<byte>, d1: seq<byte>, L1: seq<byte>, d2: seq<byte>, loc: nat, d: seq<byte>)
    requires MixedOutside(d0, L0, d1, loc, |d|) && Mixed(d1, L1, d2) && Overwritten(L0, loc, d, L1)
    ensures MixedOutside(d0, L0, d2, loc, |d|)
  {
  }
}
