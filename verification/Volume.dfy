/**
 Reading a disk volume through its one-block cache (limine/common/lib/part.s2.c). A volume is a
 stretch of a disk; the cache holds the last block read, clipped at the end of the volume.
 */
module Volume {
  import opened Blocks
  import opened Bytes

  /** `(uint64_t)-1`: the volume's size is not known. */
  const UNKNOWN: nat := 0xffff_ffff_ffff_ffff

  /** An aligned start in 512-byte sectors, in sectors of `unit` times that. */
  lemma AlignedStart(firstSect: nat, unit: nat)
    requires unit > 0 && firstSect % unit == 0
    ensures BlockStart(firstSect / unit, unit * 512) == firstSect * 512
  {
    DivMod(firstSect, unit);
    BlockStartNests(firstSect / unit, unit, 512);
    BlockStartIsProduct(firstSect, 512);
  }

  /** Rounding up to sectors covers the bytes and adds less than one sector. */
  lemma RoundedUp(count: nat, unit: nat)
    requires unit > 0
    ensures BlockStart((count + unit - 1) / unit, unit * 512) >= count * 512
    ensures BlockStart((count + unit - 1) / unit, unit * 512) < count * 512 + unit * 512
  {
    var q := (count + unit - 1) / unit;
    DivMod(count + unit - 1, unit);
    BlockStartNests(q, unit, 512);
    BlockStartIsProduct(q * unit, 512);
  }

  /** A sector that starts before the end of an aligned disk ends on it. */
  lemma SectorEnds(a: nat, n: nat, size: nat)
    requires size > 0 && n % size == 0 && BlockStart(a, size) < n + size
    ensures BlockStart(a, size) <= n
  {
    AlignedEnd(n, size);
    var q := n / size;
    if a > q {
      BlockStartMonotone(q, a, size);
    } else {
      BlockStartMonotone(a, q, size);
    }
  }

  class Volume {
    const disk: seq<byte>
    const sectorSize: nat
    const xfer: nat
    const firstSect: u64
    const sectCount: u64
    const cache: array<byte>
    var ready: bool
    var cachedBlock: nat
    /** How much of the cache the last read filled. */
    ghost var held: nat
    /** Reads of sectors that exist succeed. */
    const reliable: bool

    function BlockSize(): nat { xfer * sectorSize }

    function Start(): nat { firstSect * 512 }

    /** The bytes of the volume. */
    ghost function Content(): seq<byte>
      requires Placed()
    {
      if sectCount == UNKNOWN then disk[Start()..] else disk[Start()..Start() + sectCount * 512]
    }

    /** The volume lies on the disk. */
    ghost predicate Placed() {
      && |disk| < U64_LIMIT && sectorSize < 0x8000_0000
      && Start() <= |disk|
      && (sectCount != UNKNOWN ==> Start() + sectCount * 512 <= |disk|)
    }

    lemma ContentSize()
      requires Placed()
      ensures sectCount != UNKNOWN ==> |Content()| == sectCount * 512
      ensures Start() + |Content()| <= |disk|
    {
    }

    ghost predicate Valid()
      reads this, cache
    {
      && Placed()
      && cache.Length == BlockSize()
      && (ready ==> Holds(cachedBlock, held))
      && (ready && sectCount == UNKNOWN ==> held == BlockSize())
    }

    /** The first `n` cached bytes are those of `block`, and reach as far as the volume does. */
    ghost predicate Holds(block: nat, n: nat)
      requires Placed()
      reads cache
    {
      && n <= cache.Length == BlockSize()
      && Start() + BlockStart(block, BlockSize()) + n <= |disk|
      && cache[..n] == disk[Start() + BlockStart(block, BlockSize())..Start() + BlockStart(block, BlockSize()) + n]
      && (n == BlockSize() || BlockStart(block, BlockSize()) + n >= |Content()|)
    }

    /** The geometry `volume_read` accepts. */
    predicate Usable() {
      xfer > 0 && sectorSize >= 512 && sectorSize % 512 == 0
    }

    /** A volume of known size on whole sectors of a disk whose sectors can be read. */
    ghost predicate Dependable() {
      && reliable && Placed()
      && xfer > 0 && sectorSize >= 512 && sectorSize % 512 == 0
      && sectCount != 0xffff_ffff_ffff_ffff
      && firstSect % (sectorSize / 512) == 0
      && |disk| % sectorSize == 0
    }

    constructor (disk: seq<byte>, sectorSize: nat, xfer: nat, firstSect: u64, sectCount: u64, reliable: bool)
      requires |disk| < U64_LIMIT && sectorSize < 0x8000_0000 && firstSect * 512 <= |disk|
      requires sectCount != 0xffff_ffff_ffff_ffff ==> firstSect * 512 + sectCount * 512 <= |disk|
      ensures Valid() && !ready && fresh(cache)
      ensures this.disk == disk && this.sectorSize == sectorSize && this.xfer == xfer
      ensures this.firstSect == firstSect && this.sectCount == sectCount && this.reliable == reliable
    {
      this.disk, this.sectorSize, this.xfer, this.firstSect, this.sectCount := disk, sectorSize, xfer, firstSect, sectCount;
      this.reliable := reliable;
      cache := new byte[xfer * sectorSize](_ => 0);
      ready, cachedBlock, held := false, 0, 0;
      new;
      assert Placed();
    }

    /** `disk_read_sectors` into the cache; a failure may leave anything there. */
    method DiskReadSectors(sector: nat, count: nat) returns (ok: bool)
      requires BlockStart(count, sectorSize) <= cache.Length
      modifies cache
      ensures ok ==> BlockStart(sector, sectorSize) + BlockStart(count, sectorSize) <= |disk|
      ensures ok ==> cache[..BlockStart(count, sectorSize)]
                     == disk[BlockStart(sector, sectorSize)..BlockStart(sector, sectorSize) + BlockStart(count, sectorSize)]
      ensures reliable && BlockStart(sector, sectorSize) + BlockStart(count, sectorSize) <= |disk| ==> ok
    {
      var at, n := BlockStart(sector, sectorSize), BlockStart(count, sectorSize);
      if at + n > |disk| { return false; }
      forall k | 0 <= k < n { cache[k] := disk[at + k]; }
      ok := true;
      if !reliable { ok := *; }
    }

    /** Sectors in a volume, rounded up. */
    function Sectors(): nat
      requires Usable()
    {
      (sectCount + sectorSize / 512 - 1) / (sectorSize / 512)
    }

    function FirstSector(): nat
      requires Usable()
    {
      firstSect / (sectorSize / 512)
    }

    /** Where the sectors of a block are on the disk, and that their numbers fit. */
    lemma BlockAddress(block: nat)
      requires Usable() && Placed() && firstSect % (sectorSize / 512) == 0
      ensures BlockStart(FirstSector() + block * xfer, sectorSize) == Start() + BlockStart(block, BlockSize())
      ensures FirstSector() + block * xfer >= U64_LIMIT ==> BlockStart(block, BlockSize()) >= |disk|
      ensures BlockStart(xfer, sectorSize) == BlockSize()
    {
      var unit := sectorSize / 512;
      AlignedStart(firstSect, unit);
      BlockStartAdds(FirstSector(), block * xfer, sectorSize);
      BlockStartNests(block, xfer, sectorSize);
      BlockStartAtLeast(FirstSector() + block * xfer, sectorSize);
      BlockStartIsProduct(xfer, sectorSize);
    }

    /** Where the volume's last sector ends, and that the numbers involved fit. */
    lemma VolumeEnd()
      requires Usable() && Placed() && firstSect % (sectorSize / 512) == 0 && sectCount != UNKNOWN
      ensures sectCount + sectorSize / 512 - 1 < U64_LIMIT
      ensures FirstSector() + Sectors() < U64_LIMIT
      ensures BlockStart(FirstSector() + Sectors(), sectorSize) >= Start() + |Content()|
      ensures |disk| % sectorSize == 0 ==> BlockStart(FirstSector() + Sectors(), sectorSize) <= |disk|
    {
      var unit := sectorSize / 512;
      AlignedStart(firstSect, unit);
      RoundedUp(sectCount, unit);
      BlockStartAdds(FirstSector(), Sectors(), sectorSize);
      BlockStartAtLeast(FirstSector() + Sectors(), sectorSize);
      if |disk| % sectorSize == 0 { SectorEnds(FirstSector() + Sectors(), |disk|, sectorSize); }
    }

    /** A sector before the end, and how much of a block is left from there. */
    lemma Remaining(sector: nat, end: nat, amount: nat)
      requires amount <= xfer
      ensures BlockStart(sector, sectorSize) < BlockStart(end, sectorSize) ==> sector < end
      ensures sector <= end && amount == end - sector ==>
                BlockStart(sector, sectorSize) + BlockStart(amount, sectorSize) == BlockStart(end, sectorSize)
      ensures sector + amount <= end ==>
                BlockStart(sector, sectorSize) + BlockStart(amount, sectorSize) <= BlockStart(end, sectorSize)
      ensures BlockStart(amount, sectorSize) <= BlockSize()
    {
      if sector >= end { BlockStartMonotone(end, sector, sectorSize); }
      BlockStartAdds(sector, amount, sectorSize);
      if sector + amount <= end { BlockStartMonotone(sector + amount, end, sectorSize); }
      BlockStartMonotone(amount, xfer, sectorSize);
      BlockStartIsProduct(xfer, sectorSize);
    }

    /** `cache_block`: the cache is marked empty until the read has succeeded. */
    method CacheBlock(block: nat) returns (ok: bool)
      requires Valid() && Usable()
      modifies this, cache
      ensures Valid()
      ensures ok ==> ready && cachedBlock == block && (sectCount == UNKNOWN ==> held == BlockSize())
      ensures Dependable() && BlockStart(block, BlockSize()) < |Content()| ==> ok
    {
      hide BlockStart, BlockSize;
      if ready && block == cachedBlock { return true; }
      ready := false;
      if firstSect % (sectorSize / 512) != 0 { return false; }
      var amount := xfer;
      var readSector := FirstSector() + block * xfer;
      BlockAddress(block);
      if block * xfer >= U64_LIMIT || readSector >= U64_LIMIT { return false; }
      if sectCount != UNKNOWN {
        VolumeEnd();
        var end := FirstSector() + Sectors();
        Remaining(readSector, end, amount);
        if readSector >= end { return false; }
        if amount > end - readSector { amount := end - readSector; }
        Remaining(readSector, end, amount);
      }
      Remaining(readSector, readSector + amount, amount);
      ok := DiskReadSectors(readSector, amount);
      if !ok { return false; }
      ready, cachedBlock, held := true, block, BlockStart(amount, sectorSize);
    }

    lemma HeldIsContent(h: seq<byte>, x: nat, offset: nat, chunk: nat)
      requires Placed() && offset + chunk <= |h| && offset <= x
      requires Start() + x - offset + |h| <= |disk| && h == disk[Start() + x - offset..Start() + x - offset + |h|]
      requires x + chunk <= |Content()|
      ensures h[offset..offset + chunk] == Content()[x..x + chunk]
    {
      SliceOfSlice(disk, Start() + x - offset, |h|, offset, chunk);
      SliceOfSlice(disk, Start(), |Content()|, x, chunk);
    }

    /** The part of the cached block from `offset` on, as bytes of the volume. */
    method LoadChunk(x: nat, offset: nat, chunk: nat) returns (d: seq<byte>)
      requires Valid() && ready
      requires x == BlockStart(cachedBlock, BlockSize()) + offset && offset + chunk <= BlockSize()
      requires sectCount != UNKNOWN ==> x + chunk <= |Content()|
      requires sectCount == UNKNOWN ==> held == BlockSize()
      ensures x + chunk <= |Content()| && d == Content()[x..x + chunk]
    {
      hide BlockStart, BlockSize;
      d := cache[offset..offset + chunk];
      ghost var block, h := cache[..], cache[..held];
      assert h == block[0..held] && d == block[offset..offset + chunk];
      SliceOfSlice(block, 0, held, offset, chunk);
      HeldIsContent(h, x, offset, chunk);
    }

    /** `volume_read`: through the cache, chunk by chunk. */
    method Read(loc: u64, count: nat) returns (ok: bool, data: seq<byte>)
      requires Valid() && loc + count < U64_LIMIT
      modifies this, cache
      ensures Valid()
      ensures ok ==> |data| == count
      ensures ok && count > 0 ==> loc + count <= |Content()| && data == Content()[loc..loc + count]
      ensures Dependable() && loc < |Content()| && loc + count <= |Content()| ==> ok
      ensures sectCount != 0xffff_ffff_ffff_ffff && (loc >= sectCount * 512 || loc + count > sectCount * 512) ==> !ok
    {
      hide BlockStart, Holds, Placed, Content;
      data := [];
      if !Usable() { return false, []; }
      if sectCount != UNKNOWN && (loc >= sectCount * 512 || count > sectCount * 512 - loc) {
        ContentSize();
        return false, [];
      }
      assert BlockSize() > 0;
      ContentSize();
      var progress := 0;
      while progress < count
        invariant progress == |data| <= count
        invariant Valid()
        invariant progress > 0 ==> loc + progress <= |Content()| && data == Content()[loc..loc + progress]
      {
        var x := loc + progress;
        Locate(x, BlockSize());
        ok := CacheBlock(x / BlockSize());
        if !ok { return false, []; }
        var offset := x % BlockSize();
        var chunk := if count - progress > BlockSize() - offset then BlockSize() - offset else count - progress;
        var d := LoadChunk(x, offset, chunk);
        if progress > 0 { SliceJoin(Content(), loc, progress, chunk); }
        data := data + d;
        progress := progress + chunk;
      }
      ok := true;
    }
  }
}
