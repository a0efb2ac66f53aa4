/**
 Files of the FAT file systems (limine/common/fs/fat32.s2.c, limine/common/fs/file.s2.c): reading
 any part of a file through its cluster chain, the volume cache underneath and the bounds checks
 in front.
 */
module FatFile {
  import opened Blocks
  import opened Bytes
  import opened FatChain
  import V = Volume

  function ClusterBytes(x: Context): nat { x.sectorsPerCluster * x.bytesPerSector }

  /** Where the data of cluster `c` starts in the volume. */
  function ClusterBase(x: Context, c: nat): nat
    requires c >= 2
  {
    (x.dataStart + (c - 2) * x.sectorsPerCluster) * x.bytesPerSector
  }

  ghost predicate OnMedium(x: Context, content: seq<byte>, c: nat) {
    c >= 2 && ClusterBase(x, c) + ClusterBytes(x) <= |content|
  }

  /** The data of one cluster. */
  ghost function ClusterData(x: Context, content: seq<byte>, c: nat): (d: seq<byte>)
    requires OnMedium(x, content, c)
    ensures |d| == ClusterBytes(x)
  {
    content[ClusterBase(x, c)..ClusterBase(x, c) + ClusterBytes(x)]
  }

  ghost predicate AllOnMedium(x: Context, content: seq<byte>, chain: seq<nat>) {
    forall i :: 0 <= i < |chain| ==> OnMedium(x, content, chain[i])
  }

  /** The clusters of a chain, one after the other. */
  ghost function ChainData(x: Context, content: seq<byte>, chain: seq<nat>): (d: seq<byte>)
    requires AllOnMedium(x, content, chain)
    ensures |d| == BlockStart(|chain|, ClusterBytes(x))
  {
    if chain == [] then []
    else ChainData(x, content, chain[..|chain| - 1]) + ClusterData(x, content, chain[|chain| - 1])
  }

  /** Block `k` of the chain's data is the data of its cluster. */
  lemma {:induction false} ChainDataAt(x: Context, content: seq<byte>, chain: seq<nat>, k: nat)
    requires AllOnMedium(x, content, chain) && k < |chain|
    ensures BlockStart(k, ClusterBytes(x)) + ClusterBytes(x) <= |ChainData(x, content, chain)|
    ensures ChainData(x, content, chain)[BlockStart(k, ClusterBytes(x))..BlockStart(k, ClusterBytes(x)) + ClusterBytes(x)]
            == ClusterData(x, content, chain[k])
    decreases |chain|
  {
    hide OnMedium, ClusterData;
    var m, cb := |chain| - 1, ClusterBytes(x);
    var front := ChainData(x, content, chain[..m]);
    if k < m {
      BlockStartMonotone(k, m, cb);
      ChainDataAt(x, content, chain[..m], k);
      var at := BlockStart(k, cb);
      assert ChainData(x, content, chain)[at..at + cb] == front[at..at + cb];
    }
  }

  /** A cluster within the readable limit lies on the volume. */
  lemma ReadableIsOnMedium(x: Context, content: seq<byte>, sectCount: u64, c: nat)
    requires ContextOk(x) && sectCount != V.UNKNOWN && |content| == sectCount * 512
    requires 2 <= c <= ReadableLimit(x, sectCount)
    ensures OnMedium(x, content, c)
  {
    ClusterEnds(x.dataStart, x.sectorsPerCluster, x.bytesPerSector, sectCount * 512, c);
  }

  /** With `c - 1` whole clusters' room behind the data start, cluster `c` ends within `total` bytes. */
  lemma ClusterEnds(start: nat, s: nat, b: nat, total: nat, c: nat)
    requires s > 0 && b > 0 && c >= 2
    requires total / b > start && c - 1 <= (total / b - start) / s
    ensures (start + (c - 2) * s) * b + s * b <= total
  {
    var sectors := total / b;
    var room := (sectors - start) / s;
    QuotientFits(sectors - start, s, c - 1);
    Distribute(c - 2, 1, s);
    QuotientFits(total, b, start + (c - 2) * s + s);
    Distribute(start + (c - 2) * s, s, b);
  }

  /** All clusters of a kept chain lie on a volume of known size. */
  lemma WalkIsOnMedium(x: Context, content: seq<byte>, sectCount: u64, start: nat, w: seq<nat>)
    requires ContextOk(x) && sectCount != V.UNKNOWN && |content| == sectCount * 512
    requires IsWalk(x, content, ReadableLimit(x, sectCount), start, w)
    ensures AllOnMedium(x, content, w)
  {
    forall i | 0 <= i < |w| ensures OnMedium(x, content, w[i]) {
      ReadableIsOnMedium(x, content, sectCount, w[i]);
    }
  }

  lemma ClusterBaseFits(x: Context, c: nat)
    requires ContextOk(x) && 2 <= c < 0x1_0000_0000
    ensures ClusterBase(x, c) + ClusterBytes(x) < 0x1_0000_0000_0000_0000
    ensures 0 < ClusterBytes(x) <= 0x8_0000
  {
    BaseFits(x.dataStart, c - 2, x.sectorsPerCluster, x.bytesPerSector);
    ProductMonotone(1, x.sectorsPerCluster, x.bytesPerSector);
  }

  lemma BaseFits(start: nat, k: nat, s: nat, b: nat)
    requires start < 0x1_0000_0000 && k < 0x1_0000_0000 && s <= 128 && b <= 4096
    ensures (start + k * s) * b <= 0x81_0000_0000 * 4096 && s * b <= 128 * 4096
  {
    ProductMonotone(k, 0x1_0000_0000, s);
    var sectors := start + k * s;
    assert sectors <= 0x81_0000_0000;
    ProductMonotone(sectors, 0x81_0000_0000, b);
    ProductMonotone(s, 128, b);
  }

  // ---- Bytes of a chain --------------------------------------------------------------------------------

  /** Byte `k` of a chain, as far as its cluster reaches onto the medium. */
  ghost function ByteAt(x: Context, content: seq<byte>, chain: seq<nat>, k: nat): Option<byte> {
    if ClusterBytes(x) == 0 || k / ClusterBytes(x) >= |chain| || chain[k / ClusterBytes(x)] < 2 then None
    else
      var at := ClusterBase(x, chain[k / ClusterBytes(x)]) + k % ClusterBytes(x);
      if at < |content| then Some(content[at]) else None
  }

  /** `d` is what the chain holds from byte `at` on. */
  ghost predicate Holds(x: Context, content: seq<byte>, chain: seq<nat>, at: nat, d: seq<byte>) {
    forall i: nat :: i < |d| ==> ByteAt(x, content, chain, at + i) == Some(d[i])
  }

  /** An address has one block and one offset. */
  lemma OneBlock(k: nat, block: nat, offset: nat, size: nat)
    requires offset < size && k == BlockStart(block, size) + offset
    ensures k / size == block && k % size == offset
  {
    Locate(k, size);
    if k / size < block { BlockStartMonotone(k / size, block, size); }
    if k / size > block { BlockStartMonotone(block, k / size, size); }
  }

  /** A stretch of a cluster is what the chain holds there. */
  lemma PieceHolds(x: Context, content: seq<byte>, chain: seq<nat>, block: nat, offset: nat, d: seq<byte>)
    requires block < |chain| && chain[block] >= 2 && offset + |d| <= ClusterBytes(x)
    requires ClusterBase(x, chain[block]) + offset + |d| <= |content|
    requires d == content[ClusterBase(x, chain[block]) + offset..ClusterBase(x, chain[block]) + offset + |d|]
    ensures Holds(x, content, chain, BlockStart(block, ClusterBytes(x)) + offset, d)
  {
    hide ClusterBase, BlockStart, ClusterBytes;
    var at := BlockStart(block, ClusterBytes(x)) + offset;
    forall i: nat | i < |d| ensures ByteAt(x, content, chain, at + i) == Some(d[i]) {
      OneBlock(at + i, block, offset + i, ClusterBytes(x));
    }
  }

  lemma HoldsMore(x: Context, content: seq<byte>, chain: seq<nat>, at: nat, a: seq<byte>, b: seq<byte>)
    requires Holds(x, content, chain, at, a) && Holds(x, content, chain, at + |a|, b)
    ensures Holds(x, content, chain, at, a + b)
  {
    hide ByteAt;
    forall i: nat | i < |a + b| ensures ByteAt(x, content, chain, at + i) == Some((a + b)[i]) {
      if i >= |a| { assert ByteAt(x, content, chain, at + |a| + (i - |a|)) == Some(b[i - |a|]); }
    }
  }

  /** On a chain that lies on the medium these are the bytes of the concatenated clusters. */
  lemma HeldIsChainData(x: Context, content: seq<byte>, chain: seq<nat>, at: nat, d: seq<byte>)
    requires AllOnMedium(x, content, chain) && Holds(x, content, chain, at, d) && d != []
    ensures at + |d| <= |ChainData(x, content, chain)|
    ensures d == ChainData(x, content, chain)[at..at + |d|]
  {
    hide ByteAt, ChainData, OnMedium;
    forall i: nat | i < |d|
      ensures at + i < |ChainData(x, content, chain)| && ChainData(x, content, chain)[at + i] == d[i]
    {
      assert ByteAt(x, content, chain, at + i) == Some(d[i]);
      ByteOfData(x, content, chain, at + i);
    }
    var last := |d| - 1;
    assert ByteAt(x, content, chain, at + last) == Some(d[last]);
    ByteOfData(x, content, chain, at + last);
  }

  lemma ByteOfData(x: Context, content: seq<byte>, chain: seq<nat>, k: nat)
    requires AllOnMedium(x, content, chain) && ByteAt(x, content, chain, k).Some?
    ensures k < |ChainData(x, content, chain)|
    ensures ByteAt(x, content, chain, k) == Some(ChainData(x, content, chain)[k])
  {
    hide ChainData, OnMedium, BlockStart, ClusterBase, ClusterBytes;
    var cb := ClusterBytes(x);
    var block, offset := k / cb, k % cb;
    Locate(k, cb);
    ChainDataAt(x, content, chain, block);
    var file, start, base := ChainData(x, content, chain), BlockStart(block, cb), ClusterBase(x, chain[block]);
    assert file[start..start + cb][offset] == file[start + offset];
    assert OnMedium(x, content, chain[block]);
    ClusterDataAt(x, content, chain[block], offset);
  }

  lemma ClusterDataAt(x: Context, content: seq<byte>, c: nat, offset: nat)
    requires OnMedium(x, content, c) && offset < ClusterBytes(x)
    ensures ClusterBase(x, c) + offset < |content| && ClusterData(x, content, c)[offset] == content[ClusterBase(x, c) + offset]
  {
  }

  // ---- Reading -----------------------------------------------------------------------------------------

  /** One piece of the reading loop: from `at` to the end of its cluster, at most `limit` bytes. */
  method ReadPiece(x: Context, vol: V.Volume, chain: seq<nat>, at: nat, limit: nat)
    returns (ok: bool, d: seq<byte>)
    requires ContextOk(x) && vol.Valid() && limit > 0
    requires forall i :: 0 <= i < |chain| ==> chain[i] < 0x1_0000_0000
    modifies vol, vol.cache
    ensures vol.Valid()
    ensures ok ==> 0 < |d| <= limit && Holds(x, vol.Content(), chain, at, d)
    ensures vol.Dependable() && AllOnMedium(x, vol.Content(), chain) && at < BlockStart(|chain|, ClusterBytes(x)) ==> ok
  {
    hide BlockStart, V.Volume.Content, ClusterBase, Holds;
    d := [];
    var blockSize := ClusterBytes(x);
    ClusterBaseFits(x, 2);
    var block, offset := at / blockSize, at % blockSize;
    Locate(at, blockSize);
    if block >= |chain| {
      BlockStartMonotone(|chain|, block, blockSize);
      return false, [];
    }
    var cluster := chain[block];
    if cluster < 2 { return false, []; }
    var chunk := if limit > blockSize - offset then blockSize - offset else limit;
    ClusterBaseFits(x, cluster);
    ok, d := vol.Read(ClusterBase(x, cluster) + offset, chunk);
    if !ok { return false, []; }
    PieceHolds(x, vol.Content(), chain, block, offset, d);
  }

  /** `read_cluster_chain`. */
  method ReadClusterChain(x: Context, vol: V.Volume, chain: seq<nat>, loc: nat, count: nat)
    returns (ok: bool, data: seq<byte>)
    requires ContextOk(x) && vol.Valid()
    requires forall i :: 0 <= i < |chain| ==> chain[i] < 0x1_0000_0000
    modifies vol, vol.cache
    ensures vol.Valid()
    ensures ok ==> |data| == count && Holds(x, vol.Content(), chain, loc, data)
    ensures ok && count > 0 && AllOnMedium(x, vol.Content(), chain) ==>
              loc + count <= BlockStart(|chain|, ClusterBytes(x))
              && data == ChainData(x, vol.Content(), chain)[loc..loc + count]
    ensures vol.Dependable() && AllOnMedium(x, vol.Content(), chain) && loc + count <= BlockStart(|chain|, ClusterBytes(x)) ==> ok
  {
    hide ChainData, BlockStart, V.Volume.Content, OnMedium, AllOnMedium, Holds;
    data := [];
    var progress := 0;
    NothingHeld(x, vol.Content(), chain, loc);
    while progress < count
      invariant progress == |data| <= count
      invariant vol.Valid()
      invariant Holds(x, vol.Content(), chain, loc, data)
    {
      var read, d := ReadPiece(x, vol, chain, loc + progress, count - progress);
      if !read { return false, []; }
      HoldsMore(x, vol.Content(), chain, loc, data, d);
      data := data + d;
      progress := progress + |d|;
    }
    ok := true;
    if count > 0 && AllOnMedium(x, vol.Content(), chain) { HeldIsChainData(x, vol.Content(), chain, loc, data); }
  }

  lemma NothingHeld(x: Context, content: seq<byte>, chain: seq<nat>, at: nat)
    ensures Holds(x, content, chain, at, [])
  {
  }

  /** An open file: its chain, if it has one, covers its size. */
  class FileHandle {
    const x: Context
    const vol: V.Volume
    const chain: array<nat>
    const size: nat

    ghost predicate Valid()
      reads vol, vol.cache, chain
    {
      && ContextOk(x) && vol.Valid()
      && (forall i :: 0 <= i < chain.Length ==> chain[i] < 0x1_0000_0000)
      && size <= BlockStart(chain.Length, ClusterBytes(x))
    }

    /** All of the file's clusters lie on the medium. */
    ghost predicate Whole()
      requires Valid()
      reads vol, vol.cache, chain
    {
      AllOnMedium(x, vol.Content(), chain[..])
    }

    /** The file's bytes: its clusters in order, cut to its size. */
    ghost function Contents(): (d: seq<byte>)
      requires Valid() && Whole()
      reads vol, vol.cache, chain
      ensures |d| == size
    {
      ChainData(x, vol.Content(), chain[..])[..size]
    }

    constructor (x: Context, vol: V.Volume, chain: array<nat>, size: nat)
      ensures this.x == x && this.vol == vol && this.chain == chain && this.size == size
    {
      this.x, this.vol, this.chain, this.size := x, vol, chain, size;
    }

    /**
     `fread` in front of `fat32_read`; `None` is a panic. Out-of-bounds reads panic; any other read
     returns exactly the bytes the chain holds there, and while the file is whole and sectors can be
     read it does not panic, whatever reads came before.
     */
    method Fread(loc: nat, count: nat) returns (r: Option<seq<byte>>)
      requires Valid()
      modifies vol, vol.cache
      ensures Valid()
      ensures r.Some? ==> loc + count <= size && |r.value| == count && Holds(x, vol.Content(), chain[..], loc, r.value)
      ensures r.Some? && Whole() ==> r.value == Contents()[loc..loc + count]
      ensures vol.Dependable() && Whole() ==> (r.Some? <==> loc + count <= size)
    {
      hide ChainData, BlockStart, V.Volume.Content, OnMedium, AllOnMedium, Holds;
      if loc > size || count > size - loc { return None; }
      var ok, data := ReadClusterChain(x, vol, chain[..], loc, count);
      if !ok { return None; }
      if count == 0 && Whole() { assert data == Contents()[loc..loc]; }
      return Some(data);
    }
  }

  /**
   The end of `fat32_open`, for the directory entry's first cluster and size: a file is accepted
   exactly when its chain, or no chain for an empty file, covers its size. On a volume of known size
   an accepted file is whole.
   */
  method Open(x: Context, vol: V.Volume, first: nat, size: nat) returns (h: FileHandle?)
    requires ContextOk(x) && vol.Valid()
    modifies vol, vol.cache
    ensures vol.Valid()
    ensures h != null ==> fresh(h) && fresh(h.chain) && h.Valid() && h.x == x && h.vol == vol && h.size == size
    ensures h != null && vol.sectCount != V.UNKNOWN ==> h.Whole()
    ensures size == 0 ==> h != null
    ensures h != null && size > 0 ==>
              IsWalk(x, vol.Content(), ReadableLimit(x, vol.sectCount), first, h.chain[..])
    ensures vol.Dependable() && size > 0 && (h == null) ==>
              forall w :: IsWalk(x, vol.Content(), ReadableLimit(x, vol.sectCount), first, w) && |w| <= MAX_CHAIN ==>
                size > BlockStart(|w|, ClusterBytes(x))
  {
    hide IsWalk, ChainData, V.Volume.Content, OnMedium, ReadableLimit;
    var found, chain := CacheClusterChain(x, vol, first);
    if size > BlockStart(chain.Length, ClusterBytes(x)) {
      if vol.Dependable() { Refused(x, vol.Content(), ReadableLimit(x, vol.sectCount), first, found, chain[..], size); }
      return null;
    }
    if found {
      if vol.sectCount != V.UNKNOWN {
        vol.ContentSize();
        WalkIsOnMedium(x, vol.Content(), vol.sectCount, first, chain[..]);
      }
      WalkNumbersFit(x, vol.Content(), ReadableLimit(x, vol.sectCount), first, chain[..]);
    }
    h := new FileHandle(x, vol, chain, size);
  }

  lemma WalkNumbersFit(x: Context, content: seq<byte>, top: nat, start: nat, w: seq<nat>)
    requires IsWalk(x, content, top, start, w)
    ensures forall i :: 0 <= i < |w| ==> w[i] < 0x1_0000_0000
  {
  }

  /** A refused file has no chain that would have covered it. */
  lemma Refused(x: Context, content: seq<byte>, top: nat, first: nat, found: bool, chain: seq<nat>, size: nat)
    requires found ==> IsWalk(x, content, top, first, chain)
    requires !found ==> !(IsCluster(x.kind, first) && HasChain(x, content, top, first))
    requires size > BlockStart(|chain|, ClusterBytes(x))
    ensures forall w :: IsWalk(x, content, top, first, w) && |w| <= MAX_CHAIN ==> size > BlockStart(|w|, ClusterBytes(x))
  {
    forall w | IsWalk(x, content, top, first, w) && |w| <= MAX_CHAIN ensures size > BlockStart(|w|, ClusterBytes(x)) {
      assert IsCluster(x.kind, w[0]);
      if found {
        PathIsPrefix(x, content, top, w, chain, |chain|);
        PathIsPrefix(x, content, top, chain, w, |w|);
      }
    }
  }
}
