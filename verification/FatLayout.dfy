/**
 The FAT on-disk layout, written from the outside: how a table packs its entries and where clusters
 lie. What is laid out this way is what the loader reads (limine/common/fs/fat32.s2.c).
 */
module FatLayout {
  import opened Blocks
  import opened Bytes
  import opened Counting
  import opened FatChain
  import opened FatFile
  import V = Volume

  /** What a boot parameter block may say. */
  predicate Described(x: Context) {
    && x.bytesPerSector in {512, 1024, 2048, 4096} && 1 <= x.sectorsPerCluster <= 128
    && 1 <= x.sectorsPerFat <= 0xffff_ffff && x.fatStart <= 0xffff_ffff && x.dataStart <= 0xffff_ffff
  }

  // ---- The table -----------------------------------------------------------------------------------------

  /** Two entries of twelve bits in three bytes: the low byte of each at the ends, a nibble of each between. */
  function Packed12(a: nat, b: nat): seq<byte>
    requires a < 0x1000 && b < 0x1000
  {
    [a % 256, a / 256 + 16 * (b % 16), b / 16]
  }

  /** The bits of an entry that belong to it. */
  function EntryLimit(k: Kind): nat {
    match k case Fat12 => 0x1000 case Fat16 => 0x1_0000 case Fat32 => 0x1000_0000
  }

  /** Bytes `d` are at address `at`. */
  ghost predicate Stored(content: seq<byte>, at: nat, d: seq<byte>) {
    at + |d| <= |content| && content[at..at + |d|] == d
  }

  /**
   The table at `base` holds `v(c)` for every cluster number below `n`: twelve bits packed in pairs,
   two bytes, or four bytes whose top four bits are anybody's.
   */
  ghost predicate TableHolds(k: Kind, content: seq<byte>, base: nat, n: nat, v: nat -> nat) {
    && (forall c: nat :: c < n ==> v(c) < EntryLimit(k))
    && match k
       case Fat12 => forall m: nat :: 2 * m + 1 < n ==> v(2 * m) < 0x1000 && v(2 * m + 1) < 0x1000
                                                        && Stored(content, base + 3 * m, Packed12(v(2 * m), v(2 * m + 1)))
       case Fat16 => forall c: nat :: c < n ==> Stored(content, base + 2 * c, [v(c) % 256, v(c) / 256 % 256])
       case Fat32 => forall c: nat :: c < n ==> exists top: nat :: top < 16 && Stored(content, base + 4 * c, Le32(v(c) + 0x1000_0000 * top))
  }

  lemma PackedReadsBack(a: nat, b: nat, d: seq<byte>)
    requires a < 0x1000 && b < 0x1000 && d == Packed12(a, b)
    ensures Le(d[0..2]) % 0x1000 == a
    ensures Le(d[1..3]) / 0x10 == b
  {
    LeTwo(d[0..2]);
    LeTwo(d[1..3]);
  }

  lemma LeStep(d: seq<byte>)
    requires |d| > 0
    ensures Le(d) == d[0] as int + 256 * Le(d[1..])
    ensures |d| == 1 ==> Le(d) == d[0]
  {
    if |d| == 1 { assert d[1..] == []; }
  }

  lemma LeTwo(d: seq<byte>)
    requires |d| == 2
    ensures Le(d) == d[0] as int + 256 * d[1] as int
  {
    hide Le;
    LeStep(d);
    LeStep(d[1..]);
  }

  lemma LeFour(d: seq<byte>)
    requires |d| == 4
    ensures Le(d) == ReadLe32(d)
  {
    hide Le;
    LeStep(d);
    LeStep(d[1..]);
    LeTwo(d[2..]);
    assert d[1..][1..] == d[2..];
  }

  /** An entry as its bytes say. */
  lemma EntryFrom(x: Context, content: seq<byte>, c: nat, offset: nat, b: seq<byte>)
    requires offset == (match x.kind case Fat12 => c + c / 2 case Fat16 => 2 * c case Fat32 => 4 * c)
    requires |b| == (if x.kind.Fat32? then 4 else 2) && offset + |b| <= x.sectorsPerFat * x.bytesPerSector
    requires Stored(content, x.fatStart * x.bytesPerSector + offset, b)
    ensures Entry(x, content, c) == Some(match x.kind
                                         case Fat12 => if c % 2 == 0 then Le(b) % 0x1000 else Le(b) / 0x10
                                         case Fat16 => Le(b)
                                         case Fat32 => Le(b) % 0x1000_0000)
  {
    hide Le;
  }

  /** Every entry of a table in this layout is read back. */
  lemma TableReadsBack(x: Context, content: seq<byte>, n: nat, v: nat -> nat, c: nat)
    requires TableHolds(x.kind, content, x.fatStart * x.bytesPerSector, n, v)
    requires c < n && (x.kind.Fat12? ==> n % 2 == 0)
    requires x.kind.Fat12? ==> c + c / 2 + 2 <= x.sectorsPerFat * x.bytesPerSector
    requires x.kind.Fat16? ==> 2 * c + 2 <= x.sectorsPerFat * x.bytesPerSector
    requires x.kind.Fat32? ==> 4 * c + 4 <= x.sectorsPerFat * x.bytesPerSector
    ensures Entry(x, content, c) == Some(v(c))
  {
    hide Entry, Le, TableHolds;
    var base := x.fatStart * x.bytesPerSector;
    match x.kind
    case Fat12 =>
      Bytes12(content, base, n, v, c);
      EntryFrom(x, content, c, c + c / 2, content[base + (c + c / 2)..base + (c + c / 2) + 2]);
    case Fat16 =>
      var b := Bytes16(content, base, n, v, c);
      EntryFrom(x, content, c, 2 * c, b);
    case Fat32 =>
      var b := Bytes32(content, base, n, v, c);
      EntryFrom(x, content, c, 4 * c, b);
  }

  lemma Bytes16(content: seq<byte>, base: nat, n: nat, v: nat -> nat, c: nat) returns (b: seq<byte>)
    requires TableHolds(Fat16, content, base, n, v) && c < n
    ensures |b| == 2 && Stored(content, base + 2 * c, b) && Le(b) == v(c)
  {
    b := [v(c) % 256, v(c) / 256 % 256];
    LeTwo(b);
  }

  lemma Bytes32(content: seq<byte>, base: nat, n: nat, v: nat -> nat, c: nat) returns (b: seq<byte>)
    requires TableHolds(Fat32, content, base, n, v) && c < n
    ensures |b| == 4 && Stored(content, base + 4 * c, b) && Le(b) % 0x1000_0000 == v(c)
  {
    hide Le, Stored, Le32, ReadLe32;
    var top: nat :| top < 16 && Stored(content, base + 4 * c, Le32(v(c) + 0x1000_0000 * top));
    b := Le32(v(c) + 0x1000_0000 * top);
    LeFour(b);
    Le32RoundTrip(v(c) + 0x1000_0000 * top);
    assert (v(c) + 0x1000_0000 * top) % 0x1000_0000 == v(c);
  }

  /** The two bytes at an entry of twelve bits. */
  lemma Bytes12(content: seq<byte>, base: nat, n: nat, v: nat -> nat, c: nat)
    requires TableHolds(Fat12, content, base, n, v) && c < n && n % 2 == 0
    ensures base + (c + c / 2) + 2 <= |content|
    ensures var b := content[base + (c + c / 2)..base + (c + c / 2) + 2];
            v(c) == if c % 2 == 0 then Le(b) % 0x1000 else Le(b) / 0x10
  {
    var m, odd := c / 2, c % 2;
    assert 2 * m + 1 < n && c == 2 * m + odd && c + c / 2 == 3 * m + odd;
    var d := Packed12(v(2 * m), v(2 * m + 1));
    assert Stored(content, base + 3 * m, d);
    PackedReadsBack(v(2 * m), v(2 * m + 1), d);
    SliceOfSlice(content, base + 3 * m, 3, odd, 2);
  }

  // ---- Chains --------------------------------------------------------------------------------------------

  /** A cluster number rather than a free or an end mark, bad cluster or reserved value. */
  predicate InRange(k: Kind, c: nat) {
    2 <= c && match k case Fat12 => c <= 0xfef case Fat16 => c <= 0xffef case Fat32 => c <= 0xfff_ffef
  }

  /** The table links the clusters of `list` in order, and whatever follows the last is no cluster. */
  ghost predicate Links(k: Kind, list: seq<nat>, v: nat -> nat) {
    && list != [] && (forall i :: 0 <= i < |list| ==> InRange(k, list[i]))
    && (forall i :: 0 < i < |list| ==> v(list[i - 1]) == list[i])
    && !InRange(k, v(list[|list| - 1]))
  }

  /** The bytes of cluster `c`, the first of which is number 2, lie on the medium. */
  predicate Inside(x: Context, size: nat, c: nat) {
    c >= 2 && (x.dataStart + (c - 2) * x.sectorsPerCluster + x.sectorsPerCluster) * x.bytesPerSector <= size
  }

  /** A table and a list of clusters laid out for a loader to find. */
  ghost predicate LaidOut(x: Context, content: seq<byte>, n: nat, v: nat -> nat, list: seq<nat>) {
    && TableHolds(x.kind, content, x.fatStart * x.bytesPerSector, n, v) && Links(x.kind, list, v)
    && (x.kind.Fat12? ==> n % 2 == 0 && 3 * n <= 2 * x.sectorsPerFat * x.bytesPerSector)
    && (x.kind.Fat16? ==> 2 * n <= x.sectorsPerFat * x.bytesPerSector)
    && (x.kind.Fat32? ==> 4 * n <= x.sectorsPerFat * x.bytesPerSector)
    && (forall i :: 0 <= i < |list| ==> list[i] < n && Inside(x, |content|, list[i]))
  }

  /** A cluster whose bytes lie on the volume is within the readable limit, and none else. */
  lemma InsideIsReadable(x: Context, sectCount: u64, c: nat)
    requires ContextOk(x) && InRange(x.kind, c)
    ensures c <= ReadableLimit(x, sectCount) <==> sectCount == 0xffff_ffff_ffff_ffff || Inside(x, sectCount * 512, c)
  {
    if sectCount != V.UNKNOWN {
      var total, b, s := sectCount * 512, x.bytesPerSector, x.sectorsPerCluster;
      RoomFor(x.dataStart, s, b, total, c);
    }
  }

  /** `c - 1` clusters fit behind the data start exactly when the quotients say so. */
  lemma RoomFor(start: nat, s: nat, b: nat, total: nat, c: nat)
    requires s > 0 && b > 0 && c >= 2
    ensures (start + (c - 2) * s + s) * b <= total <==> total / b > start && c - 1 <= (total / b - start) / s
  {
    var sectors := total / b;
    var end := start + (c - 2) * s + s;
    assert end == start + (c - 1) * s by { Distribute(c - 2, 1, s); }
    ProductMonotone(1, c - 1, s);
    if end * b <= total {
      QuotientAtLeast(total, b, end);
      QuotientAtLeast(sectors - start, s, c - 1);
    }
    if sectors > start && c - 1 <= (sectors - start) / s {
      QuotientFits(sectors - start, s, c - 1);
      QuotientFits(total, b, end);
    }
  }

  /** A list that is laid out is a walk of the loader. */
  lemma LaidOutIsWalk(x: Context, content: seq<byte>, sectCount: u64, n: nat, v: nat -> nat, list: seq<nat>)
    requires ContextOk(x) && LaidOut(x, content, n, v, list)
    requires sectCount != V.UNKNOWN ==> |content| == sectCount * 512
    ensures IsWalk(x, content, ReadableLimit(x, sectCount), list[0], list)
  {
    hide Entry, TableHolds, ReadableLimit, Inside;
    forall i | 0 <= i < |list|
      ensures IsCluster(x.kind, list[i]) && list[i] <= ReadableLimit(x, sectCount) && Entry(x, content, list[i]) == Some(v(list[i]))
    {
      InsideIsReadable(x, sectCount, list[i]);
      InTableBytes(x, n, list[i]);
      TableReadsBack(x, content, n, v, list[i]);
    }
  }

  lemma InTableBytes(x: Context, n: nat, c: nat)
    requires c < n
    requires x.kind.Fat12? ==> n % 2 == 0 && 3 * n <= 2 * x.sectorsPerFat * x.bytesPerSector
    requires x.kind.Fat16? ==> 2 * n <= x.sectorsPerFat * x.bytesPerSector
    requires x.kind.Fat32? ==> 4 * n <= x.sectorsPerFat * x.bytesPerSector
    ensures x.kind.Fat12? ==> c + c / 2 + 2 <= x.sectorsPerFat * x.bytesPerSector
    ensures x.kind.Fat16? ==> 2 * c + 2 <= x.sectorsPerFat * x.bytesPerSector
    ensures x.kind.Fat32? ==> 4 * c + 4 <= x.sectorsPerFat * x.bytesPerSector
  {
    var size := x.sectorsPerFat * x.bytesPerSector;
    assert 2 * x.sectorsPerFat * x.bytesPerSector == 2 * size;
  }

  /**
   `cache_cluster_chain` of a list that is laid out is that list: clusters up to 0x100_0000 of them,
   within the readable part of a volume whose disk answers.
   */
  method ChainOfList(x: Context, vol: V.Volume, ghost n: nat, ghost v: nat -> nat, ghost list: seq<nat>, first: nat)
    returns (ok: bool, chain: array<nat>)
    requires Described(x) && vol.Valid() && vol.Dependable()
    requires LaidOut(x, vol.Content(), n, v, list) && first == list[0] && |list| <= 0x100_0000
    modifies vol, vol.cache
    ensures vol.Valid() && ok && fresh(chain) && chain[..] == list
  {
    hide LaidOut, IsWalk, ReadableLimit, V.Volume.Content;
    ghost var content, top := vol.Content(), ReadableLimit(x, vol.sectCount);
    vol.ContentSize();
    LaidOutIsWalk(x, content, vol.sectCount, n, v, list);
    ok, chain := CacheClusterChain(x, vol, first);
    WalkIsAccepted(x, content, top, first, list);
    OneWalk(x, content, top, first, chain[..], list);
  }

  lemma WalkIsAccepted(x: Context, content: seq<byte>, top: nat, first: nat, list: seq<nat>)
    requires IsWalk(x, content, top, first, list) && |list| <= 0x100_0000
    ensures IsCluster(x.kind, first) && HasChain(x, content, top, first)
  {
  }

  /** There is only one walk from a cluster. */
  lemma OneWalk(x: Context, content: seq<byte>, top: nat, start: nat, a: seq<nat>, b: seq<nat>)
    requires IsWalk(x, content, top, start, a) && IsWalk(x, content, top, start, b)
    ensures a == b
  {
    PathIsPrefix(x, content, top, a, b, |b|);
    PathIsPrefix(x, content, top, b, a, |a|);
  }

  // ---- Data ----------------------------------------------------------------------------------------------

  /** `data` in pieces of `size` bytes, the first cluster's at 0. */
  function PieceOf(data: seq<byte>, size: nat, c: nat): seq<byte>
    requires c >= 2 && (c - 2) * size + size <= |data|
  {
    data[(c - 2) * size..(c - 2) * size + size]
  }

  /** A cluster's data is its piece of what follows the sectors in front of the data area. */
  lemma ClusterIsPiece(x: Context, front: seq<byte>, data: seq<byte>, c: nat)
    requires |front| == x.dataStart * x.bytesPerSector && Inside(x, |front + data|, c)
    ensures var size := x.sectorsPerCluster * x.bytesPerSector;
            && (c - 2) * size + size <= |data| && OnMedium(x, front + data, c)
            && ClusterData(x, front + data, c) == PieceOf(data, size, c)
  {
    hide ClusterBase, ClusterBytes;
    var size := x.sectorsPerCluster * x.bytesPerSector;
    ClusterAddress(x, c);
    SliceBehind(front, data, (c - 2) * size, size);
  }

  lemma SliceBehind(front: seq<byte>, data: seq<byte>, at: nat, n: nat)
    requires at + n <= |data|
    ensures (front + data)[|front| + at..|front| + at + n] == data[at..at + n]
  {
  }

  lemma ClusterAddress(x: Context, c: nat)
    requires c >= 2
    ensures ClusterBase(x, c) == x.dataStart * x.bytesPerSector + (c - 2) * (x.sectorsPerCluster * x.bytesPerSector)
    ensures ClusterBytes(x) == x.sectorsPerCluster * x.bytesPerSector
    ensures (x.dataStart + (c - 2) * x.sectorsPerCluster + x.sectorsPerCluster) * x.bytesPerSector
            == x.dataStart * x.bytesPerSector + (c - 2) * (x.sectorsPerCluster * x.bytesPerSector)
               + x.sectorsPerCluster * x.bytesPerSector
  {
    var d, k, s, b := x.dataStart, c - 2, x.sectorsPerCluster, x.bytesPerSector;
    Distribute(d, k * s, b);
    Distribute(d + k * s, s, b);
    assert k * s * b == k * (s * b);
  }

  /** All of the list's clusters have their pieces in `data`. */
  ghost predicate Within(data: seq<byte>, size: nat, list: seq<nat>) {
    forall i :: 0 <= i < |list| ==> list[i] >= 2 && (list[i] - 2) * size + size <= |data|
  }

  ghost predicate IsPart(file: seq<byte>, loc: nat, count: nat, d: seq<byte>) {
    loc + count <= |file| && d == file[loc..loc + count]
  }

  /** The clusters' pieces, in the order of the list. */
  ghost function Gathered(data: seq<byte>, size: nat, list: seq<nat>): seq<byte>
    requires Within(data, size, list)
  {
    if list == [] then [] else Gathered(data, size, list[..|list| - 1]) + PieceOf(data, size, list[|list| - 1])
  }

  lemma {:induction false} ChainIsGathered(x: Context, front: seq<byte>, data: seq<byte>, list: seq<nat>)
    requires |front| == x.dataStart * x.bytesPerSector
    requires forall i :: 0 <= i < |list| ==> Inside(x, |front + data|, list[i])
    ensures Within(data, x.sectorsPerCluster * x.bytesPerSector, list)
    ensures AllOnMedium(x, front + data, list)
    ensures ChainData(x, front + data, list) == Gathered(data, x.sectorsPerCluster * x.bytesPerSector, list)
    decreases |list|
  {
    hide OnMedium, ClusterData, Inside, PieceOf;
    var size := x.sectorsPerCluster * x.bytesPerSector;
    forall i | 0 <= i < |list|
      ensures list[i] >= 2 && (list[i] - 2) * size + size <= |data| && OnMedium(x, front + data, list[i])
    {
      InsideIsLow(x, |front + data|, list[i]);
      ClusterIsPiece(x, front, data, list[i]);
    }
    if list != [] {
      var m := |list| - 1;
      ChainIsGathered(x, front, data, list[..m]);
      ClusterIsPiece(x, front, data, list[m]);
    }
  }

  lemma InsideIsLow(x: Context, size: nat, c: nat)
    requires Inside(x, size, c)
    ensures c >= 2
  {
  }

  /**
   A file laid out in the table and the data area is found and read: the chain is exactly its list of
   clusters, and any part of it is that part of their bytes put together.
   */
  method ReadLaidOut(x: Context, vol: V.Volume, ghost n: nat, ghost v: nat -> nat, ghost list: seq<nat>,
                     ghost front: seq<byte>, ghost data: seq<byte>, first: nat, size: nat, loc: nat, count: nat)
    returns (got: Option<seq<byte>>)
    requires Described(x) && vol.Valid() && vol.Dependable()
    requires LaidOut(x, vol.Content(), n, v, list) && first == list[0] && |list| <= 0x100_0000
    requires vol.Content() == front + data && |front| == x.dataStart * x.bytesPerSector
    requires size <= |list| * (x.sectorsPerCluster * x.bytesPerSector) && loc + count <= size
    modifies vol, vol.cache
    ensures vol.Valid() && got.Some?
    ensures Within(data, x.sectorsPerCluster * x.bytesPerSector, list)
    ensures IsPart(Gathered(data, x.sectorsPerCluster * x.bytesPerSector, list), loc, count, got.value)
  {
    hide LaidOut, IsWalk, ChainData, Gathered, ReadableLimit, V.Volume.Content;
    ghost var content, top := vol.Content(), ReadableLimit(x, vol.sectCount);
    vol.ContentSize();
    ListIsInside(x, content, n, v, list);
    ChainIsGathered(x, front, data, list);
    LaidOutIsWalk(x, content, vol.sectCount, n, v, list);
    BlockStartIsProduct(|list|, ClusterBytes(x));
    assert |ChainData(x, content, list)| == BlockStart(|list|, ClusterBytes(x));
    if size == 0 {
      return Some([]);
    }
    var h := Open(x, vol, first, size);
    if h == null {
      assert false;
    }
    OneWalk(x, content, top, first, h.chain[..], list);
    got := h.Fread(loc, count);
  }

  lemma ListIsInside(x: Context, content: seq<byte>, n: nat, v: nat -> nat, list: seq<nat>)
    requires LaidOut(x, content, n, v, list)
    ensures list != [] && forall i :: 0 <= i < |list| ==> Inside(x, |content|, list[i])
  {
  }
}
