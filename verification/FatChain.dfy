/**
 Cluster chains of the FAT file systems (limine/common/fs/fat32.s2.c): reading table entries,
 walking a chain, and the bounds that reject a chain which never ends.
 */
module FatChain {
  import opened Bytes
  import opened Counting
  import V = Volume

  datatype Kind = Fat12 | Fat16 | Fat32

  datatype Context = Context(kind: Kind, bytesPerSector: nat, sectorsPerCluster: nat,
                             sectorsPerFat: nat, fatStart: nat, dataStart: nat)

  /** What `fat32_init_context` has checked, and the widths of the fields. */
  predicate ContextOk(c: Context) {
    && c.bytesPerSector in {512, 1024, 2048, 4096}
    && 1 <= c.sectorsPerCluster <= 128
    && 1 <= c.sectorsPerFat < 0x1_0000_0000
    && c.fatStart < 0x1_0000_0000 && c.dataStart < 0x1_0000_0000
  }

  /** The largest number that is a cluster rather than an end mark. */
  function ClusterLimit(k: Kind): nat {
    match k case Fat12 => 0xfef case Fat16 => 0xffef case Fat32 => 0xfff_ffef
  }

  predicate IsCluster(k: Kind, c: nat) {
    2 <= c <= ClusterLimit(k)
  }

  // ---- Table entries -------------------------------------------------------------------------

  function EntryOffset(k: Kind, c: nat): nat {
    match k case Fat12 => c + c / 2 case Fat16 => 2 * c case Fat32 => 4 * c
  }

  function EntrySize(k: Kind): nat {
    match k case Fat12 => 2 case Fat16 => 2 case Fat32 => 4
  }

  function Le(b: seq<byte>): nat {
    if b == [] then 0 else b[0] as int + 256 * Le(b[1..])
  }

  /** The next cluster number in the entry's bytes: twelve, sixteen or twenty-eight bits of them. */
  function EntryValue(k: Kind, c: nat, b: seq<byte>): nat {
    match k
    case Fat12 => if c % 2 == 0 then Le(b) % 0x1000 else Le(b) / 0x10
    case Fat16 => Le(b)
    case Fat32 => Le(b) % 0x1000_0000
  }

  function FatSize(x: Context): nat { x.sectorsPerFat * x.bytesPerSector }
  function FatBase(x: Context): nat { x.fatStart * x.bytesPerSector }

  /** The entry of cluster `c` in a volume's bytes, if the table and the volume reach that far. */
  ghost function Entry(x: Context, content: seq<byte>, c: nat): Option<nat> {
    var at := FatBase(x) + EntryOffset(x.kind, c);
    var n := EntrySize(x.kind);
    if EntryOffset(x.kind, c) + n > FatSize(x) || at + n > |content| then None
    else Some(EntryValue(x.kind, c, content[at..at + n]))
  }

  lemma FatFits(x: Context)
    requires ContextOk(x)
    ensures FatBase(x) < 0x1000_0000_0000 && FatSize(x) < 0x1000_0000_0000
  {
  }

  /** `read_cluster_from_map`. */
  method ReadEntry(x: Context, vol: V.Volume, c: nat) returns (r: Option<nat>)
    requires ContextOk(x) && vol.Valid()
    modifies vol, vol.cache
    ensures vol.Valid()
    ensures r.Some? ==> r == Entry(x, vol.Content(), c)
    ensures vol.Dependable() ==> r == Entry(x, vol.Content(), c)
  {
    hide EntryValue, V.Volume.Content;
    var offset, n := EntryOffset(x.kind, c), EntrySize(x.kind);
    FatFits(x);
    if offset + n > FatSize(x) { return None; }
    var ok, b := vol.Read(FatBase(x) + offset, n);
    if !ok { return None; }
    return Some(EntryValue(x.kind, c, b));
  }

  // ---- Walks ---------------------------------------------------------------------------------

  /** Consecutive clusters are linked by the table. */
  ghost predicate IsPath(x: Context, content: seq<byte>, path: seq<nat>) {
    && path != []
    && (forall i :: 0 <= i < |path| ==> IsCluster(x.kind, path[i]))
    && (forall i :: 0 < i < |path| ==> Entry(x, content, path[i - 1]) == Some(path[i]))
  }

  /** A path all of whose clusters are at most `top` and whose last entry is an end mark. */
  ghost predicate IsWalk(x: Context, content: seq<byte>, top: nat, start: nat, w: seq<nat>) {
    && IsPath(x, content, w) && w[0] == start
    && (forall i :: 0 <= i < |w| ==> w[i] <= top)
    && Entry(x, content, w[|w| - 1]).Some? && !IsCluster(x.kind, Entry(x, content, w[|w| - 1]).value)
  }

  /** A path from the start of a walk is a prefix of it. */
  lemma {:induction false} PathIsPrefix(x: Context, content: seq<byte>, top: nat, w: seq<nat>, path: seq<nat>, n: nat)
    requires IsPath(x, content, path) && IsWalk(x, content, top, path[0], w)
    requires 0 < n <= |path|
    ensures n <= |w| && w[..n] == path[..n]
    decreases n
  {
    if n > 1 {
      PathIsPrefix(x, content, top, w, path, n - 1);
      assert w[n - 2] == w[..n - 1][n - 2] == path[..n - 1][n - 2] == path[n - 2];
      assert Entry(x, content, path[n - 2]) == Some(path[n - 1]);
      assert IsCluster(x.kind, path[n - 1]);
      assert w[..n] == w[..n - 1] + [w[n - 1]];
    }
  }

  /** If a walk met a cluster twice it would go round for ever. */
  lemma {:induction false} NoRepeat(x: Context, content: seq<byte>, top: nat, start: nat, w: seq<nat>, i: nat, j: nat)
    requires IsWalk(x, content, top, start, w) && i < j < |w|
    ensures w[i] != w[j]
    decreases |w| - j
  {
    assert Entry(x, content, w[i + 1 - 1]) == Some(w[i + 1]);
    if j + 1 < |w| {
      assert Entry(x, content, w[j + 1 - 1]) == Some(w[j + 1]);
      NoRepeat(x, content, top, start, w, i + 1, j + 1);
    }
  }

  /** The clusters of a walk are pairwise distinct. */
  lemma WalkIsAcyclic(x: Context, content: seq<byte>, top: nat, start: nat, w: seq<nat>)
    requires IsWalk(x, content, top, start, w)
    ensures Distinct(w)
  {
    forall i, j | 0 <= i < j < |w| ensures w[i] != w[j] { NoRepeat(x, content, top, start, w, i, j); }
  }

  /** Entries the table has room for. */
  function FatEntries(x: Context): nat {
    match x.kind
    case Fat12 => FatSize(x) * 2 / 3
    case Fat16 => FatSize(x) / 2
    case Fat32 => FatSize(x) / 4
  }

  /** A cluster with an entry has a number below the count of entries. */
  lemma EntryInTable(x: Context, content: seq<byte>, c: nat)
    requires Entry(x, content, c).Some?
    ensures c < FatEntries(x)
  {
  }

  /** Pigeonhole: no walk is longer than the cluster numbers, or the table entries, there are. */
  lemma WalkIsBounded(x: Context, content: seq<byte>, top: nat, start: nat, w: seq<nat>)
    requires IsWalk(x, content, top, start, w)
    ensures |w| <= ClusterLimit(x.kind) - 1
    ensures |w| <= FatEntries(x)
  {
    WalkIsAcyclic(x, content, top, start, w);
    Pigeonhole(w, Below(ClusterLimit(x.kind) + 1) - {0, 1});
    forall i | 0 <= i < |w| ensures w[i] < FatEntries(x) {
      assert i + 1 < |w| ==> Entry(x, content, w[i + 1 - 1]) == Some(w[i + 1]);
      EntryInTable(x, content, w[i]);
    }
    Pigeonhole(w, Below(FatEntries(x)));
  }

  // ---- cache_cluster_chain -------------------------------------------------------------------

  /** 64 MiB of 32-bit cluster numbers. */
  const MAX_CHAIN: nat := 0x100_0000

  /** The bound on the walk's length. */
  function MaxClusters(x: Context): nat {
    var byNumber := ClusterLimit(x.kind) - 1;
    var capped := if byNumber > MAX_CHAIN then MAX_CHAIN else byNumber;
    if FatEntries(x) < capped then FatEntries(x) else capped
  }

  /** It is the largest that neither the numbers, nor 64 MiB, nor the table's bytes rule out. */
  lemma BoundIs(x: Context, n: nat)
    ensures n <= MaxClusters(x) <==>
              && n <= 0x100_0000
              && (x.kind.Fat12? ==> n <= 0xfee && 3 * n <= 2 * (x.sectorsPerFat * x.bytesPerSector))
              && (x.kind.Fat16? ==> n <= 0xffee && 2 * n <= x.sectorsPerFat * x.bytesPerSector)
              && (x.kind.Fat32? ==> n <= 0xfff_ffee && 4 * n <= x.sectorsPerFat * x.bytesPerSector)
  {
    var size := x.sectorsPerFat * x.bytesPerSector;
    assert FatSize(x) * 2 == 2 * size;
  }

  /** The highest cluster whose data the volume can hold. */
  function ReadableLimit(x: Context, sectCount: u64): nat
    requires ContextOk(x)
  {
    if sectCount == V.UNKNOWN then ClusterLimit(x.kind)
    else
      var sectors := sectCount * 512 / x.bytesPerSector;
      var clusters := if sectors > x.dataStart then (sectors - x.dataStart) / x.sectorsPerCluster else 0;
      if clusters + 1 < ClusterLimit(x.kind) then clusters + 1 else ClusterLimit(x.kind)
  }

  /** Some walk from `start` is short enough to be kept. */
  ghost predicate HasChain(x: Context, content: seq<byte>, top: nat, start: nat) {
    exists w :: IsWalk(x, content, top, start, w) && |w| <= MAX_CHAIN
  }

  /** A path beyond the bound rules out every chain that could be kept. */
  lemma TooLong(x: Context, content: seq<byte>, top: nat, path: seq<nat>)
    requires IsPath(x, content, path) && |path| > MaxClusters(x)
    ensures !HasChain(x, content, top, path[0])
  {
    forall w | IsWalk(x, content, top, path[0], w) ensures |w| > MAX_CHAIN {
      PathIsPrefix(x, content, top, w, path, |path|);
      WalkIsBounded(x, content, top, path[0], w);
    }
  }

  /** A walk passes over every cluster of a path from its start. */
  lemma WalkPasses(x: Context, content: seq<byte>, top: nat, path: seq<nat>, w: seq<nat>)
    requires IsPath(x, content, path) && IsWalk(x, content, top, path[0], w)
    ensures path[|path| - 1] <= top && Entry(x, content, path[|path| - 1]).Some?
  {
    var n := |path|;
    PathIsPrefix(x, content, top, w, path, n);
    assert w[n - 1] == w[..n][n - 1] == path[..n][n - 1];
    assert n < |w| ==> Entry(x, content, w[n - 1]) == Some(w[n]);
  }

  /** A path that runs into an unreadable cluster or entry rules out every walk. */
  lemma DeadEnd(x: Context, content: seq<byte>, top: nat, path: seq<nat>)
    requires IsPath(x, content, path)
    requires path[|path| - 1] > top || Entry(x, content, path[|path| - 1]).None?
    ensures !HasChain(x, content, top, path[0])
  {
    forall w | IsWalk(x, content, top, path[0], w) ensures false {
      WalkPasses(x, content, top, path, w);
    }
  }

  lemma PathGrows(x: Context, content: seq<byte>, path: seq<nat>, c: nat)
    requires IsPath(x, content, path) && IsCluster(x.kind, c)
    requires Entry(x, content, path[|path| - 1]) == Some(c)
    ensures IsPath(x, content, path + [c])
  {
    hide Entry;
    var p := path + [c];
    forall i | 0 < i < |p| ensures Entry(x, content, p[i - 1]) == Some(p[i]) {
      if i < |path| { assert Entry(x, content, path[i - 1]) == Some(path[i]); }
    }
  }

  /** The counting pass: how long the walk is, if it ends. */
  method CountChain(x: Context, vol: V.Volume, start: nat) returns (ok: bool, ghost w: seq<nat>, length: nat)
    requires ContextOk(x) && vol.Valid() && IsCluster(x.kind, start)
    modifies vol, vol.cache
    ensures vol.Valid()
    ensures ok ==> length == |w| <= MaxClusters(x)
    ensures ok ==> IsWalk(x, vol.Content(), ReadableLimit(x, vol.sectCount), start, w)
    ensures vol.Dependable() && !ok ==> !HasChain(x, vol.Content(), ReadableLimit(x, vol.sectCount), start)
  {
    hide Entry, ReadableLimit, V.Volume.Content, MaxClusters;
    var max := MaxClusters(x);
    var top := ReadableLimit(x, vol.sectCount);
    ghost var content := vol.Content();
    var cluster := start;
    ghost var path := [start];
    length := 1;
    w := [];
    while length <= max
      invariant 1 <= length
      invariant vol.Valid() && IsPath(x, content, path) && |path| == length
      invariant path[0] == start && path[length - 1] == cluster
      invariant forall i :: 0 <= i < length - 1 ==> path[i] <= top
      decreases max - length
    {
      if cluster > top {
        DeadEnd(x, content, top, path);
        return false, [], 0;
      }
      var next := ReadEntry(x, vol, cluster);
      if next.None? {
        if Entry(x, content, cluster).None? { DeadEnd(x, content, top, path); }
        return false, [], 0;
      }
      if !IsCluster(x.kind, next.value) {
        return true, path, length;
      }
      PathGrows(x, content, path, next.value);
      path := path + [next.value];
      cluster := next.value;
      length := length + 1;
    }
    TooLong(x, content, top, path);
    ok := false;
  }

  /**
   `cache_cluster_chain`: the walk from `start`, in a fresh array. On a volume that can be read it
   is found exactly when it ends within the cap; a walk that cycles never ends and is refused, and
   the bound taken from the table refuses no walk that ends.
   */
  method CacheClusterChain(x: Context, vol: V.Volume, start: nat) returns (ok: bool, chain: array<nat>)
    requires ContextOk(x) && vol.Valid()
    modifies vol, vol.cache
    ensures vol.Valid() && fresh(chain)
    ensures ok ==> IsCluster(x.kind, start)
                   && IsWalk(x, vol.Content(), ReadableLimit(x, vol.sectCount), start, chain[..])
    ensures ok ==> Distinct(chain[..]) && chain.Length <= MAX_CHAIN
    ensures !ok ==> chain.Length == 0
    ensures vol.Dependable() ==>
              (ok <==> IsCluster(x.kind, start) && HasChain(x, vol.Content(), ReadableLimit(x, vol.sectCount), start))
  {
    hide Entry, ReadableLimit, V.Volume.Content;
    chain := new nat[0];
    ok := false;
    if !IsCluster(x.kind, start) { return; }
    ghost var w;
    var found, length;
    found, w, length := CountChain(x, vol, start);
    if !found { return; }
    ghost var content, top := vol.Content(), ReadableLimit(x, vol.sectCount);
    WalkIsAcyclic(x, content, top, start, w);
    var a := new nat[length];
    var cluster := start;
    for i := 0 to length
      invariant vol.Valid()
      invariant a[..i] == w[..i]
      invariant i < length ==> cluster == w[i]
    {
      a[i] := cluster;
      assert a[..i + 1] == a[..i] + [cluster];
      assert w[..i + 1] == w[..i] + [w[i]];
      assert i + 1 < length ==> Entry(x, content, w[i + 1 - 1]) == Some(w[i + 1]);
      var next := ReadEntry(x, vol, cluster);
      if next.None? { return; }
      cluster := next.value;
    }
    assert a[..] == a[..length] == w[..length] == w;
    ok, chain := true, a;
  }
}
