/**
 The installer's writes (limine/host/limine.c): listing a hybrid image's GPT partitions in an MBR,
 checking an MBR, and putting the boot code in place.
 */
module BiosInstall {
  import opened Blocks
  import opened Bytes
  import opened UndoLog
  import opened InstallDevice
  import opened GptErase
  import D = Device

  const U32_MAX: nat := 0xffff_ffff
  /** The first sector a listed partition may start at. */
  const FIRST_PARTITION_SECTOR: nat := 63

  // ---- Partitions ------------------------------------------------------------------------------

  /** A GPT entry; `kind` is the MBR type it converts to, or -1. */
  datatype GptEntry = GptEntry(used: bool, first: u64, last: u64, kind: int)

  /** An MBR entry, in 512-byte sectors. */
  datatype MbrEntry = MbrEntry(kind: byte, first: nat, count: nat)

  datatype Gathered = WillNotConvert | TooLow | Convert(parts: seq<MbrEntry>)

  /** The MBR entry covers exactly the bytes of the GPT entry, in 32-bit fields, end included. */
  ghost predicate SameBytes(e: GptEntry, lbSize: nat, p: MbrEntry) {
    && p.kind == e.kind
    && p.first * 512 == e.first * lbSize
    && (p.first + p.count) * 512 == (e.last + 1) * lbSize
    && 0 < p.count <= U32_MAX && p.first <= U32_MAX && p.first + p.count - 1 <= U32_MAX
  }

  lemma SectorsCover(e: GptEntry, unit: nat, p: MbrEntry)
    requires unit > 0 && e.first <= e.last
    requires p.first == e.first * unit && p.count == (e.last - e.first + 1) * unit
    ensures p.first * 512 == e.first * (unit * 512)
    ensures (p.first + p.count) * 512 == (e.last + 1) * (unit * 512)
    ensures p.count > 0
  {
    Distribute(e.first, e.last - e.first + 1, unit);
    assert p.first + p.count == (e.last + 1) * unit;
    ProductMonotone(1, e.last - e.first + 1, unit);
    assert (e.last + 1) * unit * 512 == (e.last + 1) * (unit * 512);
    assert e.first * unit * 512 == e.first * (unit * 512);
  }

  /** The used entries, in order. */
  ghost function Used(entries: seq<GptEntry>): seq<GptEntry> {
    if entries == [] then []
    else Used(entries[..|entries| - 1]) + (if entries[|entries| - 1].used then [entries[|entries| - 1]] else [])
  }

  lemma {:induction false} UsedPrefix(entries: seq<GptEntry>, i: nat)
    requires i <= |entries|
    ensures Used(entries[..i]) <= Used(entries)
    decreases |entries| - i
  {
    if i < |entries| {
      UsedPrefix(entries, i + 1);
      assert entries[..i + 1][..i] == entries[..i];
    } else {
      assert entries[..i] == entries;
    }
  }

  /** Some MBR entry says exactly what the GPT entry says. */
  ghost predicate Convertible(e: GptEntry, lbSize: nat) {
    exists p :: SameBytes(e, lbSize, p)
  }

  /** The GPT can be listed in an MBR at all. */
  ghost predicate AllConvertible(entries: seq<GptEntry>, lbSize: nat) {
    |Used(entries)| <= 4 && forall k :: 0 <= k < |Used(entries)| ==> Convertible(Used(entries)[k], lbSize)
  }

  /** Every used entry starts at sector 63 or later. */
  ghost predicate AllHigh(entries: seq<GptEntry>, lbSize: nat) {
    forall k :: 0 <= k < |Used(entries)| ==> Used(entries)[k].first * lbSize >= FIRST_PARTITION_SECTOR * 512
  }

  /**
   The conversion loop and the check behind it. It declines exactly when there are more than four
   used entries or one that no MBR entry can match; otherwise it lists every used entry with
   exactly its bytes, unless one starts below sector 63.
   */
  method Gather(entries: seq<GptEntry>, lbSize: nat) returns (r: Gathered)
    requires lbSize in {512, 2048, 4096}
    requires forall i :: 0 <= i < |entries| ==> -1 <= entries[i].kind < 256
    ensures r.WillNotConvert? <==> !AllConvertible(entries, lbSize)
    ensures r.TooLow? <==> AllConvertible(entries, lbSize) && !AllHigh(entries, lbSize)
    ensures r.Convert? ==>
              && |r.parts| == |Used(entries)| <= 4
              && (forall k :: 0 <= k < |r.parts| ==> SameBytes(Used(entries)[k], lbSize, r.parts[k]))
              && (forall k :: 0 <= k < |r.parts| ==> r.parts[k].first >= FIRST_PARTITION_SECTOR)
  {
    hide SameBytes, Used;
    NothingUsed();
    var parts: seq<MbrEntry> := [];
    var unit := lbSize / 512;
    assert unit * 512 == lbSize;
    assert entries[..0] == [];
    for i := 0 to |entries|
      invariant |parts| == |Used(entries[..i])| <= 4
      invariant forall k :: 0 <= k < |parts| ==> SameBytes(Used(entries[..i])[k], lbSize, parts[k])
    {
      var e := entries[i];
      assert entries[..i + 1][..i] == entries[..i];
      UsedNext(entries, i);
      if !e.used { continue; }
      if |parts| == 4 { return WillNotConvert; }
      Unconvertible(e, lbSize, unit);
      if e.last < e.first { return WillNotConvert; }
      var first := e.first * unit;
      if first >= U64_LIMIT || first > U32_MAX { return WillNotConvert; }
      var count := (e.last - e.first + 1) * unit;
      if count >= U64_LIMIT || count > U32_MAX || first + count - 1 > U32_MAX { return WillNotConvert; }
      if e.kind == -1 { return WillNotConvert; }
      var p := MbrEntry(e.kind, first, count);
      EntryConverts(e, lbSize, unit, p);
      parts := parts + [p];
    }
    assert entries[..|entries|] == entries;
    forall k | 0 <= k < |parts|
      ensures Convertible(Used(entries)[k], lbSize) && parts[k].first * 512 == Used(entries)[k].first * lbSize
    {
      SameBytesFits(Used(entries)[k], lbSize, parts[k]);
    }
    for k := 0 to |parts|
      invariant forall j :: 0 <= j < k ==> parts[j].first >= FIRST_PARTITION_SECTOR
    {
      if parts[k].first < FIRST_PARTITION_SECTOR { return TooLow; }
    }
    r := Convert(parts);
  }

  lemma NothingUsed()
    ensures Used([]) == []
  {
  }

  /** Entry `i` as part of the used ones. */
  lemma UsedNext(entries: seq<GptEntry>, i: nat)
    requires i < |entries|
    ensures Used(entries[..i + 1]) == Used(entries[..i]) + (if entries[i].used then [entries[i]] else [])
    ensures Used(entries[..i + 1]) <= Used(entries)
    ensures entries[i].used ==> Used(entries)[|Used(entries[..i])|] == entries[i]
  {
    assert entries[..i + 1][..i] == entries[..i];
    UsedPrefix(entries, i + 1);
  }

  /** What rules out an MBR entry for a GPT entry. */
  lemma Unconvertible(e: GptEntry, lbSize: nat, unit: nat)
    requires unit > 0 && lbSize == unit * 512
    ensures (e.kind < 0 || e.last < e.first || e.first * unit > U32_MAX || (e.last - e.first + 1) * unit > U32_MAX
             || e.first * unit + (e.last - e.first + 1) * unit - 1 > U32_MAX) ==> !Convertible(e, lbSize)
  {
    if p :| SameBytes(e, lbSize, p) {
      assert e.first * lbSize == e.first * unit * 512;
      assert (e.last + 1) * lbSize == (e.last + 1) * unit * 512;
      assert p.first == e.first * unit && p.first + p.count == (e.last + 1) * unit;
      if e.last < e.first { ProductMonotone(e.last + 1, e.first, unit); }
      else { Distribute(e.first, e.last - e.first + 1, unit); }
    }
  }

  lemma EntryConverts(e: GptEntry, lbSize: nat, unit: nat, p: MbrEntry)
    requires unit > 0 && lbSize == unit * 512 && e.first <= e.last && p.kind == e.kind
    requires p.first == e.first * unit && p.count == (e.last - e.first + 1) * unit
    requires p.first <= U32_MAX && p.count <= U32_MAX && p.first + p.count - 1 <= U32_MAX
    ensures SameBytes(e, lbSize, p)
  {
    SectorsCover(e, unit, p);
  }

  // ---- The conversion's writes -----------------------------------------------------------------------

  function EntryAt(k: nat): nat { 0x1be + 16 * k }

  /** The CHS fields of an entry, as computed for its first and last sector. */
  type Chs = c: (seq<byte>, seq<byte>) | |c.0| == |c.1| == 3 witness ([0, 0, 0], [0, 0, 0])

  /** Entry `k` of the partition table in sector 0 says what `p` and `chs` say. */
  ghost predicate EntryIs(s: seq<byte>, k: nat, p: MbrEntry, chs: Chs) {
    && k < 4 && |s| >= 512
    && s[EntryAt(k) + 4] == p.kind
    && s[EntryAt(k) + 1..EntryAt(k) + 4] == chs.0 && s[EntryAt(k) + 5..EntryAt(k) + 8] == chs.1
    && ReadLe32(s[EntryAt(k) + 8..EntryAt(k) + 12]) == p.first
    && ReadLe32(s[EntryAt(k) + 12..EntryAt(k) + 16]) == p.count
  }

  /** Type and sectors of the entry at `at` are in place, with nothing else changed but its last half. */
  ghost predicate SectorsPut(before: seq<byte>, after: seq<byte>, at: nat, p: MbrEntry) {
    && at + 16 <= |before| && ChangedWithin(before, after, at + 4, at + 16)
    && after[at + 4] == p.kind
    && ReadLe32(after[at + 8..at + 12]) == p.first && ReadLe32(after[at + 12..at + 16]) == p.count
  }

  /** Type and sectors of a table entry. */
  method PutSectors(dev: D.Device, at: nat, p: MbrEntry) returns (ok: bool, ghost unsaved: nat)
    requires Going(dev, true, 0) && at <= 494 && p.first <= U32_MAX && p.count <= U32_MAX
    modifies dev`disk, dev`cacheState, dev`cachedBlock, dev`undoCount, dev`logFull, dev.cache, dev.undoData
    ensures Going(dev, ok, unsaved) && Logged(dev, 3)
    ensures ok ==> SectorsPut(old(dev.Logical()), dev.Logical(), at, p)
    ensures old(Room(dev, 3)) ==> ok
  {
    hide Splice, D.Device.Logical, UndoLog.SavesOriginal, Le32, SectorsPut;
    ghost var s := dev.Logical();
    ok, unsaved := Put(dev, at + 4, [p.kind]);
    if !ok { return; }
    ok, unsaved := Put(dev, at + 8, Le32(p.first));
    if !ok { return; }
    ok, unsaved := Put(dev, at + 12, Le32(p.count));
    if !ok { return; }
    SectorFields(s, at, p);
  }

  /** Three disjoint fields of an entry, written one after the other. */
  lemma SectorFields(s: seq<byte>, at: nat, p: MbrEntry)
    requires at + 16 <= |s| && p.first <= U32_MAX && p.count <= U32_MAX
    ensures SectorsPut(s, Splice(Splice(Splice(s, at + 4, [p.kind]), at + 8, Le32(p.first)), at + 12, Le32(p.count)), at, p)
  {
    hide Le32, Splice;
    var r := Splice(Splice(Splice(s, at + 4, [p.kind]), at + 8, Le32(p.first)), at + 12, Le32(p.count));
    assert r[at + 8..at + 12] == Le32(p.first);
    assert r[at + 12..at + 16] == Le32(p.count);
    Le32RoundTrip(p.first);
    Le32RoundTrip(p.count);
  }

  /** The CHS fields of the entry at `at` are in place, with nothing else changed. */
  ghost predicate ChsPut(before: seq<byte>, after: seq<byte>, at: nat, chs: Chs) {
    && |after| == |before| && at + 8 <= |before|
    && after[at + 1..at + 4] == chs.0 && after[at + 5..at + 8] == chs.1
    && (forall x :: 0 <= x < |before| && !(at + 1 <= x < at + 4) && !(at + 5 <= x < at + 8) ==> after[x] == before[x])
  }

  /** The CHS fields of a table entry. */
  method PutChs(dev: D.Device, at: nat, chs: Chs) returns (ok: bool, ghost unsaved: nat)
    requires Going(dev, true, 0) && at <= 494
    modifies dev`disk, dev`cacheState, dev`cachedBlock, dev`undoCount, dev`logFull, dev.cache, dev.undoData
    ensures Going(dev, ok, unsaved) && Logged(dev, 2)
    ensures ok ==> ChsPut(old(dev.Logical()), dev.Logical(), at, chs)
    ensures old(Room(dev, 2)) ==> ok
  {
    hide Splice, D.Device.Logical, UndoLog.SavesOriginal, ChsPut;
    ghost var s := dev.Logical();
    ok, unsaved := Put(dev, at + 1, chs.0);
    if !ok { return; }
    ok, unsaved := Put(dev, at + 5, chs.1);
    if !ok { return; }
    ChsFields(s, at, chs);
  }

  lemma ChsFields(s: seq<byte>, at: nat, chs: Chs)
    requires at + 8 <= |s|
    ensures ChsPut(s, Splice(Splice(s, at + 1, chs.0), at + 5, chs.1), at, chs)
  {
    hide Splice;
    var r := Splice(Splice(s, at + 1, chs.0), at + 5, chs.1);
    assert r[at + 1..at + 4] == chs.0;
    assert r[at + 5..at + 8] == chs.1;
  }

  /** The five writes of one table entry; its active flag stays. */
  method PutEntry(dev: D.Device, k: nat, p: MbrEntry, chs: Chs) returns (ok: bool, ghost unsaved: nat)
    requires Going(dev, true, 0) && k < 4
    requires p.first <= U32_MAX && p.count <= U32_MAX
    modifies dev`disk, dev`cacheState, dev`cachedBlock, dev`undoCount, dev`logFull, dev.cache, dev.undoData
    ensures Going(dev, ok, unsaved) && Logged(dev, 5)
    ensures ok && |dev.Logical()| >= 512 ==> EntryIs(dev.Logical(), k, p, chs)
    ensures ok ==> ChangedWithin(old(dev.Logical()), dev.Logical(), EntryAt(k) + 1, EntryAt(k) + 16)
    ensures old(Room(dev, 5)) ==> ok
  {
    hide Splice, D.Device.Logical, UndoLog.SavesOriginal, SectorsPut, ChsPut, EntryIs, ChangedWithin;
    ghost var s0 := dev.Logical();
    ok, unsaved := PutSectors(dev, EntryAt(k), p);
    if !ok { return; }
    ghost var s1 := dev.Logical();
    ok, unsaved := PutChs(dev, EntryAt(k), chs);
    if !ok { return; }
    EntryOf(s0, s1, dev.Logical(), k, p, chs);
  }

  lemma EntryOf(s0: seq<byte>, s1: seq<byte>, s2: seq<byte>, k: nat, p: MbrEntry, chs: Chs)
    requires k < 4 && SectorsPut(s0, s1, EntryAt(k), p) && ChsPut(s1, s2, EntryAt(k), chs)
    ensures |s2| >= 512 ==> EntryIs(s2, k, p, chs)
    ensures ChangedWithin(s0, s2, EntryAt(k) + 1, EntryAt(k) + 16)
  {
    var at := EntryAt(k);
    assert s2[at + 8..at + 12] == s1[at + 8..at + 12];
    assert s2[at + 12..at + 16] == s1[at + 12..at + 16];
  }

  /** A partition table: its disk id, entries and signature. */
  ghost predicate TableIs(s: seq<byte>, id: seq<byte>, parts: seq<MbrEntry>, chs: seq<Chs>) {
    && |s| >= 512 && |parts| == |chs| <= 4 && |id| == 4
    && s[440..444] == id && s[510..512] == [0x55, 0xaa]
    && (forall k :: 0 <= k < |parts| ==> EntryIs(s, k, parts[k], chs[k]))
  }

  /** The disk id, a byte at a time. */
  method PutId(dev: D.Device, id: seq<byte>) returns (ok: bool, ghost unsaved: nat)
    requires Going(dev, true, 0) && |id| == 4
    modifies dev`disk, dev`cacheState, dev`cachedBlock, dev`undoCount, dev`logFull, dev.cache, dev.undoData
    ensures Going(dev, ok, unsaved) && Logged(dev, 4)
    ensures ok ==> |dev.Logical()| >= 444 && dev.Logical() == Splice(old(dev.Logical()), 440, id)
    ensures old(Room(dev, 4)) ==> ok
  {
    hide Splice, D.Device.Logical, UndoLog.SavesOriginal;
    ghost var s0 := dev.Logical();
    ok, unsaved := true, 0;
    for i := 0 to 4
      invariant ok && unsaved == 0 && Going(dev, true, 0) && Logged(dev, i)
      invariant if i == 0 then dev.Logical() == s0 else 440 + i <= |s0| && dev.Logical() == Splice(s0, 440, id[..i])
    {
      ok, unsaved := Put(dev, 0x1b8 + i, [id[i]]);
      if !ok { return; }
      SpliceNext(s0, 440, id, i);
    }
    assert id[..4] == id;
  }

  lemma SpliceNext(s: seq<byte>, at: nat, d: seq<byte>, i: nat)
    requires i < |d| && at + i + 1 <= |s|
    ensures i > 0 ==> Splice(Splice(s, at, d[..i]), at + i, [d[i]]) == Splice(s, at, d[..i + 1])
    ensures i == 0 ==> Splice(s, at, [d[0]]) == Splice(s, at, d[..1])
  {
    assert d[..i + 1] == d[..i] + [d[i]];
  }

  ghost predicate TableChanged(before: seq<byte>, after: seq<byte>, n: nat) {
    && |after| == |before|
    && (forall x: nat :: x < |before| && !InTable(x, n) ==> after[x] == before[x])
  }

  /** The table a conversion writes; nothing else changes. */
  method PutTable(dev: D.Device, id: seq<byte>, parts: seq<MbrEntry>, chs: seq<Chs>) returns (ok: bool, ghost unsaved: nat)
    requires Going(dev, true, 0) && |id| == 4 && |parts| == |chs| <= 4
    requires forall k :: 0 <= k < |parts| ==> parts[k].first <= U32_MAX && parts[k].count <= U32_MAX
    modifies dev`disk, dev`cacheState, dev`cachedBlock, dev`undoCount, dev`logFull, dev.cache, dev.undoData
    ensures Going(dev, ok, unsaved) && Logged(dev, 25)
    ensures ok ==> TableChanged(old(dev.Logical()), dev.Logical(), |parts|)
    ensures ok ==> TableIs(dev.Logical(), id, parts, chs)
    ensures old(Room(dev, 25)) ==> ok
  {
    hide Splice, D.Device.Logical, UndoLog.SavesOriginal, EntryIs, TableChanged;
    ghost var s0 := dev.Logical();
    ok, unsaved := PutId(dev, id);
    if !ok { return; }
    ghost var s1 := dev.Logical();
    ok, unsaved := PutEntries(dev, parts, chs);
    if !ok { return; }
    ghost var s3 := dev.Logical();
    ok, unsaved := Put(dev, 510, [0x55, 0xaa]);
    if !ok { return; }
    SignaturePlaced(s0, id, s1, s3, |parts|);
    forall j | 0 <= j < |parts| ensures EntryIs(dev.Logical(), j, parts[j], chs[j]) {
      EntryKept(s3, dev.Logical(), j, parts[j], chs[j], 510, 512);
    }
  }

  /** All entries, one after the other. */
  method PutEntries(dev: D.Device, parts: seq<MbrEntry>, chs: seq<Chs>) returns (ok: bool, ghost unsaved: nat)
    requires Going(dev, true, 0) && |parts| == |chs| <= 4
    requires forall k :: 0 <= k < |parts| ==> parts[k].first <= U32_MAX && parts[k].count <= U32_MAX
    modifies dev`disk, dev`cacheState, dev`cachedBlock, dev`undoCount, dev`logFull, dev.cache, dev.undoData
    ensures Going(dev, ok, unsaved) && Logged(dev, 20)
    ensures ok ==> EntriesChanged(old(dev.Logical()), dev.Logical(), |parts|)
    ensures ok && |dev.Logical()| >= 512 ==> forall j :: 0 <= j < |parts| ==> EntryIs(dev.Logical(), j, parts[j], chs[j])
    ensures old(Room(dev, 20)) ==> ok
  {
    hide Splice, D.Device.Logical, UndoLog.SavesOriginal, EntryIs, ChangedWithin, EntriesChanged;
    ghost var s1 := dev.Logical();
    ok, unsaved := true, 0;
    NoEntriesChanged(s1);
    for k := 0 to |parts|
      invariant ok && unsaved == 0 && Going(dev, true, 0) && Logged(dev, 5 * k)
      invariant |dev.Logical()| == |s1| && EntriesChanged(s1, dev.Logical(), k)
      invariant |s1| >= 512 ==> forall j :: 0 <= j < k ==> EntryIs(dev.Logical(), j, parts[j], chs[j])
    {
      ghost var s2 := dev.Logical();
      ok, unsaved := PutEntry(dev, k, parts[k], chs[k]);
      if !ok { return; }
      MoreEntriesChanged(s1, s2, dev.Logical(), k);
      if |s1| >= 512 {
        forall j | 0 <= j < k ensures EntryIs(dev.Logical(), j, parts[j], chs[j]) {
          EntryKept(s2, dev.Logical(), j, parts[j], chs[j], EntryAt(k) + 1, EntryAt(k) + 16);
        }
      }
    }
  }

  /** At most the first `n` entries differ, and not in their flags. */
  ghost predicate EntriesChanged(before: seq<byte>, after: seq<byte>, n: nat) {
    && |after| == |before|
    && (forall x: nat :: x < |before| && !(446 <= x < 446 + 16 * n && !IsFlag(x)) ==> after[x] == before[x])
  }

  lemma NoEntriesChanged(s: seq<byte>)
    ensures EntriesChanged(s, s, 0)
  {
  }

  lemma MoreEntriesChanged(a: seq<byte>, b: seq<byte>, c: seq<byte>, k: nat)
    requires k < 4 && EntriesChanged(a, b, k) && ChangedWithin(b, c, EntryAt(k) + 1, EntryAt(k) + 16)
    ensures |c| == |a| && EntriesChanged(a, c, k + 1)
  {
  }

  lemma SignaturePlaced(s0: seq<byte>, id: seq<byte>, s1: seq<byte>, s3: seq<byte>, n: nat)
    requires |s0| >= 512 && |id| == 4 && n <= 4 && s1 == Splice(s0, 440, id) && EntriesChanged(s1, s3, n)
    ensures var r := Splice(s3, 510, [0x55, 0xaa]);
            && TableChanged(s0, r, n) && ChangedWithin(s3, r, 510, 512)
            && r[440..444] == id && r[510..512] == [0x55, 0xaa]
  {
  }

  lemma EntryKept(s: seq<byte>, r: seq<byte>, k: nat, p: MbrEntry, chs: Chs, lo: nat, hi: nat)
    requires EntryIs(s, k, p, chs) && ChangedWithin(s, r, lo, hi)
    requires EntryAt(k) + 16 <= lo || hi <= EntryAt(k)
    ensures EntryIs(r, k, p, chs)
  {
    var at := EntryAt(k);
    assert r[at + 8..at + 12] == s[at + 8..at + 12];
    assert r[at + 12..at + 16] == s[at + 12..at + 16];
    assert r[at + 1..at + 4] == s[at + 1..at + 4];
    assert r[at + 5..at + 8] == s[at + 5..at + 8];
  }

  /** The MBR lists the used GPT entries, in order, each with exactly its bytes, from sector 63 on. */
  ghost predicate Lists(s: seq<byte>, id: seq<byte>, entries: seq<GptEntry>, lbSize: nat, chs: seq<Chs>) {
    exists parts: seq<MbrEntry> :: TableIs(s, id, parts, chs) && Matches(parts, entries, lbSize)
  }

  ghost predicate UsableIntact(t: Table, lbSize: nat, before: seq<byte>, after: seq<byte>) {
    && |after| == |before|
    && (forall x: nat :: 512 <= x < |after| && InUsable(t, lbSize, x) ==> after[x] == before[x])
  }

  ghost predicate Matches(parts: seq<MbrEntry>, entries: seq<GptEntry>, lbSize: nat) {
    && |parts| == |Used(entries)|
    && (forall k :: 0 <= k < |parts| ==>
          SameBytes(Used(entries)[k], lbSize, parts[k]) && parts[k].first >= FIRST_PARTITION_SECTOR)
  }

  lemma TableKept(a: seq<byte>, b: seq<byte>, id: seq<byte>, parts: seq<MbrEntry>, chs: seq<Chs>)
    requires TableIs(a, id, parts, chs) && Kept(a, b) && Signed(b)
    ensures TableIs(b, id, parts, chs)
  {
    assert b[440..444] == a[440..444];
    forall k | 0 <= k < |parts| ensures EntryIs(b, k, parts[k], chs[k]) {
      var at := EntryAt(k);
      assert EntryIs(a, k, parts[k], chs[k]);
      assert b[at + 8..at + 12] == a[at + 8..at + 12] && b[at + 12..at + 16] == a[at + 12..at + 16];
      assert b[at + 1..at + 4] == a[at + 1..at + 4] && b[at + 5..at + 8] == a[at + 5..at + 8];
    }
  }

  lemma ListsKept(a: seq<byte>, b: seq<byte>, id: seq<byte>, entries: seq<GptEntry>, lbSize: nat, chs: seq<Chs>)
    requires Lists(a, id, entries, lbSize, chs) && Kept(a, b) && Signed(b)
    ensures Lists(b, id, entries, lbSize, chs)
  {
    hide TableIs, Matches;
    var parts: seq<MbrEntry> :| TableIs(a, id, parts, chs) && Matches(parts, entries, lbSize);
    TableSize(a, id, parts, chs);
    TableKept(a, b, id, parts, chs);
  }

  lemma TableSize(s: seq<byte>, id: seq<byte>, parts: seq<MbrEntry>, chs: seq<Chs>)
    requires TableIs(s, id, parts, chs)
    ensures |s| >= 512 && |parts| <= 4 && Signed(s)
  {
  }

  /** Nothing stands in the way of converting: no partition too low, no alternate in front of the usable range's end. */
  ghost predicate MayConvert(t: Table, lbSize: nat, entries: seq<GptEntry>, s: seq<byte>)
    requires lbSize > 0
  {
    AllHigh(entries, lbSize) && forall a: nat :: SignedAlternate(t, lbSize, s, a) ==> a > t.lastUsable
  }

  /** The device is made of whole blocks, and has as many as the primary's reserve. */
  ghost predicate WholeBlocks(t: Table, lbSize: nat, size: nat)
    requires lbSize > 0
  {
    size % lbSize == 0 && BlockStart(PrimaryReserve(t, lbSize), lbSize) <= size
  }

  /**
   The conversion as a whole. It is declined exactly when the MBR cannot list the used entries, and
   where nothing else fails it goes through exactly when nothing stands in its way. Whatever the
   device holds in the blocks the table calls usable is left alone, apart from sector 0; on success
   the MBR lists every used partition with exactly its bytes, and no GPT header is left if and only
   if every header lay in a reserve. It takes at most 125 undo records.
   */
  method ConvertGpt(dev: D.Device, t: Table, lbSize: nat, entries: seq<GptEntry>, id: seq<byte>, chs: seq<Chs>)
    returns (ok: bool, done: bool, ghost unsaved: nat)
    requires Going(dev, true, 0) && lbSize in {512, 2048, 4096} && t.firstUsable <= t.lastUsable
    requires |id| == 4 && |chs| == 4
    requires forall i :: 0 <= i < |entries| ==> -1 <= entries[i].kind < 256
    modifies dev`disk, dev`cacheState, dev`cachedBlock, dev`undoCount, dev`logFull, dev.cache, dev.undoData
    ensures Going(dev, ok, unsaved) && Logged(dev, 125)
    ensures ok ==> (done <==> AllConvertible(entries, lbSize))
    ensures ok && !done ==> dev.Logical() == old(dev.Logical())
    ensures ok ==> UsableIntact(t, lbSize, old(dev.Logical()), dev.Logical())
    ensures ok && done && dev.Dependable() ==>
              (GptGone(t, lbSize, dev.Logical()) <==> Removable(t, lbSize, old(dev.Logical())))
    ensures ok && done && dev.Dependable() ==> Converted(t, lbSize, old(dev.Logical()), dev.Logical(), |Used(entries)|)
    ensures ok && done ==> OnlyReserved(t, lbSize, old(dev.Logical()), dev.Logical(), |Used(entries)|)
    ensures ok && done ==> ReserveCleared(t, lbSize, dev.Logical(), |Used(entries)|)
    ensures ok && done ==> Lists(dev.Logical(), id, entries, lbSize, chs[..|Used(entries)|])
    ensures old(Room(dev, 125)) && WholeBlocks(t, lbSize, |dev.disk|) ==>
              (ok <==> !AllConvertible(entries, lbSize) || MayConvert(t, lbSize, entries, old(dev.Logical())))
  {
    hide Splice, D.Device.Logical, UndoLog.SavesOriginal, TableIs, SameBytes, BlockStart, ErasedBlocks, Spared, Used,
         AllConvertible, Erases, Reserved, SignedAlternate, AltReserve, InUsable, TableChanged, GptGone, Removable, Fit,
         AllHigh, PrimaryReserve, Converted, ReserveCleared, OnlyReserved;
    ghost var s0 := dev.Logical();
    ok, done, unsaved := true, false, 0;
    var g := Gather(entries, lbSize);
    if g.WillNotConvert? { return; }
    if g.TooLow? { return false, false, 0; }
    var plan := PlanErase(dev, t, lbSize);
    if plan.None? { return false, false, 0; }
    if WholeBlocks(t, lbSize, |dev.disk|) { PlanFits(t, lbSize, s0, plan.value); }
    ok, unsaved := EraseAll(dev, lbSize, plan.value);
    if !ok { return; }
    ghost var s1 := dev.Logical();
    forall k | 0 <= k < |g.parts| ensures g.parts[k].first <= U32_MAX && g.parts[k].count <= U32_MAX {
      SameBytesFits(Used(entries)[k], lbSize, g.parts[k]);
    }
    ok, unsaved := PutTable(dev, id, g.parts, chs[..|g.parts|]);
    if !ok { return; }
    done := true;
    ConvertedContent(t, lbSize, s0, s1, dev.Logical(), plan.value, |g.parts|);
    if dev.Dependable() {
      ErasedIsConverted(t, lbSize, s0, s1, dev.Logical(), plan.value, |g.parts|);
      GoneExactly(t, lbSize, s0, dev.Logical(), |g.parts|);
    }
  }

  /** The primary's reserve is zero, but for the table that is in it now. */
  ghost predicate ReserveCleared(t: Table, lbSize: nat, s: seq<byte>, n: nat)
    requires lbSize > 0
  {
    forall x: nat :: x < |s| && x < BlockStart(PrimaryReserve(t, lbSize), lbSize) && !InTable(x, n) ==> s[x] == 0
  }

  lemma ConvertedContent(t: Table, lbSize: nat, s0: seq<byte>, s1: seq<byte>, s2: seq<byte>, wipes: seq<Wipe>, n: nat)
    requires lbSize > 0 && n <= 4 && |s1| == |s0|
    requires forall x: nat :: x < |s0| ==> s1[x] == if Spared(wipes, lbSize, x) then s0[x] else 0
    requires TableChanged(s1, s2, n)
    requires forall k :: 0 <= k < |wipes| ==> OutsideUsable(t, wipes[k])
    requires forall b: nat :: b < PrimaryReserve(t, lbSize) ==> Erases(wipes, b)
    requires forall b: nat :: Erases(wipes, b) ==> Reserved(t, lbSize, s0, b)
    ensures UsableIntact(t, lbSize, s0, s2) && ReserveCleared(t, lbSize, s2, n) && OnlyReserved(t, lbSize, s0, s2, n)
  {
    hide Spared, Erases, InUsable, PrimaryReserve, BlockStart, Reserved, InTable, InBlock;
    forall b: nat, x: nat | InBlock(b, lbSize, x) && x < |s0| && !InTable(x, n) && !Reserved(t, lbSize, s0, b)
      ensures s2[x] == s0[x]
    {
      ErasedByBlock(lbSize, wipes, b, x);
    }
    TableIsLow(n);
    forall x: nat | 512 <= x < |s0| && InUsable(t, lbSize, x) ensures s2[x] == s0[x] {
      UsableIsSpared(t, lbSize, wipes, x);
    }
    forall x: nat | x < |s2| && x < BlockStart(PrimaryReserve(t, lbSize), lbSize) && !InTable(x, n) ensures s2[x] == 0 {
      var b := BlockOf(x, lbSize, PrimaryReserve(t, lbSize));
      ErasedByBlock(lbSize, wipes, b, x);
    }
  }

  lemma TableIsLow(n: nat)
    requires n <= 4
    ensures forall x: nat :: InTable(x, n) ==> x < 512
  {
  }

  /** Outside the reserves nothing but the table differs. */
  ghost predicate OnlyReserved(t: Table, lbSize: nat, before: seq<byte>, after: seq<byte>, n: nat)
    requires lbSize > 0
  {
    && |after| == |before|
    && (forall b: nat, x: nat :: InBlock(b, lbSize, x) && x < |before| && !InTable(x, n) && !Reserved(t, lbSize, before, b) ==>
          after[x] == before[x])
  }

  lemma ErasedIsConverted(t: Table, lbSize: nat, s0: seq<byte>, s1: seq<byte>, s2: seq<byte>, wipes: seq<Wipe>, n: nat)
    requires lbSize > 0 && |s1| == |s0| && TableChanged(s1, s2, n)
    requires forall x: nat :: x < |s0| ==> s1[x] == if Spared(wipes, lbSize, x) then s0[x] else 0
    requires forall b: nat :: Erases(wipes, b) <==> Reserved(t, lbSize, s0, b)
    ensures Converted(t, lbSize, s0, s2, n)
  {
    hide Spared, Erases, Reserved, InTable, InBlock;
    forall b: nat, x: nat | InBlock(b, lbSize, x) && x < |s0| && !InTable(x, n)
      ensures s2[x] == if Reserved(t, lbSize, s0, b) then 0 else s0[x]
    {
      ErasedByBlock(lbSize, wipes, b, x);
    }
  }

  /** An address below the start of block `n` lies in a block before it. */
  lemma BlockOf(x: nat, lbSize: nat, n: nat) returns (b: nat)
    requires lbSize > 0 && x < BlockStart(n, lbSize)
    ensures b < n && InBlock(b, lbSize, x)
  {
    b := x / lbSize;
    Locate(x, lbSize);
    NextBlock(b, lbSize);
    if n <= b { BlockStartMonotone(n, b, lbSize); }
  }

  lemma SameBytesFits(e: GptEntry, lbSize: nat, p: MbrEntry)
    requires SameBytes(e, lbSize, p)
    ensures p.first <= U32_MAX && p.count <= U32_MAX
    ensures p.first * 512 == e.first * lbSize && Convertible(e, lbSize)
  {
  }

  // ---- Installing behind an MBR -----------------------------------------------------------------------

  /** The time stamp, the table and everything from sector 63 on are as before. */
  ghost predicate Kept(before: seq<byte>, after: seq<byte>) {
    && |after| == |before|
    && (forall x :: 218 <= x < 224 && x < |before| ==> after[x] == before[x])
    && (forall x :: 0 <= x < |before| && 440 <= x < 510 && !IsFlag(x) ==> after[x] == before[x])
    && (forall x :: FIRST_PARTITION_SECTOR * 512 <= x < |before| ==> after[x] == before[x])
  }

  lemma KeptAlong(a: seq<byte>, b: seq<byte>, at: nat, d: seq<byte>)
    requires Kept(a, b) && at + |d| <= |b| && at + |d| <= FIRST_PARTITION_SECTOR * 512
    requires at + |d| <= 218 || at >= 510 || (|d| == 1 && IsFlag(at))
    ensures Kept(a, Splice(b, at, d))
  {
  }

  /** Entry `k`, if it lists a partition, starts no lower than sector 63. */
  ghost predicate StartsHigh(s: seq<byte>, k: nat) {
    && k < 4 && |s| >= 512
    && (s[EntryAt(k) + 4] != 0 ==> ReadLe32(s[EntryAt(k) + 8..EntryAt(k) + 12]) >= FIRST_PARTITION_SECTOR)
  }

  lemma StartsHighKept(a: seq<byte>, b: seq<byte>, k: nat)
    requires |a| >= 512 && k < 4 && Kept(a, b)
    ensures StartsHigh(a, k) <==> StartsHigh(b, k)
  {
    assert a[EntryAt(k) + 8..EntryAt(k) + 12] == b[EntryAt(k) + 8..EntryAt(k) + 12];
  }

  // What the checks of an MBR find, and what forcing makes of it.

  predicate LegalFlag(flag: byte) { flag == 0 || flag == 0x80 }

  ghost predicate Signed(s: seq<byte>)
    requires |s| >= 512
  {
    s[510..512] == [0x55, 0xaa]
  }

  /** The content after forcing the flag of slot `k`: its top bit is all that stays. */
  ghost function FlagForced(s: seq<byte>, k: nat, force: bool): (r: seq<byte>)
    requires |s| >= 512 && k < 4
    ensures |r| == |s|
  {
    if force && !LegalFlag(s[EntryAt(k)]) then Splice(s, EntryAt(k), [if s[EntryAt(k)] >= 0x80 then 0x80 else 0]) else s
  }

  /** The content after forcing the signature and the flags of the first `k` slots. */
  ghost function Forced(s: seq<byte>, force: bool, k: nat): (r: seq<byte>)
    requires |s| >= 512 && k <= 4
    ensures |r| == |s|
  {
    if k == 0 then if force && !Signed(s) then Splice(s, 510, [0x55, 0xaa]) else s
    else FlagForced(Forced(s, force, k - 1), k - 1, force)
  }

  /** From sector 1 on only the place of a mark may differ. */
  ghost predicate Behind(before: seq<byte>, after: seq<byte>) {
    && |after| == |before|
    && (forall x: nat :: 512 <= x < |before| && !(1080 <= x < 1082) ==> after[x] == before[x])
  }

  lemma {:induction false} ForcedBehind(s: seq<byte>, force: bool, k: nat)
    requires |s| >= 512 && k <= 4
    ensures Behind(s, Forced(s, force, k))
    decreases k
  {
    if k > 0 { ForcedBehind(s, force, k - 1); }
  }

  lemma {:induction false} ForcedKeeps(s: seq<byte>, force: bool, k: nat)
    requires |s| >= 512 && k <= 4
    ensures Kept(s, Forced(s, force, k))
    ensures forall j :: k <= j < 4 ==> Forced(s, force, k)[EntryAt(j)] == s[EntryAt(j)]
    decreases k
  {
    if k > 0 { ForcedKeeps(s, force, k - 1); }
  }

  /** The flag of a slot, made legal by force. */
  method CheckFlag(dev: D.Device, k: nat, force: bool) returns (ok: bool, legal: bool, active: bool, ghost unsaved: nat)
    requires Going(dev, true, 0) && k < 4 && |dev.Logical()| >= 512
    modifies dev`disk, dev`cacheState, dev`cachedBlock, dev`undoCount, dev`logFull, dev.cache, dev.undoData
    ensures Going(dev, ok, unsaved) && Logged(dev, 1)
    ensures ok ==> dev.Logical() == FlagForced(old(dev.Logical()), k, force)
    ensures ok ==> (legal <==> force || LegalFlag(old(dev.Logical())[EntryAt(k)]))
    ensures ok ==> (active <==> old(dev.Logical())[EntryAt(k)] >= 0x80)
    ensures old(Room(dev, 1)) ==> ok
  {
    hide Splice, D.Device.Logical, UndoLog.SavesOriginal;
    legal, active, unsaved := true, false, 0;
    var at := EntryAt(k);
    var d;
    ok, d := Get(dev, at, 1);
    if !ok { return; }
    assert d[0] == dev.Logical()[at];
    var flag: byte := d[0];
    if flag != 0 && flag != 0x80 {
      if !force {
        legal := false;
      } else {
        flag := if flag >= 0x80 then 0x80 else 0;
        ok, unsaved := Put(dev, at, [flag]);
        if !ok { return; }
      }
    }
    active := flag >= 0x80;
  }

  /** Where the partition of a slot starts. */
  method CheckStart(dev: D.Device, k: nat) returns (ok: bool, high: bool)
    requires Going(dev, true, 0) && k < 4 && |dev.Logical()| >= 512
    modifies dev`disk, dev`cacheState, dev`cachedBlock, dev.cache
    ensures Going(dev, true, 0) && dev.Logical() == old(dev.Logical())
    ensures ok ==> (high <==> StartsHigh(dev.Logical(), k))
    ensures old(Room(dev, 0)) ==> ok
    ensures |dev.disk| == |old(dev.disk)|
  {
    hide D.Device.Logical, UndoLog.SavesOriginal;
    high := true;
    var at := EntryAt(k);
    var d;
    ok, d := Get(dev, at + 4, 1);
    if !ok { return; }
    assert d[0] == dev.Logical()[at + 4];
    if d[0] != 0 {
      ok, d := Get(dev, at + 8, 4);
      if !ok { return; }
      high := ReadLe32(d) >= FIRST_PARTITION_SECTOR;
    }
  }

  /** The boot signature, written by force. */
  method CheckSignature(dev: D.Device, force: bool) returns (ok: bool, legal: bool, ghost unsaved: nat)
    requires Going(dev, true, 0)
    modifies dev`disk, dev`cacheState, dev`cachedBlock, dev`undoCount, dev`logFull, dev.cache, dev.undoData
    ensures Going(dev, ok, unsaved) && Logged(dev, 1)
    ensures ok ==> |old(dev.Logical())| >= 512 && dev.Logical() == Forced(old(dev.Logical()), force, 0)
    ensures ok ==> (legal <==> force || Signed(old(dev.Logical())))
    ensures old(Room(dev, 1)) ==> ok
  {
    hide Splice, D.Device.Logical, UndoLog.SavesOriginal;
    legal, unsaved := true, 0;
    var d;
    ok, d := Get(dev, 510, 2);
    if !ok { return; }
    if d != [0x55, 0xaa] {
      if !force {
        legal := false;
      } else {
        ok, unsaved := Put(dev, 510, [0x55, 0xaa]);
      }
    }
  }

  /** The checks of slot `k`, decided by the content `s0` from before any forcing. */
  method CheckSlot(dev: D.Device, ghost s0: seq<byte>, k: nat, force: bool)
    returns (ok: bool, legal: bool, active: bool, high: bool, ghost unsaved: nat)
    requires Going(dev, true, 0) && k < 4 && |s0| >= 512 && dev.Logical() == Forced(s0, force, k)
    modifies dev`disk, dev`cacheState, dev`cachedBlock, dev`undoCount, dev`logFull, dev.cache, dev.undoData
    ensures Going(dev, ok, unsaved) && Logged(dev, 1)
    ensures ok ==> dev.Logical() == Forced(s0, force, k + 1) && Kept(s0, dev.Logical())
    ensures ok ==> (legal <==> force || LegalFlag(s0[EntryAt(k)]))
    ensures ok ==> (active <==> s0[EntryAt(k)] >= 0x80) && (high <==> StartsHigh(s0, k))
    ensures old(Room(dev, 1)) ==> ok
  {
    hide Splice, D.Device.Logical, UndoLog.SavesOriginal, StartsHigh, FlagForced, Kept, LegalFlag;
    ForcedKeeps(s0, force, k);
    ForcedKeeps(s0, force, k + 1);
    high := true;
    ok, legal, active, unsaved := CheckFlag(dev, k, force);
    if !ok { return; }
    ok, high := CheckStart(dev, k);
    if !ok { return; }
    StartsHighKept(s0, dev.Logical(), k);
  }

  datatype MbrState = TooLowMbr | NoMbr | HasMbr(anyActive: bool)

  /**
   The sanity checks of an MBR: signature, flags, and no partition below sector 63. What they
   find is decided by the content before them; they change nothing but what is forced.
   */
  method CheckMbr(dev: D.Device, force: bool) returns (ok: bool, r: MbrState, ghost unsaved: nat)
    requires Going(dev, true, 0)
    modifies dev`disk, dev`cacheState, dev`cachedBlock, dev`undoCount, dev`logFull, dev.cache, dev.undoData
    ensures Going(dev, ok, unsaved) && Logged(dev, 5)
    ensures ok ==> |old(dev.Logical())| >= 512 && Kept(old(dev.Logical()), dev.Logical())
    ensures ok && !r.TooLowMbr? ==> dev.Logical() == Forced(old(dev.Logical()), force, 4)
    ensures ok ==> (r.TooLowMbr? <==> exists k :: 0 <= k < 4 && !StartsHigh(old(dev.Logical()), k))
    ensures ok && !r.TooLowMbr? ==>
              (r.HasMbr? <==> force || (Signed(old(dev.Logical()))
                                        && forall k :: 0 <= k < 4 ==> LegalFlag(old(dev.Logical())[EntryAt(k)])))
    ensures ok && r.HasMbr? ==> (r.anyActive <==> exists k :: 0 <= k < 4 && old(dev.Logical())[EntryAt(k)] >= 0x80)
    ensures old(Room(dev, 5)) ==> ok
  {
    hide Splice, D.Device.Logical, UndoLog.SavesOriginal, StartsHigh, Forced, Kept, Signed, LegalFlag;
    ghost var s0 := dev.Logical();
    r := NoMbr;
    var mbr, anyActive := true, false;
    ok, mbr, unsaved := CheckSignature(dev, force);
    if !ok { return; }
    for k := 0 to 4
      invariant ok && unsaved == 0 && Going(dev, true, 0) && Logged(dev, 1 + k)
      invariant |s0| >= 512 && dev.Logical() == Forced(s0, force, k)
      invariant forall j :: 0 <= j < k ==> StartsHigh(s0, j)
      invariant mbr <==> force || (Signed(s0) && forall j :: 0 <= j < k ==> LegalFlag(s0[EntryAt(j)]))
      invariant anyActive <==> exists j :: 0 <= j < k && s0[EntryAt(j)] >= 0x80
    {
      var legal, active, high;
      ok, legal, active, high, unsaved := CheckSlot(dev, s0, k, force);
      if !ok { return; }
      if !high { return true, TooLowMbr, 0; }
      mbr := mbr && legal;
      anyActive := anyActive || active;
    }
    ForcedKeeps(s0, force, 4);
    r := if mbr then HasMbr(anyActive) else NoMbr;
  }

  /** A file-system mark: where it is, what it is, and how many bytes clearing it zeroes. */
  datatype Hint = Hint(at: nat, mark: seq<byte>, clear: nat)

  const HINTS: seq<Hint> := [
    Hint(3, [0x4e, 0x54, 0x46, 0x53], 4),
    Hint(54, [0x46, 0x41, 0x54], 5),
    Hint(82, [0x46, 0x41, 0x54], 5),
    Hint(3, [0x46, 0x41, 0x54, 0x33, 0x32], 5),
    Hint(1080, [0x53, 0xef], 2)]

  lemma HintsAre(i: nat)
    requires i < 5
    ensures |HINTS| == 5 && forall k :: 0 <= k < |HINTS[i].mark| ==> HINTS[i].mark[k] != 0
    ensures 0 < HINTS[i].clear <= 5 && 0 < |HINTS[i].mark| <= 5
    ensures 3 <= HINTS[i].at && (HINTS[i].at + HINTS[i].clear <= 87 || (HINTS[i].at == 1080 && HINTS[i].clear == 2))
  {
  }

  /** File-system mark `i` is there, for a file system that starts at `offset`. */
  ghost predicate Marked(s: seq<byte>, offset: nat, i: nat)
    requires i < 5
  {
    var at := offset + HINTS[i].at;
    at + |HINTS[i].mark| <= |s| && s[at..at + |HINTS[i].mark|] == HINTS[i].mark
  }

  /** The marks in plain words: NTFS, two kinds of FAT, FAT32, and the ext superblock's 0xef53; and how much is cleared. */
  lemma MarksAre(s: seq<byte>, offset: nat)
    ensures Marked(s, offset, 0) <==> BytesAt(s, offset + 3, "NTFS")
    ensures Marked(s, offset, 1) <==> BytesAt(s, offset + 54, "FAT")
    ensures Marked(s, offset, 2) <==> BytesAt(s, offset + 82, "FAT")
    ensures Marked(s, offset, 3) <==> BytesAt(s, offset + 3, "FAT32")
    ensures Marked(s, offset, 4) <==>
              offset + 1082 <= |s| && s[offset + 1080] as int + 256 * s[offset + 1081] as int == 0xef53
    ensures forall i :: 0 <= i < 5 ==> HINTS[i].clear == if i == 0 then 4 else if i == 4 then 2 else 5
  {
    hide Marked, BytesAt;
    MarkSpells(s, offset, 0, 3, "NTFS");
    MarkSpells(s, offset, 1, 54, "FAT");
    MarkSpells(s, offset, 2, 82, "FAT");
    MarkSpells(s, offset, 3, 3, "FAT32");
    ExtMarkIs(s, offset);
  }

  lemma MarkSpells(s: seq<byte>, offset: nat, i: nat, at: nat, text: string)
    requires i < 5 && HINTS[i].at == at && |HINTS[i].mark| == |text|
    requires forall k :: 0 <= k < |text| ==> HINTS[i].mark[k] == text[k] as int
    ensures Marked(s, offset, i) <==> BytesAt(s, offset + at, text)
  {
    hide HINTS, BytesAt;
    HintsAre(i);
    MarkIsText(s, offset + at, HINTS[i].mark, text);
  }

  lemma ExtMarkIs(s: seq<byte>, offset: nat)
    ensures Marked(s, offset, 4) <==>
              offset + 1082 <= |s| && s[offset + 1080] as int + 256 * s[offset + 1081] as int == 0xef53
  {
    if offset + 1082 <= |s| {
      assert s[offset + 1080..offset + 1082] == [s[offset + 1080], s[offset + 1081]];
    }
  }

  lemma MarkIsText(s: seq<byte>, at: nat, mark: seq<byte>, text: string)
    requires |mark| == |text| && forall k :: 0 <= k < |text| ==> mark[k] == text[k] as int
    ensures at + |mark| <= |s| && s[at..at + |mark|] == mark <==> BytesAt(s, at, text)
  {
    if at + |mark| <= |s| {
      var there := s[at..at + |mark|];
      assert forall k :: 0 <= k < |mark| ==> there[k] == s[at + k];
    }
  }

  lemma ClearedByte(s: seq<byte>, at: nat, n: nat, x: nat)
    requires at + n <= |s| && x < |s|
    ensures Splice(s, at, Zeros(n))[x] == if at <= x < at + n then 0 else s[x]
  {
  }

  /** Zeroing bytes brings no mark about. */
  lemma ClearedStaysUnmarked(s: seq<byte>, offset: nat, at: nat, n: nat, i: nat)
    requires i < 5 && at + n <= |s|
    ensures Marked(Splice(s, at, Zeros(n)), offset, i) ==> Marked(s, offset, i)
    ensures at == offset + HINTS[i].at && n > 0 ==> !Marked(Splice(s, at, Zeros(n)), offset, i)
  {
    hide Splice, HINTS, Zeros;
    HintsAre(i);
    var r, h := Splice(s, at, Zeros(n)), HINTS[i];
    var place := offset + h.at;
    if Marked(r, offset, i) {
      var there := r[place..place + |h.mark|];
      forall k | 0 <= k < |h.mark| ensures r[place + k] == s[place + k] == h.mark[k] {
        assert there[k] == h.mark[k];
        ClearedByte(s, at, n, place + k);
      }
      assert r[place + 0] == h.mark[0];
      assert s[place..place + |h.mark|] == h.mark;
    }
  }

  /** Only places of marks differ. */
  ghost predicate HintsOnly(before: seq<byte>, after: seq<byte>, offset: nat) {
    && |after| == |before|
    && (forall x: nat :: x < |before| && !(offset + 3 <= x < offset + 87) && !(offset + 1080 <= x < offset + 1082) ==>
          after[x] == before[x])
  }

  /**
   `validate_or_force` for a file system that would start at `offset`: without force any mark is
   refused and nothing changes; by force every mark is cleared.
   */
  method ValidateOrForce(dev: D.Device, offset: u64, force: bool) returns (ok: bool, valid: bool, ghost unsaved: nat)
    requires Going(dev, true, 0) && offset + 2048 < U64_LIMIT
    modifies dev`disk, dev`cacheState, dev`cachedBlock, dev`undoCount, dev`logFull, dev.cache, dev.undoData
    ensures Going(dev, ok, unsaved) && Logged(dev, 5)
    ensures ok ==> HintsOnly(old(dev.Logical()), dev.Logical(), offset)
    ensures ok && !force ==> dev.Logical() == old(dev.Logical())
    ensures ok && !force ==> (valid <==> forall i :: 0 <= i < 5 ==> !Marked(old(dev.Logical()), offset, i))
    ensures ok && force ==> valid && forall i :: 0 <= i < 5 ==> !Marked(dev.Logical(), offset, i)
    ensures old(Room(dev, 5)) && offset + 2048 <= |dev.disk| ==> ok
  {
    hide Splice, D.Device.Logical, UndoLog.SavesOriginal, Marked, HINTS;
    ghost var s0 := dev.Logical();
    ok, valid, unsaved := true, true, 0;
    for i := 0 to 5
      invariant ok && valid && unsaved == 0 && Going(dev, true, 0) && Logged(dev, i)
      invariant HintsOnly(s0, dev.Logical(), offset) && (!force ==> dev.Logical() == s0)
      invariant forall j :: 0 <= j < i ==> !Marked(dev.Logical(), offset, j)
    {
      var marked;
      ok, marked, unsaved := CheckHint(dev, offset, i, force);
      if !ok { return; }
      if marked && !force { return true, false, 0; }
    }
  }

  /** One mark: looked for, and cleared by force without bringing another about. */
  method CheckHint(dev: D.Device, offset: u64, i: nat, force: bool) returns (ok: bool, marked: bool, ghost unsaved: nat)
    requires Going(dev, true, 0) && i < 5 && offset + 2048 < U64_LIMIT
    modifies dev`disk, dev`cacheState, dev`cachedBlock, dev`undoCount, dev`logFull, dev.cache, dev.undoData
    ensures Going(dev, ok, unsaved) && Logged(dev, 1)
    ensures ok ==> (marked <==> Marked(old(dev.Logical()), offset, i))
    ensures ok ==> HintsOnly(old(dev.Logical()), dev.Logical(), offset)
    ensures ok && (!force || !marked) ==> dev.Logical() == old(dev.Logical())
    ensures ok && force && marked ==> offset + HINTS[i].at + HINTS[i].clear <= |dev.Logical()|
                                      && dev.Logical() == Splice(old(dev.Logical()), offset + HINTS[i].at, Zeros(HINTS[i].clear))
    ensures ok && force ==> !Marked(dev.Logical(), offset, i)
    ensures ok ==> forall j :: 0 <= j < 5 && !Marked(old(dev.Logical()), offset, j) ==> !Marked(dev.Logical(), offset, j)
    ensures old(Room(dev, 1)) && offset + 2048 <= |dev.disk| ==> ok
  {
    hide Splice, D.Device.Logical, UndoLog.SavesOriginal, HINTS, Marked, Zeros;
    HintsAre(i);
    ghost var s0 := dev.Logical();
    marked, unsaved := false, 0;
    var h := HINTS[i];
    var d;
    ok, d := Get(dev, offset + h.at, |h.mark|);
    if !ok { return; }
    MarkIs(s0, offset, i);
    marked := d == h.mark;
    if marked && force {
      ok, unsaved := Put(dev, offset + h.at, Zeros(h.clear));
      if !ok { return; }
      ClearedHint(s0, offset, i);
    }
  }

  lemma ClearedHint(s: seq<byte>, offset: nat, i: nat)
    requires i < 5 && |HINTS| == 5 && offset + HINTS[i].at + HINTS[i].clear <= |s|
    ensures var r := Splice(s, offset + HINTS[i].at, Zeros(HINTS[i].clear));
            && HintsOnly(s, r, offset) && !Marked(r, offset, i)
            && (forall j :: 0 <= j < 5 && !Marked(s, offset, j) ==> !Marked(r, offset, j))
  {
    hide Splice, HINTS, Marked;
    HintsAre(i);
    var at, n := offset + HINTS[i].at, HINTS[i].clear;
    forall j | 0 <= j < 5 ensures Marked(Splice(s, at, Zeros(n)), offset, j) ==> Marked(s, offset, j) {
      ClearedStaysUnmarked(s, offset, at, n, j);
    }
    ClearedStaysUnmarked(s, offset, at, n, i);
  }

  lemma MarkIs(s: seq<byte>, offset: nat, i: nat)
    requires i < 5 && offset + HINTS[i].at + |HINTS[i].mark| <= |s|
    ensures Marked(s, offset, i) <==> s[offset + HINTS[i].at..offset + HINTS[i].at + |HINTS[i].mark|] == HINTS[i].mark
  {
  }

  const STAGE2_MAX: nat := 62 * 512

  /** Sector 0 and stage 2 fill exactly the 63 sectors in front of where a partition may start. */
  lemma StageTwoFillsTheGap(size: nat)
    ensures size <= 512 + STAGE2_MAX <==> size <= 63 * 512
    ensures FIRST_PARTITION_SECTOR * 512 == 63 * 512
  {
  }

  /** Boot sector, stage 2, its address, then the saved time stamp and partition table. */
  method PutBootCode(dev: D.Device, image: seq<byte>, address: seq<byte>) returns (ok: bool, ghost unsaved: nat)
    requires Going(dev, true, 0) && 512 < |image| && |address| == 8
    modifies dev`disk, dev`cacheState, dev`cachedBlock, dev`undoCount, dev`logFull, dev.cache, dev.undoData
    ensures Going(dev, ok, unsaved) && Logged(dev, 5)
    ensures ok ==> |image| - 512 <= STAGE2_MAX && |image| <= |dev.Logical()|
    ensures ok ==> Installed(old(dev.Logical()), dev.Logical(), image, address)
    ensures old(Room(dev, 5)) && |image| <= |dev.disk| && |image| - 512 <= STAGE2_MAX ==> ok
  {
    hide Splice, D.Device.Logical, UndoLog.SavesOriginal, Installed;
    unsaved := 0;
    ghost var s0 := dev.Logical();
    var timestamp, table;
    ok, timestamp := Get(dev, 218, 6);
    if !ok { return; }
    ok, table := Get(dev, 440, 70);
    if !ok { return; }
    if |image| - 512 > STAGE2_MAX { return false, 0; }
    ok, unsaved := Put(dev, 0, image[..512]);
    if !ok { return; }
    ok, unsaved := Put(dev, 512, image[512..]);
    if !ok { return; }
    ok, unsaved := Put(dev, 0x1a4, address);
    if !ok { return; }
    ok, unsaved := Put(dev, 218, timestamp);
    if !ok { return; }
    ok, unsaved := Put(dev, 440, table);
    if !ok { return; }
    BootCodeIs(s0, image, address);
  }

  /** Boot sector, stage 2 and its address are in place, but for the time stamp and the table. */
  ghost predicate BootCodeAt(s: seq<byte>, image: seq<byte>, address: seq<byte>) {
    && 512 < |image| <= |s| && |address| == 8
    && (forall x :: 512 <= x < |image| ==> s[x] == image[x])
    && s[0x1a4..0x1ac] == address
    && (forall x :: 0 <= x < 512 && !(218 <= x < 224) && !(0x1a4 <= x < 0x1ac) && !(440 <= x < 510) ==> s[x] == image[x])
  }

  /** The boot code in place, with nothing else changed. */
  ghost predicate Installed(before: seq<byte>, after: seq<byte>, image: seq<byte>, address: seq<byte>) {
    && |after| == |before| && BootCodeAt(after, image, address)
    && (forall x :: 0 <= x < |before| && (218 <= x < 224 || 440 <= x < 510 || x >= |image|) ==> after[x] == before[x])
  }

  lemma BootCodeIs(s: seq<byte>, image: seq<byte>, address: seq<byte>)
    requires 512 < |image| <= |s| && |address| == 8
    ensures Installed(s, Splice(Splice(Splice(Splice(Splice(s, 0, image[..512]), 512, image[512..]), 0x1a4, address),
                                       218, s[218..224]), 440, s[440..510]), image, address)
  {
    var a := Splice(Splice(s, 0, image[..512]), 512, image[512..]);
    assert forall x :: 0 <= x < |s| ==> a[x] == if x < |image| then image[x] else s[x];
    var b := Splice(Splice(Splice(a, 0x1a4, address), 218, s[218..224]), 440, s[440..510]);
    assert b[0x1a4..0x1ac] == address;
  }

  lemma InstalledKeeps(before: seq<byte>, after: seq<byte>, image: seq<byte>, address: seq<byte>)
    requires Installed(before, after, image, address) && |image| <= FIRST_PARTITION_SECTOR * 512
    ensures Kept(before, after) && BootCodeAt(after, image, address)
  {
  }

  // ---- Active flags -------------------------------------------------------------------------------------

  /** The active flag of slot `j`. */
  function Flag(s: seq<byte>, j: nat): byte
    requires |s| >= 512 && j < 4
  {
    s[446 + 16 * j]
  }

  /** Some slot has its top bit set. */
  ghost predicate SomeActive(s: seq<byte>)
    requires |s| >= 512
  {
    Flag(s, 0) >= 128 || Flag(s, 1) >= 128 || Flag(s, 2) >= 128 || Flag(s, 3) >= 128
  }

  /** A flag as force leaves it. */
  function Legalized(flag: byte, force: bool): byte {
    if force && flag != 0 && flag != 128 then (if flag >= 128 then 128 else 0) else flag
  }

  /**
   The active flag of slot `j` after an install: as it was, or its top bit alone where force had to
   make it legal; and slot 0 is made active when no slot was.
   */
  ghost function FlagAfter(s: seq<byte>, force: bool, j: nat): byte
    requires |s| >= 512 && j < 4
  {
    if j == 0 && !SomeActive(s) then 128 else Legalized(Flag(s, j), force)
  }

  ghost predicate FlagsSet(before: seq<byte>, force: bool, after: seq<byte>) {
    && |before| >= 512 && |after| == |before|
    && (forall j :: 0 <= j < 4 ==> Flag(after, j) == FlagAfter(before, force, j))
  }

  lemma OneForced(s: seq<byte>, m: nat, force: bool, j: nat)
    requires |s| >= 512 && m < 4 && j < 4
    ensures Flag(FlagForced(s, m, force), j) == if j == m then Legalized(Flag(s, j), force) else Flag(s, j)
  {
  }

  /** The flags after forcing, before one is set. */
  lemma {:induction false} ForcedFlag(s: seq<byte>, force: bool, k: nat, j: nat)
    requires |s| >= 512 && k <= 4 && j < 4
    ensures Flag(Forced(s, force, k), j) == if j < k then Legalized(Flag(s, j), force) else Flag(s, j)
    decreases k
  {
    hide FlagForced, Legalized;
    if k > 0 {
      ForcedFlag(s, force, k - 1, j);
      OneForced(Forced(s, force, k - 1), k - 1, force, j);
    }
  }

  /** Forcing, clearing marks and setting a first flag come to the flags as promised. */
  lemma FlagsComeOut(s0: seq<byte>, force: bool, s2: seq<byte>, s3: seq<byte>)
    requires |s0| >= 512 && HintsOnly(Forced(s0, force, 4), s2, 0)
    requires s3 == if SomeActive(s0) then s2 else Splice(s2, 446, [0x80])
    ensures FlagsSet(s0, force, s3)
  {
    hide Forced;
    forall j | 0 <= j < 4 ensures Flag(s3, j) == FlagAfter(s0, force, j) {
      ForcedFlag(s0, force, 4, j);
    }
  }

  /** What an install behind an MBR asks of the device: a decent table and no file system. */
  ghost predicate Decent(s: seq<byte>, force: bool) {
    && |s| >= 512 && (forall k :: 0 <= k < 4 ==> StartsHigh(s, k))
    && (force || (Signed(s) && (forall k :: 0 <= k < 4 ==> LegalFlag(s[EntryAt(k)])) && forall i :: 0 <= i < 5 ==> !Marked(s, 0, i)))
  }

  /** The checks before an install behind an MBR, and the active flag that some systems need. */
  method Prepare(dev: D.Device, force: bool) returns (ok: bool, ghost unsaved: nat)
    requires Going(dev, true, 0)
    modifies dev`disk, dev`cacheState, dev`cachedBlock, dev`undoCount, dev`logFull, dev.cache, dev.undoData
    ensures Going(dev, ok, unsaved) && Logged(dev, 11)
    ensures ok ==> Kept(old(dev.Logical()), dev.Logical()) && Behind(old(dev.Logical()), dev.Logical())
    ensures ok ==> Decent(old(dev.Logical()), force)
    ensures ok ==> FlagsSet(old(dev.Logical()), force, dev.Logical())
    ensures old(Room(dev, 11)) ==> (ok <==> Decent(old(dev.Logical()), force))
  {
    hide Splice, D.Device.Logical, UndoLog.SavesOriginal, StartsHigh, Kept, Signed, LegalFlag, Marked, Forced, Behind,
         HintsOnly, FlagsSet, SomeActive;
    ghost var s0 := dev.Logical();
    var r;
    ok, r, unsaved := CheckMbr(dev, force);
    if !ok || !r.HasMbr? { return false, unsaved; }
    ghost var s1 := dev.Logical();
    ForcedBehind(s0, force, 4);
    if !force { UnforcedIsSame(s0, 4); }
    var valid;
    ok, valid, unsaved := ValidateOrForce(dev, 0, force);
    if !ok || !valid { return false, unsaved; }
    ghost var s2 := dev.Logical();
    HintsKeep(s1, s2);
    KeptTrans(s0, s1, s2);
    BehindTrans(s0, s1, s2);
    if !r.anyActive {
      ok, unsaved := Put(dev, 446, [0x80]);
      if !ok { return; }
      FlagKept(s2);
      KeptTrans(s0, s2, dev.Logical());
      BehindTrans(s0, s2, dev.Logical());
    }
    AnyIsSome(s0);
    FlagsComeOut(s0, force, s2, dev.Logical());
  }

  lemma AnyIsSome(s: seq<byte>)
    requires |s| >= 512
    ensures (exists k :: 0 <= k < 4 && s[EntryAt(k)] >= 0x80) <==> SomeActive(s)
  {
    assert EntryAt(0) == 446 && EntryAt(1) == 462 && EntryAt(2) == 478 && EntryAt(3) == 494;
  }

  lemma HintsKeep(a: seq<byte>, b: seq<byte>)
    requires HintsOnly(a, b, 0)
    ensures Kept(a, b) && Behind(a, b)
  {
  }

  lemma BehindTrans(a: seq<byte>, b: seq<byte>, c: seq<byte>)
    requires Behind(a, b) && Behind(b, c)
    ensures Behind(a, c)
  {
  }

  lemma {:induction false} UnforcedIsSame(s: seq<byte>, k: nat)
    requires |s| >= 512 && k <= 4
    ensures Forced(s, false, k) == s
    decreases k
  {
    if k > 0 { UnforcedIsSame(s, k - 1); }
  }

  /**
   An install behind an MBR, up to its final flush. Where nothing else fails, it succeeds exactly
   behind a decent table with room for stage 2. On success the device holds the boot code, every
   listed partition starts at sector 63 or later, and neither the time stamp, the table's entries nor
   any byte from sector 63 on has changed; it takes at most 16 undo records.
   */
  method InstallBehindMbr(dev: D.Device, image: seq<byte>, address: seq<byte>, force: bool) returns (ok: bool, ghost unsaved: nat)
    requires Going(dev, true, 0) && 512 < |image| && |address| == 8
    modifies dev`disk, dev`cacheState, dev`cachedBlock, dev`undoCount, dev`logFull, dev.cache, dev.undoData
    ensures Going(dev, ok, unsaved) && Logged(dev, 16)
    ensures ok ==> dev.disk == dev.Logical() && Kept(old(dev.Logical()), dev.disk)
    ensures ok ==> forall k :: 0 <= k < 4 ==> StartsHigh(dev.disk, k)
    ensures ok ==> BootCodeAt(dev.disk, image, address) && WrittenOver(old(dev.Logical()), dev.disk, image)
    ensures ok ==> FlagsSet(old(dev.Logical()), force, dev.disk)
    ensures old(Room(dev, 16)) && |image| <= |dev.disk| ==>
              (ok <==> Decent(old(dev.Logical()), force) && |image| - 512 <= STAGE2_MAX)
  {
    hide Splice, D.Device.Logical, UndoLog.SavesOriginal, StartsHigh, Installed, Kept, Signed, LegalFlag, Marked, Behind,
         WrittenOver, FlagsSet;
    ghost var s0 := dev.Logical();
    ok, unsaved := Prepare(dev, force);
    if !ok { return; }
    ghost var s1 := dev.Logical();
    ok, unsaved := PutBootCode(dev, image, address);
    if !ok { return; }
    ghost var s2 := dev.Logical();
    InstalledKeeps(s1, s2, image, address);
    InstalledOver(s0, s1, s2, image, address);
    InstalledFlags(s0, force, s1, s2, image, address);
    KeptTrans(s0, s1, s2);
    forall k | 0 <= k < 4 ensures StartsHigh(s2, k) { StartsHighKept(s0, s2, k); }
    ghost var d0 := dev.disk;
    ok := dev.FlushCache();
    dev.KeepUndo(d0, s2);
  }

  lemma InstalledFlags(a: seq<byte>, force: bool, b: seq<byte>, c: seq<byte>, image: seq<byte>, address: seq<byte>)
    requires FlagsSet(a, force, b) && Installed(b, c, image, address)
    ensures FlagsSet(a, force, c)
  {
  }

  lemma InstalledOver(a: seq<byte>, b: seq<byte>, c: seq<byte>, image: seq<byte>, address: seq<byte>)
    requires Behind(a, b) && Installed(b, c, image, address)
    ensures WrittenOver(a, c, image)
  {
  }

  lemma FlagKept(s: seq<byte>)
    requires |s| >= 447
    ensures Kept(s, Splice(s, 446, [0x80])) && Behind(s, Splice(s, 446, [0x80]))
  {
    KeptAlong(s, s, 446, [0x80]);
  }

  lemma KeptTrans(a: seq<byte>, b: seq<byte>, c: seq<byte>)
    requires Kept(a, b) && Kept(b, c)
    ensures Kept(a, c)
  {
  }

  // ---- What an install finds behind a conversion ----------------------------------------------------------

  /**
   The converted content has nothing an install could object to. Sector 0 was zeroed unless the usable
   range starts at block 0; the mark at 1080 is gone with its block, if that was reserved.
   */
  ghost predicate Acceptable(t: Table, lbSize: nat, s: seq<byte>, n: nat, force: bool)
    requires lbSize > 0 && |s| >= 512
  {
    && (t.firstUsable >= 1 || forall k :: n <= k < 4 ==> StartsHigh(s, k))
    && (force || t.firstUsable >= 1
        || ((forall k :: 0 <= k < 4 ==> LegalFlag(s[EntryAt(k)])) && forall i :: 0 <= i < 4 ==> !Marked(s, 0, i)))
    && (force || Reserved(t, lbSize, s, 1080 / lbSize) || !Marked(s, 0, 4))
  }

  lemma SectorZeroReserved(t: Table, lbSize: nat, s: seq<byte>)
    requires lbSize > 0
    ensures Reserved(t, lbSize, s, 0) <==> t.firstUsable >= 1
  {
  }

  /** The block of an address in the first sectors. */
  lemma BlockAt(x: nat, lbSize: nat)
    requires lbSize in {512, 2048, 4096} && (x < 512 || 1080 <= x < 1082)
    ensures InBlock(if x < 512 then 0 else 1080 / lbSize, lbSize, x)
  {
    hide BlockStart;
    Locate(x, lbSize);
    NextBlock(x / lbSize, lbSize);
    assert x / lbSize == if x < 512 then 0 else 1080 / lbSize;
  }

  /** Slot `k` of the converted content: a listed partition, or what sector 0 held there. */
  lemma ConvertedSlot(t: Table, lbSize: nat, s: seq<byte>, r: seq<byte>, id: seq<byte>, parts: seq<MbrEntry>, chs: seq<Chs>, k: nat)
    requires lbSize in {512, 2048, 4096} && |s| >= 2048 && k < 4
    requires Converted(t, lbSize, s, r, |parts|) && TableIs(r, id, parts, chs)
    requires forall j :: 0 <= j < |parts| ==> parts[j].first >= FIRST_PARTITION_SECTOR
    ensures r[EntryAt(k)] == if t.firstUsable >= 1 then 0 else s[EntryAt(k)]
    ensures StartsHigh(r, k) <==> k < |parts| || t.firstUsable >= 1 || StartsHigh(s, k)
  {
    hide Reserved, InBlock;
    var at := EntryAt(k);
    SectorZeroReserved(t, lbSize, s);
    forall x: nat | at <= x < at + 16 && !InTable(x, |parts|) ensures r[x] == if t.firstUsable >= 1 then 0 else s[x] {
      BlockAt(x, lbSize);
    }
    if k < |parts| {
      assert EntryIs(r, k, parts[k], chs[k]);
    } else {
      assert t.firstUsable == 0 ==> r[at + 8..at + 12] == s[at + 8..at + 12];
    }
  }

  lemma ConvertedMark(t: Table, lbSize: nat, s: seq<byte>, r: seq<byte>, n: nat, i: nat)
    requires lbSize in {512, 2048, 4096} && |s| >= 2048 && n <= 4 && i < 5
    requires Converted(t, lbSize, s, r, n)
    ensures Marked(r, 0, i) <==> Marked(s, 0, i) && !Reserved(t, lbSize, s, if i < 4 then 0 else 1080 / lbSize)
  {
    hide Reserved, InBlock, HINTS;
    HintsAre(i);
    HintPlace(i);
    var h := HINTS[i];
    var b := if i < 4 then 0 else 1080 / lbSize;
    var old_, new_ := s[h.at..h.at + |h.mark|], r[h.at..h.at + |h.mark|];
    forall k | 0 <= k < |h.mark| ensures new_[k] == if Reserved(t, lbSize, s, b) then 0 else old_[k] {
      BlockAt(h.at + k, lbSize);
    }
    if Reserved(t, lbSize, s, b) { assert new_[0] == 0 != h.mark[0]; } else { assert new_ == old_; }
  }

  lemma HintPlace(i: nat)
    requires i < 5
    ensures |HINTS| == 5
    ensures if i < 4 then HINTS[i].at + |HINTS[i].mark| <= 87 else HINTS[i].at == 1080 && |HINTS[i].mark| == 2
  {
  }

  /** Exactly when an install accepts the converted content, in terms of the content before. */
  lemma DecentAfter(t: Table, lbSize: nat, s: seq<byte>, r: seq<byte>, entries: seq<GptEntry>, id: seq<byte>, chs: seq<Chs>, force: bool)
    requires lbSize in {512, 2048, 4096} && |s| >= 2048
    requires Converted(t, lbSize, s, r, |Used(entries)|) && Lists(r, id, entries, lbSize, chs)
    ensures Decent(r, force) <==> Acceptable(t, lbSize, s, |Used(entries)|, force)
  {
    hide TableIs, Matches, Reserved, Used, Converted, StartsHigh, Marked, LegalFlag, Signed;
    var parts: seq<MbrEntry> :| TableIs(r, id, parts, chs) && Matches(parts, entries, lbSize);
    var n := |parts|;
    TableSize(r, id, parts, chs);
    MatchesHigh(parts, entries, lbSize);
    forall k | 0 <= k < 4
      ensures r[EntryAt(k)] == if t.firstUsable >= 1 then 0 else s[EntryAt(k)]
      ensures StartsHigh(r, k) <==> k < n || t.firstUsable >= 1 || StartsHigh(s, k)
    {
      ConvertedSlot(t, lbSize, s, r, id, parts, chs, k);
    }
    forall i | 0 <= i < 5
      ensures Marked(r, 0, i) <==> Marked(s, 0, i) && !Reserved(t, lbSize, s, if i < 4 then 0 else 1080 / lbSize)
    {
      ConvertedMark(t, lbSize, s, r, n, i);
    }
    SectorZeroReserved(t, lbSize, s);
    ZeroIsLegal();
    SameSize(t, lbSize, s, r, n);
    DecentParts(t, lbSize, s, r, n, force);
  }

  lemma ZeroIsLegal()
    ensures LegalFlag(0)
  {
  }

  lemma SameSize(t: Table, lbSize: nat, s: seq<byte>, r: seq<byte>, n: nat)
    requires lbSize > 0 && Converted(t, lbSize, s, r, n)
    ensures |r| == |s|
  {
  }

  lemma DecentParts(t: Table, lbSize: nat, s: seq<byte>, r: seq<byte>, n: nat, force: bool)
    requires lbSize > 0 && |s| == |r| >= 2048 && n <= 4 && Signed(r) && LegalFlag(0)
    requires Reserved(t, lbSize, s, 0) <==> t.firstUsable >= 1
    requires forall k :: 0 <= k < 4 ==> r[EntryAt(k)] == if t.firstUsable >= 1 then 0 else s[EntryAt(k)]
    requires forall k :: 0 <= k < 4 ==> (StartsHigh(r, k) <==> k < n || t.firstUsable >= 1 || StartsHigh(s, k))
    requires forall i :: 0 <= i < 5 ==>
               (Marked(r, 0, i) <==> Marked(s, 0, i) && !Reserved(t, lbSize, s, if i < 4 then 0 else 1080 / lbSize))
    ensures Decent(r, force) <==> Acceptable(t, lbSize, s, n, force)
  {
    hide Reserved, StartsHigh, Marked, LegalFlag, Signed;
    assert Marked(r, 0, 4) <==> Marked(s, 0, 4) && !Reserved(t, lbSize, s, 1080 / lbSize);
  }

  lemma MatchesHigh(parts: seq<MbrEntry>, entries: seq<GptEntry>, lbSize: nat)
    requires Matches(parts, entries, lbSize)
    ensures |parts| == |Used(entries)| && forall k :: 0 <= k < |parts| ==> parts[k].first >= FIRST_PARTITION_SECTOR
  {
  }

  /** Three sectors in front of the usable range are enough. */
  lemma UsualIsAcceptable(t: Table, lbSize: nat, s: seq<byte>, n: nat, force: bool)
    requires lbSize in {512, 2048, 4096} && |s| >= 512
    requires BlockStart(PrimaryReserve(t, lbSize), lbSize) >= 1536
    ensures Acceptable(t, lbSize, s, n, force)
  {
    hide AltReserve;
    BlockStartIsProduct(PrimaryReserve(t, lbSize), lbSize);
    assert PrimaryReserve(t, lbSize) > 1080 / lbSize;
  }

  /**
   A conversion that goes through and is then refused: the usable range starts at block 2 and holds a
   file-system mark, which the conversion rightly leaves alone.
   */
  lemma ConvertsThenRefuses(s: seq<byte>)
    requires |s| >= 2048 && s[1080..1082] == [0x53, 0xef]
    ensures !Acceptable(Table(true, 200, 1, 2, 10, Some(200)), 512, s, 0, false)
  {
    assert AltReserve(512) == 33;
    assert HINTS[4] == Hint(1080, [0x53, 0xef], 2);
  }

  /**
   Conversion and install together. They take at most 141 undo records, so that starting with an
   empty log no write is ever refused for want of one. Where nothing else fails, they succeed exactly
   when the partitions can be listed, nothing stands in the way of converting, what was converted is
   acceptable and stage 2 fits. On success the device itself holds the boot code, lists every used
   partition with exactly its bytes, and holds from sector 63 on what it held before in every block
   the table called usable; and no GPT header is left on it exactly when none stays.
   */
  method ConvertAndInstall(dev: D.Device, t: Table, lbSize: nat, entries: seq<GptEntry>,
                           id: seq<byte>, chs: seq<Chs>, image: seq<byte>, address: seq<byte>, force: bool)
    returns (ok: bool, ghost unsaved: nat)
    requires Going(dev, true, 0) && lbSize in {512, 2048, 4096} && t.firstUsable <= t.lastUsable
    requires |id| == 4 && |chs| == 4
    requires forall i :: 0 <= i < |entries| ==> -1 <= entries[i].kind < 256
    requires 512 < |image| && |address| == 8
    requires dev.undoCount == 0 && !dev.logFull
    modifies dev`disk, dev`cacheState, dev`cachedBlock, dev`undoCount, dev`logFull, dev.cache, dev.undoData
    ensures Going(dev, ok, unsaved)
    ensures dev.undoCount <= 141 < D.UNDO_MAX && !dev.logFull
    ensures ok ==> Finished(t, lbSize, entries, id, chs, image, address, force, old(dev.Logical()), dev.disk)
    ensures ok ==> dev.disk == dev.Logical()
    ensures ok && dev.Dependable() ==>
              (GptGone(t, lbSize, dev.disk) <==> NoHeaderStays(t, lbSize, old(dev.Logical()), image))
    ensures old(Room(dev, 141)) && WholeBlocks(t, lbSize, |dev.disk|) && |image| <= |dev.disk| ==>
              (ok <==> AllConvertible(entries, lbSize) && MayConvert(t, lbSize, entries, old(dev.Logical()))
                       && Acceptable(t, lbSize, old(dev.Logical()), |Used(entries)|, force)
                       && |image| - 512 <= STAGE2_MAX)
  {
    hide Splice, D.Device.Logical, UndoLog.SavesOriginal, Lists, GptGone, Removable, StartsHigh, InUsable, Used, MayConvert,
         BlockStart, PrimaryReserve, Decent, BootCodeAt, ReserveCleared, AllConvertible, Converted, Acceptable, NoHeaderStays,
         WrittenOver, FlagsSet, OnlyReserved, FlagsFinished;
    ghost var s0 := dev.Logical();
    var done;
    ok, done, unsaved := ConvertGpt(dev, t, lbSize, entries, id, chs);
    if !ok { return; }
    if !done { return false, 0; }
    ConvertibleCount(entries, lbSize);
    ghost var s1 := dev.Logical();
    ghost var listed := chs[..|Used(entries)|];
    if dev.Dependable() && |s0| >= 2048 { DecentAfter(t, lbSize, s0, s1, entries, id, listed, force); }
    ok, unsaved := InstallBehindMbr(dev, image, address, force);
    if !ok { return; }
    FlagsAfterConversion(t, lbSize, s0, s1, |Used(entries)|, force, dev.disk);
    if dev.Dependable() { GoneAfterInstall(t, lbSize, s0, s1, dev.disk, |Used(entries)|, image); }
    if image[510..512] == [0x55, 0xaa] {
      BootSignature(dev.disk, image, address);
      ListsKept(s1, dev.disk, id, entries, lbSize, listed);
    }
  }

  /** The flags at the end: with sector 0 cleared the first slot is active, else they come from before. */
  ghost predicate FlagsFinished(t: Table, force: bool, before: seq<byte>, after: seq<byte>) {
    && |before| >= 512 && |after| == |before|
    && (forall j :: 0 <= j < 4 ==>
          Flag(after, j) == if t.firstUsable >= 1 then (if j == 0 then 128 else 0) else FlagAfter(before, force, j))
  }

  /** With sector 0 cleared the first slot is made active; else the flags are those from before. */
  lemma FlagsAfterConversion(t: Table, lbSize: nat, s0: seq<byte>, s1: seq<byte>, n: nat, force: bool, s2: seq<byte>)
    requires lbSize in {512, 2048, 4096} && n <= 4
    requires ReserveCleared(t, lbSize, s1, n) && OnlyReserved(t, lbSize, s0, s1, n) && FlagsSet(s1, force, s2)
    ensures FlagsFinished(t, force, s0, s2)
  {
    hide Reserved, InBlock, AltReserve;
    SectorZeroReserved(t, lbSize, s0);
    if t.firstUsable >= 1 {
      ReserveIs(lbSize);
      BlockStartMonotone(1, PrimaryReserve(t, lbSize), lbSize);
      NextBlock(0, lbSize);
      BlockZero(lbSize);
    }
    forall j | 0 <= j < 4 ensures Flag(s1, j) == if t.firstUsable >= 1 then 0 else Flag(s0, j) {
      BlockAt(446 + 16 * j, lbSize);
    }
    assert SomeActive(s1) <==> t.firstUsable == 0 && SomeActive(s0);
    forall j | 0 <= j < 4
      ensures Flag(s2, j) == if t.firstUsable >= 1 then (if j == 0 then 128 else 0) else FlagAfter(s0, force, j)
    {
      assert Flag(s2, j) == FlagAfter(s1, force, j);
      assert Flag(s1, j) == if t.firstUsable >= 1 then 0 else Flag(s0, j);
    }
  }

  /** The device behind a conversion and install. */
  ghost predicate Finished(t: Table, lbSize: nat, entries: seq<GptEntry>, id: seq<byte>, chs: seq<Chs>,
                           image: seq<byte>, address: seq<byte>, force: bool, before: seq<byte>, after: seq<byte>)
    requires |chs| == 4 && |image| > 512
  {
    && AllConvertible(entries, lbSize) && BootCodeAt(after, image, address) && |after| == |before|
    && FlagsFinished(t, force, before, after)
    && (image[510..512] == [0x55, 0xaa] ==> Lists(after, id, entries, lbSize, chs[..|Used(entries)|]))
    && (forall x: nat :: FIRST_PARTITION_SECTOR * 512 <= x < |after| && InUsable(t, lbSize, x) ==> after[x] == before[x])
  }

  /**
   `bios_install` on a device with a hybrid image: convert and install, then reverse the undo log, and
   on a failure write it back. At the end the device is either finished, and its log written back
   would restore what it held at first; or the undo has restored that exactly if the bytes without a
   record were intact, which they are unless a write had failed after its save-read. On a reliable
   device one of the two is certain, and which one is decided by the device's content.
   */
  method Install(dev: D.Device, t: Table, lbSize: nat, entries: seq<GptEntry>,
                 id: seq<byte>, chs: seq<Chs>, image: seq<byte>, address: seq<byte>, force: bool)
    returns (ok: bool, restored: bool, ghost unsaved: nat, ghost log: seq<Record>, ghost stopped: seq<byte>)
    requires Going(dev, true, 0) && lbSize in {512, 2048, 4096} && t.firstUsable <= t.lastUsable
    requires |id| == 4 && |chs| == 4
    requires forall i :: 0 <= i < |entries| ==> -1 <= entries[i].kind < 256
    requires 512 < |image| && |address| == 8
    requires dev.undoCount == 0 && !dev.logFull
    modifies dev, dev.cache, dev.undoData, dev.undoRev
    ensures dev.Valid() && |dev.disk| == |dev.initial|
    ensures ok ==> Finished(t, lbSize, entries, id, chs, image, address, force, old(dev.Logical()), dev.disk)
    ensures ok ==> InRange(dev.Log(), |dev.disk|) && Replay(dev.Log(), dev.disk) == dev.initial
    ensures ok && dev.Dependable() ==>
              (GptGone(t, lbSize, dev.disk) <==> NoHeaderStays(t, lbSize, old(dev.Logical()), image))
    ensures !ok && restored ==> (dev.disk == dev.initial <==> UncoveredIntact(dev.initial, log, stopped))
    ensures !ok && restored && unsaved == 0 ==> dev.disk == dev.initial
    ensures dev.Dependable() && !ok ==> restored
    ensures old(Room(dev, 141)) && WholeBlocks(t, lbSize, |dev.disk|) && |image| <= |dev.disk| ==>
              (ok <==> AllConvertible(entries, lbSize) && MayConvert(t, lbSize, entries, old(dev.Logical()))
                       && Acceptable(t, lbSize, old(dev.Logical()), |Used(entries)|, force)
                       && |image| - 512 <= STAGE2_MAX)
  {
    hide Splice, D.Device.Logical, UndoLog.SavesOriginal, UndoLog.UncoveredIntact, Finished, GptGone, NoHeaderStays, MayConvert,
         Acceptable, AllConvertible, Used, WholeBlocks;
    ok, unsaved := ConvertAndInstall(dev, t, lbSize, entries, id, chs, image, address, force);
    log, stopped, restored := dev.Log(), dev.disk, false;
    UndoRestoresExactly(dev.initial, log, stopped);
    if ok {
      dev.UncoveredOf();
      dev.ReverseUndoData();
    } else {
      restored := dev.AbortInstall();
    }
  }

  lemma ConvertibleCount(entries: seq<GptEntry>, lbSize: nat)
    requires AllConvertible(entries, lbSize)
    ensures |Used(entries)| <= 4
  {
  }

  lemma BootSignature(s: seq<byte>, image: seq<byte>, address: seq<byte>)
    requires BootCodeAt(s, image, address) && image[510..512] == [0x55, 0xaa]
    ensures |s| >= 512 && Signed(s)
  {
    assert image[510..512][0] == image[510] && image[510..512][1] == image[511];
    assert s[510..512] == [s[510], s[511]];
  }
}
