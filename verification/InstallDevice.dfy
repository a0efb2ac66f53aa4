/**
 What an install asks of its device (limine/host/limine.c): reads and logged writes that either
 keep the install undoable or say how much they overwrote without a record.
 */
module InstallDevice {
  import opened Bytes
  import opened UndoLog
  import D = Device

  /** Ready for more installing, or stopped with `unsaved` bytes overwritten but not logged. */
  ghost predicate Going(dev: D.Device, ok: bool, unsaved: nat)
    reads dev, dev.cache, dev.undoData
  {
    && dev.Valid() && !dev.uninstalling && |dev.disk| == |dev.initial|
    && SavesOriginal(dev.initial, dev.Log())
    && (ok ==> unsaved == 0)
    && (unsaved == 0 ==> dev.UndoReady())
  }

  /** At most `n` records more, and no write was refused for want of one while there was room. */
  twostate predicate Logged(dev: D.Device, n: nat)
    reads dev
  {
    && old(dev.undoCount) <= dev.undoCount <= old(dev.undoCount) + n
    && (old(dev.undoCount) + n <= D.UNDO_MAX ==> dev.logFull == old(dev.logFull))
  }

  /** A reliable device, large enough for every fixed place an install looks at, and `n` free records. */
  ghost predicate Room(dev: D.Device, n: nat)
    reads dev
  {
    dev.Dependable() && |dev.disk| >= 2048 && dev.undoCount + n <= D.UNDO_MAX
  }

  /** `device_write`. */
  method Put(dev: D.Device, loc: u64, data: seq<byte>) returns (ok: bool, ghost unsaved: nat)
    requires Going(dev, true, 0) && data != [] && loc + |data| < U64_LIMIT
    modifies dev`disk, dev`cacheState, dev`cachedBlock, dev`undoCount, dev`logFull, dev.cache, dev.undoData
    ensures Going(dev, ok, unsaved) && Logged(dev, 1)
    ensures ok ==> loc + |data| <= |old(dev.Logical())| && dev.Logical() == Splice(old(dev.Logical()), loc, data)
    ensures old(Room(dev, 1)) && loc + |data| <= |dev.disk| ==> ok
  {
    hide Splice;
    ghost var d0, L0 := dev.disk, dev.Logical();
    ghost var done;
    ok, done := dev.WriteRaw(data, loc);
    unsaved := if ok then 0 else done;
    assert data[..|data|] == data;
  }

  /** `device_read`. */
  method Get(dev: D.Device, loc: u64, n: nat) returns (ok: bool, data: seq<byte>)
    requires Going(dev, true, 0) && n > 0 && loc + n < U64_LIMIT
    modifies dev`disk, dev`cacheState, dev`cachedBlock, dev.cache
    ensures Going(dev, true, 0) && dev.Logical() == old(dev.Logical())
    ensures ok ==> |data| == n && loc + n <= |dev.Logical()| && data == dev.Logical()[loc..loc + n]
    ensures dev.Dependable() && loc + n <= |dev.disk| ==> ok
    ensures |dev.disk| == |old(dev.disk)|
  {
    hide Splice;
    ghost var d0, L0 := dev.disk, dev.Logical();
    ok, data := dev.ReadRaw(loc, n);
    dev.KeepUndo(d0, L0);
  }

  // ---- Byte ranges ---------------------------------------------------------------------------------------

  function Zeros(n: nat): (z: seq<byte>)
    ensures |z| == n && forall k :: 0 <= k < n ==> z[k] == 0
  {
    seq(n, _ => 0)
  }

  /** `after` differs from `before` at most inside `lo .. hi`. */
  ghost predicate ChangedWithin(before: seq<byte>, after: seq<byte>, lo: nat, hi: nat) {
    && |after| == |before|
    && (forall x :: 0 <= x < |before| && !(lo <= x < hi) ==> after[x] == before[x])
  }

  ghost predicate ZeroWithin(s: seq<byte>, lo: nat, hi: nat) {
    forall x :: lo <= x < hi && x < |s| ==> s[x] == 0
  }

  lemma SpliceWithin(before: seq<byte>, s: seq<byte>, lo: nat, at: nat, d: seq<byte>, hi: nat)
    requires ChangedWithin(before, s, lo, hi) || ChangedWithin(before, s, lo, at)
    requires at + |d| <= |s| && lo <= at && at + |d| <= hi
    ensures ChangedWithin(before, Splice(s, at, d), lo, hi)
  {
  }

  /** The active flags of the four partition entries in sector 0. */
  predicate IsFlag(x: nat) { x == 446 || x == 462 || x == 478 || x == 494 }

  /** Bytes of sector 0 a table with `n` entries takes up: its id, the entries but their flags, its signature. */
  predicate InTable(x: nat, n: nat) {
    440 <= x < 444 || 510 <= x < 512 || (446 <= x < 446 + 16 * n && !IsFlag(x))
  }
}
