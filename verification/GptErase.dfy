/**
 Removing a GPT (limine/host/limine.c): which blocks the conversion erases, what it leaves alone,
 and exactly when no GPT header is left behind.
 */
module GptErase {
  import opened Blocks
  import opened Bytes
  import opened UndoLog
  import opened InstallDevice
  import D = Device

  /** "EFI PART". */
  const SIGNATURE: seq<byte> := [0x45, 0x46, 0x49, 0x20, 0x50, 0x41, 0x52, 0x54]
  /** The size of a header as it is read. */
  const HEADER: nat := 96

  /** What the header found says of the table and the device. */
  datatype Table = Table(fromAlternate: bool, headerLba: u64, alternateLba: u64,
                         firstUsable: u64, lastUsable: u64, lastBlock: Option<u64>)

  /** Block `b` can be read as a header, and carries the signature. */
  ghost predicate HasSignature(s: seq<byte>, lbSize: nat, b: nat) {
    && BlockStart(b, lbSize) + HEADER <= |s|
    && s[BlockStart(b, lbSize)..BlockStart(b, lbSize) + 8] == SIGNATURE
  }

  /** The signature in plain words, at the start of a block from which 96 bytes can be read. */
  lemma SignatureIs(s: seq<byte>, lbSize: nat, b: nat)
    ensures HasSignature(s, lbSize, b) <==> b * lbSize + 96 <= |s| && BytesAt(s, b * lbSize, "EFI PART")
  {
    hide BlockStart;
    BlockStartIsProduct(b, lbSize);
    var at := b * lbSize;
    if at + 96 <= |s| { TextAt(s, at); }
  }

  lemma TextAt(s: seq<byte>, at: nat)
    requires at + 8 <= |s|
    ensures s[at..at + 8] == SIGNATURE <==> BytesAt(s, at, "EFI PART")
  {
    var there, text := s[at..at + 8], "EFI PART";
    assert forall k :: 0 <= k < 8 ==> SIGNATURE[k] == text[k] as int;
    assert forall k :: 0 <= k < 8 ==> there[k] == s[at + k];
  }

  // ---- What a reader of the disk could find -----------------------------------------------------------

  /** Where a GPT reader looks for a header: block 1, the other place the table is known by, the last block. */
  predicate HeaderPlace(t: Table, b: nat) {
    b == 1 || b == (if t.fromAlternate then t.headerLba else t.alternateLba) || t.lastBlock == Some(b)
  }

  ghost predicate GptGone(t: Table, lbSize: nat, s: seq<byte>) {
    forall b: nat :: HeaderPlace(t, b) ==> !HasSignature(s, lbSize, b)
  }

  // ---- What the conversion erases ----------------------------------------------------------------------

  /** The header and 16384 bytes, in blocks: the alternate's reserve. */
  function AltReserve(lbSize: nat): nat
    requires lbSize > 0
  {
    1 + (16384 + lbSize - 1) / lbSize
  }

  /** Unsigned 64-bit subtraction. */
  function SubU64(a: u64, b: u64): u64 { if a >= b then a - b else a - b + U64_LIMIT }

  /** `first .. last`, both erased; nothing when `first` is past `last`. */
  datatype Wipe = Wipe(first: nat, last: nat)

  /** The alternates considered: the one the header names, or came from, and the one at the end. */
  function Alternates(t: Table, lbSize: nat): (a: seq<u64>)
    requires lbSize > 0
    ensures |a| <= 2
  {
    var named := if t.fromAlternate then [t.headerLba]
                 else if t.alternateLba >= AltReserve(lbSize) then [t.alternateLba] else [];
    named + (if t.lastBlock.Some? && t.lastBlock.value >= AltReserve(lbSize) && (named == [] || named[0] != t.lastBlock.value)
             then [t.lastBlock.value] else [])
  }

  /** No block of the range is one the table calls usable. */
  predicate OutsideUsable(t: Table, w: Wipe) {
    w.last < t.firstUsable || w.first > t.lastUsable
  }

  /** The blocks of the primary: boot record, header and 16384 bytes, short of the usable range. */
  function PrimaryReserve(t: Table, lbSize: nat): nat
    requires lbSize > 0
  {
    var reserveMax := AltReserve(lbSize) + 1;
    if t.firstUsable < reserveMax then t.firstUsable else reserveMax
  }

  /** The reserves in numbers, for the sector sizes there are. */
  lemma ReservesAre(t: Table)
    ensures AltReserve(512) == 33 && AltReserve(2048) == 9 && AltReserve(4096) == 5
    ensures PrimaryReserve(t, 512) == (if t.firstUsable < 34 then t.firstUsable else 34)
    ensures PrimaryReserve(t, 2048) == (if t.firstUsable < 10 then t.firstUsable else 10)
    ensures PrimaryReserve(t, 4096) == (if t.firstUsable < 6 then t.firstUsable else 6)
  {
  }

  /** An alternate considered that carries a signature. */
  ghost predicate SignedAlternate(t: Table, lbSize: nat, s: seq<byte>, a: nat)
    requires lbSize > 0
  {
    a < U64_LIMIT && a in Alternates(t, lbSize) && HasSignature(s, lbSize, a)
  }

  /** Block `b` is in the reserve of alternate `a`, behind the usable range. */
  predicate InReserve(t: Table, lbSize: nat, a: nat, b: nat)
    requires lbSize > 0
  {
    AltReserve(lbSize) - 1 <= a && a - (AltReserve(lbSize) - 1) <= b <= a && b > t.lastUsable
  }

  /** Block `b` is in the primary's reserve, or in that of a signed alternate whose number covers its reserve. */
  ghost predicate Reserved(t: Table, lbSize: nat, s: seq<byte>, b: nat)
    requires lbSize > 0
  {
    b < PrimaryReserve(t, lbSize) || exists a: nat :: SignedAlternate(t, lbSize, s, a) && InReserve(t, lbSize, a, b)
  }

  ghost predicate Erases(wipes: seq<Wipe>, b: nat) {
    exists k :: 0 <= k < |wipes| && wipes[k].first <= b <= wipes[k].last
  }

  /** An alternate without a signature needs nothing; one with a signature has its reserve erased. */
  ghost predicate Settled(t: Table, lbSize: nat, s: seq<byte>, wipes: seq<Wipe>, a: nat)
    requires lbSize > 0
  {
    SignedAlternate(t, lbSize, s, a) ==>
      a > t.lastUsable && forall b: nat :: InReserve(t, lbSize, a, b) ==> Erases(wipes, b)
  }

  /** The probe of one alternate, by signature alone; a block that cannot be read passes for unsigned. */
  method Probe(dev: D.Device, lbSize: nat, a: u64) returns (signed: bool)
    requires Going(dev, true, 0) && lbSize > 0
    modifies dev`disk, dev`cacheState, dev`cachedBlock, dev.cache
    ensures Going(dev, true, 0) && dev.Logical() == old(dev.Logical()) && |dev.disk| == |old(dev.disk)|
    ensures signed ==> HasSignature(dev.Logical(), lbSize, a)
    ensures dev.Dependable() ==> (signed <==> HasSignature(dev.Logical(), lbSize, a))
  {
    hide D.Device.Logical, UndoLog.SavesOriginal, BlockStart;
    BlockStartIsProduct(a, lbSize);
    var loc := a * lbSize;
    if loc + HEADER >= U64_LIMIT { return false; }
    var ok, d := Get(dev, loc, HEADER);
    assert ok ==> d[..8] == dev.Logical()[loc..loc + 8];
    signed := ok && d[..8] == SIGNATURE;
  }

  /**
   Settling the erases before any is performed. The plan never touches a usable block and erases
   exactly the reserved ones, as far as signatures can be read; `None` is the abort, for a signed
   alternate that does not lie behind the usable range.
   */
  method PlanErase(dev: D.Device, t: Table, lbSize: nat) returns (r: Option<seq<Wipe>>)
    requires Going(dev, true, 0) && lbSize in {512, 2048, 4096} && t.firstUsable <= t.lastUsable
    modifies dev`disk, dev`cacheState, dev`cachedBlock, dev.cache
    ensures Going(dev, true, 0) && dev.Logical() == old(dev.Logical()) && |dev.disk| == |old(dev.disk)|
    ensures r.None? ==> exists a: nat :: SignedAlternate(t, lbSize, dev.Logical(), a) && a <= t.lastUsable
    ensures dev.Dependable() && r.Some? ==>
              forall a: nat :: SignedAlternate(t, lbSize, dev.Logical(), a) ==> a > t.lastUsable
    ensures r.Some? ==> |r.value| <= 3 && forall k :: 0 <= k < |r.value| ==> OutsideUsable(t, r.value[k])
    ensures r.Some? ==> forall b: nat :: b < PrimaryReserve(t, lbSize) ==> Erases(r.value, b)
    ensures r.Some? ==> forall b: nat :: Erases(r.value, b) ==> Reserved(t, lbSize, dev.Logical(), b)
    ensures dev.Dependable() && r.Some? ==>
              forall b: nat :: Reserved(t, lbSize, dev.Logical(), b) ==> Erases(r.value, b)
    ensures r.Some? ==> ErasedBlocks(r.value) <= 100
  {
    hide AltReserve, ErasedBlocks, Erases, SignedAlternate, Alternates, PrimaryReserve, HasSignature, InReserve,
         D.Device.Logical, UndoLog.SavesOriginal;
    ghost var s := dev.Logical();
    var alternates := Alternates(t, lbSize);
    var wipes := PrimaryWipe(t, lbSize);
    for k := 0 to |alternates|
      invariant Going(dev, true, 0) && dev.Logical() == s && |dev.disk| == |old(dev.disk)|
      invariant |wipes| <= 1 + k
      invariant forall j :: 0 <= j < |wipes| ==> OutsideUsable(t, wipes[j])
      invariant forall b: nat :: b < PrimaryReserve(t, lbSize) ==> Erases(wipes, b)
      invariant forall b: nat :: Erases(wipes, b) ==> Reserved(t, lbSize, s, b)
      invariant dev.Dependable() ==> forall j :: 0 <= j < k ==> Settled(t, lbSize, s, wipes, alternates[j])
      invariant ErasedBlocks(wipes) <= 34 + 33 * k
    {
      var a := alternates[k];
      SignedAlternateIs(t, lbSize, s, k);
      var signed := Probe(dev, lbSize, a);
      if !signed { continue; }
      if t.lastUsable >= a { return None; }
      var w := AlternateWipe(t, lbSize, a);
      ErasedAppend(wipes, w);
      ErasesAppend(wipes, w);
      wipes := wipes + [w];
    }
    r := Some(wipes);
    forall a: nat | dev.Dependable() && SignedAlternate(t, lbSize, s, a) ensures Settled(t, lbSize, s, wipes, a) {
      var j := AlternateIndex(t, lbSize, s, a);
    }
  }

  /** The blocks of an alternate behind the usable range; none when its number is less than its reserve. */
  method AlternateWipe(t: Table, lbSize: nat, a: u64) returns (w: Wipe)
    requires lbSize in {512, 2048, 4096} && t.firstUsable <= t.lastUsable < a
    ensures OutsideUsable(t, w)
    ensures w.first <= w.last ==> w.last - w.first + 1 <= 33
    ensures forall b: nat :: w.first <= b <= w.last <==> InReserve(t, lbSize, a, b)
  {
    ReserveIs(lbSize);
    hide AltReserve;
    var first := SubU64(a, AltReserve(lbSize) - 1);
    if first <= t.lastUsable { first := t.lastUsable + 1; }
    w := Wipe(first, a);
  }

  lemma SignedAlternateIs(t: Table, lbSize: nat, s: seq<byte>, k: nat)
    requires lbSize > 0 && k < |Alternates(t, lbSize)|
    ensures SignedAlternate(t, lbSize, s, Alternates(t, lbSize)[k]) <==> HasSignature(s, lbSize, Alternates(t, lbSize)[k])
  {
  }

  lemma AlternateIndex(t: Table, lbSize: nat, s: seq<byte>, a: nat) returns (j: nat)
    requires lbSize > 0 && SignedAlternate(t, lbSize, s, a)
    ensures j < |Alternates(t, lbSize)| && Alternates(t, lbSize)[j] == a
  {
    j :| 0 <= j < |Alternates(t, lbSize)| && Alternates(t, lbSize)[j] == a;
  }

  /** The first blocks, up to where the reserve or the usable range ends. */
  method PrimaryWipe(t: Table, lbSize: nat) returns (wipes: seq<Wipe>)
    requires lbSize in {512, 2048, 4096} && t.firstUsable <= t.lastUsable
    ensures |wipes| <= 1 && (forall j :: 0 <= j < |wipes| ==> OutsideUsable(t, wipes[j]))
    ensures forall b: nat :: Erases(wipes, b) <==> b < PrimaryReserve(t, lbSize)
    ensures ErasedBlocks(wipes) <= 34
  {
    hide AltReserve, ErasedBlocks;
    ReserveIs(lbSize);
    NoBlocks();
    var reserve := PrimaryReserve(t, lbSize);
    wipes := [];
    if reserve > 0 {
      var w := Wipe(0, reserve - 1);
      ErasedAppend([], w);
      assert [] + [w] == [w];
      wipes := [w];
      forall b: nat | b < reserve ensures Erases(wipes, b) { assert wipes[0].first <= b <= wipes[0].last; }
    }
  }

  lemma ReserveIs(lbSize: nat)
    requires lbSize in {512, 2048, 4096}
    ensures AltReserve(lbSize) == if lbSize == 512 then 33 else if lbSize == 2048 then 9 else 5
  {
  }

  lemma NoBlocks()
    ensures ErasedBlocks([]) == 0
  {
  }

  lemma ErasesAppend(wipes: seq<Wipe>, w: Wipe)
    ensures forall b: nat :: Erases(wipes + [w], b) <==> Erases(wipes, b) || w.first <= b <= w.last
  {
    forall b: nat | Erases(wipes, b) ensures Erases(wipes + [w], b) {
      var k :| 0 <= k < |wipes| && wipes[k].first <= b <= wipes[k].last;
      assert (wipes + [w])[k] == wipes[k];
    }
    assert (wipes + [w])[|wipes|] == w;
  }

  function WipeSize(w: Wipe): nat { if w.first <= w.last then w.last - w.first + 1 else 0 }

  /** How many blocks the ranges erase, each with one write. */
  ghost function ErasedBlocks(wipes: seq<Wipe>): nat {
    if wipes == [] then 0 else ErasedBlocks(wipes[..|wipes| - 1]) + WipeSize(wipes[|wipes| - 1])
  }

  lemma ErasedAppend(wipes: seq<Wipe>, w: Wipe)
    ensures ErasedBlocks(wipes + [w]) == ErasedBlocks(wipes) + WipeSize(w)
  {
    assert (wipes + [w])[..|wipes|] == wipes;
  }

  // ---- Erasing -----------------------------------------------------------------------------------------

  /** Erasing one range, a block at a time. */
  method EraseRange(dev: D.Device, lbSize: nat, w: Wipe) returns (ok: bool, ghost unsaved: nat)
    requires Going(dev, true, 0) && lbSize > 0
    modifies dev`disk, dev`cacheState, dev`cachedBlock, dev`undoCount, dev`logFull, dev.cache, dev.undoData
    ensures Going(dev, ok, unsaved) && Logged(dev, WipeSize(w))
    ensures ok && w.first <= w.last ==>
              ChangedWithin(old(dev.Logical()), dev.Logical(), BlockStart(w.first, lbSize), BlockStart(w.last + 1, lbSize))
    ensures ok && w.first <= w.last ==>
              ZeroWithin(dev.Logical(), BlockStart(w.first, lbSize), BlockStart(w.last + 1, lbSize))
    ensures ok && w.first > w.last ==> dev.Logical() == old(dev.Logical())
    ensures old(Room(dev, WipeSize(w))) && (w.first <= w.last ==> BlockStart(w.last + 1, lbSize) <= |dev.disk|) ==> ok
  {
    hide Splice, BlockStart, D.Device.Logical, UndoLog.SavesOriginal;
    ghost var L0 := dev.Logical();
    ok, unsaved := true, 0;
    if w.first > w.last { return; }
    var lba := w.first;
    while lba <= w.last
      invariant w.first <= lba <= w.last + 1
      invariant ok && unsaved == 0 && Going(dev, true, 0) && Logged(dev, lba - w.first)
      invariant ChangedWithin(L0, dev.Logical(), BlockStart(w.first, lbSize), BlockStart(lba, lbSize))
      invariant ZeroWithin(dev.Logical(), BlockStart(w.first, lbSize), BlockStart(lba, lbSize))
    {
      var loc := BlockStart(lba, lbSize);
      BlockStartMonotone(w.first, lba, lbSize);
      BlockStartMonotone(lba, lba + 1, lbSize);
      BlockStartMonotone(lba + 1, w.last + 1, lbSize);
      NextBlock(lba, lbSize);
      if loc + lbSize >= U64_LIMIT { return false, 0; }
      ghost var L1 := dev.Logical();
      ok, unsaved := Put(dev, loc, Zeros(lbSize));
      if !ok { return; }
      SpliceWithin(L0, L1, BlockStart(w.first, lbSize), loc, Zeros(lbSize), BlockStart(lba + 1, lbSize));
      SpliceZeros(L1, BlockStart(w.first, lbSize), loc, lbSize);
      lba := lba + 1;
    }
  }

  lemma NextBlock(lba: nat, size: nat)
    ensures BlockStart(lba + 1, size) == BlockStart(lba, size) + size
  {
  }

  lemma SpliceZeros(s: seq<byte>, lo: nat, at: nat, n: nat)
    requires ZeroWithin(s, lo, at) && at + n <= |s|
    ensures ZeroWithin(Splice(s, at, Zeros(n)), lo, at + n)
  {
  }

  ghost predicate Within(w: Wipe, lbSize: nat, x: nat) {
    w.first <= w.last && BlockStart(w.first, lbSize) <= x < BlockStart(w.last + 1, lbSize)
  }

  /** Byte `x` lies in no erased block. */
  ghost predicate Spared(wipes: seq<Wipe>, lbSize: nat, x: nat) {
    forall k :: 0 <= k < |wipes| ==> !Within(wipes[k], lbSize, x)
  }

  /** The device reaches to the end of every erased block. */
  ghost predicate Fit(wipes: seq<Wipe>, lbSize: nat, size: nat) {
    forall k :: 0 <= k < |wipes| && wipes[k].first <= wipes[k].last ==> BlockStart(wipes[k].last + 1, lbSize) <= size
  }

  /** Erasing all ranges zeroes their blocks and changes nothing else. */
  method EraseAll(dev: D.Device, lbSize: nat, wipes: seq<Wipe>) returns (ok: bool, ghost unsaved: nat)
    requires Going(dev, true, 0) && lbSize > 0
    modifies dev`disk, dev`cacheState, dev`cachedBlock, dev`undoCount, dev`logFull, dev.cache, dev.undoData
    ensures Going(dev, ok, unsaved) && Logged(dev, ErasedBlocks(wipes))
    ensures ok ==> |dev.Logical()| == |old(dev.Logical())|
    ensures ok ==> forall x: nat :: x < |dev.Logical()| ==>
              dev.Logical()[x] == if Spared(wipes, lbSize, x) then old(dev.Logical())[x] else 0
    ensures old(Room(dev, ErasedBlocks(wipes))) && Fit(wipes, lbSize, |dev.disk|) ==> ok
  {
    hide BlockStart, D.Device.Logical, UndoLog.SavesOriginal, ErasedBlocks, Spared;
    ghost var L0 := dev.Logical();
    ok, unsaved := true, 0;
    NothingErased(lbSize);
    assert wipes[..0] == [];
    ErasedMonotone(wipes, 0);
    for k := 0 to |wipes|
      invariant ok && unsaved == 0 && Going(dev, true, 0) && Logged(dev, ErasedBlocks(wipes[..k]))
      invariant |dev.Logical()| == |L0|
      invariant forall x: nat :: x < |L0| ==> dev.Logical()[x] == if Spared(wipes[..k], lbSize, x) then L0[x] else 0
    {
      ghost var L1 := dev.Logical();
      assert wipes[..k + 1] == wipes[..k] + [wipes[k]];
      ErasedAppend(wipes[..k], wipes[k]);
      ErasedMonotone(wipes, k + 1);
      ok, unsaved := EraseRange(dev, lbSize, wipes[k]);
      if !ok { return; }
      forall x: nat | x < |L0|
        ensures dev.Logical()[x] == if Spared(wipes[..k + 1], lbSize, x) then L0[x] else 0
      {
        SparedBoth(wipes, k, lbSize, x);
        assert dev.Logical()[x] == if Within(wipes[k], lbSize, x) then 0 else L1[x];
      }
    }
    assert wipes[..|wipes|] == wipes;
  }

  lemma NothingErased(lbSize: nat)
    ensures ErasedBlocks([]) == 0 && forall x: nat :: Spared([], lbSize, x)
  {
  }

  lemma SparedBoth(wipes: seq<Wipe>, k: nat, lbSize: nat, x: nat)
    requires k < |wipes|
    ensures Spared(wipes[..k + 1], lbSize, x) <==> Spared(wipes[..k], lbSize, x) && !Within(wipes[k], lbSize, x)
  {
    hide Within;
    var now, before := wipes[..k + 1], wipes[..k];
    assert now[k] == wipes[k];
    if Spared(now, lbSize, x) {
      forall j | 0 <= j < k ensures !Within(before[j], lbSize, x) { assert now[j] == before[j]; }
    }
    if Spared(before, lbSize, x) && !Within(wipes[k], lbSize, x) {
      forall j | 0 <= j <= k ensures !Within(now[j], lbSize, x) { assert j < k ==> now[j] == before[j]; }
    }
  }

  lemma {:induction false} ErasedMonotone(wipes: seq<Wipe>, k: nat)
    requires k <= |wipes|
    ensures ErasedBlocks(wipes[..k]) <= ErasedBlocks(wipes)
    decreases |wipes| - k
  {
    if k < |wipes| {
      ErasedMonotone(wipes, k + 1);
      assert wipes[..k + 1][..k] == wipes[..k];
    } else {
      assert wipes[..k] == wipes;
    }
  }

  // ---- What the erasing leaves -------------------------------------------------------------------------

  ghost predicate InBlock(b: nat, lbSize: nat, x: nat) {
    BlockStart(b, lbSize) <= x < BlockStart(b + 1, lbSize)
  }

  /** A byte is erased exactly when its block is. */
  lemma ErasedByBlock(lbSize: nat, wipes: seq<Wipe>, b: nat, x: nat)
    requires InBlock(b, lbSize, x)
    ensures Spared(wipes, lbSize, x) <==> !Erases(wipes, b)
  {
    if Erases(wipes, b) {
      var k :| 0 <= k < |wipes| && wipes[k].first <= b <= wipes[k].last;
      BlockStartMonotone(wipes[k].first, b, lbSize);
      BlockStartMonotone(b + 1, wipes[k].last + 1, lbSize);
      assert Within(wipes[k], lbSize, x);
    }
    if !Spared(wipes, lbSize, x) {
      var k :| 0 <= k < |wipes| && Within(wipes[k], lbSize, x);
      if b < wipes[k].first { BlockStartMonotone(b + 1, wipes[k].first, lbSize); }
      if b > wipes[k].last { BlockStartMonotone(wipes[k].last + 1, b, lbSize); }
      assert wipes[k].first <= b <= wipes[k].last;
    }
  }

  /** Byte `x` lies in a block the table calls usable. */
  ghost predicate InUsable(t: Table, lbSize: nat, x: nat) {
    exists b: nat :: t.firstUsable <= b <= t.lastUsable && InBlock(b, lbSize, x)
  }

  /** No byte of a usable block is erased. */
  lemma UsableIsSpared(t: Table, lbSize: nat, wipes: seq<Wipe>, x: nat)
    requires forall k :: 0 <= k < |wipes| ==> OutsideUsable(t, wipes[k])
    requires InUsable(t, lbSize, x)
    ensures Spared(wipes, lbSize, x)
  {
    var b: nat :| t.firstUsable <= b <= t.lastUsable && InBlock(b, lbSize, x);
    ErasedByBlock(lbSize, wipes, b, x);
  }

  /** A block that starts on a device of whole blocks ends on it. */
  lemma BlockFits(a: nat, lbSize: nat, size: nat)
    requires lbSize > 0 && size % lbSize == 0 && BlockStart(a, lbSize) < size
    ensures BlockStart(a + 1, lbSize) <= size
  {
    hide BlockStart;
    AlignedEnd(size, lbSize);
    var n := size / lbSize;
    if n <= a { BlockStartMonotone(n, a, lbSize); } else { BlockStartMonotone(a + 1, n, lbSize); }
  }

  /** Every block of the plan lies on a device of whole blocks that has room for the primary's reserve. */
  lemma PlanFits(t: Table, lbSize: nat, s: seq<byte>, wipes: seq<Wipe>)
    requires lbSize >= 512 && |s| % lbSize == 0 && BlockStart(PrimaryReserve(t, lbSize), lbSize) <= |s|
    requires forall b: nat :: Erases(wipes, b) ==> Reserved(t, lbSize, s, b)
    ensures Fit(wipes, lbSize, |s|)
  {
    hide BlockStart, PrimaryReserve, AltReserve, Alternates;
    forall k | 0 <= k < |wipes| && wipes[k].first <= wipes[k].last ensures BlockStart(wipes[k].last + 1, lbSize) <= |s| {
      var b := wipes[k].last;
      assert Erases(wipes, b);
      if b < PrimaryReserve(t, lbSize) {
        BlockStartMonotone(b + 1, PrimaryReserve(t, lbSize), lbSize);
      } else {
        var a: nat :| SignedAlternate(t, lbSize, s, a) && InReserve(t, lbSize, a, b);
        BlockStartMonotone(b + 1, a + 1, lbSize);
        BlockFits(a, lbSize, |s|);
      }
    }
  }

  // ---- Exactly when the GPT is gone ----------------------------------------------------------------------

  /** The place of every header there is lies in the primary's reserve, or in that of a signed alternate. */
  ghost predicate Removable(t: Table, lbSize: nat, s: seq<byte>)
    requires lbSize > 0
  {
    forall b: nat :: HeaderPlace(t, b) && HasSignature(s, lbSize, b) ==> Reserved(t, lbSize, s, b)
  }

  /** `after` is `before` with the reserved blocks zeroed and a table of `n` entries written. */
  ghost predicate Converted(t: Table, lbSize: nat, before: seq<byte>, after: seq<byte>, n: nat)
    requires lbSize > 0
  {
    && |after| == |before|
    && (forall b: nat, x: nat :: InBlock(b, lbSize, x) && x < |before| && !InTable(x, n) ==>
          after[x] == if Reserved(t, lbSize, before, b) then 0 else before[x])
  }

  /** A signature is left exactly where there was one and its block is not reserved. */
  lemma SignatureAfter(t: Table, lbSize: nat, before: seq<byte>, after: seq<byte>, n: nat, b: nat)
    requires lbSize >= 512 && n <= 4 && Converted(t, lbSize, before, after, n)
    ensures HasSignature(after, lbSize, b) <==> HasSignature(before, lbSize, b) && !Reserved(t, lbSize, before, b)
  {
    hide BlockStart, Reserved;
    var at := BlockStart(b, lbSize);
    HeaderInBlock(b, lbSize);
    if at + HEADER <= |before| {
      var a8, b8 := after[at..at + 8], before[at..at + 8];
      forall k | 0 <= k < 8 ensures a8[k] == if Reserved(t, lbSize, before, b) then 0 else b8[k] {
        assert InBlock(b, lbSize, at + k);
      }
      assert SIGNATURE[0] != 0;
      if Reserved(t, lbSize, before, b) { assert a8[0] == 0; } else { assert a8 == b8; }
    }
  }

  /** The signature of a header is within its block, and in sector 0 in front of the table. */
  lemma HeaderInBlock(b: nat, lbSize: nat)
    requires lbSize >= 512
    ensures forall x: nat :: BlockStart(b, lbSize) <= x < BlockStart(b, lbSize) + 512 ==> InBlock(b, lbSize, x)
    ensures if b == 0 then BlockStart(b, lbSize) == 0 else BlockStart(b, lbSize) >= lbSize
  {
    hide BlockStart;
    NextBlock(b, lbSize);
    BlockZero(lbSize);
    NextBlock(0, lbSize);
    if b > 0 { BlockStartMonotone(1, b, lbSize); }
  }

  lemma BlockZero(lbSize: nat)
    ensures BlockStart(0, lbSize) == 0
  {
  }

  /** The conversion by itself removes the GPT if and only if every header lies in a reserve. */
  lemma GoneExactly(t: Table, lbSize: nat, before: seq<byte>, after: seq<byte>, n: nat)
    requires lbSize >= 512 && n <= 4 && Converted(t, lbSize, before, after, n)
    ensures GptGone(t, lbSize, after) <==> Removable(t, lbSize, before)
  {
    hide HasSignature, Reserved, Converted;
    forall b: nat
      ensures HasSignature(after, lbSize, b) <==> HasSignature(before, lbSize, b) && !Reserved(t, lbSize, before, b)
    {
      SignatureAfter(t, lbSize, before, after, n, b);
    }
  }

  /** The usual layout: two blocks or more in front of the usable range, alternates behind their reserves. */
  lemma UsualIsRemovable(t: Table, lbSize: nat, s: seq<byte>)
    requires lbSize > 0 && t.firstUsable >= 2
    requires forall b: nat :: HeaderPlace(t, b) && b != 1 && HasSignature(s, lbSize, b) ==>
               b >= AltReserve(lbSize) && b > t.lastUsable
    ensures Removable(t, lbSize, s)
  {
    hide HasSignature, AltReserve;
    assert AltReserve(lbSize) >= 1 by { ReservePositive(lbSize); }
    forall b: nat | HeaderPlace(t, b) && HasSignature(s, lbSize, b) ensures Reserved(t, lbSize, s, b) {
      if b != 1 {
        assert b in Alternates(t, lbSize);
        assert SignedAlternate(t, lbSize, s, b) && InReserve(t, lbSize, b, b);
      }
    }
  }

  lemma ReservePositive(lbSize: nat)
    requires lbSize > 0
    ensures AltReserve(lbSize) >= 1
  {
  }

  // ---- The finished install ------------------------------------------------------------------------------

  /**
   A header is at block `b` once boot sector and stage 2 have been written over the converted device:
   the image brings its signature, or it is an old one that is neither reserved nor written over. At
   the image's end the two may share the eight bytes.
   */
  ghost predicate HeaderStays(t: Table, lbSize: nat, s: seq<byte>, image: seq<byte>, b: nat)
    requires lbSize > 0
  {
    var at := BlockStart(b, lbSize);
    && at + HEADER <= |s|
    && if at + 8 <= |image| then image[at..at + 8] == SIGNATURE
       else
         && !Reserved(t, lbSize, s, b)
         && if at >= |image| then s[at..at + 8] == SIGNATURE else image[at..] + s[|image|..at + 8] == SIGNATURE
  }

  /** No header is left where a GPT reader looks. */
  ghost predicate NoHeaderStays(t: Table, lbSize: nat, s: seq<byte>, image: seq<byte>)
    requires lbSize > 0
  {
    forall b: nat :: HeaderPlace(t, b) ==> !HeaderStays(t, lbSize, s, image, b)
  }

  /** `after` holds the image, but for places of sector 0 a header has no part in, and `before` behind it. */
  ghost predicate WrittenOver(before: seq<byte>, after: seq<byte>, image: seq<byte>) {
    && |after| == |before| && 512 < |image| <= |before|
    && (forall x: nat :: x < |image| && (x < 8 || x >= 512) ==> after[x] == image[x])
    && (forall x: nat :: |image| <= x < |before| && !(1080 <= x < 1082) ==> after[x] == before[x])
  }

  lemma {:induction false} SectorAligned(b: nat, size: nat)
    requires size % 512 == 0
    ensures BlockStart(b, size) % 512 == 0
    decreases b
  {
    if b > 0 { SectorAligned(b - 1, size); }
  }

  /** What the finished install holds in the eight bytes of a signature. */
  lemma StaysExactly(t: Table, lbSize: nat, before: seq<byte>, converted: seq<byte>, after: seq<byte>, n: nat, image: seq<byte>, b: nat)
    requires lbSize >= 512 && lbSize % 512 == 0 && n <= 4
    requires Converted(t, lbSize, before, converted, n) && WrittenOver(converted, after, image)
    ensures HasSignature(after, lbSize, b) <==> HeaderStays(t, lbSize, before, image, b)
  {
    hide BlockStart, Reserved;
    var at := BlockStart(b, lbSize);
    HeaderInBlock(b, lbSize);
    SectorAligned(b, lbSize);
    if at + HEADER <= |before| {
      var a8, zeroed := after[at..at + 8], Reserved(t, lbSize, before, b);
      forall k | 0 <= k < 8 ensures a8[k] == ByteAfter(before, image, zeroed, at + k) {
        assert InBlock(b, lbSize, at + k);
      }
      EightBytes(a8, before, image, at, zeroed);
    }
  }

  /** A byte of the finished install, where the conversion has zeroed it or not. */
  function ByteAfter(before: seq<byte>, image: seq<byte>, zeroed: bool, x: nat): byte
    requires x < |before|
  {
    if x < |image| then image[x] else if zeroed then 0 else before[x]
  }

  /** Eight bytes that the image may have written over in part. */
  lemma EightBytes(a8: seq<byte>, before: seq<byte>, image: seq<byte>, at: nat, zeroed: bool)
    requires |a8| == 8 && at + 8 <= |before|
    requires forall k :: 0 <= k < 8 ==> a8[k] == ByteAfter(before, image, zeroed, at + k)
    ensures a8 == SIGNATURE <==>
            if at + 8 <= |image| then image[at..at + 8] == SIGNATURE
            else
              && !zeroed
              && if at >= |image| then before[at..at + 8] == SIGNATURE else image[at..] + before[|image|..at + 8] == SIGNATURE
  {
    if at + 8 <= |image| {
      assert a8 == image[at..at + 8];
    } else if zeroed {
      assert a8[7] == 0 && SIGNATURE[7] != 0;
    } else if at >= |image| {
      assert a8 == before[at..at + 8];
    } else {
      assert a8 == image[at..] + before[|image|..at + 8];
    }
  }

  /** The finished install leaves no header if and only if none stays. */
  lemma GoneAfterInstall(t: Table, lbSize: nat, before: seq<byte>, converted: seq<byte>, after: seq<byte>, n: nat, image: seq<byte>)
    requires lbSize >= 512 && lbSize % 512 == 0 && n <= 4
    requires Converted(t, lbSize, before, converted, n) && WrittenOver(converted, after, image)
    ensures GptGone(t, lbSize, after) <==> NoHeaderStays(t, lbSize, before, image)
  {
    hide HasSignature, HeaderStays, Converted, WrittenOver;
    forall b: nat ensures HasSignature(after, lbSize, b) <==> HeaderStays(t, lbSize, before, image, b) {
      StaysExactly(t, lbSize, before, converted, after, n, image, b);
    }
  }

  /** The image puts no part of a signature at the start of a block. */
  ghost predicate BringsNone(image: seq<byte>, lbSize: nat) {
    forall b: nat :: BlockStart(b, lbSize) < |image| ==> !StartsSignature(image, BlockStart(b, lbSize))
  }

  /** The image holds the signature at `at`, or as much of it as comes before its end. */
  predicate StartsSignature(image: seq<byte>, at: nat)
    requires at <= |image|
  {
    image[at..if at + 8 <= |image| then at + 8 else |image|] <= SIGNATURE
  }

  /** Where the last block starts whose number is less than the reserve's size. */
  const GAP_END: nat := 16384

  lemma PlaceIsAlternate(t: Table, lbSize: nat, s: seq<byte>, b: nat)
    requires lbSize in {512, 2048, 4096} && HeaderPlace(t, b) && b != 1 && b >= AltReserve(lbSize)
    requires HasSignature(s, lbSize, b)
    ensures SignedAlternate(t, lbSize, s, b) && (b > t.lastUsable ==> InReserve(t, lbSize, b, b))
  {
    hide AltReserve, HasSignature;
    ReserveIs(lbSize);
  }

  lemma UnreservedIsLow(t: Table, lbSize: nat, s: seq<byte>, b: nat)
    requires lbSize in {512, 2048, 4096}
    requires forall a: nat :: SignedAlternate(t, lbSize, s, a) ==> a > t.lastUsable
    requires HeaderPlace(t, b) && HasSignature(s, lbSize, b) && !Reserved(t, lbSize, s, b)
    ensures b == 1 || b < AltReserve(lbSize)
  {
    hide HasSignature, AltReserve, InReserve, SignedAlternate, HeaderPlace;
    if b != 1 && b >= AltReserve(lbSize) { PlaceIsAlternate(t, lbSize, s, b); }
  }

  /** Every header a conversion can leave starts no later than this, well inside the room for stage 2. */
  lemma LeftInTheGap(t: Table, lbSize: nat, s: seq<byte>, b: nat)
    requires lbSize in {512, 2048, 4096}
    requires forall a: nat :: SignedAlternate(t, lbSize, s, a) ==> a > t.lastUsable
    requires HeaderPlace(t, b) && HasSignature(s, lbSize, b) && !Reserved(t, lbSize, s, b)
    ensures BlockStart(b, lbSize) <= GAP_END
  {
    UnreservedIsLow(t, lbSize, s, b);
    ReserveIs(lbSize);
    BlockStartIsProduct(b, lbSize);
  }

  /** So an image that reaches past it and brings no signature leaves no header, whatever the layout. */
  lemma LongImageRemoves(t: Table, lbSize: nat, s: seq<byte>, image: seq<byte>)
    requires lbSize in {512, 2048, 4096} && |image| >= GAP_END + 8 && BringsNone(image, lbSize)
    requires forall a: nat :: SignedAlternate(t, lbSize, s, a) ==> a > t.lastUsable
    ensures NoHeaderStays(t, lbSize, s, image)
  {
    hide Reserved, BlockStart, StartsSignature, SignedAlternate, HeaderPlace;
    forall b: nat | HeaderPlace(t, b) ensures !HeaderStays(t, lbSize, s, image, b) {
      var at := BlockStart(b, lbSize);
      if at + HEADER > |s| {
      } else if at < |image| {
        assert !StartsSignature(image, at);
        PartOfSignature(s, image, at);
      } else if HasSignature(s, lbSize, b) && !Reserved(t, lbSize, s, b) {
        LeftInTheGap(t, lbSize, s, b);
      }
    }
  }

  lemma PartOfSignature(s: seq<byte>, image: seq<byte>, at: nat)
    requires at < |image| && !StartsSignature(image, at) && at + 8 <= |s|
    ensures at + 8 <= |image| ==> image[at..at + 8] != SIGNATURE
    ensures at + 8 > |image| ==> |image| <= |s| && image[at..] + s[|image|..at + 8] != SIGNATURE
  {
  }

  // ---- Where headers are left ------------------------------------------------------------------------------

  /** A disk of zeros, but for signatures in some blocks. */
  function SignedDisk(blocks: nat, signed: set<nat>): (s: seq<byte>)
    ensures |s| == 512 * blocks
  {
    seq(512 * blocks, i requires 0 <= i < 512 * blocks => if i / 512 in signed && i % 512 < 8 then SIGNATURE[i % 512] else 0)
  }

  lemma SignedDiskIs(blocks: nat, signed: set<nat>, c: nat)
    ensures HasSignature(SignedDisk(blocks, signed), 512, c) <==> c < blocks && c in signed
  {
    hide BlockStart, SignedDisk, SIGNATURE;
    var s := SignedDisk(blocks, signed);
    BlockStartIsProduct(c, 512);
    if c < blocks {
      var h := s[512 * c..512 * c + 8];
      SignatureStarts();
      forall k | 0 <= k < 8 ensures h[k] == if c in signed then SIGNATURE[k] else 0 {
        SignedByte(blocks, signed, c, k);
      }
      if c in signed { assert h == SIGNATURE; }
    }
  }

  lemma SignatureStarts()
    ensures |SIGNATURE| == 8 && SIGNATURE[0] != 0
  {
  }

  lemma SignedByte(blocks: nat, signed: set<nat>, c: nat, k: nat)
    requires c < blocks && k < 8
    ensures 512 * c + k < |SignedDisk(blocks, signed)|
    ensures SignedDisk(blocks, signed)[512 * c + k] == if c in signed then SIGNATURE[k] else 0
  {
    assert (512 * c + k) / 512 == c && (512 * c + k) % 512 == k;
  }

  /** A primary in block 1 that fails its checks names block 20, and a header is found there. */
  const LOW_ALTERNATE: Table := Table(true, 20, 1, 2, 10, Some(200))

  /**
   A signed alternate with a number below its reserve: whatever else the disk holds, as long as the
   last block is unsigned, the conversion goes ahead and leaves the header in block 20 in place.
   */
  lemma AlternateLeftBehind(s: seq<byte>)
    requires HasSignature(s, 512, 20) && !HasSignature(s, 512, 200)
    ensures forall a: nat :: SignedAlternate(LOW_ALTERNATE, 512, s, a) ==> a > LOW_ALTERNATE.lastUsable
    ensures SignedAlternate(LOW_ALTERNATE, 512, s, 20) && !Reserved(LOW_ALTERNATE, 512, s, 20)
    ensures !Removable(LOW_ALTERNATE, 512, s)
  {
    hide HasSignature;
    assert AltReserve(512) == 33;
    assert LOW_ALTERNATE.headerLba in Alternates(LOW_ALTERNATE, 512);
    assert HeaderPlace(LOW_ALTERNATE, 20);
  }

  /** There is such a disk, with the primary's signature that leads to block 20. */
  lemma LowAlternateExists()
    ensures var s := SignedDisk(201, {1, 20});
            HasSignature(s, 512, 1) && HasSignature(s, 512, 20) && !HasSignature(s, 512, 200)
  {
    hide HasSignature, SignedDisk;
    SignedDiskIs(201, {1, 20}, 1);
    SignedDiskIs(201, {1, 20}, 20);
    SignedDiskIs(201, {1, 20}, 200);
  }

  /** In the finished install that header survives every image of at most 20 sectors, and none that covers it. */
  lemma HeaderSurvives(s: seq<byte>, image: seq<byte>)
    requires HasSignature(s, 512, 20) && !HasSignature(s, 512, 200) && 512 < |image|
    ensures |image| <= 10240 ==> HeaderStays(LOW_ALTERNATE, 512, s, image, 20) && !NoHeaderStays(LOW_ALTERNATE, 512, s, image)
    ensures |image| >= 10248 && image[10240..10248] != SIGNATURE ==> !HeaderStays(LOW_ALTERNATE, 512, s, image, 20)
  {
    AlternateLeftBehind(s);
    BlockStartIsProduct(20, 512);
    assert HeaderPlace(LOW_ALTERNATE, 20);
  }

  /**
   A usable range from block 1 on: the conversion by itself leaves the primary header. In the
   finished install the stage 2 write has replaced its signature, unless it is too short for that or
   brings one.
   */
  lemma PrimaryLeftBehind(s: seq<byte>, image: seq<byte>)
    requires HasSignature(s, 512, 1) && |image| >= 520 && image[512..520] != SIGNATURE
    ensures var t := Table(false, 1, 200, 1, 100, Some(200));
            && (forall a: nat :: SignedAlternate(t, 512, s, a) ==> a > t.lastUsable)
            && !Reserved(t, 512, s, 1) && !Removable(t, 512, s) && !HeaderStays(t, 512, s, image, 1)
  {
    var t := Table(false, 1, 200, 1, 100, Some(200));
    BlockStartIsProduct(1, 512);
    hide HasSignature;
    assert AltReserve(512) == 33;
    assert HeaderPlace(t, 1);
  }
}
