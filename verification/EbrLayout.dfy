/**
 The on-disk layout of logical partitions, written from the outside: one boot record to a partition,
 linked in rising order. A table laid out this way is numbered and answered as its writer meant
 (limine/common/lib/part.s2.c).
 */
module EbrLayout {
  import opened Bytes
  import opened Ebr
  import opened FatChain
  import FatLayout
  import V = Volume

  /** A boot record: its sector, the slot of its partition, and the slot, type and extent of its link. */
  datatype Record = Record(sector: nat, slot: nat, kind: byte, first: nat, count: nat,
                           linkSlot: nat, linkKind: byte, linkCount: nat)

  /** Entry `i` of the boot record in `sector`: type at byte 4, start and length in four bytes each from 8 on. */
  ghost predicate EntryIs(content: seq<byte>, sector: nat, i: nat, kind: byte, first: nat, count: nat) {
    var at := 512 * sector + 446 + 16 * i;
    && first < 0x1_0000_0000 && count < 0x1_0000_0000
    && at + 16 <= |content| && content[at + 4] == kind
    && content[at + 8..at + 12] == Le32(first) && content[at + 12..at + 16] == Le32(count)
  }

  /** An entry of length zero, of whatever type. */
  ghost predicate EmptyEntry(content: seq<byte>, sector: nat, i: nat) {
    exists kind, first :: EntryIs(content, sector, i, kind, first, 0)
  }

  predicate ExtendedKind(kind: byte) { kind in {0x05, 0x0f, 0x85} }

  /** A partition described in `sector` ends inside the extended partition and on the disk. */
  predicate EndsInside(g: Geometry, sector: nat, first: nat, count: nat) {
    && sector + first + count <= g.extCount
    && (if g.diskCount == 0xffff_ffff_ffff_ffff then g.extFirst + sector + first + count < 0x1_0000_0000_0000_0000
        else g.extFirst + sector + first + count <= g.diskCount)
  }

  /**
   What else a slot may hold: nothing; from the third slot on a partition that does not end where the
   link or the disk say; behind the link another one, or without a next record one that leads nowhere.
   */
  ghost predicate Ignored(g: Geometry, content: seq<byte>, r: Record, next: Option<nat>, size: nat, i: nat) {
    || EmptyEntry(content, r.sector, i)
    || (exists kind: byte, first: nat, count: nat ::
          EntryIs(content, r.sector, i, kind, first, count) && Odd(g, r, next, size, i, kind, first, count))
  }

  /** A link back, to its own record, or out of the extended partition. */
  predicate LeadsNowhere(g: Geometry, r: Record, target: nat) {
    target <= r.sector || target >= g.extCount
  }

  predicate Odd(g: Geometry, r: Record, next: Option<nat>, size: nat, i: nat, kind: byte, first: nat, count: nat) {
    if ExtendedKind(kind) then if next.Some? then r.linkSlot < i else LeadsNowhere(g, r, first)
    else i >= 2 && !(EndsInside(g, r.sector, first, count) && first + count <= size)
  }

  /** Boot record `r` is on the medium, with a link to `next` if there is one. */
  ghost predicate RecordIs(g: Geometry, content: seq<byte>, r: Record, next: Option<nat>, size: nat) {
    && 512 * r.sector + 512 <= |content|
    && content[512 * r.sector + 510] == 0x55 && content[512 * r.sector + 511] == 0xaa
    && r.slot < 4 && r.count > 0 && !ExtendedKind(r.kind)
    && EntryIs(content, r.sector, r.slot, r.kind, r.first, r.count)
    && (next.Some? ==>
          && r.linkSlot < 4 && r.linkSlot != r.slot && r.linkCount > 0 && ExtendedKind(r.linkKind)
          && EntryIs(content, r.sector, r.linkSlot, r.linkKind, next.value, r.linkCount))
    && (forall i :: 0 <= i < 4 && i != r.slot && (next.Some? ==> i != r.linkSlot) ==> Ignored(g, content, r, next, size, i))
  }

  predicate Fits(g: Geometry, r: Record) { EndsInside(g, r.sector, r.first, r.count) }

  /** The sector of the record after record `k`. */
  function NextOf(list: seq<Record>, k: nat): Option<nat> {
    if k + 1 < |list| then Some(list[k + 1].sector) else None
  }

  /** The extent in which record `k` was promised to lie. */
  function ExtentOf(g: Geometry, list: seq<Record>, k: nat): nat
    requires k < |list|
  {
    if k == 0 then g.extCount else list[k - 1].linkCount
  }

  /**
   The records of `list`, linked in order from the first sector of the extended partition. A partition
   in one of the last two slots, which others would not look at, has to lie where the link says.
   */
  ghost predicate LaidOut(g: Geometry, content: seq<byte>, list: seq<Record>) {
    && 0 < |list| <= 256 && list[0].sector == 0
    && (forall k :: 0 <= k < |list| ==> RecordIs(g, content, list[k], NextOf(list, k), ExtentOf(g, list, k)))
    && (forall k :: 0 < k < |list| ==> list[k - 1].sector < list[k].sector < g.extCount)
    && (forall k :: 0 <= k < |list| && list[k].slot >= 2 ==>
          Fits(g, list[k]) && list[k].first + list[k].count <= ExtentOf(g, list, k))
  }

  /** What a probe has to answer for the partition of `r`. */
  function Meant(g: Geometry, r: Record): Answer {
    if Fits(g, r) then Found(g.extFirst + r.sector + r.first, r.count) else NoPartition
  }

  // ---- One record ----------------------------------------------------------------------------------

  /** An entry in this layout is the slot that is read. */
  lemma EntryReadsBack(content: seq<byte>, sector: nat, i: nat, kind: byte, first: nat, count: nat)
    requires EntryIs(content, sector, i, kind, first, count)
    ensures SlotAt(content, sector, i) == Some(Slot(kind, first, count))
  {
    hide Le, Le32, ReadLe32;
    var at := SlotAddress(sector, i);
    var b := content[at..at + 16];
    assert b[8..12] == content[at + 8..at + 12];
    assert b[12..16] == content[at + 12..at + 16];
    FatLayout.LeFour(b[8..12]);
    FatLayout.LeFour(b[12..16]);
    Le32RoundTrip(first);
    Le32RoundTrip(count);
  }

  /** An extent inside known bounds is one that the source's checked additions pass, and none else is. */
  lemma InsideIsContained(g: Geometry, sector: nat, kind: byte, first: nat, count: nat)
    requires count > 0 && g.extCount < 0x1_0000_0000
    requires g.diskCount <= 0xffff_ffff_ffff_ffff
    ensures EndsInside(g, sector, first, count) <==> Contained(g, sector, Slot(kind, first, count))
  {
  }

  /** The link found by the time slot `i` is reached. */
  predicate LinkBy(g: Geometry, r: Record, next: Option<nat>, i: nat, link: Option<(nat, nat)>) {
    if next.Some? then link == if r.linkSlot < i then Some((next.value, r.linkCount)) else None
    else link.Some? ==> LeadsNowhere(g, r, link.value.0)
  }

  /** What the loader makes of a slot that is to be ignored. */
  lemma IgnoredVisited(g: Geometry, content: seq<byte>, r: Record, next: Option<nat>, size: nat, p: int, i: nat, n: nat,
                       link: Option<(nat, nat)>)
    requires Ignored(g, content, r, next, size, i) && LinkBy(g, r, next, i, link) && (next.Some? ==> i != r.linkSlot)
    requires g.extCount < 0x1_0000_0000 && g.diskCount <= 0xffff_ffff_ffff_ffff
    ensures SlotAt(content, r.sector, i).Some?
    ensures var v := Visit(g, r.sector, size, p, i, SlotAt(content, r.sector, i).value, n, link);
            v.Go? && v.accepted == n && LinkBy(g, r, next, i + 1, v.link)
  {
    hide SlotAt, Contained, EndsInside, EntryIs;
    if EmptyEntry(content, r.sector, i) {
      var kind, first :| EntryIs(content, r.sector, i, kind, first, 0);
      EntryReadsBack(content, r.sector, i, kind, first, 0);
    } else {
      var kind: byte, first: nat, count: nat :|
        EntryIs(content, r.sector, i, kind, first, count) && Odd(g, r, next, size, i, kind, first, count);
      EntryReadsBack(content, r.sector, i, kind, first, count);
      if count > 0 { InsideIsContained(g, r.sector, kind, first, count); }
    }
  }

  /** What the loader makes of slot `i`. */
  lemma SlotVisited(g: Geometry, content: seq<byte>, r: Record, next: Option<nat>, size: nat, p: int, k: nat, i: nat,
                    link: Option<(nat, nat)>)
    requires RecordIs(g, content, r, next, size) && LinkBy(g, r, next, i, link) && g.extCount < 0x1_0000_0000 && g.diskCount <= 0xffff_ffff_ffff_ffff
    requires r.slot >= 2 ==> Fits(g, r) && r.first + r.count <= size
    requires i < 4
    ensures SlotAt(content, r.sector, i).Some?
    ensures var v := Visit(g, r.sector, size, p, i, SlotAt(content, r.sector, i).value,
                           if r.slot < i then k + 1 else k, link);
            if i == r.slot && p == k then v == Halt(Meant(g, r))
            else v.Go? && v.accepted == (if r.slot < i + 1 then k + 1 else k) && LinkBy(g, r, next, i + 1, v.link)
  {
    hide SlotAt, EndsInside, Contained, EntryIs, Ignored;
    if i == r.slot {
      EntryReadsBack(content, r.sector, i, r.kind, r.first, r.count);
      InsideIsContained(g, r.sector, r.kind, r.first, r.count);
    } else if next.Some? && i == r.linkSlot {
      EntryReadsBack(content, r.sector, i, r.linkKind, next.value, r.linkCount);
    } else {
      IgnoredVisited(g, content, r, next, size, p, i, if r.slot < i then k + 1 else k, link);
    }
  }

  /** A record numbered `k` answers `k`, and for any other number passes on its link. */
  lemma {:induction false} RecordScanned(g: Geometry, content: seq<byte>, r: Record, next: Option<nat>, size: nat,
                                         p: int, k: nat, i: nat, link: Option<(nat, nat)>)
    requires RecordIs(g, content, r, next, size) && LinkBy(g, r, next, i, link) && g.extCount < 0x1_0000_0000 && g.diskCount <= 0xffff_ffff_ffff_ffff
    requires r.slot >= 2 ==> Fits(g, r) && r.first + r.count <= size
    requires i <= 4 && (p == k ==> i <= r.slot)
    ensures var s := Scan(g, content, r.sector, size, p, i, if r.slot < i then k + 1 else k, link);
            if p == k then s == Answered(Meant(g, r))
            else s.Passed? && s.accepted == k + 1 && LinkBy(g, r, next, 4, s.link)
    decreases 4 - i
  {
    hide SlotAt, Visit, Fits, Meant, EntryIs, Ignored, LinkBy;
    if i < 4 {
      SlotVisited(g, content, r, next, size, p, k, i, link);
      var v := Visit(g, r.sector, size, p, i, SlotAt(content, r.sector, i).value, if r.slot < i then k + 1 else k, link);
      if v.Go? { RecordScanned(g, content, r, next, size, p, k, i + 1, v.link); }
    }
  }

  // ---- The chain -----------------------------------------------------------------------------------

  /** Record `k` of the list is record `k` of the chain, with `k` logicals before it. */
  lemma {:induction false} RecordIsNode(g: Geometry, content: seq<byte>, list: seq<Record>, k: nat)
    requires LaidOut(g, content, list) && g.extCount < 0x1_0000_0000 && g.diskCount <= 0xffff_ffff_ffff_ffff
    requires k < |list|
    ensures Node(g, content, k) == Some(Place(list[k].sector, ExtentOf(g, list, k), k))
  {
    hide RecordIs, Fits, Scan;
    if k > 0 {
      RecordIsNode(g, content, list, k - 1);
      Leads(g, content, list, k - 1, -1);
    }
  }

  lemma RecordSigned(g: Geometry, content: seq<byte>, r: Record, next: Option<nat>, size: nat)
    requires RecordIs(g, content, r, next, size)
    ensures Signed(content, r.sector) && r.slot < 4
    ensures next.Some? ==> r.linkSlot < 4
  {
    hide Ignored, EntryIs;
  }

  function PlaceAfter(g: Geometry, list: seq<Record>, k: nat): Option<Place> {
    if k + 1 < |list| then Some(Place(list[k + 1].sector, ExtentOf(g, list, k + 1), k + 1)) else None
  }

  /** Where record `k` leads a walk that looks for another number. */
  lemma Leads(g: Geometry, content: seq<byte>, list: seq<Record>, k: nat, p: int)
    requires LaidOut(g, content, list) && g.extCount < 0x1_0000_0000 && g.diskCount <= 0xffff_ffff_ffff_ffff
    requires k < |list|
    ensures var at := Place(list[k].sector, ExtentOf(g, list, k), k);
            var r := ScanPlace(g, content, at, p);
            && Signed(content, at.sector)
            && (p == k ==> r == Answered(Meant(g, list[k])))
            && (p != k ==> r.Passed? && Follow(g, at, r) == PlaceAfter(g, list, k))
  {
    hide Fits, Scan, Meant, RecordIs;
    RecordSigned(g, content, list[k], NextOf(list, k), ExtentOf(g, list, k));
    RecordScanned(g, content, list[k], NextOf(list, k), ExtentOf(g, list, k), p, k, 0, None);
  }

  /** Partition `p` of the list is the answer for number `p`, and no number past the list has one. */
  lemma LaidOutIsAnswered(g: Geometry, content: seq<byte>, list: seq<Record>, p: nat)
    requires LaidOut(g, content, list) && g.extCount < 0x1_0000_0000 && g.diskCount <= 0xffff_ffff_ffff_ffff
    ensures FromHead(g, content, p) == if p < |list| then Meant(g, list[p]) else EndOfTable
  {
    hide LaidOut, ScanPlace, Meant, Follow, Walk, Signed, Node;
    if p < 256 {
      LastOf(g, content, list);
      var k := if p < |list| then p else |list| - 1;
      RecordIsNode(g, content, list, k);
      Leads(g, content, list, k, p);
      HeadReaches(g, content, k, p, 256 - k);
      WalkStep(g, content, Node(g, content, k).value, p, 256 - k);
    } else {
      LastOf(g, content, list);
    }
  }

  lemma LastOf(g: Geometry, content: seq<byte>, list: seq<Record>)
    requires LaidOut(g, content, list)
    ensures 0 < |list| <= 256
  {
  }

  /** The chain is no longer than the list. */
  lemma {:induction false} ChainEnds(g: Geometry, content: seq<byte>, list: seq<Record>, n: nat)
    requires LaidOut(g, content, list) && g.extCount < 0x1_0000_0000 && g.diskCount <= 0xffff_ffff_ffff_ffff
    requires n >= |list|
    ensures Node(g, content, n).None?
    decreases n
  {
    hide LaidOut, ScanPlace, Follow, Signed;
    LastOf(g, content, list);
    if n > |list| {
      ChainEnds(g, content, list, n - 1);
    } else {
      RecordIsNode(g, content, list, n - 1);
      Leads(g, content, list, n - 1, -1);
    }
  }

  /**
   `mbr_get_logical_part` on a table in this layout, whatever was probed before: partition `p` is
   found where its record puts it, and past the last the table ends.
   */
  method ProbeLaidOut(e: Extended, ghost list: seq<Record>, p: nat) returns (a: Answer)
    requires e.Valid() && e.vol.Dependable() && LaidOut(e.g, e.vol.Content(), list)
    requires e.g.diskCount <= 0xffff_ffff_ffff_ffff
    modifies e, e.vol, e.vol.cache
    ensures e.Valid()
    ensures a == if p < |list| then Meant(e.g, list[p]) else EndOfTable
  {
    hide LaidOut, Node, Meant, V.Volume.Content;
    LastOf(e.g, e.vol.Content(), list);
    ChainEnds(e.g, e.vol.Content(), list, 256);
    LaidOutIsAnswered(e.g, e.vol.Content(), list, p);
    a := e.Probe(p);
  }
}
