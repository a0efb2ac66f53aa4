/**
 Logical partitions in an extended partition (limine/common/lib/part.s2.c): the chain of extended
 boot records, and the memo that lets a probe carry on where an earlier one stopped.
 */
module Ebr {
  import opened Bytes
  import opened FatChain
  import V = Volume

  const MAX_LOGICAL: nat := 256

  datatype Answer = EndOfTable | NoPartition | Found(first: nat, count: nat)

  /** One of the four entries of a boot record. */
  datatype Slot = Slot(kind: byte, first: nat, count: nat)

  /** Where the extended partition lies, and how large the disk is (`V.UNKNOWN` if not known). */
  datatype Geometry = Geometry(extFirst: nat, extCount: nat, diskCount: nat)

  /** A boot record to visit: its sector, the extent its link declared, the logicals before it. */
  datatype Place = Place(sector: nat, size: nat, accepted: nat)

  predicate IsExtended(kind: byte) { kind == 0x0f || kind == 0x05 || kind == 0x85 }

  /** `partition_range_valid` for a volume of `total` sectors. */
  predicate RangeValid(total: nat, first: nat, count: nat) {
    && count != 0
    && first + count < U64_LIMIT
    && (total != V.UNKNOWN ==> first + count <= total)
  }

  /** `mbr_logical_entry_contained`: inside the extended partition, and inside the disk. */
  predicate Contained(g: Geometry, sector: nat, s: Slot) {
    && sector + s.first < U64_LIMIT
    && RangeValid(g.extCount, sector + s.first, s.count)
    && g.extFirst + (sector + s.first) < U64_LIMIT
    && RangeValid(g.diskCount, g.extFirst + (sector + s.first), s.count)
  }

  ghost predicate Signed(content: seq<byte>, sector: nat) {
    sector * 512 + 512 <= |content| && content[sector * 512 + 510] == 0x55 && content[sector * 512 + 511] == 0xaa
  }

  function SlotOf(b: seq<byte>): Slot
    requires |b| == 16
  {
    Slot(b[4], Le(b[8..12]), Le(b[12..16]))
  }

  function SlotAddress(sector: nat, i: nat): nat { sector * 512 + 0x1be + 16 * i }

  ghost function SlotAt(content: seq<byte>, sector: nat, i: nat): Option<Slot> {
    var at := SlotAddress(sector, i);
    if at + 16 > |content| then None else Some(SlotOf(content[at..at + 16]))
  }

  // ---- The walk from the head ------------------------------------------------------------------

  datatype Scanned = Answered(answer: Answer) | Passed(accepted: nat, link: Option<(nat, nat)>)

  /** Slot `i` is numbered as a logical partition; the first two slots are, wherever they point. */
  predicate Counted(g: Geometry, sector: nat, size: nat, i: nat, s: Slot) {
    && !IsExtended(s.kind) && s.count != 0
    && (i < 2 || (Contained(g, sector, s) && s.first + s.count <= size))
  }

  /** What one slot does to a scan: it answers, or passes on the count and the link. */
  datatype Visited = Halt(answer: Answer) | Go(accepted: nat, link: Option<(nat, nat)>)

  /** Slot `s`, number `i`, while looking for logical number `p`; -1 finds none. */
  function Visit(g: Geometry, sector: nat, size: nat, p: int, i: nat, s: Slot,
                 accepted: nat, link: Option<(nat, nat)>): Visited
  {
    if IsExtended(s.kind) then
      Go(accepted, if link.None? && s.count != 0 then Some((s.first, s.count)) else link)
    else if !Counted(g, sector, size, i, s) then Go(accepted, link)
    else if accepted == p then
      Halt(if Contained(g, sector, s) then Found(g.extFirst + (sector + s.first), s.count) else NoPartition)
    else Go(accepted + 1, link)
  }

  /** The slots of one boot record from `i` on. */
  ghost function Scan(g: Geometry, content: seq<byte>, sector: nat, size: nat, p: int,
                      i: nat, accepted: nat, link: Option<(nat, nat)>): Scanned
    requires i <= 4
    decreases 4 - i
  {
    if i == 4 then Passed(accepted, link)
    else match SlotAt(content, sector, i)
      case None => Answered(EndOfTable)
      case Some(s) =>
        match Visit(g, sector, size, p, i, s, accepted, link)
        case Halt(a) => Answered(a)
        case Go(acc, l) => Scan(g, content, sector, size, p, i + 1, acc, l)
  }

  ghost function ScanPlace(g: Geometry, content: seq<byte>, at: Place, p: int): Scanned {
    Scan(g, content, at.sector, at.size, p, 0, at.accepted, None)
  }

  /** The boot record a scanned one leads to: forward, and inside the extended partition. */
  function Follow(g: Geometry, at: Place, r: Scanned): Option<Place> {
    if r.Passed? && r.link.Some? && r.link.value.0 > at.sector && r.link.value.0 < g.extCount
    then Some(Place(r.link.value.0, r.link.value.1, r.accepted)) else None
  }

  /** The answer for logical number `p`, visiting at most `links` boot records from `at` on. */
  ghost function Walk(g: Geometry, content: seq<byte>, at: Place, p: int, links: nat): Answer
    decreases links
  {
    if links == 0 || !Signed(content, at.sector) then EndOfTable
    else
      var r := ScanPlace(g, content, at, p);
      if r.Answered? then r.answer
      else match Follow(g, at, r)
        case None => EndOfTable
        case Some(next) => Walk(g, content, next, p, links - 1)
  }

  function Head(g: Geometry): Place { Place(0, g.extCount, 0) }

  /** The answer of a walk from the head. */
  ghost function FromHead(g: Geometry, content: seq<byte>, p: nat): Answer {
    if p >= MAX_LOGICAL then EndOfTable else Walk(g, content, Head(g), p, MAX_LOGICAL)
  }

  /** The `k`-th boot record of the chain. */
  ghost function Node(g: Geometry, content: seq<byte>, k: nat): Option<Place> {
    if k == 0 then Some(Head(g))
    else match Node(g, content, k - 1)
      case None => None
      case Some(at) => if Signed(content, at.sector) then Follow(g, at, ScanPlace(g, content, at, -1)) else None
  }

  // ---- Scanning does not depend on what is looked for, until it is found ---------------------------

  lemma VisitPasses(g: Geometry, sector: nat, size: nat, p: int, q: int, i: nat, s: Slot,
                    accepted: nat, link: Option<(nat, nat)>)
    ensures var v := Visit(g, sector, size, p, i, s, accepted, link);
            v.Go? ==>
              && accepted <= v.accepted
              && (p >= accepted ==> v.accepted <= p)
              && (q >= v.accepted || q < 0 ==> Visit(g, sector, size, q, i, s, accepted, link) == v)
  {
    hide Contained, Counted, IsExtended;
  }

  lemma {:induction false} ScanPasses(g: Geometry, content: seq<byte>, sector: nat, size: nat, p: int, q: int,
                                      i: nat, accepted: nat, link: Option<(nat, nat)>)
    requires i <= 4
    ensures var r := Scan(g, content, sector, size, p, i, accepted, link);
            r.Passed? ==>
              && accepted <= r.accepted
              && (p >= accepted ==> r.accepted <= p)
              && (q >= r.accepted || q < 0 ==> Scan(g, content, sector, size, q, i, accepted, link) == r)
    decreases 4 - i
  {
    hide SlotAt, Visit;
    if i < 4 && SlotAt(content, sector, i).Some? {
      var s := SlotAt(content, sector, i).value;
      var v := Visit(g, sector, size, p, i, s, accepted, link);
      if v.Go? {
        VisitPasses(g, sector, size, p, q, i, s, accepted, link);
        ScanPasses(g, content, sector, size, p, q, i + 1, v.accepted, v.link);
      }
    }
  }

  /** The chain's boot records are met, with the same counts, by every walk that gets that far. */
  lemma {:induction false} HeadReaches(g: Geometry, content: seq<byte>, k: nat, p: int, m: nat)
    requires Node(g, content, k).Some? && p >= Node(g, content, k).value.accepted
    ensures Walk(g, content, Head(g), p, m + k) == Walk(g, content, Node(g, content, k).value, p, m)
    decreases k
  {
    hide Scan, Signed;
    if k > 0 {
      var at := Node(g, content, k - 1).value;
      ScanPasses(g, content, at.sector, at.size, -1, p, 0, at.accepted, None);
      HeadReaches(g, content, k - 1, p, m + 1);
    }
  }

  /** More links never change an answer other than "end of table". */
  lemma {:induction false} MoreLinks(g: Geometry, content: seq<byte>, at: Place, p: int, m: nat, n: nat)
    requires m <= n
    ensures Walk(g, content, at, p, m) == EndOfTable || Walk(g, content, at, p, n) == Walk(g, content, at, p, m)
    decreases m
  {
    hide Scan, Signed;
    if m > 0 && Signed(content, at.sector) {
      var r := ScanPlace(g, content, at, p);
      var next := Follow(g, at, r);
      if r.Passed? && next.Some? { MoreLinks(g, content, next.value, p, m - 1, n - 1); }
    }
  }

  /** On a chain that ends before record `e`, no walk needs more than the links left. */
  lemma {:induction false} EnoughLinks(g: Geometry, content: seq<byte>, k: nat, e: nat, p: int, n: nat)
    requires k <= e && Node(g, content, e).None? && Node(g, content, k).Some?
    requires p >= Node(g, content, k).value.accepted && n >= e - k
    ensures var at := Node(g, content, k).value;
            Walk(g, content, at, p, n) == Walk(g, content, at, p, e - k)
    decreases e - k
  {
    hide Scan, Signed;
    var at := Node(g, content, k).value;
    var r := ScanPlace(g, content, at, p);
    ScanPasses(g, content, at.sector, at.size, p, -1, 0, at.accepted, None);
    if Signed(content, at.sector) && r.Passed? && Follow(g, at, r).Some? {
      EnoughLinks(g, content, k + 1, e, p, n - 1);
    }
  }

  /** Resuming at record `k` gives the head's answer, or finds what the head's limit kept it from. */
  lemma ResumeAgrees(g: Geometry, content: seq<byte>, k: nat, p: nat)
    requires Node(g, content, k).Some? && Node(g, content, k).value.accepted <= p < MAX_LOGICAL
    ensures var r := Walk(g, content, Node(g, content, k).value, p, MAX_LOGICAL);
            && (FromHead(g, content, p) == EndOfTable || r == FromHead(g, content, p))
            && (Node(g, content, MAX_LOGICAL).None? ==> r == FromHead(g, content, p))
  {
    hide Walk, Node;
    var at := Node(g, content, k).value;
    if k <= MAX_LOGICAL {
      HeadReaches(g, content, k, p, MAX_LOGICAL - k);
      MoreLinks(g, content, at, p, MAX_LOGICAL - k, MAX_LOGICAL);
      if Node(g, content, MAX_LOGICAL).None? { EnoughLinks(g, content, k, MAX_LOGICAL, p, MAX_LOGICAL); }
    } else {
      NodesBefore(g, content, k, MAX_LOGICAL);
      HeadReaches(g, content, MAX_LOGICAL, p, 0);
      WalkOfNone(g, content, Node(g, content, MAX_LOGICAL).value, p);
    }
  }

  lemma WalkOfNone(g: Geometry, content: seq<byte>, at: Place, p: int)
    ensures Walk(g, content, at, p, 0) == EndOfTable
  {
  }

  lemma {:induction false} NodesBefore(g: Geometry, content: seq<byte>, k: nat, j: nat)
    requires Node(g, content, k).Some? && j <= k
    ensures Node(g, content, j).Some? && Node(g, content, j).value.accepted <= Node(g, content, k).value.accepted
    decreases k
  {
    hide Scan, Signed;
    if j < k {
      var at := Node(g, content, k - 1).value;
      ScanPasses(g, content, at.sector, at.size, -1, -1, 0, at.accepted, None);
      NodesBefore(g, content, k - 1, j);
    }
  }

  /** What a found partition satisfies: it lies in the extended partition and on the disk. */
  ghost predicate WellPlaced(g: Geometry, a: Answer) {
    a.Found? ==>
      && a.count > 0 && a.first >= g.extFirst
      && (g.extCount != V.UNKNOWN ==> a.first + a.count <= g.extFirst + g.extCount)
      && (g.diskCount != V.UNKNOWN ==> a.first + a.count <= g.diskCount)
  }

  lemma {:induction false} ScanWellPlaced(g: Geometry, content: seq<byte>, sector: nat, size: nat, p: int,
                                          i: nat, accepted: nat, link: Option<(nat, nat)>)
    requires i <= 4
    ensures var r := Scan(g, content, sector, size, p, i, accepted, link); r.Answered? ==> WellPlaced(g, r.answer)
    decreases 4 - i
  {
    hide SlotAt;
    if i < 4 && SlotAt(content, sector, i).Some? {
      var v := Visit(g, sector, size, p, i, SlotAt(content, sector, i).value, accepted, link);
      if v.Go? { ScanWellPlaced(g, content, sector, size, p, i + 1, v.accepted, v.link); }
    }
  }

  // ---- The probe with its memo --------------------------------------------------------------------

  /** The extended partition as a volume, with the memo of its last walk. */
  class Extended {
    const vol: V.Volume
    const g: Geometry
    var walkIndex: nat
    var walkSector: nat
    var walkSize: nat

    ghost predicate Valid()
      reads this, vol, vol.cache
    {
      && vol.Valid() && vol.sectCount != V.UNKNOWN && g.extCount < 0x1_0000_0000
      && MemoOk()
    }

    /** The memo is some boot record of the chain, with the right number of logicals before it. */
    ghost predicate MemoOk()
      requires vol.Placed()
      reads this
    {
      exists k: nat :: Node(g, vol.Content(), k) == Some(Place(walkSector, walkSize, walkIndex))
    }

    constructor (vol: V.Volume, g: Geometry)
      requires vol.Valid() && vol.sectCount != V.UNKNOWN && g.extCount < 0x1_0000_0000
      ensures Valid() && this.vol == vol && this.g == g
    {
      this.vol, this.g := vol, g;
      walkIndex, walkSector, walkSize := 0, 0, g.extCount;
      new;
      assert Node(g, vol.Content(), 0) == Some(Place(0, g.extCount, 0));
    }

    /** The signature check of one boot record. */
    method ReadSignature(sector: nat) returns (signed: bool)
      requires vol.Valid() && sector < 0x1_0000_0000
      modifies vol, vol.cache
      ensures vol.Valid()
      ensures signed ==> Signed(vol.Content(), sector)
      ensures vol.Dependable() ==> (signed <==> Signed(vol.Content(), sector))
    {
      var ok, b := vol.Read(sector * 512 + 510, 2);
      signed := ok && b[0] == 0x55 && b[1] == 0xaa;
    }

    /** The loop over the four slots of a boot record. */
    method ScanSlots(at: Place, p: nat) returns (r: Scanned)
      requires vol.Valid() && at.sector < 0x1_0000_0000
      modifies vol, vol.cache
      ensures vol.Valid()
      ensures r == ScanPlace(g, vol.Content(), at, p) || r == Answered(EndOfTable)
      ensures vol.Dependable() ==> r == ScanPlace(g, vol.Content(), at, p)
    {
      hide V.Volume.Content, Visit, SlotOf;
      ghost var content := vol.Content();
      var accepted, link: Option<(nat, nat)> := at.accepted, None;
      for i := 0 to 4
        invariant vol.Valid()
        invariant ScanPlace(g, content, at, p) == Scan(g, content, at.sector, at.size, p, i, accepted, link)
      {
        var ok, b := vol.Read(SlotAddress(at.sector, i), 16);
        if !ok { return Answered(EndOfTable); }
        assert SlotAt(content, at.sector, i) == Some(SlotOf(b));
        var v := Visit(g, at.sector, at.size, p, i, SlotOf(b), accepted, link);
        if v.Halt? { return Answered(v.answer); }
        accepted, link := v.accepted, v.link;
      }
      r := Passed(accepted, link);
    }

    /**
     `mbr_get_logical_part`: from the memo if it is not past the wanted number, else from the head.
     With readable sectors the answer is that of a walk from the head whenever the chain has at
     most 256 links, and never contradicts it otherwise; the memo stays good in every case.
     */
    method Probe(p: nat) returns (a: Answer)
      requires Valid()
      modifies this, vol, vol.cache
      ensures Valid() && WellPlaced(g, a)
      ensures vol.Dependable() && Node(g, vol.Content(), MAX_LOGICAL).None? ==> a == FromHead(g, vol.Content(), p)
      ensures vol.Dependable() ==> FromHead(g, vol.Content(), p) == EndOfTable || a == FromHead(g, vol.Content(), p)
    {
      hide V.Volume.Content, Walk, Scan, Signed, Node;
      if p >= MAX_LOGICAL { return EndOfTable; }
      ghost var content := vol.Content();
      ghost var k: nat := 0;
      var at := Head(g);
      NodeZero(g, content);
      if walkIndex <= p {
        at := Place(walkSector, walkSize, walkIndex);
        k :| Node(g, content, k) == Some(at);
      }
      ResumeAgrees(g, content, k, p);
      ghost var whole := Walk(g, content, at, p, MAX_LOGICAL);
      var link := 0;
      while link < MAX_LOGICAL
        invariant 0 <= link <= MAX_LOGICAL
        invariant Valid()
        invariant Node(g, content, k) == Some(at) && at.accepted <= p
        invariant whole == Walk(g, content, at, p, MAX_LOGICAL - link)
      {
        walkIndex, walkSector, walkSize := at.accepted, at.sector, at.size;
        NodeInside(g, content, k);
        WalkStep(g, content, at, p, MAX_LOGICAL - link);
        var signed := ReadSignature(at.sector);
        if !signed { return EndOfTable; }
        var r := ScanSlots(at, p);
        ScanWellPlaced(g, content, at.sector, at.size, p, 0, at.accepted, None);
        if r.Answered? { return r.answer; }
        var next := Follow(g, at, r);
        if next.None? { return EndOfTable; }
        NodeNext(g, content, k, p);
        at := next.value;
        k := k + 1;
        link := link + 1;
      }
      WalkOfNone(g, content, at, p);
      a := EndOfTable;
    }
  }

  lemma NodeZero(g: Geometry, content: seq<byte>)
    ensures Node(g, content, 0) == Some(Head(g))
  {
  }

  lemma NodeInside(g: Geometry, content: seq<byte>, k: nat)
    requires g.extCount < 0x1_0000_0000 && Node(g, content, k).Some?
    ensures Node(g, content, k).value.sector < 0x1_0000_0000
  {
  }

  lemma WalkStep(g: Geometry, content: seq<byte>, at: Place, p: int, links: nat)
    requires links > 0
    ensures !Signed(content, at.sector) ==> Walk(g, content, at, p, links) == EndOfTable
    ensures var r := ScanPlace(g, content, at, p);
            Signed(content, at.sector) ==>
              Walk(g, content, at, p, links) ==
              if r.Answered? then r.answer
              else if Follow(g, at, r).None? then EndOfTable
              else Walk(g, content, Follow(g, at, r).value, p, links - 1)
  {
  }

  /** A record passed while looking for `p` leads where the chain leads. */
  lemma NodeNext(g: Geometry, content: seq<byte>, k: nat, p: nat)
    requires Node(g, content, k).Some? && Node(g, content, k).value.accepted <= p
    requires var at := Node(g, content, k).value;
             Signed(content, at.sector) && Follow(g, at, ScanPlace(g, content, at, p)).Some?
    ensures var at := Node(g, content, k).value;
            Node(g, content, k + 1) == Follow(g, at, ScanPlace(g, content, at, p))
    ensures Node(g, content, k + 1).value.accepted <= p
  {
    var at := Node(g, content, k).value;
    ScanPasses(g, content, at.sector, at.size, p, -1, 0, at.accepted, None);
  }
}
