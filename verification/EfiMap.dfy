/**
 Rebuilding the firmware's memory map after boot services have ended
 (limine/common/lib/misc.c): descriptors are cut at the edges of the regions the bootloader owns,
 and the pieces inside usable ones become conventional memory.
 */
module EfiMap {
  import opened Blocks
  import opened Bytes
  import opened Counting

  const PAGE: nat := 4096
  const CONVENTIONAL: nat := 7

  datatype Descriptor = Descriptor(kind: nat, start: u64, pages: nat, virt: nat, attribute: nat)

  datatype Region = Region(base: nat, length: nat, usable: bool)

  function End(d: Descriptor): nat { d.start + d.pages * PAGE }

  /** The end as the loop computes it, in 64 bits. */
  function Top(d: Descriptor): u64 { End(d) % U64_LIMIT }

  /** As much of a descriptor as the loop reaches: nothing, or less, if its end wraps around. */
  function Reached(d: Descriptor): (r: Descriptor) {
    d.(pages := if Top(d) > d.start then (Top(d) - d.start) / PAGE else 0)
  }

  lemma ReachedEnds(d: Descriptor)
    requires d.start % PAGE == 0
    ensures End(Reached(d)) == if Top(d) > d.start then Top(d) else d.start
    ensures End(Reached(d)) <= End(d)
    ensures End(d) < U64_LIMIT ==> Reached(d) == d
    ensures End(d) >= U64_LIMIT ==> End(Reached(d)) < End(d)
  {
    TopAligned(d);
    if End(d) < U64_LIMIT { assert (Top(d) - d.start) / PAGE == d.pages; }
  }

  lemma TopAligned(d: Descriptor)
    requires d.start % PAGE == 0
    ensures Top(d) % PAGE == 0
  {
    assert U64_LIMIT == 0x10_0000_0000_0000 * PAGE;
    var q := End(d) / U64_LIMIT;
    assert Top(d) == (d.start / PAGE + d.pages - q * 0x10_0000_0000_0000) * PAGE;
  }

  predicate Holds(d: Descriptor, a: nat) { d.start <= a < End(d) }

  /** A usable region whose end can be computed. */
  predicate Counts(r: Region) { r.usable && r.base + r.length < U64_LIMIT }

  predicate Inside(r: Region, a: nat) { Counts(r) && r.base <= a < r.base + r.length }

  /** Address `a` lies in a usable owned region. */
  ghost predicate Owned(regions: seq<Region>, a: nat) {
    exists j :: 0 <= j < |regions| && Inside(regions[j], a)
  }

  predicate Aligned(regions: seq<Region>) {
    forall j :: 0 <= j < |regions| ==> regions[j].base % PAGE == 0 && regions[j].length % PAGE == 0
  }

  /** The addresses at which regions begin and end. */
  ghost function Edges(regions: seq<Region>): set<nat> {
    if regions == [] then {}
    else Edges(regions[..|regions| - 1])
         + {regions[|regions| - 1].base, regions[|regions| - 1].base + regions[|regions| - 1].length}
  }

  lemma {:induction false} EdgeCount(regions: seq<Region>)
    ensures |Edges(regions)| <= 2 * |regions|
    decreases |regions|
  {
    if regions != [] {
      var m := |regions| - 1;
      EdgeCount(regions[..m]);
      var two := {regions[m].base, regions[m].base + regions[m].length};
      SubsetSize(two, two);
      assert |two| <= 2 by {
        if regions[m].length == 0 { assert two == {regions[m].base}; }
      }
    }
  }

  lemma {:induction false} EdgeIn(regions: seq<Region>, j: nat)
    requires j < |regions|
    ensures regions[j].base in Edges(regions) && regions[j].base + regions[j].length in Edges(regions)
    decreases |regions|
  {
    if j < |regions| - 1 {
      EdgeIn(regions[..|regions| - 1], j);
    }
  }

  // ---- One run ---------------------------------------------------------------------------------

  /** No address of `cur .. top` is owned through the first `n` regions. */
  ghost predicate Clear(regions: seq<Region>, n: nat, cur: nat, top: nat)
    requires n <= |regions|
  {
    forall j, a :: 0 <= j < n && cur <= a < top ==> !Inside(regions[j], a)
  }

  /** The innermost loop: how far the ownership of `cur` extends. */
  method FindRun(regions: seq<Region>, cur: nat, top: nat) returns (runTop: nat, owned: bool)
    requires cur < top && cur % PAGE == 0 && top % PAGE == 0 && Aligned(regions)
    ensures cur < runTop <= top && runTop % PAGE == 0
    ensures forall a :: cur <= a < runTop ==> (Owned(regions, a) <==> owned)
    ensures runTop < top ==> runTop in Edges(regions)
  {
    hide Edges, Owned;
    runTop, owned := top, false;
    for j := 0 to |regions|
      invariant cur < runTop <= top && runTop % PAGE == 0 && !owned
      invariant Clear(regions, j, cur, runTop)
      invariant runTop < top ==> runTop in Edges(regions)
    {
      var r := regions[j];
      if Counts(r) {
        EdgeIn(regions, j);
        var regTop := r.base + r.length;
        if r.base <= cur < regTop {
          if regTop < runTop {
            AlignedSum(r.base, r.length);
            runTop := regTop;
          }
          OwnedThrough(regions, j, cur, runTop);
          return runTop, true;
        }
        if r.base > cur && r.base < runTop { runTop := r.base; }
      }
    }
    ClearOfAll(regions, cur, runTop);
  }

  lemma AlignedSum(a: nat, b: nat)
    requires a % PAGE == 0 && b % PAGE == 0
    ensures (a + b) % PAGE == 0
  {
  }

  lemma OwnedThrough(regions: seq<Region>, j: nat, cur: nat, top: nat)
    requires j < |regions| && Counts(regions[j])
    requires regions[j].base <= cur && top <= regions[j].base + regions[j].length
    ensures forall a :: cur <= a < top ==> Owned(regions, a)
  {
    forall a | cur <= a < top ensures Owned(regions, a) { assert Inside(regions[j], a); }
  }

  lemma ClearOfAll(regions: seq<Region>, cur: nat, top: nat)
    requires Clear(regions, |regions|, cur, top)
    ensures forall a :: cur <= a < top ==> !Owned(regions, a)
  {
  }

  // ---- One descriptor ----------------------------------------------------------------------------

  /** `s` is a row of nonempty pieces that together cover exactly `lo .. hi`. */
  ghost predicate Tiles(s: seq<Descriptor>, lo: nat, hi: nat) {
    if s == [] then lo == hi
    else
      var last := s[|s| - 1];
      End(last) == hi && last.pages > 0 && last.start >= lo && Tiles(s[..|s| - 1], lo, last.start)
  }

  /** A piece of `d`: as `d`, except where it lies, and conventional exactly where owned. */
  ghost predicate PieceOf(piece: Descriptor, d: Descriptor, regions: seq<Region>) {
    && d.start <= piece.start && End(piece) <= End(d)
    && piece.attribute == d.attribute
    && piece.virt == (if piece.start == d.start then d.virt else 0)
    && (forall a :: Holds(piece, a) ==> piece.kind == if Owned(regions, a) then CONVENTIONAL else d.kind)
  }

  ghost predicate PiecesOf(s: seq<Descriptor>, d: Descriptor, regions: seq<Region>) {
    forall k :: 0 <= k < |s| ==> PieceOf(s[k], d, regions)
  }

  /** Every address of a tiled stretch is in exactly one of its tiles. */
  lemma {:induction false} TileOf(s: seq<Descriptor>, lo: nat, hi: nat, a: nat) returns (k: nat)
    requires Tiles(s, lo, hi) && lo <= a < hi
    ensures k < |s| && Holds(s[k], a)
    ensures forall l :: 0 <= l < |s| && Holds(s[l], a) ==> l == k
    decreases |s|
  {
    var m := |s| - 1;
    if Holds(s[m], a) {
      k := m;
      TilesWithin(s[..m], lo, s[m].start);
    } else {
      k := TileOf(s[..m], lo, s[m].start, a);
    }
  }

  lemma {:induction false} TilesWithin(s: seq<Descriptor>, lo: nat, hi: nat)
    requires Tiles(s, lo, hi)
    ensures lo <= hi
    ensures forall k :: 0 <= k < |s| ==> lo <= s[k].start && s[k].start < End(s[k]) <= hi
    decreases |s|
  {
    if s != [] { TilesWithin(s[..|s| - 1], lo, s[|s| - 1].start); }
  }

  lemma TilesAppend(s: seq<Descriptor>, lo: nat, cur: nat, piece: Descriptor)
    requires Tiles(s, lo, cur) && piece.start == cur && piece.pages > 0
    ensures Tiles(s + [piece], lo, End(piece))
  {
    TilesWithin(s, lo, cur);
    assert (s + [piece])[..|s|] == s;
  }

  predicate PageAligned(d: Descriptor) { d.start % PAGE == 0 }

  /** The pieces written so far: they tile the descriptor up to `cur`, with the right types. */
  ghost predicate Row(s: seq<Descriptor>, d: Descriptor, regions: seq<Region>, cur: nat) {
    Tiles(s, d.start, cur) && PiecesOf(s, d, regions)
  }

  /** One run from `cur` on. */
  method PutRun(d: Descriptor, regions: seq<Region>, copy: array<Descriptor>, from: nat, n: nat, cur: u64) returns (runTop: nat)
    requires from <= n < copy.Length && Aligned(regions)
    requires d.start <= cur < End(d) && cur % PAGE == 0 && End(d) % PAGE == 0
    requires Row(copy[from..n], d, regions, cur)
    modifies copy
    ensures copy[..from] == old(copy[..from]) && Row(copy[from..n + 1], d, regions, runTop)
    ensures cur < runTop <= End(d) && runTop % PAGE == 0 && (runTop < End(d) ==> runTop in Edges(regions))
  {
    hide Owned, Edges, Tiles, PieceOf, PiecesOf, Aligned;
    var owned;
    runTop, owned := FindRun(regions, cur, End(d));
    var piece := Descriptor(if owned then CONVENTIONAL else d.kind, cur, (runTop - cur) / PAGE,
                            if cur != d.start then 0 else d.virt, d.attribute);
    PieceIsExact(piece, d, regions, runTop, owned);
    TilesAppend(copy[from..n], d.start, cur, piece);
    PiecesAppend(copy[from..n], piece, d, regions);
    PutPiece(copy, from, n, piece);
  }

  /**
   The loop over one descriptor's runs. Every run but the last ends at a region's edge strictly
   inside the descriptor, no edge twice; `cuts` collects them.
   */
  method Split(d: Descriptor, regions: seq<Region>, copy: array<Descriptor>, from: nat)
    returns (n: nat, panicked: bool, ghost cuts: set<nat>)
    requires from < copy.Length && PageAligned(d) && Aligned(regions)
    modifies copy
    ensures from <= n <= copy.Length && copy[..from] == old(copy[..from])
    ensures panicked <==> n == copy.Length
    ensures !panicked ==> Row(copy[from..n], Reached(d), regions, End(Reached(d)))
    ensures cuts <= Edges(regions) && (forall c :: c in cuts ==> d.start < c < End(Reached(d)))
    ensures n <= from + 1 + |cuts|
  {
    hide Edges, Row, Top, Aligned;
    n, panicked, cuts := from, false, {};
    var e := Reached(d);
    ReachedEnds(d);
    TopAligned(d);
    NoPieces(e, regions);
    assert copy[from..from] == [];
    var cur, top := d.start, Top(d);
    while cur < top
      invariant d.start <= cur && (cur < top || cur == End(e)) && cur % PAGE == 0
      invariant from <= n < copy.Length && copy[..from] == old(copy[..from])
      invariant Row(copy[from..n], e, regions, cur)
      invariant cuts <= Edges(regions) && (forall c :: c in cuts ==> d.start < c <= cur && c < End(e))
      invariant n <= from + |cuts| + (if cur >= top && d.start < top then 1 else 0)
      decreases top - cur
    {
      cur := PutRun(e, regions, copy, from, n, cur);
      n := n + 1;
      if n == copy.Length { return n, true, cuts; }
      if cur < top { cuts := cuts + {cur}; }
    }
  }

  method PutPiece(copy: array<Descriptor>, from: nat, n: nat, piece: Descriptor)
    requires from <= n < copy.Length
    modifies copy
    ensures copy[..from] == old(copy[..from]) && copy[from..n + 1] == old(copy[from..n]) + [piece]
  {
    copy[n] := piece;
  }

  lemma NoPieces(d: Descriptor, regions: seq<Region>)
    ensures Row([], d, regions, d.start)
  {
  }

  lemma PiecesAppend(s: seq<Descriptor>, piece: Descriptor, d: Descriptor, regions: seq<Region>)
    requires PiecesOf(s, d, regions) && PieceOf(piece, d, regions)
    ensures PiecesOf(s + [piece], d, regions)
  {
    hide PieceOf;
  }

  lemma PieceIsExact(piece: Descriptor, d: Descriptor, regions: seq<Region>, runTop: nat, owned: bool)
    requires piece.start % PAGE == 0 && runTop % PAGE == 0 && d.start <= piece.start < runTop <= End(d)
    requires piece.pages == (runTop - piece.start) / PAGE
    requires piece.kind == if owned then CONVENTIONAL else d.kind
    requires piece.virt == (if piece.start == d.start then d.virt else 0) && piece.attribute == d.attribute
    requires forall a :: piece.start <= a < runTop ==> (Owned(regions, a) <==> owned)
    ensures End(piece) == runTop && piece.pages > 0
    ensures PieceOf(piece, d, regions)
  {
    assert End(piece) == runTop;
  }

  // ---- The whole map -------------------------------------------------------------------------------

  ghost predicate Disjoint(map_: seq<Descriptor>) {
    forall i, j, a :: 0 <= i < |map_| && 0 <= j < |map_| && Holds(map_[i], a) && Holds(map_[j], a) ==> i == j
  }

  /** Address `a` has in `out` the type it should have. */
  ghost predicate TypedAs(map_: seq<Descriptor>, regions: seq<Region>, kind: nat, a: nat) {
    exists i :: 0 <= i < |map_| && Holds(map_[i], a) && kind == if Owned(regions, a) then CONVENTIONAL else map_[i].kind
  }

  ghost predicate Covered(out: seq<Descriptor>, a: nat) {
    exists k :: 0 <= k < |out| && Holds(out[k], a)
  }

  /**
   `out` covers exactly the addresses of `map_`, each once, and gives each its old type, or
   conventional where it is owned.
   */
  ghost predicate Rebuilt(map_: seq<Descriptor>, regions: seq<Region>, out: seq<Descriptor>) {
    && (forall k, a :: 0 <= k < |out| && Holds(out[k], a) ==> TypedAs(map_, regions, out[k].kind, a))
    && (forall i, a :: 0 <= i < |map_| && Holds(map_[i], a) ==> Covered(out, a))
    && Disjoint(out)
  }

  /** Address `a` lies in a usable region whose end is within 64 bits. */
  ghost predicate InUsable(regions: seq<Region>, a: nat) {
    exists r :: r in regions && r.usable && r.base <= a < r.base + r.length && r.base + r.length < 0x1_0000_0000_0000_0000
  }

  lemma OwnedIsUsable(regions: seq<Region>, a: nat)
    ensures Owned(regions, a) <==> InUsable(regions, a)
  {
    if InUsable(regions, a) {
      var r :| r in regions && r.usable && r.base <= a < r.base + r.length && r.base + r.length < 0x1_0000_0000_0000_0000;
      var j :| 0 <= j < |regions| && regions[j] == r;
      assert Inside(regions[j], a);
    }
  }

  /**
   What a rebuilt map says of address `a` of a firmware descriptor with pages of 4096 bytes: it is in
   some descriptor, of type 7 in a usable region and of its old type anywhere else; a map rebuilt
   around no usable region keeps every type.
   */
  lemma RebuiltMeans(map_: seq<Descriptor>, regions: seq<Region>, out: seq<Descriptor>, i: nat, a: nat) returns (k: nat)
    requires Rebuilt(map_, regions, out) && Disjoint(map_)
    requires i < |map_| && map_[i].start <= a < map_[i].start + 4096 * map_[i].pages
    ensures k < |out| && out[k].start <= a < out[k].start + 4096 * out[k].pages
    ensures out[k].kind == if InUsable(regions, a) then 7 else map_[i].kind
    ensures (forall r :: r in regions ==> !r.usable) ==> out[k].kind == map_[i].kind
  {
    assert Holds(map_[i], a) && Covered(out, a);
    k :| 0 <= k < |out| && Holds(out[k], a);
    assert TypedAs(map_, regions, out[k].kind, a);
    OwnedIsUsable(regions, a);
  }

  lemma RebuiltGrows(map_: seq<Descriptor>, regions: seq<Region>, i: nat, out: seq<Descriptor>, pieces: seq<Descriptor>)
    requires i < |map_| && Disjoint(map_)
    requires Rebuilt(map_[..i], regions, out)
    requires Tiles(pieces, map_[i].start, End(map_[i])) && PiecesOf(pieces, map_[i], regions)
    ensures Rebuilt(map_[..i + 1], regions, out + pieces)
  {
    hide Owned;
    var d, all, now := map_[i], out + pieces, map_[..i + 1];
    forall k, a | 0 <= k < |all| && Holds(all[k], a) ensures TypedAs(now, regions, all[k].kind, a) {
      if k < |out| {
        assert TypedAs(map_[..i], regions, out[k].kind, a);
        var j :| 0 <= j < i && Holds(map_[..i][j], a)
          && out[k].kind == if Owned(regions, a) then CONVENTIONAL else map_[..i][j].kind;
        assert now[j] == map_[j];
      } else {
        assert PieceOf(pieces[k - |out|], d, regions);
        assert now[i] == d && Holds(d, a);
      }
    }
    forall j, a | 0 <= j < |now| && Holds(now[j], a) ensures Covered(all, a) {
      if j < i {
        assert Holds(map_[..i][j], a);
        assert Covered(out, a);
        var k :| 0 <= k < |out| && Holds(out[k], a);
        assert Holds(all[k], a);
      } else {
        var k := TileOf(pieces, d.start, End(d), a);
        assert Holds(all[|out| + k], a);
      }
    }
    forall k, l, a | 0 <= k < |all| && 0 <= l < |all| && Holds(all[k], a) && Holds(all[l], a) ensures k == l {
      OnePiece(map_, regions, i, out, pieces, k, l, a);
    }
  }

  lemma NotYetCovered(map_: seq<Descriptor>, regions: seq<Region>, i: nat, out: seq<Descriptor>, x: nat, a: nat)
    requires i < |map_| && Disjoint(map_)
    requires Rebuilt(map_[..i], regions, out)
    requires x < |out| && Holds(out[x], a)
    ensures !Holds(map_[i], a)
  {
    assert TypedAs(map_[..i], regions, out[x].kind, a);
    var j :| 0 <= j < i && Holds(map_[..i][j], a);
    assert Holds(map_[j], a);
  }

  lemma OnePiece(map_: seq<Descriptor>, regions: seq<Region>, i: nat, out: seq<Descriptor>, pieces: seq<Descriptor>,
                 k: nat, l: nat, a: nat)
    requires i < |map_| && Disjoint(map_)
    requires Rebuilt(map_[..i], regions, out)
    requires Tiles(pieces, map_[i].start, End(map_[i])) && PiecesOf(pieces, map_[i], regions)
    requires k < |out + pieces| && l < |out + pieces| && Holds((out + pieces)[k], a) && Holds((out + pieces)[l], a)
    ensures k == l
  {
    hide Owned;
    var x := if k < l then k else l;
    var y := if k < l then l else k;
    if y < |out| {
      assert Holds(out[x], a) && Holds(out[y], a);
    } else {
      assert PieceOf(pieces[y - |out|], map_[i], regions);
      assert Holds(map_[i], a);
      var z := TileOf(pieces, map_[i].start, End(map_[i]), a);
      if x < |out| { NotYetCovered(map_, regions, i, out, x, a); }
    }
  }

  /** The part of a map the rebuild reaches. */
  ghost function AllReached(map_: seq<Descriptor>): (r: seq<Descriptor>)
    ensures |r| == |map_| && forall i :: 0 <= i < |map_| ==> r[i] == Reached(map_[i])
  {
    seq(|map_|, i requires 0 <= i < |map_| => Reached(map_[i]))
  }

  lemma ReachedDisjoint(map_: seq<Descriptor>)
    requires Disjoint(map_) && forall i :: 0 <= i < |map_| ==> PageAligned(map_[i])
    ensures Disjoint(AllReached(map_))
  {
    hide Reached;
    var r := AllReached(map_);
    forall i, j, a | 0 <= i < |r| && 0 <= j < |r| && Holds(r[i], a) && Holds(r[j], a) ensures i == j {
      ReachedEnds(map_[i]);
      ReachedEnds(map_[j]);
      ReachedStart(map_[i]);
      ReachedStart(map_[j]);
      assert Holds(map_[i], a) && Holds(map_[j], a);
    }
  }

  lemma ReachedStart(d: Descriptor)
    ensures Reached(d).start == d.start
  {
  }

  /** No descriptor's end wraps around. */
  predicate NoWrap(map_: seq<Descriptor>) {
    forall i :: 0 <= i < |map_| ==> End(map_[i]) < U64_LIMIT
  }

  /** Rebuilding what was reached is rebuilding the map exactly if no descriptor's end wraps around. */
  lemma ExactUnlessWrapped(map_: seq<Descriptor>, regions: seq<Region>, out: seq<Descriptor>)
    requires Disjoint(map_) && forall i :: 0 <= i < |map_| ==> PageAligned(map_[i])
    requires Rebuilt(AllReached(map_), regions, out)
    ensures Rebuilt(map_, regions, out) <==> NoWrap(map_)
  {
    hide Reached, Owned;
    var r := AllReached(map_);
    forall i | 0 <= i < |map_| ensures End(map_[i]) < U64_LIMIT ==> r[i] == map_[i] { ReachedEnds(map_[i]); }
    if NoWrap(map_) {
      assert r == map_;
    } else {
      var i :| 0 <= i < |map_| && End(map_[i]) >= U64_LIMIT;
      LastByteLost(map_, regions, out, i);
    }
  }

  lemma LastByteLost(map_: seq<Descriptor>, regions: seq<Region>, out: seq<Descriptor>, i: nat)
    requires Disjoint(map_) && forall j :: 0 <= j < |map_| ==> PageAligned(map_[j])
    requires Rebuilt(AllReached(map_), regions, out)
    requires i < |map_| && End(map_[i]) >= U64_LIMIT
    ensures Holds(map_[i], End(map_[i]) - 1) && !Covered(out, End(map_[i]) - 1)
  {
    hide Reached, Owned;
    var a, r := End(map_[i]) - 1, AllReached(map_);
    if Covered(out, a) {
      var k :| 0 <= k < |out| && Holds(out[k], a);
      assert TypedAs(r, regions, out[k].kind, a);
      var j :| 0 <= j < |r| && Holds(r[j], a);
      ReachedEnds(map_[j]);
      ReachedStart(map_[j]);
    }
  }

  /**
   The rebuild. With room for every firmware descriptor and two more per region it never runs out;
   and what it then writes covers exactly the same addresses with the right types if and only if
   no descriptor's end wraps around 64 bits.
   */
  method Rebuild(map_: seq<Descriptor>, regions: seq<Region>, copy: array<Descriptor>) returns (n: nat, panicked: bool)
    requires copy.Length > 0 && Aligned(regions) && Disjoint(map_)
    requires forall i :: 0 <= i < |map_| ==> PageAligned(map_[i])
    modifies copy
    ensures n <= copy.Length
    ensures !panicked ==> (Rebuilt(map_, regions, copy[..n]) <==> NoWrap(map_))
    ensures !panicked ==> Rebuilt(AllReached(map_), regions, copy[..n]) && n <= |map_| + 2 * |regions|
    ensures copy.Length > |map_| + 2 * |regions| ==> !panicked
  {
    hide Rebuilt, Tiles, Edges, Disjoint, PiecesOf, Covered, Reached;
    n, panicked := 0, false;
    ghost var cuts: set<nat> := {};
    ghost var whole := AllReached(map_);
    EdgeCount(regions);
    NothingRebuilt(regions);
    ReachedDisjoint(map_);
    assert cuts <= Edges(regions);
    assert whole[..0] == [] && copy[..0] == [];
    for i := 0 to |map_|
      invariant n < copy.Length
      invariant Rebuilt(whole[..i], regions, copy[..n])
      invariant cuts <= Edges(regions)
      invariant forall c :: c in cuts ==> Covered(whole[..i], c)
      invariant n <= i + |cuts|
    {
      ghost var out := copy[..n];
      ghost var more;
      var m;
      ReachedStart(map_[i]);
      m, panicked, more := Split(map_[i], regions, copy, n);
      NewCuts(whole, i, cuts, more);
      cuts := cuts + more;
      SubsetSize(cuts, Edges(regions));
      n := m;
      if panicked { return; }
      assert copy[..n] == out + copy[|out|..n];
      RebuiltGrows(whole, regions, i, out, copy[|out|..n]);
    }
    SubsetSize(cuts, Edges(regions));
    assert whole[..|map_|] == whole;
    ExactUnlessWrapped(map_, regions, copy[..n]);
  }

  lemma NothingRebuilt(regions: seq<Region>)
    ensures Rebuilt([], regions, [])
  {
  }

  /** Cuts inside one descriptor are not cuts inside another. */
  lemma NewCuts(map_: seq<Descriptor>, i: nat, cuts: set<nat>, more: set<nat>)
    requires i < |map_| && Disjoint(map_)
    requires forall c :: c in cuts ==> Covered(map_[..i], c)
    requires forall c :: c in more ==> map_[i].start < c < End(map_[i])
    ensures |cuts + more| == |cuts| + |more|
    ensures forall c :: c in cuts + more ==> Covered(map_[..i + 1], c)
  {
    forall c | c in cuts ensures c !in more && Covered(map_[..i + 1], c) {
      assert Covered(map_[..i], c);
      var j :| 0 <= j < i && Holds(map_[..i][j], c);
      assert Holds(map_[j], c) && map_[..i + 1][j] == map_[j];
      assert !Holds(map_[i], c);
    }
    forall c | c in more ensures Covered(map_[..i + 1], c) {
      assert Holds(map_[..i + 1][i], c);
    }
    assert cuts !! more;
  }

  /** The buffer `efi_exit_boot_services` allocates, in descriptors. */
  function BufferLength(mapAlloc: nat, regions: nat, descSize: nat): nat
    requires descSize > 0
  {
    (2 * mapAlloc + 2 * regions * descSize) / descSize
  }

  /** It has room to spare for the map it then gets. */
  lemma BufferSuffices(mapAlloc: nat, mapSize: nat, descSize: nat, regions: nat)
    requires 0 < descSize <= 2 * mapAlloc && mapSize <= mapAlloc
    ensures BufferLength(mapAlloc, regions, descSize) > mapSize / descSize + 2 * regions
  {
    var e := mapSize / descSize;
    DivMod(mapSize, descSize);
    var want := e + 2 * regions + 1;
    assert want * descSize == e * descSize + 2 * regions * descSize + descSize;
    if e > 0 { ProductMonotone(1, e, descSize); }
    assert 2 * mapAlloc >= e * descSize + descSize;
    QuotientAtLeast(2 * mapAlloc + 2 * regions * descSize, descSize, want);
  }

  /**
   The rebuild in the buffer as it was allocated: it does not panic, whatever map the firmware then
   hands out within the size allowed for, and the result is exact unless a descriptor wraps around.
   */
  method RebuildInBuffer(map_: seq<Descriptor>, regions: seq<Region>, mapAlloc: nat, mapSize: nat, descSize: nat)
    returns (out: seq<Descriptor>, panicked: bool)
    requires 0 < descSize <= 2 * mapAlloc && mapSize <= mapAlloc && |map_| == mapSize / descSize
    requires Aligned(regions) && Disjoint(map_) && forall i :: 0 <= i < |map_| ==> PageAligned(map_[i])
    ensures !panicked
    ensures Rebuilt(map_, regions, out) <==> NoWrap(map_)
  {
    hide Rebuilt, Disjoint;
    BufferSuffices(mapAlloc, mapSize, descSize, |regions|);
    var copy := new Descriptor[BufferLength(mapAlloc, |regions|, descSize)](_ => Descriptor(0, 0, 0, 0, 0));
    var n;
    n, panicked := Rebuild(map_, regions, copy);
    out := copy[..n];
  }
}
