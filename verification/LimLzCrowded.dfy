/**
 A short source the LimLZ packer (limine/tools/limlzpack.c) cannot pack because of its window of 32
 neighbours alone: everything is within reach, and every stretch repeats something.
 */
module LimLzCrowded {
  import opened Bytes
  import opened Counting
  import opened SuffixArray
  import opened LimLzMatches
  import opened LimLzFormat
  import opened LimLzParse
  import opened LimLzFailure

  /** Where the first copy of the text starts, behind its pieces. */
  const FIRST: nat := 4296
  /** A copy of the text and a separator. */
  const CELL: nat := 541
  /** 33 copies. */
  const CROWDED: nat := 22149

  /**
   Every four letters of the text in turn, with four zeros behind each; then 33 copies of the text,
   the first with a higher separator than the others.
   */
  function CrowdedByte(i: nat): byte
    requires i < CROWDED
  {
    if i < FIRST then (if i % 8 < 4 then Letter(i / 8 + i % 8) else 0)
    else
      var c, k := (i - FIRST) / CELL, (i - FIRST) % CELL;
      if k < ALPHABET then Letter(k) else if c == 0 then 2 else 1
  }

  function CrowdedSource(): (s: seq<byte>)
    ensures |s| == CROWDED && forall i :: 0 <= i < CROWDED ==> s[i] == CrowdedByte(i)
  {
    seq(CROWDED, i requires 0 <= i < CROWDED => CrowdedByte(i))
  }

  /** Where letter `k` of copy `c` is. */
  function CopyAt(c: nat, k: nat): nat { FIRST + CELL * c + k }

  lemma CopyByte(c: nat, k: nat)
    requires c < 33 && k < CELL
    ensures CopyAt(c, k) < CROWDED
    ensures CrowdedByte(CopyAt(c, k)) == if k < ALPHABET then Letter(k) else if c == 0 then 2 else 1
  {
    hide Letter;
    assert (CopyAt(c, k) - FIRST) / CELL == c && (CopyAt(c, k) - FIRST) % CELL == k;
  }

  /** Four bytes of the source. */
  function Four(i: nat): seq<byte>
    requires i + 4 <= CROWDED
  {
    [CrowdedByte(i), CrowdedByte(i + 1), CrowdedByte(i + 2), CrowdedByte(i + 3)]
  }

  lemma FourIs(i: nat)
    requires i + 4 <= CROWDED
    ensures CrowdedSource()[i..i + 4] == Four(i)
  {
    hide CrowdedByte;
  }

  lemma CopyFour(c: nat, k: nat)
    requires c < 33 && k + 4 <= ALPHABET
    ensures CopyAt(c, k) + 4 <= CROWDED && Four(CopyAt(c, k)) == Text(k)
  {
    hide CrowdedByte, Letter;
    CopyByte(c, k);
    CopyByte(c, k + 1);
    CopyByte(c, k + 2);
    CopyByte(c, k + 3);
  }

  /** Piece `k` holds four letters and four zeros. */
  lemma PieceByte(k: nat, t: nat)
    requires k + 4 <= ALPHABET && t < 8
    ensures 8 * k + t < FIRST && CrowdedByte(8 * k + t) == if t < 4 then Letter(k + t) else 0
  {
    hide Letter;
    assert (8 * k + t) / 8 == k && (8 * k + t) % 8 == t;
  }

  lemma PieceFour(k: nat)
    requires k + 4 <= ALPHABET
    ensures Four(8 * k) == Text(k) && Four(8 * k + 4)[0] == 0
  {
    hide CrowdedByte, Letter;
    PieceByte(k, 0);
    PieceByte(k, 1);
    PieceByte(k, 2);
    PieceByte(k, 3);
    PieceByte(k, 4);
  }

  lemma ZeroFour(k: nat)
    requires k + 4 <= ALPHABET
    ensures Four(8 * k + 4) == FOUR_ZEROS
  {
    hide CrowdedByte, Letter;
    PieceByte(k, 4);
    PieceByte(k, 5);
    PieceByte(k, 6);
    PieceByte(k, 7);
  }

  // ---- Earlier occurrences in the first copy -------------------------------------------------------------

  lemma TextsDiffer(k: nat, m: nat)
    requires k < m && m + 4 <= ALPHABET
    ensures Text(k) != Text(m)
  {
    hide Letter;
    var t := LettersDiffer(k, m);
    assert Text(k)[t] == Letter(k + t) && Text(m)[t] == Letter(m + t);
  }

  lemma TextInjective(k: nat, m: nat)
    requires k + 4 <= ALPHABET && m + 4 <= ALPHABET && Text(k) == Text(m)
    ensures k == m
  {
    hide Text;
    if k < m { TextsDiffer(k, m); }
    if m < k { TextsDiffer(m, k); }
  }

  lemma TextNonzero(k: nat, t: nat)
    requires k + 4 <= ALPHABET && t < 4
    ensures Text(k)[t] != 0
  {
    hide Letter;
    LetterNonzero(k + t);
  }

  /** A window among the pieces that does not start one of them has a zero in it. */
  lemma CrookedFour(m: nat, t: nat)
    requires m + 4 <= ALPHABET && 0 < t < 8
    ensures 8 * m + t + 4 <= CROWDED
    ensures Four(8 * m + t)[if t < 4 then 4 - t else 0] == 0
  {
    hide CrowdedByte, Letter;
    PieceByte(m, if t < 4 then 4 else t);
  }

  /** Letter `k` of the first copy has its window nowhere before, but in piece `k`. */
  lemma OnlyPiece(k: nat, q: nat)
    requires k + 4 <= ALPHABET && q < CopyAt(0, k) && Four(q) == Text(k)
    ensures q == 8 * k
  {
    hide Four, Text;
    if q >= FIRST {
      CopyFour(0, q - FIRST);
      TextInjective(k, q - FIRST);
    } else {
      var m, t := q / 8, q % 8;
      assert q == 8 * m + t;
      if t == 0 {
        PieceFour(m);
        TextInjective(k, m);
      } else {
        CrookedFour(m, t);
        TextNonzero(k, if t < 4 then 4 - t else 0);
      }
    }
  }

  // ---- The crowd in between ------------------------------------------------------------------------------

  /** Piece `k` sorts below every copy from letter `k` on. */
  lemma PieceBelow(k: nat, c: nat)
    requires k + 4 <= ALPHABET && c < 33
    ensures SuffixLess(CrowdedSource(), 8 * k, CopyAt(c, k))
  {
    hide Letter, CrowdedByte, Four, Text, CrowdedSource;
    var s := CrowdedSource();
    PieceFour(k);
    CopyFour(c, k);
    FourIs(8 * k);
    FourIs(CopyAt(c, k));
    PieceByte(k, 4);
    CopyByte(c, k + 4);
    if k + 4 < ALPHABET { LetterNonzero(k + 4); }
    assert FirstDifference(s, 8 * k, CopyAt(c, k), 4);
  }

  /** And every other copy below the first, by its separator. */
  lemma CopyBelow(k: nat, c: nat)
    requires k < ALPHABET && 0 < c < 33
    ensures SuffixLess(CrowdedSource(), CopyAt(c, k), CopyAt(0, k))
  {
    hide Letter, CrowdedByte, CrowdedSource;
    var s, l, p, q := CrowdedSource(), ALPHABET - k, CopyAt(c, k), CopyAt(0, k);
    CopyByte(c, ALPHABET);
    CopyByte(0, ALPHABET);
    var a, b := s[p..p + l], s[q..q + l];
    forall t | 0 <= t < l ensures a[t] == b[t] {
      CopyByte(c, k + t);
      CopyByte(0, k + t);
    }
    assert a == b;
    assert FirstDifference(s, p, q, l);
  }

  /** Where a suffix stands in the suffix array. */
  ghost function RankOf(sa: seq<nat>, p: nat): (r: nat)
    requires IsPermutation(sa, |sa|) && p < |sa|
    ensures r < |sa| && sa[r] == p
  {
    DistinctOnto(sa, |sa|, p);
    var r :| 0 <= r < |sa| && sa[r] == p;
    r
  }

  lemma RankOrder(s: seq<byte>, sa: seq<nat>, x: nat, y: nat)
    requires IsSuffixArray(s, sa) && x < |sa| && y < |sa| && sa[x] != sa[y] && SuffixLess(s, sa[x], sa[y])
    ensures x < y
  {
    if y < x { SuffixLessAsymmetric(s, sa[x], sa[y]); }
  }

  /** Between piece `k` and the first copy there are 32 others. */
  lemma PieceIsFar(sa: seq<nat>, x: nat, r: nat, k: nat)
    requires IsSuffixArray(CrowdedSource(), sa) && k + 4 <= ALPHABET && x < |sa| && r < |sa|
    requires sa[x] == 8 * k && sa[r] == CopyAt(0, k)
    ensures x < r - NEIGHBORS
  {
    hide SuffixLess, CrowdedSource;
    var s := CrowdedSource();
    PieceBelow(k, 0);
    RankOrder(s, sa, x, r);
    forall c | 0 < c < 33 ensures CopyAt(c, k) < |sa| && x < RankOf(sa, CopyAt(c, k)) < r {
      CopyByte(c, k);
      PieceBelow(k, c);
      CopyBelow(k, c);
      RankOrder(s, sa, x, RankOf(sa, CopyAt(c, k)));
      RankOrder(s, sa, RankOf(sa, CopyAt(c, k)), r);
    }
    var ranks := seq(32, i requires 0 <= i < 32 => RankOf(sa, CopyAt(i + 1, k)) - x - 1);
    forall u, v | 0 <= u < v < 32 ensures ranks[u] != ranks[v] {
      assert sa[RankOf(sa, CopyAt(u + 1, k))] != sa[RankOf(sa, CopyAt(v + 1, k))];
    }
    Pigeonhole(ranks, Below(r - x - 1));
  }

  /** A repeat at letter `k` of the first copy is piece `k`. */
  lemma RepeatIsPiece(k: nat, len: nat, off: nat)
    requires k + 4 <= ALPHABET && len >= 4 && Repeats(CrowdedSource(), CopyAt(0, k), len, off)
    ensures CopyAt(0, k) - off == 8 * k
  {
    hide CrowdedSource, Four, Text;
    var s, j := CrowdedSource(), CopyAt(0, k);
    var q := j - off;
    assert s[j..j + len][..4] == s[j..j + 4] && s[q..q + len][..4] == s[q..q + 4];
    CopyFour(0, k);
    FourIs(j);
    FourIs(q);
    OnlyPiece(k, q);
  }

  /** No letter of the first copy gets a match. */
  lemma FirstIsBarren(mch: seq<MatchChoice>, k: nat)
    requires LongestChoices(CrowdedSource(), mch) && k + 4 <= ALPHABET
    ensures mch[CopyAt(0, k)].len == 0
  {
    hide SuffixLess, CommonPrefix, CrowdedSource, Repeats;
    var s, j := CrowdedSource(), CopyAt(0, k);
    var sa :| IsSuffixArray(s, sa) && ChosenFrom(s, sa, mch);
    CopyByte(0, k);
    var r := RankOf(sa, j);
    assert GoodChoice(s, sa, sa[r], r, mch[j]);
    if mch[j].len != 0 {
      RepeatIsPiece(k, mch[j].len, mch[j].off);
      var x :| 0 <= x < |sa| && r - NEIGHBORS <= x <= r + NEIGHBORS && sa[x] == j - mch[j].off;
      PieceIsFar(sa, x, r, k);
    }
  }

  // ---- No parse, and a misleading message ------------------------------------------------------------------

  lemma {:induction false} NoParseAcross(mch: seq<MatchChoice>, i: nat, p: seq<Step>)
    requires |mch| == CROWDED && forall k: nat :: k + 4 <= ALPHABET ==> mch[CopyAt(0, k)].len == 0
    requires i < FIRST + MAX_MATCH
    ensures !ValidParse(CROWDED, mch, i, p)
    decreases |p|
  {
    if p != [] && p[0].Match? {
      var Match(lit, ml, off) := p[0];
      var k := i + lit - FIRST;
      assert 0 <= k && k + 4 <= ALPHABET ==> mch[CopyAt(0, k)].len == 0;
      if LegalMatch(CROWDED, mch, i, lit, ml) {
        NoParseAcross(mch, i + lit + ml, p[1..]);
      }
    }
  }

  /** Every stretch has four bytes that occurred before. */
  lemma CrowdedStretchRepeats(i: nat) returns (j: nat, q: nat)
    requires i + MAX_LITERALS < CROWDED
    ensures i <= j <= i + MAX_LITERALS && q < j && j + 4 <= CROWDED
    ensures Four(j) == Four(q)
  {
    hide Four, Text, CrowdedByte;
    if i < 4288 {
      j, q := 8 * (i / 8 + 1) + 4, 4;
      ZeroFour(i / 8 + 1);
      ZeroFour(0);
    } else {
      var p := if i < FIRST then FIRST else i;
      var c, k := (p - FIRST) / CELL, (p - FIRST) % CELL;
      assert p == CopyAt(c, k);
      if k + 4 > ALPHABET { c, k := c + 1, 0; }
      j, q := CopyAt(c, k), 8 * k;
      CopyFour(c, k);
      PieceFour(k);
    }
  }

  /**
   The message can mislead on short sources too: this one is a third of the reach long and cannot be
   packed, although every stretch of over 270 bytes contains four bytes that occurred before. The 33
   copies crowd their earlier occurrences out.
   */
  lemma CrowdingMisleads()
    ensures |CrowdedSource()| <= MAX_OFFSET + 1
    ensures !Packs(CrowdedSource()) && !MessageTrue(CrowdedSource())
  {
    hide CrowdedSource, Four, CommonPrefix, LongestChoices;
    var s := CrowdedSource();
    if Packs(s) {
      var mch: seq<MatchChoice> :| LongestChoices(s, mch) && Packable(|s|, mch);
      var p :| ValidParse(|s|, mch, 0, p);
      ChoicesAgree(s, mch, mch);
      forall k: nat | k + 4 <= ALPHABET ensures mch[CopyAt(0, k)].len == 0 { FirstIsBarren(mch, k); }
      NoParseAcross(mch, 0, p);
      assert false;
    }
    if MessageTrue(s) {
      var i: nat :| NothingRepeated(s, i);
      var j, q := CrowdedStretchRepeats(i);
      FourIs(j);
      FourIs(q);
      SharesFour(s, j, q);
      assert false;
    }
  }
}
