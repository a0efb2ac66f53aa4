/**
 When the LimLZ packer gives up (limine/tools/limlzpack.c): which sources it cannot pack, what is
 true of the stretch it complains of, and where the wording of its message goes wrong.
 */
module LimLzFailure {
  import opened Bytes
  import opened Counting
  import opened SuffixArray
  import opened LimLzMatches
  import opened LimLzFormat
  import opened LimLzParse

  // ---- Failure is a property of the source -------------------------------------------------------------

  /** The matches found for the source leave it a parse. */
  ghost predicate Packs(src: seq<byte>) {
    exists mch :: LongestChoices(src, mch) && Packable(|src|, mch)
  }

  /** Two choices from the same neighbours have the same length. */
  lemma SameLength(src: seq<byte>, sa: seq<nat>, i: nat, r: nat, a: MatchChoice, b: MatchChoice)
    requires GoodChoice(src, sa, i, r, a) && GoodChoice(src, sa, i, r, b)
    ensures a.len <= b.len
  {
    hide CommonPrefix;
    if a.len > 0 {
      var x :| 0 <= x < |sa| && r - NEIGHBORS <= x <= r + NEIGHBORS && sa[x] == i - a.off;
      assert Eligible(i, sa[x]);
    }
  }

  /** Every run of the match finder on a source ends with matches of the same lengths. */
  lemma ChoicesAgree(src: seq<byte>, a: seq<MatchChoice>, b: seq<MatchChoice>)
    requires LongestChoices(src, a) && LongestChoices(src, b)
    ensures |a| == |b| == |src| && forall i :: 0 <= i < |src| ==> a[i].len == b[i].len
  {
    hide GoodChoice, SuffixLess;
    var sa :| IsSuffixArray(src, sa) && ChosenFrom(src, sa, a);
    var sb :| IsSuffixArray(src, sb) && ChosenFrom(src, sb, b);
    SuffixArrayUnique(src, sa, sb, |src|);
    assert sa[..|src|] == sa && sb[..|src|] == sb;
    forall i | 0 <= i < |src| ensures a[i].len == b[i].len {
      DistinctOnto(sa, |src|, i);
      var r :| 0 <= r < |src| && sa[r] == i;
      assert GoodChoice(src, sa, sa[r], r, a[sa[r]]) && GoodChoice(src, sa, sa[r], r, b[sa[r]]);
      SameLength(src, sa, i, r, a[i], b[i]);
      SameLength(src, sa, i, r, b[i], a[i]);
    }
  }

  /** A parse over some matches is, with other offsets, a parse over any of the same lengths. */
  lemma {:induction false} Reparse(n: nat, a: seq<MatchChoice>, b: seq<MatchChoice>, i: nat, p: seq<Step>) returns (q: seq<Step>)
    requires |a| == |b| == n && forall j :: 0 <= j < n ==> a[j].len == b[j].len
    requires ValidParse(n, a, i, p)
    ensures ValidParse(n, b, i, q)
    decreases |p|
  {
    if p == [] || p[0].Literals? {
      q := p;
    } else {
      var Match(lit, ml, off) := p[0];
      var rest := Reparse(n, a, b, i + lit + ml, p[1..]);
      q := [Match(lit, ml, b[i + lit].off)] + rest;
      assert q[1..] == rest;
    }
  }

  /** Whatever run of the match finder one looks at decides whether the source can be packed. */
  lemma PacksIffPackable(src: seq<byte>, mch: seq<MatchChoice>)
    requires LongestChoices(src, mch)
    ensures Packs(src) <==> Packable(|src|, mch)
  {
    if Packs(src) {
      var other :| LongestChoices(src, other) && Packable(|src|, other);
      ChoicesAgree(src, other, mch);
      var p :| ValidParse(|src|, other, 0, p);
      var q := Reparse(|src|, other, mch, 0, p);
    }
  }

  // ---- What is true of a failure -------------------------------------------------------------------------

  /** Every position in a stretch of 271 is without a match. */
  ghost predicate BarrenStretch(n: nat, mch: seq<MatchChoice>, i: nat) {
    && |mch| == n && i + MAX_LITERALS < n
    && (forall j :: i <= j <= i + MAX_LITERALS ==> mch[j].len < 4)
  }

  lemma {:induction false} ParseUnlessBarren(src: seq<byte>, mch: seq<MatchChoice>, i: nat) returns (p: seq<Step>)
    requires SoundChoices(src, mch) && i <= |src|
    requires forall t: nat :: !BarrenStretch(|src|, mch, t)
    ensures ValidParse(|src|, mch, i, p)
    decreases |src| - i
  {
    var n := |src|;
    if i == n {
      p := [];
    } else if n - i <= MAX_LITERALS {
      p := [Literals(n - i)];
    } else {
      assert !BarrenStretch(n, mch, i);
      var j :| i <= j <= i + MAX_LITERALS && mch[j].len >= 4;
      assert Repeats(src, j, mch[j].len, mch[j].off);
      var q := ParseUnlessBarren(src, mch, j + 4);
      p := [Match(j - i, 4, mch[j].off)] + q;
      assert p[1..] == q;
    }
  }

  /** Choices taken from the neighbours are true repeats. */
  lemma ChosenAreSound(src: seq<byte>, mch: seq<MatchChoice>)
    requires LongestChoices(src, mch)
    ensures SoundChoices(src, mch)
  {
    hide SuffixLess, CommonPrefix, Repeats, InWindow;
    var sa :| IsSuffixArray(src, sa) && ChosenFrom(src, sa, mch);
    forall i | 0 <= i < |src| && mch[i].len != 0
      ensures mch[i].len >= 4 && mch[i].off <= MAX_OFFSET && Repeats(src, i, mch[i].len, mch[i].off)
    {
      DistinctOnto(sa, |src|, i);
      var r :| 0 <= r < |src| && sa[r] == i;
      assert GoodChoice(src, sa, sa[r], r, mch[sa[r]]);
    }
  }

  /** Every earlier occurrence of four bytes or more at rank `r` is out of reach, or crowded out. */
  ghost predicate Unusable(src: seq<byte>, sa: seq<nat>, r: nat)
    requires r < |sa|
  {
    forall x :: 0 <= x < |sa| && sa[x] < sa[r] && CommonPrefix(src, sa[r], sa[x]) >= 4 ==>
      sa[r] - sa[x] > MAX_OFFSET || CrowdedOut(src, sa, r, x)
  }

  /** In the 271 positions from `i` on, no earlier occurrence of four bytes is usable. */
  ghost predicate NothingUsable(src: seq<byte>, sa: seq<nat>, i: nat) {
    && i + MAX_LITERALS < |src|
    && (forall r :: 0 <= r < |sa| && i <= sa[r] <= i + MAX_LITERALS ==> Unusable(src, sa, r))
  }

  /** The source has a stretch where nothing is usable. */
  ghost predicate GivesUp(src: seq<byte>) {
    exists sa, i: nat :: IsSuffixArray(src, sa) && NothingUsable(src, sa, i)
  }

  /**
   What a failure means: over 270 positions in a row where each earlier occurrence of the next four
   bytes is more than 65535 back, or has 32 others between it and the position in suffix order that
   are themselves out of reach.
   */
  lemma FailureHasBarrenStretch(src: seq<byte>, mch: seq<MatchChoice>)
    requires LongestChoices(src, mch) && !Packable(|src|, mch)
    ensures GivesUp(src)
  {
    hide SuffixLess, CommonPrefix, GoodChoice, CrowdedOut;
    ChosenAreSound(src, mch);
    var sa :| IsSuffixArray(src, sa) && ChosenFrom(src, sa, mch);
    if forall t: nat :: !BarrenStretch(|src|, mch, t) {
      var p := ParseUnlessBarren(src, mch, 0);
      assert false;
    }
    var i: nat :| BarrenStretch(|src|, mch, i);
    forall r | 0 <= r < |sa| && i <= sa[r] <= i + MAX_LITERALS ensures Unusable(src, sa, r) {
      assert GoodChoice(src, sa, sa[r], r, mch[sa[r]]);
      UnmatchedIsUnusable(src, sa, r, mch[sa[r]]);
    }
    assert NothingUsable(src, sa, i);
  }

  lemma UnmatchedIsUnusable(src: seq<byte>, sa: seq<nat>, r: nat, m: MatchChoice)
    requires IsSuffixArray(src, sa) && r < |sa| && GoodChoice(src, sa, sa[r], r, m) && m.len < 4
    ensures Unusable(src, sa, r)
  {
    hide CommonPrefix, CrowdedOut, SuffixLess;
    forall x | 0 <= x < |sa| && sa[x] < sa[r] && CommonPrefix(src, sa[r], sa[x]) >= 4 && sa[r] - sa[x] <= MAX_OFFSET
      ensures CrowdedOut(src, sa, r, x)
    {
      MissedMatchIsCrowdedOut(src, sa, r, x, m);
    }
  }

  // ---- When the message is true ----------------------------------------------------------------------------

  /** A stretch of over 270 bytes contains no 4-byte sequence that has occurred before. */
  ghost predicate MessageTrue(src: seq<byte>) {
    exists i: nat :: NothingRepeated(src, i)
  }

  ghost predicate NothingRepeated(src: seq<byte>, i: nat) {
    && i + MAX_LITERALS < |src|
    && (forall j, q: nat :: i <= j <= i + MAX_LITERALS && q < j ==> CommonPrefix(src, j, q) < 4)
  }

  /** Where the four bytes at `j` occur. */
  ghost function Occurrences(src: seq<byte>, j: nat): set<nat> {
    set p: nat | p < |src| && CommonPrefix(src, j, p) >= 4
  }

  /** Crowding out takes 34 occurrences of the same four bytes. */
  lemma CrowdIsLarge(src: seq<byte>, sa: seq<nat>, r: nat, x: nat)
    requires IsPermutation(sa, |src|) && r < |sa| && x < |sa| && x != r
    requires Eligible(sa[r], sa[x]) && CommonPrefix(src, sa[r], sa[x]) >= 4 && CrowdedOut(src, sa, r, x)
    requires CommonPrefix(src, sa[r], sa[r]) >= 4
    ensures |Occurrences(src, sa[r])| >= 34
  {
    hide CommonPrefix;
    var base := if x < r then r - NEIGHBORS else r + 1;
    forall y | base <= y < base + NEIGHBORS
      ensures 0 <= y < |sa| && !Eligible(sa[r], sa[y]) && CommonPrefix(src, sa[r], sa[y]) >= 4
    {
    }
    var all := [sa[r], sa[x]] + sa[base..base + NEIGHBORS];
    forall u, v | 0 <= u < v < |all| ensures all[u] != all[v] {
      if u >= 2 { assert all[u] == sa[base + (u - 2)]; }
      if v >= 2 { assert all[v] == sa[base + (v - 2)]; }
    }
    forall u | 0 <= u < |all| ensures all[u] in Occurrences(src, sa[r]) {
      if u >= 2 { assert all[u] == sa[base + (u - 2)]; }
    }
    Pigeonhole(all, Occurrences(src, sa[r]));
  }

  /** Sharing four bytes is having the same four bytes. */
  lemma SharesFour(src: seq<byte>, j: nat, q: nat)
    ensures CommonPrefix(src, j, q) >= 4 <==>
            j + 4 <= |src| && q + 4 <= |src| && src[j..j + 4] == src[q..q + 4]
  {
    if CommonPrefix(src, j, q) >= 4 { CommonPrefixTies(src, j, q, 4); }
    if j + 4 <= |src| && q + 4 <= |src| {
      PrefixCmpZero(src, j, q, 4);
      if src[j..j + 4] == src[q..q + 4] { TiesCommonPrefix(src, j, q, 4); }
    }
  }

  /**
   The message is true of a failing source within reach whose 4-byte sequences occur at most 33 times
   each. The bound is only sufficient, but being within reach alone is not.
   */
  lemma MessageTrueWithin(src: seq<byte>)
    requires GivesUp(src)
    requires |src| <= MAX_OFFSET + 1
    requires forall j: nat :: j < |src| ==> |Occurrences(src, j)| <= 33
    ensures MessageTrue(src)
  {
    hide CommonPrefix, CrowdedOut, Occurrences, SuffixLess;
    var sa, i: nat :| IsSuffixArray(src, sa) && NothingUsable(src, sa, i);
    forall j, q: nat | i <= j <= i + MAX_LITERALS && q < j ensures CommonPrefix(src, j, q) < 4 {
      if CommonPrefix(src, j, q) >= 4 {
        DistinctOnto(sa, |src|, j);
        DistinctOnto(sa, |src|, q);
        var r :| 0 <= r < |src| && sa[r] == j;
        var x :| 0 <= x < |src| && sa[x] == q;
        assert Unusable(src, sa, r);
        SharesFour(src, j, q);
        SharesFour(src, j, j);
        CrowdIsLarge(src, sa, r, x);
        assert false;
      }
    }
    assert NothingRepeated(src, i);
  }

  // ---- Where the message is wrong --------------------------------------------------------------------------

  const ALPHABET: nat := 540
  /** Where the last part of the misleading source starts. */
  const TAIL: nat := 69832
  const LENGTH: nat := 70372

  /** A text of 540 letters without a repeated 4-byte sequence or a zero: numbered groups of three. */
  function Letter(k: nat): byte
    requires k < ALPHABET
  {
    if k % 3 == 0 then 200 + k / 3 / 50 else if k % 3 == 1 then 1 + k / 3 % 50 else 100
  }

  /** Every four letters of the text in turn, with four zeros behind each; a long row of zeros; the text. */
  function MisleadingByte(i: nat): byte
    requires i < LENGTH
  {
    if i < 4296 then (if i % 8 < 4 then Letter(i / 8 + i % 8) else 0)
    else if i < TAIL then 0
    else Letter(i - TAIL)
  }

  function MisleadingSource(): (s: seq<byte>)
    ensures |s| == LENGTH && forall i :: 0 <= i < LENGTH ==> s[i] == MisleadingByte(i)
  {
    seq(LENGTH, i requires 0 <= i < LENGTH => MisleadingByte(i))
  }

  lemma LetterAt(g: nat, phase: nat)
    requires g < 180 && phase < 3
    ensures Letter(3 * g + phase) == if phase == 0 then 200 + g / 50 else if phase == 1 then 1 + g % 50 else 100
  {
  }

  /** Windows at different phases of their groups: the separators are in different places. */
  lemma PhasesDiffer(g: nat, a: nat, h: nat, b: nat) returns (t: nat)
    requires a < 3 && b < 3 && a != b && 3 * g + a + 3 < ALPHABET && 3 * h + b + 3 < ALPHABET
    ensures t < 4 && Letter(3 * g + a + t) != Letter(3 * h + b + t)
  {
    hide Letter;
    t := 2 - b;
    LetterAt(h, 2);
    if a + t < 3 { LetterAt(g, a + t); } else { LetterAt(g + 1, a + t - 3); }
  }

  /** Windows at the same phase hold the whole number of some group each, and the numbers differ. */
  lemma GroupsDiffer(g: nat, h: nat, a: nat) returns (t: nat)
    requires a < 3 && g < h && 3 * h + a + 3 < ALPHABET
    ensures t < 4 && Letter(3 * g + a + t) != Letter(3 * h + a + t)
  {
    hide Letter;
    var u := if a == 0 then 0 else 3 - a;
    var c := if a == 0 then 0 else 1;
    LetterAt(g + c, 0);
    LetterAt(g + c, 1);
    LetterAt(h + c, 0);
    LetterAt(h + c, 1);
    t := if (g + c) / 50 != (h + c) / 50 then u else u + 1;
  }

  lemma LettersDiffer(j: nat, k: nat) returns (t: nat)
    requires j < k && k + 3 < ALPHABET
    ensures t < 4 && Letter(j + t) != Letter(k + t)
  {
    hide Letter;
    var g, a, h, b := j / 3, j % 3, k / 3, k % 3;
    assert j == 3 * g + a && k == 3 * h + b;
    if a != b { t := PhasesDiffer(g, a, h, b); } else { t := GroupsDiffer(g, h, a); }
  }

  lemma LetterNonzero(k: nat)
    requires k < ALPHABET
    ensures Letter(k) != 0
  {
  }

  /** Four bytes of the source. */
  function Window(i: nat): seq<byte>
    requires i + 4 <= LENGTH
  {
    [MisleadingByte(i), MisleadingByte(i + 1), MisleadingByte(i + 2), MisleadingByte(i + 3)]
  }

  function Text(k: nat): seq<byte>
    requires k + 4 <= ALPHABET
  {
    [Letter(k), Letter(k + 1), Letter(k + 2), Letter(k + 3)]
  }

  const FOUR_ZEROS: seq<byte> := [0, 0, 0, 0]

  lemma WindowIs(i: nat)
    requires i + 4 <= LENGTH
    ensures MisleadingSource()[i..i + 4] == Window(i)
  {
    hide MisleadingByte;
  }

  lemma TailWindow(k: nat)
    requires k + 4 <= ALPHABET
    ensures Window(TAIL + k) == Text(k)
  {
    hide Letter;
  }

  lemma FillWindow(i: nat)
    requires 4296 <= i < TAIL
    ensures Window(i)[0] == 0 && (i + 4 <= TAIL ==> Window(i) == FOUR_ZEROS)
  {
    hide Letter;
  }

  /** Behind each piece of text come four zeros. */
  lemma ZeroWindow(m: nat)
    requires m < 537
    ensures Window(8 * m + 4) == FOUR_ZEROS
  {
    hide Letter;
    assert (8 * m + 4) % 8 == 4 && (8 * m + 5) % 8 == 5 && (8 * m + 6) % 8 == 6 && (8 * m + 7) % 8 == 7;
  }

  /** The text's letters from `k` on come first in piece `k`. */
  lemma PieceWindow(k: nat)
    requires k + 4 <= ALPHABET
    ensures Window(8 * k) == Text(k)
  {
    hide Letter;
    assert (8 * k) / 8 == (8 * k + 1) / 8 == (8 * k + 2) / 8 == (8 * k + 3) / 8 == k;
    assert (8 * k) % 8 == 0 && (8 * k + 1) % 8 == 1 && (8 * k + 2) % 8 == 2 && (8 * k + 3) % 8 == 3;
  }

  /** No match within reach starts in the last part. */
  lemma NoMatchInTail(j: nat, off: nat)
    requires TAIL <= j && j + 4 <= LENGTH && 1 <= off <= MAX_OFFSET
    ensures Window(j) != Window(j - off)
  {
    hide Window, Letter;
    var q := j - off;
    TailWindow(j - TAIL);
    if q >= TAIL {
      TailWindow(q - TAIL);
      var t := LettersDiffer(q - TAIL, j - TAIL);
      assert Text(j - TAIL)[t] == Letter(j - TAIL + t) && Text(q - TAIL)[t] == Letter(q - TAIL + t);
    } else {
      FillWindow(q);
      LetterNonzero(j - TAIL);
      assert Text(j - TAIL)[0] == Letter(j - TAIL);
    }
  }

  lemma TailIsBarren(mch: seq<MatchChoice>, j: nat)
    requires SoundChoices(MisleadingSource(), mch) && TAIL <= j < LENGTH
    ensures mch[j].len == 0
  {
    hide MisleadingSource, Window;
    var s := MisleadingSource();
    if mch[j].len != 0 {
      var off, len := mch[j].off, mch[j].len;
      assert s[j..j + len][..4] == s[j..j + 4] && s[j - off..j - off + len][..4] == s[j - off..j - off + 4];
      WindowIs(j);
      WindowIs(j - off);
      NoMatchInTail(j, off);
    }
  }

  lemma {:induction false} NoParse(mch: seq<MatchChoice>, i: nat, p: seq<Step>)
    requires SoundChoices(MisleadingSource(), mch) && i + MAX_LITERALS < LENGTH
    ensures !ValidParse(LENGTH, mch, i, p)
    decreases |p|
  {
    hide SoundChoices, MisleadingSource;
    if p != [] && p[0].Match? {
      var Match(lit, ml, off) := p[0];
      if LegalMatch(LENGTH, mch, i, lit, ml) {
        if i + lit >= TAIL { TailIsBarren(mch, i + lit); }
        NoParse(mch, i + lit + ml, p[1..]);
      }
    }
  }

  /** Every stretch has four bytes that occurred before. */
  lemma StretchRepeats(i: nat) returns (j: nat, q: nat)
    requires i + MAX_LITERALS < LENGTH
    ensures i <= j <= i + MAX_LITERALS && q < j && j + 4 <= LENGTH
    ensures Window(j) == Window(q)
  {
    hide Window, Text;
    q := 4;
    ZeroWindow(0);
    if i < 4288 {
      j := 8 * (i / 8 + 1) + 4;
      ZeroWindow(i / 8 + 1);
    } else if i + 4 <= TAIL {
      j := if i < 4296 then 4296 else i;
      FillWindow(j);
    } else {
      j := if i < TAIL then TAIL else i;
      q := 8 * (j - TAIL);
      TailWindow(j - TAIL);
      PieceWindow(j - TAIL);
    }
  }

  /**
   The message can mislead: this source cannot be packed, although every stretch of over 270 bytes
   contains four bytes that occurred before. They are more than 65535 bytes back.
   */
  lemma MessageMisleads()
    ensures !Packs(MisleadingSource())
    ensures !MessageTrue(MisleadingSource())
  {
    hide MisleadingSource, Window, CommonPrefix;
    var s := MisleadingSource();
    if Packs(s) {
      var mch :| LongestChoices(s, mch) && Packable(|s|, mch);
      var p :| ValidParse(|s|, mch, 0, p);
      ChosenAreSound(s, mch);
      NoParse(mch, 0, p);
      assert false;
    }
    if MessageTrue(s) {
      var i: nat :| NothingRepeated(s, i);
      var j, q := StretchRepeats(i);
      WindowIs(j);
      WindowIs(q);
      SharesFour(s, j, q);
      assert false;
    }
  }
}
