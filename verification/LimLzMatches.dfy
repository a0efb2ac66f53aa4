/**
 Match finding of the LimLZ packer (limine/tools/limlzpack.c): for each position the longest
 earlier occurrence among the 32 neighbours on either side in the suffix array.
 */
module LimLzMatches {
  import opened Bytes
  import opened Counting
  import opened SuffixArray

  const NEIGHBORS: int := 32
  const MAX_OFFSET: int := 65535

  datatype MatchChoice = MatchChoice(len: nat, off: nat)

  /** The bytes at `i` repeat, `len` bytes long, those `off` places before. */
  ghost predicate Repeats(src: seq<byte>, i: nat, len: nat, off: nat) {
    && 1 <= off <= i && i + len <= |src|
    && src[i..i + len] == src[i - off..i - off + len]
  }

  /** The number of leading bytes that suffixes `i` and `j` share. */
  ghost function CommonPrefix(src: seq<byte>, i: nat, j: nat): nat
    decreases |src| - i
  {
    if i < |src| && j < |src| && src[i] == src[j] then 1 + CommonPrefix(src, i + 1, j + 1) else 0
  }

  lemma {:induction false} CommonPrefixIs(src: seq<byte>, i: nat, j: nat, l: nat)
    requires i + l <= |src| && j + l <= |src|
    requires src[i..i + l] == src[j..j + l]
    requires i + l < |src| && j + l < |src| ==> src[i + l] != src[j + l]
    ensures CommonPrefix(src, i, j) == l
    decreases l
  {
    if l > 0 {
      assert src[i] == src[i..i + l][0] && src[j] == src[j..j + l][0];
      assert src[i + 1..i + l] == src[i..i + l][1..] && src[j + 1..j + l] == src[j..j + l][1..];
      CommonPrefixIs(src, i + 1, j + 1, l - 1);
    }
  }

  lemma SliceGrow(s: seq<byte>, i: nat, l: nat)
    requires i + l < |s|
    ensures s[i..i + (l + 1)] == s[i..i + l] + [s[i + l]]
  {
  }

  /** `lcp_bytes` for two positions of the input. */
  method LcpBytes(src: seq<byte>, i: nat, j: nat) returns (l: nat)
    requires i < |src| && j < |src|
    ensures l == CommonPrefix(src, i, j)
    ensures i + l <= |src| && j + l <= |src|
    ensures src[i..i + l] == src[j..j + l]
  {
    var m := |src| - (if i > j then i else j);
    l := 0;
    while l < m && src[i + l] == src[j + l]
      invariant l <= m
      invariant src[i..i + l] == src[j..j + l]
    {
      SliceGrow(src, i, l);
      SliceGrow(src, j, l);
      l := l + 1;
    }
    CommonPrefixIs(src, i, j, l);
  }

  /** Position `j` may serve as the source of a match at `i`. */
  predicate Eligible(i: nat, j: nat) {
    j < i && i - j <= MAX_OFFSET
  }

  /** Position `j` is one of the neighbours looked at. */
  ghost predicate InWindow(sa: seq<nat>, r: nat, j: nat) {
    exists x :: 0 <= x < |sa| && r - NEIGHBORS <= x <= r + NEIGHBORS && sa[x] == j
  }

  /** What `longest_matches` promises of the choice `m` at position `i`, whose rank is `r`. */
  ghost predicate GoodChoice(src: seq<byte>, sa: seq<nat>, i: nat, r: nat, m: MatchChoice) {
    && |sa| == |src|
    && (m.len == 0 ==> m.off == 0)
    && (m.len != 0 ==> m.len >= 4 && m.off <= MAX_OFFSET && Repeats(src, i, m.len, m.off)
                       && m.len == CommonPrefix(src, i, i - m.off) && InWindow(sa, r, i - m.off))
    && (forall x :: 0 <= x < |sa| && r - NEIGHBORS <= x <= r + NEIGHBORS && Eligible(i, sa[x]) ==>
          CommonPrefix(src, i, sa[x]) <= m.len || CommonPrefix(src, i, sa[x]) < 4)
  }

  /** The scan of the suffix-array neighbours of position `i`. */
  method BestNeighbor(src: seq<byte>, sa: seq<nat>, i: nat, r: nat) returns (m: MatchChoice)
    requires IsPermutation(sa, |src|) && i < |src| && r < |sa| && sa[r] == i
    ensures GoodChoice(src, sa, i, r, m)
  {
    hide CommonPrefix;
    var bestLen: nat, bestOff: nat := 0, 0;
    var d := -NEIGHBORS;
    while d <= NEIGHBORS
      invariant -NEIGHBORS <= d <= NEIGHBORS + 1
      invariant bestLen != 0 ==> bestOff <= MAX_OFFSET && Repeats(src, i, bestLen, bestOff)
                                 && bestLen == CommonPrefix(src, i, i - bestOff) && InWindow(sa, r, i - bestOff)
      invariant forall x :: 0 <= x < |sa| && r - NEIGHBORS <= x < r + d && Eligible(i, sa[x]) ==>
        CommonPrefix(src, i, sa[x]) <= bestLen
    {
      var rr := r + d;
      if d != 0 && 0 <= rr < |sa| {
        var j := sa[rr];
        if j < i && i - j <= MAX_OFFSET {
          var l := LcpBytes(src, i, j);
          if l > bestLen {
            assert InWindow(sa, r, j);
            bestLen, bestOff := l, i - j;
          }
        }
      }
      d := d + 1;
    }
    m := if bestLen >= 4 then MatchChoice(bestLen, bestOff) else MatchChoice(0, 0);
  }

  /** Every choice is a true repeat within reach. */
  ghost predicate SoundChoices(src: seq<byte>, mch: seq<MatchChoice>) {
    && |mch| == |src|
    && (forall i :: 0 <= i < |src| && mch[i].len != 0 ==>
          mch[i].len >= 4 && mch[i].off <= MAX_OFFSET && Repeats(src, i, mch[i].len, mch[i].off))
  }

  /** At every position the choice is the best of its suffix-array neighbours. */
  ghost predicate LongestChoices(src: seq<byte>, mch: seq<MatchChoice>) {
    exists sa :: IsSuffixArray(src, sa) && ChosenFrom(src, sa, mch)
  }

  ghost predicate ChosenFrom(src: seq<byte>, sa: seq<nat>, mch: seq<MatchChoice>)
    requires IsSuffixArray(src, sa)
  {
    |mch| == |src| && forall r :: 0 <= r < |src| ==> GoodChoice(src, sa, sa[r], r, mch[sa[r]])
  }

  /** `longest_matches`. */
  method LongestMatches(src: seq<byte>) returns (mch: seq<MatchChoice>, sa: seq<nat>)
    ensures IsSuffixArray(src, sa) && ChosenFrom(src, sa, mch)
    ensures SoundChoices(src, mch)
  {
    hide SuffixLess, CommonPrefix, Repeats;
    var n := |src|;
    var saArr, rank, tmp, inv := new nat[n], new int[n], new int[n], new nat[n];
    Saca(src, saArr, rank, tmp);
    sa := saArr[..];
    for i := 0 to n
      invariant saArr[..] == sa
      invariant forall x :: 0 <= x < i ==> inv[sa[x]] == x
    {
      assert forall x :: 0 <= x < i ==> sa[x] != sa[i];
      inv[saArr[i]] := i;
    }
    mch := [];
    for i := 0 to n
      invariant |mch| == i
      invariant forall x :: 0 <= x < n ==> inv[sa[x]] == x
      invariant forall r :: 0 <= r < n && sa[r] < i ==> GoodChoice(src, sa, sa[r], r, mch[sa[r]])
    {
      DistinctOnto(sa, n, i);
      var m := BestNeighbor(src, sa, i, inv[i]);
      mch := mch + [m];
    }
    forall i | 0 <= i < n && mch[i].len != 0
      ensures mch[i].len >= 4 && mch[i].off <= MAX_OFFSET && Repeats(src, i, mch[i].len, mch[i].off)
    {
      DistinctOnto(sa, n, i);
      var r :| 0 <= r < n && sa[r] == i;
      assert GoodChoice(src, sa, sa[r], r, mch[sa[r]]);
    }
  }

  // ---- What the window of 32 can miss ----------------------------------------------------

  lemma {:induction false} CommonPrefixTies(src: seq<byte>, i: nat, j: nat, l: nat)
    requires l <= CommonPrefix(src, i, j)
    ensures i + l <= |src| || l == 0
    ensures j + l <= |src| || l == 0
    ensures PrefixCmp(src, i, j, l) == 0
    decreases l
  {
    if l > 0 { CommonPrefixTies(src, i + 1, j + 1, l - 1); }
  }

  lemma {:induction false} TiesCommonPrefix(src: seq<byte>, i: nat, j: nat, l: nat)
    requires i + l <= |src|
    requires PrefixCmp(src, i, j, l) == 0
    ensures CommonPrefix(src, i, j) >= l
    decreases l
  {
    if l > 0 { TiesCommonPrefix(src, i + 1, j + 1, l - 1); }
  }

  /** Suffixes that lie between two others share at least what those two share. */
  lemma BetweenSharesPrefix(src: seq<byte>, sa: seq<nat>, x: nat, y: nat, z: nat)
    requires IsSuffixArray(src, sa)
    requires x <= y <= z < |sa|
    ensures CommonPrefix(src, sa[x], sa[z]) <= CommonPrefix(src, sa[x], sa[y]) || x == y
    ensures CommonPrefix(src, sa[x], sa[z]) <= CommonPrefix(src, sa[z], sa[y]) || z == y
  {
    if x < y < z {
      var a, b, c := sa[x], sa[y], sa[z];
      var l := CommonPrefix(src, a, c);
      CommonPrefixTies(src, a, c, l);
      SuffixLessPrefix(src, a, b, l);
      SuffixLessPrefix(src, b, c, l);
      PrefixCmpTransitive(src, a, b, c, l);
      if l > 0 {
        TiesCommonPrefix(src, a, b, l);
        PrefixCmpAntisymmetric(src, b, c, l);
        TiesCommonPrefix(src, c, b, l);
      }
    } else if y == z {
      CommonPrefixSymmetric(src, sa[x], sa[z]);
    } else {
      CommonPrefixSymmetric(src, sa[x], sa[z]);
    }
  }

  lemma {:induction false} CommonPrefixSymmetric(src: seq<byte>, i: nat, j: nat)
    ensures CommonPrefix(src, i, j) == CommonPrefix(src, j, i)
    decreases |src| - i
  {
    if i < |src| && j < |src| && src[i] == src[j] { CommonPrefixSymmetric(src, i + 1, j + 1); }
  }

  /** All 32 nearest neighbours on the side of `x` share what `x` shares, and not one of them is eligible. */
  ghost predicate CrowdedOut(src: seq<byte>, sa: seq<nat>, r: nat, x: nat)
    requires r < |sa| && x < |sa|
  {
    forall y :: (x < r ==> r - NEIGHBORS <= y < r) && (x > r ==> r < y <= r + NEIGHBORS) ==>
      0 <= y < |sa| && !Eligible(sa[r], sa[y])
      && CommonPrefix(src, sa[r], sa[y]) >= CommonPrefix(src, sa[r], sa[x])
  }

  /**
   A longer match is missed only when it is crowded out: if an eligible position `sa[x]` repeats
   more bytes than the choice made at `sa[r]`, then on that side all 32 nearest neighbours also
   share that many bytes and not one of them is eligible.
   */
  lemma MissedMatchIsCrowdedOut(src: seq<byte>, sa: seq<nat>, r: nat, x: nat, m: MatchChoice)
    requires IsSuffixArray(src, sa) && r < |sa| && x < |sa|
    requires GoodChoice(src, sa, sa[r], r, m)
    requires Eligible(sa[r], sa[x])
    requires CommonPrefix(src, sa[r], sa[x]) >= 4 && CommonPrefix(src, sa[r], sa[x]) > m.len
    ensures x < r - NEIGHBORS || x > r + NEIGHBORS
    ensures CrowdedOut(src, sa, r, x)
  {
    forall y | (x < r ==> r - NEIGHBORS <= y < r) && (x > r ==> r < y <= r + NEIGHBORS)
      ensures 0 <= y < |sa| && !Eligible(sa[r], sa[y])
              && CommonPrefix(src, sa[r], sa[y]) >= CommonPrefix(src, sa[r], sa[x])
    {
      if x < r {
        BetweenSharesPrefix(src, sa, x, y, r);
        CommonPrefixSymmetric(src, sa[r], sa[x]);
      } else {
        BetweenSharesPrefix(src, sa, r, y, x);
      }
    }
  }
}
