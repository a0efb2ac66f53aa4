/**
 The suffix array construction of the LimLZ packer (limine/tools/limlzpack.c): prefix doubling
 over ranks, one library sort per round.

 The whole argument rests on one order, `PrefixCmp(s, i, j, k)`: the lexicographic comparison of
 the first `k` bytes of the suffixes starting at `i` and `j`, with the end of the input sorting
 before every byte. A round turns ranks that respect `PrefixCmp` for `k` bytes into ranks that
 respect it for `2 * k` bytes.
 */
module SuffixArray {
  import opened Bytes
  import opened Counting

  /** The byte at index `i`, or -1 at and past the end. */
  function At(s: seq<byte>, i: nat): int {
    if i < |s| then s[i] else -1
  }

  /** -1, 0 or 1: how the first `k` bytes of suffix `i` compare with those of suffix `j`. */
  ghost function PrefixCmp(s: seq<byte>, i: nat, j: nat, k: nat): (r: int)
    ensures -1 <= r <= 1
    decreases k
  {
    if k == 0 then 0
    else if At(s, i) < At(s, j) then -1
    else if At(s, i) > At(s, j) then 1
    else PrefixCmp(s, i + 1, j + 1, k - 1)
  }

  /** Suffix `i` is lexicographically smaller than suffix `j`, in the textbook formulation. */
  ghost predicate SuffixLess(s: seq<byte>, i: nat, j: nat) {
    exists l: nat :: FirstDifference(s, i, j, l)
  }

  /** Suffixes `i` and `j` agree on `l` bytes, and there `i` ends or has the smaller byte. */
  ghost predicate FirstDifference(s: seq<byte>, i: nat, j: nat, l: nat) {
    && i + l <= |s| && j + l < |s|
    && s[i..i + l] == s[j..j + l]
    && At(s, i + l) < At(s, j + l)
  }

  // ---- PrefixCmp as an order -------------------------------------------------------------

  /** Comparing `a + b` bytes is comparing `a` bytes, then, on a tie, the next `b`. */
  lemma {:induction false} PrefixCmpSplit(s: seq<byte>, i: nat, j: nat, a: nat, b: nat)
    ensures PrefixCmp(s, i, j, a + b) ==
            if PrefixCmp(s, i, j, a) != 0 then PrefixCmp(s, i, j, a)
            else PrefixCmp(s, i + a, j + a, b)
    decreases a
  {
    if a != 0 && At(s, i) == At(s, j) {
      PrefixCmpSplit(s, i + 1, j + 1, a - 1, b);
    }
  }

  lemma {:induction false} PrefixCmpAntisymmetric(s: seq<byte>, i: nat, j: nat, k: nat)
    ensures PrefixCmp(s, i, j, k) == -PrefixCmp(s, j, i, k)
    decreases k
  {
    if k != 0 && At(s, i) == At(s, j) {
      PrefixCmpAntisymmetric(s, i + 1, j + 1, k - 1);
    }
  }

  lemma {:induction false} PrefixCmpTransitive(s: seq<byte>, a: nat, b: nat, c: nat, k: nat)
    requires PrefixCmp(s, a, b, k) <= 0 && PrefixCmp(s, b, c, k) <= 0
    ensures PrefixCmp(s, a, c, k) <= 0
    ensures PrefixCmp(s, a, c, k) == 0 ==> PrefixCmp(s, a, b, k) == 0 && PrefixCmp(s, b, c, k) == 0
    decreases k
  {
    if k != 0 && At(s, a) == At(s, b) == At(s, c) {
      PrefixCmpTransitive(s, a + 1, b + 1, c + 1, k - 1);
    }
  }

  /** Once `k` reaches the input size, two different suffixes never tie: one of them ends first. */
  lemma {:induction false} PrefixCmpSeparates(s: seq<byte>, i: nat, j: nat, k: nat)
    requires i != j && i <= |s| && j <= |s| && (i < |s| || j < |s|)
    requires i + k >= |s| && j + k >= |s|
    requires k > 0
    ensures PrefixCmp(s, i, j, k) != 0
    decreases k
  {
    if At(s, i) == At(s, j) {
      PrefixCmpSeparates(s, i + 1, j + 1, k - 1);
    }
  }

  /** A strict `PrefixCmp` at any depth is the textbook order. */
  lemma {:induction false} PrefixCmpIsSuffixLess(s: seq<byte>, i: nat, j: nat, k: nat)
    requires i <= |s| && j <= |s|
    requires PrefixCmp(s, i, j, k) < 0
    ensures SuffixLess(s, i, j)
    decreases k
  {
    if At(s, i) < At(s, j) {
      assert FirstDifference(s, i, j, 0);
    } else {
      if i == |s| || j == |s| {
        PrefixCmpAtEnd(s, i + 1, j + 1, k - 1);
      }
      PrefixCmpIsSuffixLess(s, i + 1, j + 1, k - 1);
      var l: nat :| FirstDifference(s, i + 1, j + 1, l);
      assert s[i..i + (l + 1)] == [s[i]] + s[i + 1..i + 1 + l];
      assert s[j..j + (l + 1)] == [s[j]] + s[j + 1..j + 1 + l];
      assert FirstDifference(s, i, j, l + 1);
    }
  }

  lemma {:induction false} PrefixCmpAtEnd(s: seq<byte>, i: nat, j: nat, k: nat)
    requires i >= |s| && j >= |s|
    ensures PrefixCmp(s, i, j, k) == 0
    decreases k
  {
    if k != 0 { PrefixCmpAtEnd(s, i + 1, j + 1, k - 1); }
  }

  /** A tie on `k` bytes is equality of the bytes themselves, as far as both suffixes reach. */
  lemma {:induction false} PrefixCmpZero(s: seq<byte>, i: nat, j: nat, k: nat)
    requires i + k <= |s| && j + k <= |s|
    ensures PrefixCmp(s, i, j, k) == 0 <==> s[i..i + k] == s[j..j + k]
    decreases k
  {
    if k != 0 {
      assert s[i..i + k] == [s[i]] + s[i + 1..i + 1 + (k - 1)];
      assert s[j..j + k] == [s[j]] + s[j + 1..j + 1 + (k - 1)];
      PrefixCmpZero(s, i + 1, j + 1, k - 1);
    }
  }

  // ---- The comparator --------------------------------------------------------------------

  function RankAt(rank: seq<int>, i: nat): int {
    if i < |rank| then rank[i] else -1
  }

  /** `sa_cmp_idx`: first the ranks, then the ranks `k` places further on. */
  function SaCmpIdx(rank: seq<int>, k: nat, i: nat, j: nat): int {
    if RankAt(rank, i) != RankAt(rank, j) then RankAt(rank, i) - RankAt(rank, j)
    else RankAt(rank, i + k) - RankAt(rank, j + k)
  }

  function Sign(x: int): int {
    if x < 0 then -1 else if x > 0 then 1 else 0
  }

  /** The ranks order all suffixes by their first `k` bytes. */
  ghost predicate RanksOrder(s: seq<byte>, rank: seq<int>, k: nat) {
    && |rank| == |s|
    && (forall i :: 0 <= i < |s| ==> rank[i] >= 0)
    && (forall i, j :: 0 <= i < |s| && 0 <= j < |s| ==> Sign(rank[i] - rank[j]) == PrefixCmp(s, i, j, k))
  }

  lemma RankAtOrders(s: seq<byte>, rank: seq<int>, k: nat, i: nat, j: nat)
    requires RanksOrder(s, rank, k) && k > 0
    ensures Sign(RankAt(rank, i) - RankAt(rank, j)) == PrefixCmp(s, i, j, k)
  {
    if i >= |s| && j >= |s| { PrefixCmpAtEnd(s, i, j, k); }
  }

  /** Prefix doubling: the comparator over `k`-byte ranks decides the order on `2 * k` bytes. */
  lemma SaCmpDoubles(s: seq<byte>, rank: seq<int>, k: nat, i: nat, j: nat)
    requires RanksOrder(s, rank, k) && k > 0
    ensures Sign(SaCmpIdx(rank, k, i, j)) == PrefixCmp(s, i, j, 2 * k)
  {
    RankAtOrders(s, rank, k, i, j);
    RankAtOrders(s, rank, k, i + k, j + k);
    PrefixCmpSplit(s, i, j, k, k);
  }

  // ---- The library sort ------------------------------------------------------------------

  ghost predicate SortedBy(rank: seq<int>, k: nat, a: seq<nat>) {
    forall x, y :: 0 <= x < y < |a| ==> SaCmpIdx(rank, k, a[x], a[y]) <= 0
  }

  /**
   The `qsort` call. Nothing is known of the order of ties: callers see only that the result is
   an ordered rearrangement.
   */
  method QSort(a: array<nat>, rank: seq<int>, k: nat)
    modifies a
    ensures multiset(a[..]) == old(multiset(a[..]))
    ensures SortedBy(rank, k, a[..])
  {
    var n := a.Length;
    var sorted: seq<nat> := [];
    for i := 0 to n
      invariant a[..] == old(a[..])
      invariant |sorted| == i
      invariant multiset(sorted) == multiset(a[..i])
      invariant SortedBy(rank, k, sorted)
    {
      assert a[..i + 1] == a[..i] + [a[i]];
      sorted := Insert(sorted, rank, k, a[i]);
    }
    assert a[..n] == a[..];
    forall i | 0 <= i < n { a[i] := sorted[i]; }
    assert a[..] == sorted;
  }

  method Insert(a: seq<nat>, rank: seq<int>, k: nat, x: nat) returns (r: seq<nat>)
    requires SortedBy(rank, k, a)
    ensures SortedBy(rank, k, r)
    ensures multiset(r) == multiset(a) + multiset{x}
    ensures |r| == |a| + 1
  {
    var p := 0;
    while p < |a| && SaCmpIdx(rank, k, a[p], x) <= 0
      invariant 0 <= p <= |a|
      invariant forall y :: 0 <= y < p ==> SaCmpIdx(rank, k, a[y], x) <= 0
    {
      p := p + 1;
    }
    r := a[..p] + [x] + a[p..];
    assert a == a[..p] + a[p..];
    forall y | p <= y < |a| ensures SaCmpIdx(rank, k, x, a[y]) <= 0 {
      SaCmpTransitive(rank, k, x, a[p], a[y]);
    }
    InsertKeepsOrder(a, rank, k, p, x);
  }

  lemma SaCmpTransitive(rank: seq<int>, k: nat, a: nat, b: nat, c: nat)
    requires SaCmpIdx(rank, k, b, a) > 0
    requires b != c ==> SaCmpIdx(rank, k, b, c) <= 0
    ensures SaCmpIdx(rank, k, a, c) <= 0
  {
  }

  lemma InsertKeepsOrder(a: seq<nat>, rank: seq<int>, k: nat, p: nat, x: nat)
    requires SortedBy(rank, k, a) && p <= |a|
    requires forall y :: 0 <= y < p ==> SaCmpIdx(rank, k, a[y], x) <= 0
    requires forall y :: p <= y < |a| ==> SaCmpIdx(rank, k, x, a[y]) <= 0
    ensures SortedBy(rank, k, a[..p] + [x] + a[p..])
  {
    var r := a[..p] + [x] + a[p..];
    forall u, v | 0 <= u < v < |r| ensures SaCmpIdx(rank, k, r[u], r[v]) <= 0 {
      var u' := if u < p then u else u - 1;
      var v' := if v < p then v else v - 1;
      assert u != p ==> r[u] == a[u'];
      assert v != p ==> r[v] == a[v'];
    }
  }

  // ---- saca ------------------------------------------------------------------------------

  /** `a` lists each of 0 .. n-1 exactly once. */
  ghost predicate IsPermutation(a: seq<nat>, n: nat) {
    && |a| == n
    && (forall x :: 0 <= x < n ==> a[x] < n)
    && Distinct(a)
  }

  lemma PermutationByMultiset(a: seq<nat>, b: seq<nat>, n: nat)
    requires IsPermutation(a, n) && multiset(a) == multiset(b)
    ensures IsPermutation(b, n)
  {
    assert |multiset(a)| == |a| && |multiset(b)| == |b|;
    forall x | 0 <= x < n ensures b[x] < n {
      assert b[x] in multiset(b);
      assert b[x] in multiset(a);
    }
    forall x, y | 0 <= x < y < n ensures b[x] != b[y] {
      if b[x] == b[y] {
        TwiceCounts(b, x, y);
        OnceCounts(a, b[x]);
      }
    }
  }

  lemma TwiceCounts(b: seq<nat>, x: nat, y: nat)
    requires x < y < |b| && b[x] == b[y]
    ensures multiset(b)[b[x]] >= 2
  {
    assert b == b[..x] + [b[x]] + b[x + 1..y] + [b[y]] + b[y + 1..];
  }

  lemma {:induction false} OnceCounts(a: seq<nat>, v: nat)
    requires Distinct(a)
    ensures multiset(a)[v] <= 1
  {
    if |a| > 0 {
      var m := |a| - 1;
      OnceCounts(a[..m], v);
      assert a == a[..m] + [a[m]];
      if a[m] == v {
        assert v !in a[..m];
      }
    }
  }

  /** One round: sort by the comparator, then renumber the classes of equal suffixes. */
  method Round(s: seq<byte>, sa: array<nat>, rank: array<int>, tmp: array<int>, k: nat)
    requires |s| > 0 && k > 0
    requires sa.Length == rank.Length == tmp.Length == |s|
    requires rank != tmp
    requires IsPermutation(sa[..], |s|)
    requires RanksOrder(s, rank[..], k)
    modifies sa, rank, tmp
    ensures IsPermutation(sa[..], |s|)
    ensures RanksOrder(s, rank[..], 2 * k)
    ensures forall x, y :: 0 <= x < y < |s| ==> PrefixCmp(s, sa[x], sa[y], 2 * k) <= 0
    ensures rank[sa[|s| - 1]] == |s| - 1 <==>
            forall x, y :: 0 <= x < y < |s| ==> PrefixCmp(s, sa[x], sa[y], 2 * k) < 0
    ensures rank[sa[|s| - 1]] == |s| - 1 ==> forall x :: 0 <= x < |s| ==> rank[sa[x]] == x
    ensures forall i :: 0 <= i < |s| ==> rank[i] < |s|
  {
    hide PrefixCmp, SaCmpIdx;
    var n := |s|;
    ghost var before := rank[..];
    ghost var unsorted := sa[..];
    QSort(sa, rank[..], k);
    PermutationByMultiset(unsorted, sa[..], n);
    assert rank[..] == before;
    forall x, y | 0 <= x < y < n ensures PrefixCmp(s, sa[..][x], sa[..][y], 2 * k) <= 0 {
      SaCmpDoubles(s, before, k, sa[..][x], sa[..][y]);
    }
    label sorted:
    NewRanks(s, sa, rank, tmp, k);
    label numbered:
    for i := 0 to n
      invariant sa[..] == old@sorted(sa[..]) && tmp[..] == old@numbered(tmp[..])
      invariant rank[..i] == tmp[..i]
    {
      rank[i] := tmp[i];
    }
    assert rank[..] == tmp[..];
    RenumberingOrders(s, sa[..], rank[..], 2 * k);
  }

  /** The class numbers of the sorted suffixes, written to `tmp`. */
  method NewRanks(s: seq<byte>, sa: array<nat>, rank: array<int>, tmp: array<int>, k: nat)
    requires |s| > 0 && k > 0
    requires sa.Length == rank.Length == tmp.Length == |s|
    requires rank != tmp
    requires IsPermutation(sa[..], |s|)
    requires RanksOrder(s, rank[..], k)
    requires forall x, y :: 0 <= x < y < |s| ==> PrefixCmp(s, sa[..][x], sa[..][y], 2 * k) <= 0
    modifies tmp
    ensures sa[..] == old(sa[..])
    ensures Numbered(s, sa[..], tmp[..], 2 * k)
  {
    var n := |s|;
    ghost var order, before := sa[..], rank[..];
    tmp[sa[0]] := 0;
    for i := 1 to n
      invariant sa[..] == order && rank[..] == before
      invariant tmp[order[0]] == 0
      invariant forall x :: 0 < x < i ==>
        tmp[order[x]] == tmp[order[x - 1]] + (if PrefixCmp(s, order[x - 1], order[x], 2 * k) < 0 then 1 else 0)
    {
      SaCmpDoubles(s, before, k, order[i - 1], order[i]);
      assert sa[i - 1] == order[i - 1] && sa[i] == order[i];
      assert forall x :: 0 <= x < i ==> order[x] != order[i];
      tmp[sa[i]] := tmp[sa[i - 1]] + (if SaCmpIdx(rank[..], k, sa[i - 1], sa[i]) < 0 then 1 else 0);
    }
  }

  /** Consecutive ranks step by one exactly at a strict increase. */
  ghost predicate Numbered(s: seq<byte>, order: seq<nat>, rank: seq<int>, k: nat) {
    && |rank| == |s| > 0
    && IsPermutation(order, |s|)
    && rank[order[0]] == 0
    && (forall x, y :: 0 <= x < y < |s| ==> PrefixCmp(s, order[x], order[y], k) <= 0)
    && (forall x :: 0 < x < |s| ==>
          rank[order[x]] == rank[order[x - 1]] + (if PrefixCmp(s, order[x - 1], order[x], k) < 0 then 1 else 0))
  }

  /** Between positions `x <= y` of the order, ranks differ exactly when the prefixes do. */
  lemma {:induction false} NumberedBetween(s: seq<byte>, order: seq<nat>, rank: seq<int>, k: nat, x: nat, y: nat)
    requires Numbered(s, order, rank, k) && x <= y < |s|
    ensures 0 <= rank[order[y]] - rank[order[x]] <= y - x
    ensures rank[order[y]] == rank[order[x]] <==> PrefixCmp(s, order[x], order[y], k) == 0
    ensures rank[order[y]] - rank[order[x]] == y - x <==>
            forall z :: x < z <= y ==> PrefixCmp(s, order[z - 1], order[z], k) < 0
    decreases y
  {
    if x == y {
      PrefixCmpAntisymmetric(s, order[x], order[x], k);
    } else {
      NumberedBetween(s, order, rank, k, x, y - 1);
      if x < y - 1 {
        PrefixCmpTransitive(s, order[x], order[y - 1], order[y], k);
        if PrefixCmp(s, order[x], order[y - 1], k) == 0 && PrefixCmp(s, order[y - 1], order[y], k) == 0 {
          PrefixCmpTiesCompose(s, order[x], order[y - 1], order[y], k);
        }
      } else {
        PrefixCmpAntisymmetric(s, order[x], order[x], k);
      }
    }
  }

  lemma PrefixCmpTiesCompose(s: seq<byte>, a: nat, b: nat, c: nat, k: nat)
    requires PrefixCmp(s, a, b, k) == 0 && PrefixCmp(s, b, c, k) == 0
    ensures PrefixCmp(s, a, c, k) == 0
  {
    PrefixCmpTransitive(s, a, b, c, k);
    PrefixCmpAntisymmetric(s, a, b, k);
    PrefixCmpAntisymmetric(s, b, c, k);
    PrefixCmpTransitive(s, c, b, a, k);
    PrefixCmpAntisymmetric(s, a, c, k);
  }

  /** The renumbered ranks of two suffixes compare as their prefixes do. */
  lemma RenumberedPair(s: seq<byte>, order: seq<nat>, rank: seq<int>, k: nat, i: nat, j: nat)
    requires Numbered(s, order, rank, k) && i < |s| && j < |s|
    ensures 0 <= rank[i] < |s|
    ensures Sign(rank[i] - rank[j]) == PrefixCmp(s, i, j, k)
  {
    hide PrefixCmp;
    DistinctOnto(order, |s|, i);
    DistinctOnto(order, |s|, j);
    var x :| 0 <= x < |s| && order[x] == i;
    var y :| 0 <= y < |s| && order[y] == j;
    NumberedBetween(s, order, rank, k, 0, x);
    PrefixCmpAntisymmetric(s, i, j, k);
    if x <= y {
      NumberedBetween(s, order, rank, k, x, y);
    } else {
      NumberedBetween(s, order, rank, k, y, x);
    }
  }

  /** The highest class number is `n - 1` exactly when no two suffixes tie. */
  lemma RenumberedAllDistinct(s: seq<byte>, order: seq<nat>, rank: seq<int>, k: nat)
    requires Numbered(s, order, rank, k)
    ensures rank[order[|s| - 1]] == |s| - 1 <==>
            forall x, y :: 0 <= x < y < |s| ==> PrefixCmp(s, order[x], order[y], k) < 0
    ensures rank[order[|s| - 1]] == |s| - 1 ==> forall x :: 0 <= x < |s| ==> rank[order[x]] == x
  {
    hide PrefixCmp;
    var n := |s|;
    NumberedBetween(s, order, rank, k, 0, n - 1);
    if rank[order[n - 1]] == n - 1 {
      forall x | 0 <= x < n ensures rank[order[x]] == x {
        NumberedBetween(s, order, rank, k, 0, x);
        NumberedBetween(s, order, rank, k, x, n - 1);
      }
      forall x, y | 0 <= x < y < n ensures PrefixCmp(s, order[x], order[y], k) < 0 {
        NumberedBetween(s, order, rank, k, x, y);
      }
    }
  }

  lemma RenumberingOrders(s: seq<byte>, order: seq<nat>, rank: seq<int>, k: nat)
    requires Numbered(s, order, rank, k)
    ensures RanksOrder(s, rank, k)
    ensures rank[order[|s| - 1]] == |s| - 1 <==>
            forall x, y :: 0 <= x < y < |s| ==> PrefixCmp(s, order[x], order[y], k) < 0
    ensures rank[order[|s| - 1]] == |s| - 1 ==> forall x :: 0 <= x < |s| ==> rank[order[x]] == x
    ensures forall i :: 0 <= i < |s| ==> rank[i] < |s|
  {
    forall i, j | 0 <= i < |s| && 0 <= j < |s|
      ensures 0 <= rank[i] < |s| && Sign(rank[i] - rank[j]) == PrefixCmp(s, i, j, k)
    {
      RenumberedPair(s, order, rank, k, i, j);
    }
    RenumberedAllDistinct(s, order, rank, k);
  }

  /** `sa` is the suffix array of `s`. */
  ghost predicate IsSuffixArray(s: seq<byte>, sa: seq<nat>) {
    && IsPermutation(sa, |s|)
    && (forall x, y :: 0 <= x < y < |s| ==> SuffixLess(s, sa[x], sa[y]))
  }

  /** The order of suffixes has no ties in both directions. */
  lemma SuffixLessAsymmetric(s: seq<byte>, i: nat, j: nat)
    requires i != j && i <= |s| && j <= |s| && SuffixLess(s, i, j)
    ensures !SuffixLess(s, j, i)
  {
    if SuffixLess(s, j, i) {
      var k := |s| + 1;
      SuffixLessPrefix(s, i, j, k);
      SuffixLessPrefix(s, j, i, k);
      PrefixCmpAntisymmetric(s, i, j, k);
      var l: nat :| FirstDifference(s, i, j, l);
      PrefixCmpSeparates(s, i, j, k);
    }
  }

  lemma {:induction false} SuffixLessPrefix(s: seq<byte>, i: nat, j: nat, k: nat)
    requires SuffixLess(s, i, j)
    ensures PrefixCmp(s, i, j, k) <= 0
    decreases k
  {
    var l: nat :| FirstDifference(s, i, j, l);
    if k > 0 {
      if l > 0 {
        assert s[i] == s[i..i + l][0] && s[j] == s[j..j + l][0];
        assert s[i + 1..i + l] == s[i..i + l][1..];
        assert s[j + 1..j + l] == s[j..j + l][1..];
        assert FirstDifference(s, i + 1, j + 1, l - 1);
        SuffixLessPrefix(s, i + 1, j + 1, k - 1);
      }
    }
  }

  /** There is only one suffix array. */
  lemma {:induction false} SuffixArrayUnique(s: seq<byte>, a: seq<nat>, b: seq<nat>, n: nat)
    requires IsSuffixArray(s, a) && IsSuffixArray(s, b) && n <= |s|
    ensures a[..n] == b[..n]
    decreases n
  {
    if n > 0 {
      var m := n - 1;
      SuffixArrayUnique(s, a, b, m);
      if a[m] != b[m] {
        Behind(s, a, b, m);
        Behind(s, b, a, m);
        SuffixLessAsymmetric(s, a[m], b[m]);
      }
      assert a[..n] == a[..m] + [a[m]] && b[..n] == b[..m] + [b[m]];
    }
  }

  /** Where two suffix arrays first differ, each has the other's entry further on. */
  lemma Behind(s: seq<byte>, a: seq<nat>, b: seq<nat>, m: nat)
    requires IsSuffixArray(s, a) && IsSuffixArray(s, b) && m < |s|
    requires a[..m] == b[..m] && a[m] != b[m]
    ensures SuffixLess(s, a[m], b[m])
  {
    DistinctOnto(a, |s|, b[m]);
    var y :| 0 <= y < |s| && a[y] == b[m];
    assert forall z :: 0 <= z < m ==> a[z] == a[..m][z] == b[..m][z] == b[z] != b[m];
  }

  /** `saca`: terminates for every input, with the suffix array and its inverse. */
  method Saca(s: seq<byte>, sa: array<nat>, rank: array<int>, tmp: array<int>)
    requires sa.Length == rank.Length == tmp.Length == |s|
    requires rank != tmp
    modifies sa, rank, tmp
    ensures IsSuffixArray(s, sa[..])
    ensures forall x :: 0 <= x < |s| ==> rank[sa[x]] == x
  {
    var n := |s|;
    if n == 0 { return; }
    for i := 0 to n
      invariant forall x :: 0 <= x < i ==> sa[x] == x
      invariant forall x :: 0 <= x < i ==> rank[x] == s[x]
    {
      sa[i] := i;
      rank[i] := s[i];
    }
    var k := 1;
    assert RanksOrder(s, rank[..], 1) by {
      forall i, j | 0 <= i < n && 0 <= j < n ensures Sign(At(s, i) - At(s, j)) == PrefixCmp(s, i, j, 1) {
        assert PrefixCmp(s, i + 1, j + 1, 0) == 0;
      }
    }
    while true
      invariant k > 0
      invariant IsPermutation(sa[..], n)
      invariant RanksOrder(s, rank[..], k)
      decreases n - k
    {
      Round(s, sa, rank, tmp, k);
      if rank[sa[n - 1]] == n - 1 { break; }
      if 2 * k >= n {
        forall x, y | 0 <= x < y < n ensures PrefixCmp(s, sa[x], sa[y], 2 * k) < 0 {
          PrefixCmpSeparates(s, sa[..][x], sa[..][y], 2 * k);
        }
        assert false;
      }
      k := 2 * k;
    }
    forall x, y | 0 <= x < y < n ensures SuffixLess(s, sa[..][x], sa[..][y]) {
      PrefixCmpIsSuffixLess(s, sa[..][x], sa[..][y], 2 * k);
    }
  }
}
