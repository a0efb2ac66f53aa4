/** Byte addresses of fixed-size blocks, and slices at them. */
module Blocks {

  lemma DivMod(x: nat, d: nat)
    requires d > 0
    ensures x == x / d * d + x % d
    ensures 0 <= x % d < d
    ensures x / d * d <= x
  {
  }

  lemma ProductMonotone(a: nat, b: nat, d: nat)
    requires a <= b
    ensures a * d <= b * d
  {
    assert b * d == a * d + (b - a) * d;
  }

  lemma Distribute(a: nat, b: nat, d: nat)
    ensures (a + b) * d == a * d + b * d
  {
  }

  /** `n` whole pieces of size `d` fit into what has a quotient of at least `n`. */
  lemma QuotientFits(total: nat, d: nat, n: nat)
    requires d > 0 && n <= total / d
    ensures n * d <= total
  {
    DivMod(total, d);
    ProductMonotone(n, total / d, d);
  }

  lemma QuotientAtLeast(total: nat, d: nat, q: nat)
    requires d > 0 && total >= q * d
    ensures total / d >= q
  {
    DivMod(total, d);
    WholePieces(total / d, total % d, d, q);
  }

  lemma WholePieces(x: nat, r: nat, d: nat, q: nat)
    requires r < d && x * d + r >= q * d
    ensures x >= q
  {
    Distribute(x, 1, d);
    if x + 1 <= q { ProductMonotone(x + 1, q, d); }
  }

  /** The address of a block: its number times the block size. */
  function BlockStart(block: nat, size: nat): nat {
    if block == 0 then 0 else BlockStart(block - 1, size) + size
  }

  lemma {:induction false} BlockStartIsProduct(block: nat, size: nat)
    ensures BlockStart(block, size) == block * size
    decreases block
  {
    if block > 0 {
      BlockStartIsProduct(block - 1, size);
      assert block * size == (block - 1) * size + size;
    }
  }

  /** Every address lies in exactly the block its quotient names. */
  lemma Locate(x: nat, size: nat)
    requires size > 0
    ensures x == BlockStart(x / size, size) + x % size
    ensures x % size < size
  {
    DivMod(x, size);
    BlockStartIsProduct(x / size, size);
  }

  lemma {:induction false} BlockStartMonotone(a: nat, b: nat, size: nat)
    requires a <= b
    ensures BlockStart(a, size) <= BlockStart(b, size)
    ensures a < b ==> BlockStart(a, size) + size <= BlockStart(b, size)
    decreases b
  {
    if a < b { BlockStartMonotone(a, b - 1, size); }
  }

  lemma {:induction false} BlockStartAtLeast(a: nat, size: nat)
    requires size >= 512
    ensures BlockStart(a, size) >= 512 * a
    decreases a
  {
    if a > 0 { BlockStartAtLeast(a - 1, size); }
  }

  lemma SliceJoin<T>(s: seq<T>, loc: nat, a: nat, b: nat)
    requires loc + a + b <= |s|
    ensures s[loc..loc + a] + s[loc + a..loc + a + b] == s[loc..loc + (a + b)]
  {
  }

  lemma SliceOfSlice<T>(s: seq<T>, a: nat, n: nat, b: nat, m: nat)
    requires a + n <= |s| && b + m <= n
    ensures s[a..a + n][b..b + m] == s[a + b..a + b + m]
  {
    var t, u, v := s[a..a + n], s[a..a + n][b..b + m], s[a + b..a + b + m];
    forall k | 0 <= k < m ensures u[k] == v[k] {
      assert u[k] == t[b + k] == s[a + (b + k)];
    }
  }

  lemma {:induction false} BlockStartAdds(a: nat, b: nat, size: nat)
    ensures BlockStart(a + b, size) == BlockStart(a, size) + BlockStart(b, size)
    decreases b
  {
    if b > 0 { BlockStartAdds(a, b - 1, size); }
  }

  /** Blocks of `k` units of `size` bytes are blocks of `k * size` bytes. */
  lemma {:induction false} BlockStartNests(block: nat, k: nat, size: nat)
    ensures BlockStart(block * k, size) == BlockStart(block, k * size)
    decreases block
  {
    if block > 0 {
      BlockStartNests(block - 1, k, size);
      assert block * k == (block - 1) * k + k;
      BlockStartAdds((block - 1) * k, k, size);
      BlockStartIsProduct(k, size);
    }
  }

  /** An aligned size is the start of the block after the last. */
  lemma AlignedEnd(n: nat, size: nat)
    requires size > 0 && n % size == 0
    ensures n == BlockStart(n / size, size)
  {
    Locate(n, size);
  }
}
