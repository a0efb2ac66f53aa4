/** Finite counting: the pigeonhole facts the array and chain arguments need. */
module Counting {

  /** The naturals below `n`. */
  ghost function Below(n: nat): (r: set<nat>)
    ensures |r| == n
    ensures forall x: nat :: x in r <==> x < n
  {
    if n == 0 then {} else Below(n - 1) + {n - 1}
  }

  ghost predicate Distinct<T>(a: seq<T>) {
    forall x, y :: 0 <= x < y < |a| ==> a[x] != a[y]
  }

  /** The elements of a sequence. */
  ghost function Elements<T>(a: seq<T>): set<T> {
    set x | x in a
  }

  lemma SubsetSize<T>(a: set<T>, b: set<T>)
    requires a <= b
    ensures |a| <= |b|
  {
    assert b == a + (b - a);
  }

  lemma {:induction false} DistinctSize<T>(a: seq<T>)
    requires Distinct(a)
    ensures |Elements(a)| == |a|
  {
    if |a| > 0 {
      var m := |a| - 1;
      DistinctSize(a[..m]);
      assert a == a[..m] + [a[m]];
      assert Elements(a) == Elements(a[..m]) + {a[m]};
    }
  }

  /** Pigeonhole: distinct values from a set are no more numerous than the set. */
  lemma Pigeonhole<T>(a: seq<T>, pool: set<T>)
    requires Distinct(a)
    requires forall x :: 0 <= x < |a| ==> a[x] in pool
    ensures |a| <= |pool|
  {
    DistinctSize(a);
    SubsetSize(Elements(a), pool);
  }

  /** `n` distinct naturals below `n` are all the naturals below `n`. */
  lemma DistinctOnto(a: seq<nat>, n: nat, v: nat)
    requires Distinct(a) && |a| == n && v < n
    requires forall x :: 0 <= x < n ==> a[x] < n
    ensures v in a
  {
    if v !in a {
      Pigeonhole(a, Below(n) - {v});
    }
  }

  /** A finite set of naturals misses some positive one. */
  lemma FreshExists(s: set<nat>)
    ensures exists p: nat :: p > 0 && p !in s
  {
    if forall p: nat :: p > 0 ==> p in s {
      SubsetSize(Below(|s| + 2) - {0}, s);
    }
  }
}
