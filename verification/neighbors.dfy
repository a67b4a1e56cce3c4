/** The circular neighbourhood of a tract: `genNeighborsIndex`. */
module Neighbors {

  /** The neighbourhood radius `generateTracts` fixes for every city. */
  const CityRadius: nat := 3

  /** One wrap-around step on a circle of `n` positions. */
  function Wrap(x: int, n: int): int
  {
    if x < 0 then x + n else if x >= n then x - n else x
  }

  /** Python's `x % n` for `n > 0` is the floor remainder, which for a
      positive divisor coincides with Dafny's Euclidean `%`; within one
      turn of the circle it is a single wrap-around step. */
  lemma ModOnce(x: int, n: int)
    requires 0 < n && -n <= x < 2 * n
    ensures x % n == Wrap(x, n)
  {
    var q := x / n;
    var r := x % n;
    assert x == q * n + r;
  }

  /** Entry `k` of the left half: `d - k` steps counter-clockwise. */
  function LeftNeighbor(i: int, d: nat, n: nat, k: int): nat
    requires 0 < n
  {
    (i - (d - k)) % n
  }

  /** Entry `k` of the right half: `k + 1` steps clockwise. */
  function RightNeighbor(i: int, n: nat, k: int): nat
    requires 0 < n
  {
    (i + (k + 1)) % n
  }

  /** `genNeighborsIndex(i, d, n)`: the `d` tracts left of `i` (farthest
      first) followed by the `d` tracts right of `i` (nearest first). */
  function NeighborsIndex(i: int, d: nat, n: nat): (r: seq<nat>)
    requires 0 < n
    ensures |r| == 2 * d
    ensures forall k :: 0 <= k < |r| ==> r[k] < n
    ensures forall k :: 0 <= k < d ==> r[k] == LeftNeighbor(i, d, n, k)
    ensures forall k :: d <= k < 2 * d ==> r[k] == RightNeighbor(i, n, k - d)
  {
    seq(d, k requires 0 <= k < d => LeftNeighbor(i, d, n, k))
      + seq(d, k requires 0 <= k < d => RightNeighbor(i, n, k))
  }

  /** The distance between two positions on a circle of `n` tracts. */
  function CircularDistance(i: int, j: int, n: nat): nat
    requires 0 < n
  {
    var fwd := (j - i) % n;
    var bwd := (i - j) % n;
    if fwd <= bwd then fwd else bwd
  }

  /** Without `%`: each entry is its offset from `i`, wrapped once. */
  lemma NeighborValues(i: nat, d: nat, n: nat)
    requires i < n && d < n
    ensures forall k :: 0 <= k < d ==> LeftNeighbor(i, d, n, k) == Wrap(i - (d - k), n)
    ensures forall k :: 0 <= k < d ==> RightNeighbor(i, n, k) == Wrap(i + (k + 1), n)
  {
    forall k | 0 <= k < d
      ensures LeftNeighbor(i, d, n, k) == Wrap(i - (d - k), n)
      ensures RightNeighbor(i, n, k) == Wrap(i + (k + 1), n)
    {
      ModOnce(i - (d - k), n);
      ModOnce(i + (k + 1), n);
    }
  }

  /** When the two half-neighbourhoods cannot meet (`2d < n`), the `2d`
      neighbours are pairwise distinct and never the tract itself. */
  lemma NeighborsDistinct(i: nat, d: nat, n: nat)
    requires i < n && 2 * d < n
    ensures var r := NeighborsIndex(i, d, n);
            && (forall a, b :: 0 <= a < b < |r| ==> r[a] != r[b])
            && (forall k :: 0 <= k < |r| ==> r[k] != i)
  {
    var r := NeighborsIndex(i, d, n);
    NeighborValues(i, d, n);
    forall a, b | 0 <= a < b < |r|
      ensures r[a] != r[b]
    {
      if b < d {
        assert r[a] == Wrap(i - (d - a), n) && r[b] == Wrap(i - (d - b), n);
      } else if a < d {
        assert r[a] == Wrap(i - (d - a), n) && r[b] == Wrap(i + (b - d + 1), n);
      } else {
        assert r[a] == Wrap(i + (a - d + 1), n) && r[b] == Wrap(i + (b - d + 1), n);
      }
    }
    forall k | 0 <= k < |r|
      ensures r[k] != i
    {
      if k < d {
        assert r[k] == Wrap(i - (d - k), n);
      } else {
        assert r[k] == Wrap(i + (k - d + 1), n);
      }
    }
  }

  /** A tract is a neighbour of `i` exactly when it is a different tract
      at circular distance at most `d`. */
  lemma NeighborsWithinRadius(i: nat, d: nat, n: nat, j: nat)
    requires i < n && j < n && 2 * d < n
    ensures j in NeighborsIndex(i, d, n) <==> j != i && CircularDistance(i, j, n) <= d
  {
    if j in NeighborsIndex(i, d, n) {
      NeighborIsNear(i, d, n, j);
    }
    if j != i && CircularDistance(i, j, n) <= d {
      NearIsNeighbor(i, d, n, j);
    }
  }

  lemma NeighborIsNear(i: nat, d: nat, n: nat, j: nat)
    requires i < n && j < n && 2 * d < n
    requires j in NeighborsIndex(i, d, n)
    ensures j != i && CircularDistance(i, j, n) <= d
  {
    var r := NeighborsIndex(i, d, n);
    var k :| 0 <= k < |r| && r[k] == j;
    if k < d {
      LeftIsNear(i, d, n, k);
    } else {
      RightIsNear(i, d, n, k - d);
    }
  }

  /** The `k`-th tract left of `i` lies `d - k` steps away. */
  lemma LeftIsNear(i: nat, d: nat, n: nat, k: nat)
    requires i < n && 2 * d < n && k < d
    ensures LeftNeighbor(i, d, n, k) != i && CircularDistance(i, LeftNeighbor(i, d, n, k), n) <= d
  {
    var j := LeftNeighbor(i, d, n, k);
    ModOnce(i - (d - k), n);
    ModOnce(j - i, n);
    ModOnce(i - j, n);
    assert (i - j) % n == d - k;
  }

  /** The `k`-th tract right of `i` lies `k + 1` steps away. */
  lemma RightIsNear(i: nat, d: nat, n: nat, k: nat)
    requires i < n && 2 * d < n && k < d
    ensures RightNeighbor(i, n, k) != i && CircularDistance(i, RightNeighbor(i, n, k), n) <= d
  {
    var j := RightNeighbor(i, n, k);
    ModOnce(i + (k + 1), n);
    ModOnce(j - i, n);
    ModOnce(i - j, n);
    assert (j - i) % n == k + 1;
  }

  lemma NearIsNeighbor(i: nat, d: nat, n: nat, j: nat)
    requires i < n && j < n && 2 * d < n
    requires j != i && CircularDistance(i, j, n) <= d
    ensures j in NeighborsIndex(i, d, n)
  {
    var r := NeighborsIndex(i, d, n);
    NeighborValues(i, d, n);
    ModOnce(j - i, n);
    ModOnce(i - j, n);
    if (i - j) % n <= (j - i) % n {
      var m := (i - j) % n;
      assert r[d - m] == Wrap(i - m, n) == j;
    } else {
      var m := (j - i) % n;
      assert r[d + m - 1] == Wrap(i + m, n) == j;
    }
  }
}
