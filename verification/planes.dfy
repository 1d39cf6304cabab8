/**
 * Planes: one (n, c) slice of a 4-D tensor as a pure value, rows of
 * columns, with the row-major sums used by the gradient properties.
 */
module Planes {

  type Plane = seq<seq<real>>

  /** p has `rows` rows of `cols` columns each. */
  predicate IsPlane<T>(p: seq<seq<T>>, rows: int, cols: int) {
    |p| == rows && forall h :: 0 <= h < |p| ==> |p[h]| == cols
  }

  /** The (n, c) plane of a row-major 4-D tensor. */
  function PlaneOf<T>(a: array4<T>, n: int, c: int): (p: seq<seq<T>>)
    reads a
    requires 0 <= n < a.Length0 && 0 <= c < a.Length1
    ensures IsPlane(p, a.Length2, a.Length3)
    ensures forall h, w :: 0 <= h < a.Length2 && 0 <= w < a.Length3 ==> p[h][w] == a[n, c, h, w]
  {
    seq(a.Length2, (h: int) requires 0 <= h < a.Length2 reads a =>
      seq(a.Length3, (w: int) requires 0 <= w < a.Length3 reads a => a[n, c, h, w]))
  }

  /** Two planes of the same shape with the same cells are equal. */
  lemma {:induction false} PlaneExt<T>(p: seq<seq<T>>, q: seq<seq<T>>, rows: int, cols: int)
    requires IsPlane(p, rows, cols) && IsPlane(q, rows, cols)
    requires forall h, w :: 0 <= h < rows && 0 <= w < cols ==> p[h][w] == q[h][w]
    ensures p == q
  {
    forall h | 0 <= h < rows ensures p[h] == q[h] {
      assert forall w :: 0 <= w < cols ==> p[h][w] == q[h][w];
    }
  }

  /** Plane (n, c) of a holds exactly the cells of g. */
  ghost predicate HoldsPlane(a: array4<real>, n: int, c: int, g: Plane)
    reads a
  {
    0 <= n < a.Length0 && 0 <= c < a.Length1 && IsPlane(g, a.Length2, a.Length3) &&
    forall h, w :: 0 <= h < a.Length2 && 0 <= w < a.Length3 ==> a[n, c, h, w] == g[h][w]
  }

  function Zeros(rows: nat, cols: nat): (p: Plane)
    ensures IsPlane(p, rows, cols)
    ensures forall h, w :: 0 <= h < rows && 0 <= w < cols ==> p[h][w] == 0.0
  {
    seq(rows, _ => seq(cols, _ => 0.0))
  }

  /** The plane with v added to cell (h, w): the `+=` of the backward pass. */
  function AddAt(p: Plane, h: int, w: int, v: real): (q: Plane)
    requires 0 <= h < |p| && 0 <= w < |p[h]|
    ensures |q| == |p| && forall k :: 0 <= k < |p| ==> |q[k]| == |p[k]|
    ensures q[h][w] == p[h][w] + v
    ensures forall k, l :: 0 <= k < |p| && 0 <= l < |p[k]| && (k, l) != (h, w) ==> q[k][l] == p[k][l]
  {
    p[h := p[h][w := p[h][w] + v]]
  }

  /** Row-major position (k, l) comes before position (i, j). */
  predicate Before(k: int, l: int, i: int, j: int) {
    k < i || (k == i && l < j)
  }

  /** A row-major position of p, or the one-past-the-end position (|p|, 0). */
  predicate Position<T>(p: seq<seq<T>>, i: int, j: int) {
    0 <= i <= |p| && 0 <= j && (i < |p| ==> j <= |p[i]|) && (i == |p| ==> j == 0)
  }

  /** Sum of the cells of p that come before (i, j) in row-major order. */
  function PrefixSum(p: Plane, i: int, j: int): real
    requires Position(p, i, j)
    decreases i, j
  {
    if j == 0 then (if i == 0 then 0.0 else PrefixSum(p, i - 1, |p[i - 1]|))
    else PrefixSum(p, i, j - 1) + p[i][j - 1]
  }

  function Sum(p: Plane): real {
    PrefixSum(p, |p|, 0)
  }

  lemma {:induction false} PrefixSumAddAt(p: Plane, h: int, w: int, v: real, i: int, j: int)
    requires 0 <= h < |p| && 0 <= w < |p[h]|
    requires Position(p, i, j)
    ensures Position(AddAt(p, h, w, v), i, j)
    ensures PrefixSum(AddAt(p, h, w, v), i, j) == PrefixSum(p, i, j) + (if Before(h, w, i, j) then v else 0.0)
    decreases i, j
  {
    var q := AddAt(p, h, w, v);
    if j == 0 {
      if i > 0 {
        PrefixSumAddAt(p, h, w, v, i - 1, |p[i - 1]|);
      }
    } else {
      PrefixSumAddAt(p, h, w, v, i, j - 1);
    }
  }

  /** Adding v to one cell adds exactly v to the plane's sum. */
  lemma SumAddAt(p: Plane, h: int, w: int, v: real)
    requires 0 <= h < |p| && 0 <= w < |p[h]|
    ensures Sum(AddAt(p, h, w, v)) == Sum(p) + v
  {
    PrefixSumAddAt(p, h, w, v, |p|, 0);
  }

  lemma {:induction false} PrefixSumZeros(rows: nat, cols: nat, i: int, j: int)
    requires Position(Zeros(rows, cols), i, j)
    ensures PrefixSum(Zeros(rows, cols), i, j) == 0.0
    decreases i, j
  {
    var z := Zeros(rows, cols);
    if j == 0 {
      if i > 0 {
        PrefixSumZeros(rows, cols, i - 1, |z[i - 1]|);
      }
    } else {
      PrefixSumZeros(rows, cols, i, j - 1);
    }
  }

  /** Prefix sums add cellwise: if r is p + q cell by cell, so are their prefix sums. */
  lemma {:induction false} PrefixSumAdd(p: Plane, q: Plane, r: Plane, rows: int, cols: int, i: int, j: int)
    requires IsPlane(p, rows, cols) && IsPlane(q, rows, cols) && IsPlane(r, rows, cols)
    requires forall h, w :: 0 <= h < rows && 0 <= w < cols ==> r[h][w] == p[h][w] + q[h][w]
    requires Position(r, i, j)
    ensures Position(p, i, j) && Position(q, i, j)
    ensures PrefixSum(r, i, j) == PrefixSum(p, i, j) + PrefixSum(q, i, j)
    decreases i, j
  {
    if j == 0 {
      if i > 0 {
        assert |r[i - 1]| == cols;
        PrefixSumAdd(p, q, r, rows, cols, i - 1, cols);
      }
    } else {
      PrefixSumAdd(p, q, r, rows, cols, i, j - 1);
    }
  }

  /** The sum of a cellwise sum of two planes is the sum of their sums. */
  lemma SumAdd(p: Plane, q: Plane, r: Plane, rows: int, cols: int)
    requires IsPlane(p, rows, cols) && IsPlane(q, rows, cols) && IsPlane(r, rows, cols)
    requires forall h, w :: 0 <= h < rows && 0 <= w < cols ==> r[h][w] == p[h][w] + q[h][w]
    ensures Sum(r) == Sum(p) + Sum(q)
  {
    PrefixSumAdd(p, q, r, rows, cols, rows, 0);
  }

  function Clamp(x: int, lo: int, hi: int): (r: int)
    requires lo <= hi
    ensures lo <= r <= hi
  {
    if x < lo then lo else if hi < x then hi else x
  }

  /** Number of cells of the rectangle [rlo, rhi) x [clo, chi) before (i, j) in row-major order, rows of `cols` cells. */
  function RectCountBefore(rlo: int, rhi: int, clo: int, chi: int, cols: nat, i: nat, j: nat): int
    decreases i, j
  {
    if j == 0 then (if i == 0 then 0 else RectCountBefore(rlo, rhi, clo, chi, cols, i - 1, cols))
    else RectCountBefore(rlo, rhi, clo, chi, cols, i, j - 1) + (if rlo <= i < rhi && clo <= j - 1 < chi then 1 else 0)
  }

  /** The count in closed form: whole rectangle rows above row i, then the rectangle cells of row i before column j. */
  lemma {:induction false} RectCountClosed(rlo: int, rhi: int, clo: int, chi: int, cols: nat, i: nat, j: nat)
    requires 0 <= rlo <= rhi && 0 <= clo <= chi <= cols && j <= cols
    ensures RectCountBefore(rlo, rhi, clo, chi, cols, i, j) ==
            (Clamp(i, rlo, rhi) - rlo) * (chi - clo) + (if rlo <= i < rhi then Clamp(j, clo, chi) - clo else 0)
    decreases i, j
  {
    var k := chi - clo;
    if j == 0 {
      if i > 0 {
        RectCountClosed(rlo, rhi, clo, chi, cols, i - 1, cols);
        var a := Clamp(i - 1, rlo, rhi) - rlo;
        if rlo <= i - 1 < rhi {
          assert Clamp(i, rlo, rhi) - rlo == a + 1;
          assert (a + 1) * k == a * k + k;
        } else {
          assert Clamp(i, rlo, rhi) == Clamp(i - 1, rlo, rhi);
        }
      }
    } else {
      RectCountClosed(rlo, rhi, clo, chi, cols, i, j - 1);
    }
  }

  lemma {:induction false} PrefixSumRect(p: Plane, rows: int, cols: int, rlo: int, rhi: int, clo: int, chi: int, s: real, i: nat, j: nat)
    requires IsPlane(p, rows, cols) && 0 <= rlo <= rhi <= rows && 0 <= clo <= chi <= cols
    requires forall h, w :: 0 <= h < rows && 0 <= w < cols ==> p[h][w] == if rlo <= h < rhi && clo <= w < chi then s else 0.0
    requires Position(p, i, j)
    ensures PrefixSum(p, i, j) == s * RectCountBefore(rlo, rhi, clo, chi, cols, i, j) as real
    decreases i, j
  {
    if j == 0 {
      if i > 0 {
        assert |p[i - 1]| == cols;
        PrefixSumRect(p, rows, cols, rlo, rhi, clo, chi, s, i - 1, cols);
      }
    } else {
      PrefixSumRect(p, rows, cols, rlo, rhi, clo, chi, s, i, j - 1);
      var before := RectCountBefore(rlo, rhi, clo, chi, cols, i, j - 1);
      if rlo <= i < rhi && clo <= j - 1 < chi {
        assert s * (before + 1) as real == s * before as real + s;
      }
    }
  }

  /**
   * A plane holding s on the rectangle [rlo, rhi) x [clo, chi) and 0
   * elsewhere sums to s times the area of the rectangle.
   */
  lemma SumRect(p: Plane, rows: int, cols: int, rlo: int, rhi: int, clo: int, chi: int, s: real)
    requires IsPlane(p, rows, cols) && 0 <= rlo <= rhi <= rows && 0 <= clo <= chi <= cols
    requires forall h, w :: 0 <= h < rows && 0 <= w < cols ==> p[h][w] == if rlo <= h < rhi && clo <= w < chi then s else 0.0
    ensures Sum(p) == s * ((rhi - rlo) * (chi - clo)) as real
  {
    PrefixSumRect(p, rows, cols, rlo, rhi, clo, chi, s, rows, 0);
    RectCountClosed(rlo, rhi, clo, chi, cols, rows, 0);
  }
}
