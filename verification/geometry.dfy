/**
 * Window geometry of the host-side reference 2D pooling.
 *
 * A pooling descriptor carries a mode, the window lengths, the strides and
 * the pads. The reference reads the strides as the pair (u, v) but steps
 * output ROWS by v and output COLUMNS by u; the geometry below keeps that.
 */
module PoolingGeometry {

  datatype Mode = PoolingMax | PoolingAverage

  datatype PoolingDescriptor = PoolingDescriptor(
    mode: Mode,
    windowH: int, windowW: int,
    u: int, v: int,
    padH: int, padW: int)
  {
    /** Descriptor invariant: non-empty window, positive strides, no negative pad. */
    predicate Valid() {
      windowH >= 1 && windowW >= 1 && u >= 1 && v >= 1 && padH >= 0 && padW >= 0
    }
  }

  function Min(a: int, b: int): int { if a <= b then a else b }

  function Max(a: int, b: int): int { if a <= b then b else a }

  /** First input row of the window of output row i (rows step by v). */
  function StartX(d: PoolingDescriptor, i: int): int { i * d.v - d.padH }

  /** First input column of the window of output column j (columns step by u). */
  function StartY(d: PoolingDescriptor, j: int): int { j * d.u - d.padW }

  /** Far row end of the window, clipped to the padded extent only. */
  function HEnd(d: PoolingDescriptor, inH: int, i: int): int {
    Min(StartX(d, i) + d.windowH, inH + d.padH)
  }

  /** Far column end of the window, clipped to the padded extent only. */
  function WEnd(d: PoolingDescriptor, inW: int, j: int): int {
    Min(StartY(d, j) + d.windowW, inW + d.padW)
  }

  /**
   * The average-mode divisor of output cell (i, j). The near end is not
   * clipped, so padding cells on either side are counted.
   */
  function PoolSize(d: PoolingDescriptor, inH: int, inW: int, i: int, j: int): int {
    (HEnd(d, inH, i) - StartX(d, i)) * (WEnd(d, inW, j) - StartY(d, j))
  }

  predicate InBounds(h: int, w: int, inH: int, inW: int) {
    0 <= h < inH && 0 <= w < inW
  }

  /** Input cell (h, w) lies in the (unclipped) window of output cell (i, j). */
  predicate Covers(d: PoolingDescriptor, i: int, j: int, h: int, w: int) {
    StartX(d, i) <= h < StartX(d, i) + d.windowH &&
    StartY(d, j) <= w < StartY(d, j) + d.windowW
  }

  /**
   * Every window of an outH x outW output starts inside the padded extent.
   * This is what a consistent output shape guarantees.
   */
  predicate WindowsStartInside(d: PoolingDescriptor, inH: int, inW: int, outH: int, outW: int) {
    (forall i :: 0 <= i < outH ==> StartX(d, i) < inH + d.padH) &&
    (forall j :: 0 <= j < outW ==> StartY(d, j) < inW + d.padW)
  }

  /**
   * The in-plane part [lo, hi) of the window span [start, start + len) on an
   * axis of n cells; its length is the in-bounds factor of InBoundsCount.
   */
  function ClippedSpan(start: int, len: int, n: nat): (r: (int, int))
    ensures 0 <= r.0 <= r.1 <= n
    ensures r.1 - r.0 == Max(Min(start + len, n) - Max(start, 0), 0)
  {
    var lo := Min(Max(start, 0), n);
    (lo, Max(Min(start + len, n), lo))
  }

  /** Number of window cells of output cell (i, j) that are real input cells. */
  function InBoundsCount(d: PoolingDescriptor, inH: int, inW: int, i: int, j: int): int {
    Max(Min(StartX(d, i) + d.windowH, inH) - Max(StartX(d, i), 0), 0) *
    Max(Min(StartY(d, j) + d.windowW, inW) - Max(StartY(d, j), 0), 0)
  }

  lemma MulBounds(a: int, b: int, ha: int, hb: int)
    requires 1 <= a <= ha && 1 <= b <= hb
    ensures 1 <= a * b <= ha * hb
  {
    assert a * b <= ha * b;
    assert ha * b <= ha * hb;
  }

  lemma MulMono(a: int, b: int, ha: int, hb: int)
    requires 0 <= a <= ha && 0 <= b <= hb
    ensures 0 <= a * b <= ha * hb
  {
    assert a * b <= ha * b;
    assert ha * b <= ha * hb;
  }

  /**
   * The divisor never exceeds the window area, and is at least 1 when the
   * window starts inside the padded extent; so the divisions of both
   * passes never divide by zero.
   */
  lemma PoolSizeBounds(d: PoolingDescriptor, inH: int, inW: int, i: int, j: int)
    requires d.windowH >= 1 && d.windowW >= 1
    requires StartX(d, i) < inH + d.padH && StartY(d, j) < inW + d.padW
    ensures 1 <= PoolSize(d, inH, inW, i, j) <= d.windowH * d.windowW
  {
    MulBounds(HEnd(d, inH, i) - StartX(d, i), WEnd(d, inW, j) - StartY(d, j), d.windowH, d.windowW);
  }

  /**
   * The divisor counts padding: it is never below the number of real input
   * cells in the window, and equals it when there is no padding.
   */
  lemma PoolSizeCountsPadding(d: PoolingDescriptor, inH: int, inW: int, i: int, j: int)
    requires d.Valid()
    requires 0 <= i && 0 <= j
    requires StartX(d, i) < inH + d.padH && StartY(d, j) < inW + d.padW
    ensures 0 <= InBoundsCount(d, inH, inW, i, j) <= PoolSize(d, inH, inW, i, j)
    ensures d.padH == 0 && d.padW == 0 ==> InBoundsCount(d, inH, inW, i, j) == PoolSize(d, inH, inW, i, j)
  {
    var rows := Max(Min(StartX(d, i) + d.windowH, inH) - Max(StartX(d, i), 0), 0);
    var cols := Max(Min(StartY(d, j) + d.windowW, inW) - Max(StartY(d, j), 0), 0);
    var ph := HEnd(d, inH, i) - StartX(d, i);
    var pw := WEnd(d, inW, j) - StartY(d, j);
    assert i * d.v >= 0 && j * d.u >= 0;
    MulMono(rows, cols, ph, pw);
  }
}
