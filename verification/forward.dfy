/**
 * Forward reference pooling: for every output cell, fold the mode operator
 * over the in-bounds cells of its window and finalise with the divisor.
 */
module ForwardPooling {
  import opened PoolingGeometry
  import opened PoolingOperators
  import opened Planes

  /**
   * The accumulator after the window cells (x', y') that come before (x, y)
   * in row-major order, for a window with origin (sx, sy) and width ww.
   * Cells outside the input plane are skipped.
   */
  function WindowAcc(m: Mode, p: Plane, inH: int, inW: int, sx: int, sy: int, ww: nat, x: nat, y: nat): real
    requires IsPlane(p, inH, inW) && y <= ww
    decreases x, y
  {
    if y == 0 then
      (if x == 0 then Start(m) else WindowAcc(m, p, inH, inW, sx, sy, ww, x - 1, ww))
    else
      var acc := WindowAcc(m, p, inH, inW, sx, sy, ww, x, y - 1);
      var inX, inY := sx + x, sy + y - 1;
      if InBounds(inX, inY, inH, inW) then Combine(m, acc, p[inX][inY]) else acc
  }

  /** The value the reference writes to output cell (i, j) of plane p. */
  function PoolValue(d: PoolingDescriptor, p: Plane, inH: int, inW: int, i: int, j: int): real
    requires d.Valid() && IsPlane(p, inH, inW)
    requires StartX(d, i) < inH + d.padH && StartY(d, j) < inW + d.padW
  {
    PoolSizeBounds(d, inH, inW, i, j);
    Final(d.mode,
          WindowAcc(d.mode, p, inH, inW, StartX(d, i), StartY(d, j), d.windowW, d.windowH, 0),
          PoolSize(d, inH, inW, i, j) as real)
  }

  /** Cell (h, w) is one of the window cells before (x, y) in row-major order. */
  predicate InWindowPrefix(sx: int, sy: int, ww: int, x: int, y: int, h: int, w: int) {
    sx <= h && sy <= w < sy + ww && Before(h - sx, w - sy, x, y)
  }

  /**
   * In max mode the accumulator is the maximum of Lowest and the in-bounds
   * cells folded so far: it bounds them all, and it is either Lowest or one
   * of them.
   */
  lemma {:induction false} MaxWindowAcc(p: Plane, inH: int, inW: int, sx: int, sy: int, ww: nat, x: nat, y: nat)
    requires IsPlane(p, inH, inW) && y <= ww
    ensures Lowest <= WindowAcc(PoolingMax, p, inH, inW, sx, sy, ww, x, y)
    ensures forall h, w :: InBounds(h, w, inH, inW) && InWindowPrefix(sx, sy, ww, x, y, h, w) ==>
              p[h][w] <= WindowAcc(PoolingMax, p, inH, inW, sx, sy, ww, x, y)
    ensures WindowAcc(PoolingMax, p, inH, inW, sx, sy, ww, x, y) == Lowest ||
            exists h, w :: InBounds(h, w, inH, inW) && InWindowPrefix(sx, sy, ww, x, y, h, w) &&
              p[h][w] == WindowAcc(PoolingMax, p, inH, inW, sx, sy, ww, x, y)
    decreases x, y
  {
    if y == 0 {
      if x > 0 {
        MaxWindowAcc(p, inH, inW, sx, sy, ww, x - 1, ww);
        forall h, w | InWindowPrefix(sx, sy, ww, x, 0, h, w)
          ensures InWindowPrefix(sx, sy, ww, x - 1, ww, h, w)
        {
        }
      }
    } else {
      MaxWindowAcc(p, inH, inW, sx, sy, ww, x, y - 1);
      var r := WindowAcc(PoolingMax, p, inH, inW, sx, sy, ww, x, y);
      var inX, inY := sx + x, sy + y - 1;
      if InBounds(inX, inY, inH, inW) {
        assert InWindowPrefix(sx, sy, ww, x, y, inX, inY);
        if r != Lowest && r == p[inX][inY] {
          assert InBounds(inX, inY, inH, inW) && InWindowPrefix(sx, sy, ww, x, y, inX, inY) && p[inX][inY] == r;
        }
      }
    }
  }

  /** Sum of row h of p over the columns [lo, hi); empty when hi <= lo. */
  function RowSum(p: Plane, h: int, lo: int, hi: int): real
    requires 0 <= h < |p| && 0 <= lo && hi <= |p[h]|
    decreases hi - lo
  {
    if hi <= lo then 0.0 else RowSum(p, h, lo, hi - 1) + p[h][hi - 1]
  }

  /** Sum of p over the rectangle [rlo, rhi) x [clo, chi). */
  function RectSum(p: Plane, cols: int, rlo: int, rhi: int, clo: int, chi: int): real
    requires IsPlane(p, |p|, cols)
    requires 0 <= rlo && rhi <= |p| && 0 <= clo && chi <= cols
    decreases rhi - rlo
  {
    if rhi <= rlo then 0.0 else RectSum(p, cols, rlo, rhi - 1, clo, chi) + RowSum(p, rhi - 1, clo, chi)
  }

  /** Within one window row, the average accumulator grows by the clipped row sum. */
  lemma {:induction false} AverageRowAcc(p: Plane, inH: int, inW: int, sx: int, sy: int, ww: nat, x: nat, y: nat)
    requires IsPlane(p, inH, inW) && y <= ww
    ensures WindowAcc(PoolingAverage, p, inH, inW, sx, sy, ww, x, y) ==
            WindowAcc(PoolingAverage, p, inH, inW, sx, sy, ww, x, 0) +
            (if 0 <= sx + x < inH then RowSum(p, sx + x, Max(sy, 0), Min(sy + y, inW)) else 0.0)
    decreases y
  {
    if y > 0 {
      AverageRowAcc(p, inH, inW, sx, sy, ww, x, y - 1);
    }
  }

  /**
   * The average accumulator over whole window rows is the sum of the input
   * over the window clipped to the plane: padding cells add nothing.
   */
  lemma {:induction false} AverageWindowAcc(p: Plane, inH: int, inW: int, sx: int, sy: int, ww: nat, x: nat)
    requires IsPlane(p, inH, inW)
    ensures WindowAcc(PoolingAverage, p, inH, inW, sx, sy, ww, x, 0) ==
            RectSum(p, inW, Max(sx, 0), Min(sx + x, inH), Max(sy, 0), Min(sy + ww, inW))
    decreases x
  {
    if x > 0 {
      AverageWindowAcc(p, inH, inW, sx, sy, ww, x - 1);
      AverageRowAcc(p, inH, inW, sx, sy, ww, x - 1, ww);
    }
  }

  /**
   * Max mode: each output is the maximum of the in-bounds window cells,
   * and Lowest when the window holds no input cell.
   */
  lemma MaxPoolIsWindowMax(d: PoolingDescriptor, p: Plane, inH: int, inW: int, i: int, j: int)
    requires d.Valid() && d.mode == PoolingMax && IsPlane(p, inH, inW)
    requires StartX(d, i) < inH + d.padH && StartY(d, j) < inW + d.padW
    ensures Lowest <= PoolValue(d, p, inH, inW, i, j)
    ensures forall h, w :: InBounds(h, w, inH, inW) && Covers(d, i, j, h, w) ==> p[h][w] <= PoolValue(d, p, inH, inW, i, j)
    ensures PoolValue(d, p, inH, inW, i, j) == Lowest ||
            exists h, w :: InBounds(h, w, inH, inW) && Covers(d, i, j, h, w) && p[h][w] == PoolValue(d, p, inH, inW, i, j)
    ensures (forall h, w :: InBounds(h, w, inH, inW) ==> !Covers(d, i, j, h, w)) ==> PoolValue(d, p, inH, inW, i, j) == Lowest
  {
    var sx, sy := StartX(d, i), StartY(d, j);
    MaxWindowAcc(p, inH, inW, sx, sy, d.windowW, d.windowH, 0);
    forall h, w ensures InWindowPrefix(sx, sy, d.windowW, d.windowH, 0, h, w) == Covers(d, i, j, h, w) {
    }
  }

  /**
   * Average mode: each output is the sum of the in-bounds window cells
   * divided by the padding-inclusive divisor.
   */
  lemma AveragePoolIsClippedMean(d: PoolingDescriptor, p: Plane, inH: int, inW: int, i: int, j: int)
    requires d.Valid() && d.mode == PoolingAverage && IsPlane(p, inH, inW)
    requires StartX(d, i) < inH + d.padH && StartY(d, j) < inW + d.padW
    ensures PoolSize(d, inH, inW, i, j) >= 1
    ensures PoolValue(d, p, inH, inW, i, j) ==
            RectSum(p, inW, Max(StartX(d, i), 0), Min(StartX(d, i) + d.windowH, inH),
                            Max(StartY(d, j), 0), Min(StartY(d, j) + d.windowW, inW))
            / PoolSize(d, inH, inW, i, j) as real
  {
    PoolSizeBounds(d, inH, inW, i, j);
    AverageWindowAcc(p, inH, inW, StartX(d, i), StartY(d, j), d.windowW, d.windowH);
  }

  /** The `ford(window_h, window_w)` fold of one output cell. */
  method AccumulateWindow(input: array4<real>, n: int, c: int, d: PoolingDescriptor, startX: int, startY: int)
    returns (acc: real)
    requires 0 <= n < input.Length0 && 0 <= c < input.Length1
    requires d.Valid()
    ensures acc == WindowAcc(d.mode, PlaneOf(input, n, c), input.Length2, input.Length3, startX, startY, d.windowW, d.windowH, 0)
  {
    ghost var p := PlaneOf(input, n, c);
    var inH, inW := input.Length2, input.Length3;
    acc := Start(d.mode);
    for x := 0 to d.windowH
      invariant acc == WindowAcc(d.mode, p, inH, inW, startX, startY, d.windowW, x, 0)
    {
      for y := 0 to d.windowW
        invariant acc == WindowAcc(d.mode, p, inH, inW, startX, startY, d.windowW, x, y)
      {
        var inX := startX + x;
        var inY := startY + y;
        if inX >= 0 && inX < inH && inY >= 0 && inY < inW {
          acc := Combine(d.mode, acc, input[n, c, inX, inY]);
        }
      }
    }
  }

  /**
   * The reference forward pass. The output shape comes from the descriptor
   * and is taken as outH x outW; every window must start inside the padded
   * extent. Every output cell of plane (n, c) is PoolValue of the input's
   * plane (n, c) alone.
   */
  method Forward(input: array4<real>, d: PoolingDescriptor, outH: nat, outW: nat) returns (out: array4<real>)
    requires d.Valid()
    requires WindowsStartInside(d, input.Length2, input.Length3, outH, outW)
    ensures fresh(out)
    ensures out.Length0 == input.Length0 && out.Length1 == input.Length1
    ensures out.Length2 == outH && out.Length3 == outW
    ensures forall n, c, i, j :: 0 <= n < out.Length0 && 0 <= c < out.Length1 && 0 <= i < outH && 0 <= j < outW ==>
              out[n, c, i, j] == PoolValue(d, PlaneOf(input, n, c), input.Length2, input.Length3, i, j)
  {
    var inN, inC, inH, inW := input.Length0, input.Length1, input.Length2, input.Length3;
    out := new real[inN, inC, outH, outW];
    for n := 0 to inN
      invariant forall n', c', i', j' :: 0 <= n' < n && 0 <= c' < inC && 0 <= i' < outH && 0 <= j' < outW ==>
                  out[n', c', i', j'] == PoolValue(d, PlaneOf(input, n', c'), inH, inW, i', j')
    {
      for c := 0 to inC
        invariant forall n', c', i', j' :: 0 <= n' < n && 0 <= c' < inC && 0 <= i' < outH && 0 <= j' < outW ==>
                    out[n', c', i', j'] == PoolValue(d, PlaneOf(input, n', c'), inH, inW, i', j')
        invariant forall c', i', j' :: 0 <= c' < c && 0 <= i' < outH && 0 <= j' < outW ==>
                    out[n, c', i', j'] == PoolValue(d, PlaneOf(input, n, c'), inH, inW, i', j')
      {
        ghost var p := PlaneOf(input, n, c);
        for i := 0 to outH
          invariant forall n', c', i', j' :: 0 <= n' < n && 0 <= c' < inC && 0 <= i' < outH && 0 <= j' < outW ==>
                      out[n', c', i', j'] == PoolValue(d, PlaneOf(input, n', c'), inH, inW, i', j')
          invariant forall c', i', j' :: 0 <= c' < c && 0 <= i' < outH && 0 <= j' < outW ==>
                      out[n, c', i', j'] == PoolValue(d, PlaneOf(input, n, c'), inH, inW, i', j')
          invariant forall i', j' :: 0 <= i' < i && 0 <= j' < outW ==>
                      out[n, c, i', j'] == PoolValue(d, p, inH, inW, i', j')
        {
          for j := 0 to outW
            invariant forall n', c', i', j' :: 0 <= n' < n && 0 <= c' < inC && 0 <= i' < outH && 0 <= j' < outW ==>
                        out[n', c', i', j'] == PoolValue(d, PlaneOf(input, n', c'), inH, inW, i', j')
            invariant forall c', i', j' :: 0 <= c' < c && 0 <= i' < outH && 0 <= j' < outW ==>
                        out[n, c', i', j'] == PoolValue(d, PlaneOf(input, n, c'), inH, inW, i', j')
            invariant forall i', j' :: 0 <= i' < i && 0 <= j' < outW ==>
                        out[n, c, i', j'] == PoolValue(d, p, inH, inW, i', j')
            invariant forall j' :: 0 <= j' < j ==> out[n, c, i, j'] == PoolValue(d, p, inH, inW, i, j')
          {
            var startX := i * d.v - d.padH;
            var startY := j * d.u - d.padW;
            var hend := Min(startX + d.windowH, inH + d.padH);
            var wend := Min(startY + d.windowW, inW + d.padW);
            var poolSize := (hend - startX) * (wend - startY);
            assert poolSize == PoolSize(d, inH, inW, i, j);
            PoolSizeBounds(d, inH, inW, i, j);
            var acc := AccumulateWindow(input, n, c, d, startX, startY);
            out[n, c, i, j] := Final(d.mode, acc, poolSize as real);
          }
        }
      }
    }
  }
}
