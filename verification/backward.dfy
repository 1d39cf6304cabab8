/**
 * Backward reference pooling: route each output gradient back to the input
 * plane, through the stored index map in max mode and through the
 * recomputed window and divisor in average mode.
 */
module BackwardPooling {
  import opened PoolingGeometry
  import opened Planes
  import opened MaxIndex

  /** The index map of one plane: every stored offset lies inside the inH x inW input plane. */
  predicate ValidIndices(idxP: seq<seq<Uint16>>, inH: int, inW: int) {
    forall i, j :: 0 <= i < |idxP| && 0 <= j < |idxP[i]| ==> idxP[i][j] < inH * inW
  }

  /** The max-mode index self-check for output cell (i, j): the input at the decoded offset equals the output. */
  predicate SelectsOutput(inP: Plane, outP: Plane, idxP: seq<seq<Uint16>>, inH: int, inW: int, i: int, j: int)
    requires IsPlane(inP, inH, inW) && 0 <= inH
    requires 0 <= i < |outP| && 0 <= j < |outP[i]| && IsPlane(idxP, |outP|, |outP[i]|)
    requires idxP[i][j] < inH * inW
  {
    DecodeInPlane(idxP[i][j], inH, inW);
    inP[DecodeRow(idxP[i][j], inW)][DecodeCol(idxP[i][j], inW)] == outP[i][j]
  }

  /** The self-check holds for every output cell of the plane. */
  predicate MaxSelfCheck(inP: Plane, outP: Plane, idxP: seq<seq<Uint16>>, inH: int, inW: int, outH: int, outW: int)
    requires IsPlane(inP, inH, inW) && 0 <= inH
    requires IsPlane(outP, outH, outW) && IsPlane(idxP, outH, outW) && ValidIndices(idxP, inH, inW)
  {
    forall i, j :: 0 <= i < outH && 0 <= j < outW ==> SelectsOutput(inP, outP, idxP, inH, inW, i, j)
  }

  /** The self-check over the output cells before (i, j) in row-major order. */
  predicate CheckedPrefix(inP: Plane, outP: Plane, idxP: seq<seq<Uint16>>, inH: int, inW: int, outW: int, i: int, j: int)
    requires IsPlane(inP, inH, inW) && 0 <= inH
    requires IsPlane(outP, |outP|, outW) && IsPlane(idxP, |outP|, outW) && ValidIndices(idxP, inH, inW)
    requires Position(outP, i, j)
    decreases i, j
  {
    if j == 0 then
      (i == 0 || (assert |outP[i - 1]| == outW; CheckedPrefix(inP, outP, idxP, inH, inW, outW, i - 1, outW)))
    else
      CheckedPrefix(inP, outP, idxP, inH, inW, outW, i, j - 1) && SelectsOutput(inP, outP, idxP, inH, inW, i, j - 1)
  }

  lemma {:induction false} CheckedPrefixAll(inP: Plane, outP: Plane, idxP: seq<seq<Uint16>>, inH: int, inW: int, outW: int, i: int, j: int)
    requires IsPlane(inP, inH, inW) && 0 <= inH
    requires IsPlane(outP, |outP|, outW) && IsPlane(idxP, |outP|, outW) && ValidIndices(idxP, inH, inW)
    requires Position(outP, i, j)
    ensures CheckedPrefix(inP, outP, idxP, inH, inW, outW, i, j) <==>
            forall i', j' :: 0 <= i' < |outP| && 0 <= j' < outW && Before(i', j', i, j) ==> SelectsOutput(inP, outP, idxP, inH, inW, i', j')
    decreases i, j
  {
    if j == 0 {
      if i > 0 {
        assert |outP[i - 1]| == outW;
        CheckedPrefixAll(inP, outP, idxP, inH, inW, outW, i - 1, outW);
      }
    } else {
      CheckedPrefixAll(inP, outP, idxP, inH, inW, outW, i, j - 1);
    }
  }

  /**
   * Max mode: the gradient plane after the output cells before (i, j) in
   * row-major order have added their gradient at their decoded offset.
   */
  function MaxGradPrefix(doutP: Plane, idxP: seq<seq<Uint16>>, inH: nat, inW: nat, outW: nat, i: int, j: int): (g: Plane)
    requires IsPlane(doutP, |doutP|, outW) && IsPlane(idxP, |doutP|, outW) && ValidIndices(idxP, inH, inW)
    requires Position(doutP, i, j)
    ensures IsPlane(g, inH, inW)
    decreases i, j
  {
    if j == 0 then
      (if i == 0 then Zeros(inH, inW) else assert |doutP[i - 1]| == outW; MaxGradPrefix(doutP, idxP, inH, inW, outW, i - 1, outW))
    else
      var idx := idxP[i][j - 1];
      DecodeInPlane(idx, inH, inW);
      AddAt(MaxGradPrefix(doutP, idxP, inH, inW, outW, i, j - 1), DecodeRow(idx, inW), DecodeCol(idx, inW), doutP[i][j - 1])
  }

  /** Max mode: the input gradient plane. */
  function MaxGrad(doutP: Plane, idxP: seq<seq<Uint16>>, inH: nat, inW: nat, outW: nat): Plane
    requires IsPlane(doutP, |doutP|, outW) && IsPlane(idxP, |doutP|, outW) && ValidIndices(idxP, inH, inW)
  {
    MaxGradPrefix(doutP, idxP, inH, inW, outW, |doutP|, 0)
  }

  /** Sum of the output gradients before (i, j) whose stored offset is `target`. */
  function SelectedSum(doutP: Plane, idxP: seq<seq<Uint16>>, outW: nat, target: int, i: int, j: int): real
    requires IsPlane(doutP, |doutP|, outW) && IsPlane(idxP, |doutP|, outW)
    requires Position(doutP, i, j)
    decreases i, j
  {
    if j == 0 then
      (if i == 0 then 0.0 else assert |doutP[i - 1]| == outW; SelectedSum(doutP, idxP, outW, target, i - 1, outW))
    else
      SelectedSum(doutP, idxP, outW, target, i, j - 1) + (if idxP[i][j - 1] == target then doutP[i][j - 1] else 0.0)
  }

  lemma {:induction false} MaxGradPrefixConserves(doutP: Plane, idxP: seq<seq<Uint16>>, inH: nat, inW: nat, outW: nat, i: int, j: int)
    requires IsPlane(doutP, |doutP|, outW) && IsPlane(idxP, |doutP|, outW) && ValidIndices(idxP, inH, inW)
    requires Position(doutP, i, j)
    ensures Sum(MaxGradPrefix(doutP, idxP, inH, inW, outW, i, j)) == PrefixSum(doutP, i, j)
    decreases i, j
  {
    if j == 0 {
      if i == 0 {
        PrefixSumZeros(inH, inW, inH, 0);
      } else {
        assert |doutP[i - 1]| == outW;
        MaxGradPrefixConserves(doutP, idxP, inH, inW, outW, i - 1, outW);
      }
    } else {
      MaxGradPrefixConserves(doutP, idxP, inH, inW, outW, i, j - 1);
      var idx := idxP[i][j - 1];
      DecodeInPlane(idx, inH, inW);
      SumAddAt(MaxGradPrefix(doutP, idxP, inH, inW, outW, i, j - 1), DecodeRow(idx, inW), DecodeCol(idx, inW), doutP[i][j - 1]);
    }
  }

  /** Max mode conserves gradient: the input gradient plane sums to the output gradient plane's sum. */
  lemma MaxGradConserves(doutP: Plane, idxP: seq<seq<Uint16>>, inH: nat, inW: nat, outW: nat)
    requires IsPlane(doutP, |doutP|, outW) && IsPlane(idxP, |doutP|, outW) && ValidIndices(idxP, inH, inW)
    ensures Sum(MaxGrad(doutP, idxP, inH, inW, outW)) == Sum(doutP)
  {
    MaxGradPrefixConserves(doutP, idxP, inH, inW, outW, |doutP|, 0);
  }

  lemma {:induction false} MaxGradPrefixAt(doutP: Plane, idxP: seq<seq<Uint16>>, inH: nat, inW: nat, outW: nat, i: int, j: int, h: int, w: int)
    requires IsPlane(doutP, |doutP|, outW) && IsPlane(idxP, |doutP|, outW) && ValidIndices(idxP, inH, inW)
    requires Position(doutP, i, j)
    requires 0 <= h < inH && 0 <= w < inW
    ensures MaxGradPrefix(doutP, idxP, inH, inW, outW, i, j)[h][w] == SelectedSum(doutP, idxP, outW, Encode(h, w, inW), i, j)
    decreases i, j
  {
    if j == 0 {
      if i > 0 {
        MaxGradPrefixAt(doutP, idxP, inH, inW, outW, i - 1, outW, h, w);
      }
    } else {
      MaxGradPrefixAt(doutP, idxP, inH, inW, outW, i, j - 1, h, w);
      var idx := idxP[i][j - 1];
      DecodeInPlane(idx, inH, inW);
      DecodeEncode(h, w, inW);
    }
  }

  /**
   * Max mode, cell by cell: input cell (h, w) receives the sum of the
   * output gradients whose stored offset encodes (h, w).
   */
  lemma MaxGradAt(doutP: Plane, idxP: seq<seq<Uint16>>, inH: nat, inW: nat, outW: nat, h: int, w: int)
    requires IsPlane(doutP, |doutP|, outW) && IsPlane(idxP, |doutP|, outW) && ValidIndices(idxP, inH, inW)
    requires 0 <= h < inH && 0 <= w < inW
    ensures MaxGrad(doutP, idxP, inH, inW, outW)[h][w] == SelectedSum(doutP, idxP, outW, Encode(h, w, inW), |doutP|, 0)
  {
    MaxGradPrefixAt(doutP, idxP, inH, inW, outW, |doutP|, 0, h, w);
  }

  lemma {:induction false} SelectedSumNone(doutP: Plane, idxP: seq<seq<Uint16>>, outW: nat, target: int, i: int, j: int)
    requires IsPlane(doutP, |doutP|, outW) && IsPlane(idxP, |doutP|, outW)
    requires Position(doutP, i, j)
    requires forall k, l :: 0 <= k < |idxP| && 0 <= l < outW ==> idxP[k][l] != target
    ensures SelectedSum(doutP, idxP, outW, target, i, j) == 0.0
    decreases i, j
  {
    if j == 0 {
      if i > 0 {
        assert |doutP[i - 1]| == outW;
        SelectedSumNone(doutP, idxP, outW, target, i - 1, outW);
      }
    } else {
      SelectedSumNone(doutP, idxP, outW, target, i, j - 1);
    }
  }

  /** Max mode: an input cell that no stored offset selects keeps gradient 0. */
  lemma MaxGradUnselectedZero(doutP: Plane, idxP: seq<seq<Uint16>>, inH: nat, inW: nat, outW: nat, h: int, w: int)
    requires IsPlane(doutP, |doutP|, outW) && IsPlane(idxP, |doutP|, outW) && ValidIndices(idxP, inH, inW)
    requires 0 <= h < inH && 0 <= w < inW
    requires forall k, l :: 0 <= k < |idxP| && 0 <= l < outW ==> idxP[k][l] != Encode(h, w, inW)
    ensures MaxGrad(doutP, idxP, inH, inW, outW)[h][w] == 0.0
  {
    MaxGradAt(doutP, idxP, inH, inW, outW, h, w);
    SelectedSumNone(doutP, idxP, outW, Encode(h, w, inW), |doutP|, 0);
  }

  /**
   * Average mode: the share `dout / pool_size` of output cell (i, j), with
   * the same divisor as the forward pass.
   */
  function AvgShare(d: PoolingDescriptor, doutP: Plane, inH: int, inW: int, i: int, j: int): (r: real)
    requires d.Valid() && 0 <= i < |doutP| && 0 <= j < |doutP[i]|
    requires StartX(d, i) < inH + d.padH && StartY(d, j) < inW + d.padW
    ensures PoolSize(d, inH, inW, i, j) >= 1
    ensures r * PoolSize(d, inH, inW, i, j) as real == doutP[i][j]
  {
    PoolSizeBounds(d, inH, inW, i, j);
    doutP[i][j] / PoolSize(d, inH, inW, i, j) as real
  }

  /** Average mode: what output cell (i, j) sends to input cell (h, w). */
  function AvgContribution(d: PoolingDescriptor, doutP: Plane, inH: int, inW: int, i: int, j: int, h: int, w: int): real
    requires d.Valid() && 0 <= i < |doutP| && 0 <= j < |doutP[i]|
    requires StartX(d, i) < inH + d.padH && StartY(d, j) < inW + d.padW
  {
    if Covers(d, i, j, h, w) then AvgShare(d, doutP, inH, inW, i, j) else 0.0
  }

  /** Average mode: gradient of input cell (h, w) from the output cells before (i, j). */
  function AvgGradAt(d: PoolingDescriptor, doutP: Plane, inH: int, inW: int, outW: nat, h: int, w: int, i: int, j: int): real
    requires d.Valid() && IsPlane(doutP, |doutP|, outW) && WindowsStartInside(d, inH, inW, |doutP|, outW)
    requires Position(doutP, i, j)
    decreases i, j
  {
    if j == 0 then
      (if i == 0 then 0.0 else assert |doutP[i - 1]| == outW; AvgGradAt(d, doutP, inH, inW, outW, h, w, i - 1, outW))
    else
      AvgGradAt(d, doutP, inH, inW, outW, h, w, i, j - 1) + AvgContribution(d, doutP, inH, inW, i, j - 1, h, w)
  }

  /** Average mode: the input gradient plane. */
  function AvgGrad(d: PoolingDescriptor, doutP: Plane, inH: nat, inW: nat, outW: nat): (g: Plane)
    requires d.Valid() && IsPlane(doutP, |doutP|, outW) && WindowsStartInside(d, inH, inW, |doutP|, outW)
    ensures IsPlane(g, inH, inW)
    ensures forall h, w :: 0 <= h < inH && 0 <= w < inW ==> g[h][w] == AvgGradAt(d, doutP, inH, inW, outW, h, w, |doutP|, 0)
  {
    seq(inH, h => seq(inW, w => AvgGradAt(d, doutP, inH, inW, outW, h, w, |doutP|, 0)))
  }

  lemma {:induction false} AvgGradAtUncovered(d: PoolingDescriptor, doutP: Plane, inH: int, inW: int, outW: nat, h: int, w: int, i: int, j: int)
    requires d.Valid() && IsPlane(doutP, |doutP|, outW) && WindowsStartInside(d, inH, inW, |doutP|, outW)
    requires Position(doutP, i, j)
    requires forall k, l :: 0 <= k < |doutP| && 0 <= l < outW ==> !Covers(d, k, l, h, w)
    ensures AvgGradAt(d, doutP, inH, inW, outW, h, w, i, j) == 0.0
    decreases i, j
  {
    if j == 0 {
      if i > 0 {
        assert |doutP[i - 1]| == outW;
        AvgGradAtUncovered(d, doutP, inH, inW, outW, h, w, i - 1, outW);
      }
    } else {
      AvgGradAtUncovered(d, doutP, inH, inW, outW, h, w, i, j - 1);
    }
  }

  /** Average mode: an input cell covered by no window keeps gradient 0. */
  lemma AvgGradUncoveredZero(d: PoolingDescriptor, doutP: Plane, inH: nat, inW: nat, outW: nat, h: int, w: int)
    requires d.Valid() && IsPlane(doutP, |doutP|, outW) && WindowsStartInside(d, inH, inW, |doutP|, outW)
    requires 0 <= h < inH && 0 <= w < inW
    requires forall k, l :: 0 <= k < |doutP| && 0 <= l < outW ==> !Covers(d, k, l, h, w)
    ensures AvgGrad(d, doutP, inH, inW, outW)[h][w] == 0.0
  {
    AvgGradAtUncovered(d, doutP, inH, inW, outW, h, w, |doutP|, 0);
  }

  lemma {:induction false} AvgGradAtSingle(d: PoolingDescriptor, doutP: Plane, inH: int, inW: int, outW: nat, h: int, w: int, i0: int, j0: int, i: int, j: int)
    requires d.Valid() && IsPlane(doutP, |doutP|, outW) && WindowsStartInside(d, inH, inW, |doutP|, outW)
    requires Position(doutP, i, j)
    requires 0 <= i0 < |doutP| && 0 <= j0 < outW && Covers(d, i0, j0, h, w)
    requires forall k, l :: 0 <= k < |doutP| && 0 <= l < outW && (k, l) != (i0, j0) ==> !Covers(d, k, l, h, w)
    ensures AvgGradAt(d, doutP, inH, inW, outW, h, w, i, j) ==
            if Before(i0, j0, i, j) then AvgShare(d, doutP, inH, inW, i0, j0) else 0.0
    decreases i, j
  {
    if j == 0 {
      if i > 0 {
        assert |doutP[i - 1]| == outW;
        AvgGradAtSingle(d, doutP, inH, inW, outW, h, w, i0, j0, i - 1, outW);
      }
    } else {
      AvgGradAtSingle(d, doutP, inH, inW, outW, h, w, i0, j0, i, j - 1);
      AvgContributionSingle(d, doutP, inH, inW, outW, h, w, i0, j0, i, j - 1);
    }
  }

  lemma AvgContributionSingle(d: PoolingDescriptor, doutP: Plane, inH: int, inW: int, outW: nat, h: int, w: int, i0: int, j0: int, i: int, j: int)
    requires d.Valid() && IsPlane(doutP, |doutP|, outW) && WindowsStartInside(d, inH, inW, |doutP|, outW)
    requires 0 <= i < |doutP| && 0 <= j < outW
    requires 0 <= i0 < |doutP| && 0 <= j0 < outW && Covers(d, i0, j0, h, w)
    requires forall k, l :: 0 <= k < |doutP| && 0 <= l < outW && (k, l) != (i0, j0) ==> !Covers(d, k, l, h, w)
    ensures AvgContribution(d, doutP, inH, inW, i, j, h, w) ==
            if (i, j) == (i0, j0) then AvgShare(d, doutP, inH, inW, i0, j0) else 0.0
  {
  }

  /**
   * Average mode: an input cell covered by exactly one window receives
   * exactly that output cell's gradient divided by its divisor.
   */
  lemma AvgGradSingleCover(d: PoolingDescriptor, doutP: Plane, inH: nat, inW: nat, outW: nat, h: int, w: int, i0: int, j0: int)
    requires d.Valid() && IsPlane(doutP, |doutP|, outW) && WindowsStartInside(d, inH, inW, |doutP|, outW)
    requires 0 <= h < inH && 0 <= w < inW
    requires 0 <= i0 < |doutP| && 0 <= j0 < outW && Covers(d, i0, j0, h, w)
    requires forall k, l :: 0 <= k < |doutP| && 0 <= l < outW && (k, l) != (i0, j0) ==> !Covers(d, k, l, h, w)
    ensures AvgGrad(d, doutP, inH, inW, outW)[h][w] == AvgShare(d, doutP, inH, inW, i0, j0)
  {
    AvgGradAtSingle(d, doutP, inH, inW, outW, h, w, i0, j0, |doutP|, 0);
  }

  /** Average mode: the plane of what output cell (i, j) sends to each input cell. */
  function AvgContributionPlane(d: PoolingDescriptor, doutP: Plane, inH: nat, inW: nat, i: int, j: int): (q: Plane)
    requires d.Valid() && 0 <= i < |doutP| && 0 <= j < |doutP[i]|
    requires StartX(d, i) < inH + d.padH && StartY(d, j) < inW + d.padW
    ensures IsPlane(q, inH, inW)
    ensures forall h, w :: 0 <= h < inH && 0 <= w < inW ==> q[h][w] == AvgContribution(d, doutP, inH, inW, i, j, h, w)
  {
    seq(inH, h => seq(inW, w => AvgContribution(d, doutP, inH, inW, i, j, h, w)))
  }

  /**
   * Average mode: output cell (i, j) hands out its share once per real
   * input cell of its window, so the total it sends is the share times
   * the in-bounds count, not times the divisor.
   */
  lemma AvgContributionSum(d: PoolingDescriptor, doutP: Plane, inH: nat, inW: nat, i: int, j: int)
    requires d.Valid() && 0 <= i < |doutP| && 0 <= j < |doutP[i]|
    requires StartX(d, i) < inH + d.padH && StartY(d, j) < inW + d.padW
    ensures Sum(AvgContributionPlane(d, doutP, inH, inW, i, j)) ==
            AvgShare(d, doutP, inH, inW, i, j) * InBoundsCount(d, inH, inW, i, j) as real
  {
    var (rlo, rhi) := ClippedSpan(StartX(d, i), d.windowH, inH);
    var (clo, chi) := ClippedSpan(StartY(d, j), d.windowW, inW);
    AvgContributionIsRect(d, doutP, inH, inW, i, j, rlo, rhi, clo, chi);
    assert InBoundsCount(d, inH, inW, i, j) == (rhi - rlo) * (chi - clo);
  }

  /**
   * What output cell (i, j) sends is its share on the clipped window
   * rectangle and 0 elsewhere, so it sums to the share times the area.
   */
  lemma AvgContributionIsRect(d: PoolingDescriptor, doutP: Plane, inH: nat, inW: nat, i: int, j: int,
                              rlo: int, rhi: int, clo: int, chi: int)
    requires d.Valid() && 0 <= i < |doutP| && 0 <= j < |doutP[i]|
    requires StartX(d, i) < inH + d.padH && StartY(d, j) < inW + d.padW
    requires (rlo, rhi) == ClippedSpan(StartX(d, i), d.windowH, inH) && (clo, chi) == ClippedSpan(StartY(d, j), d.windowW, inW)
    ensures Sum(AvgContributionPlane(d, doutP, inH, inW, i, j)) ==
            AvgShare(d, doutP, inH, inW, i, j) * ((rhi - rlo) * (chi - clo)) as real
  {
    var q := AvgContributionPlane(d, doutP, inH, inW, i, j);
    var share := AvgShare(d, doutP, inH, inW, i, j);
    forall h, w | 0 <= h < inH && 0 <= w < inW
      ensures q[h][w] == if rlo <= h < rhi && clo <= w < chi then share else 0.0
    {
      assert Covers(d, i, j, h, w) <==> rlo <= h < rhi && clo <= w < chi;
    }
    SumRect(q, inH, inW, rlo, rhi, clo, chi, share);
  }

  /** Average mode: the gradient plane after the output cells before (i, j) have added their shares. */
  function AvgGradPrefix(d: PoolingDescriptor, doutP: Plane, inH: nat, inW: nat, outW: nat, i: int, j: int): (g: Plane)
    requires d.Valid() && IsPlane(doutP, |doutP|, outW) && WindowsStartInside(d, inH, inW, |doutP|, outW)
    requires Position(doutP, i, j)
    ensures IsPlane(g, inH, inW)
    ensures forall h, w :: 0 <= h < inH && 0 <= w < inW ==> g[h][w] == AvgGradAt(d, doutP, inH, inW, outW, h, w, i, j)
  {
    seq(inH, h => seq(inW, w => AvgGradAt(d, doutP, inH, inW, outW, h, w, i, j)))
  }

  lemma {:induction false} AvgGradPrefixConserves(d: PoolingDescriptor, doutP: Plane, inH: nat, inW: nat, outW: nat, i: int, j: int)
    requires d.Valid() && d.padH == 0 && d.padW == 0
    requires IsPlane(doutP, |doutP|, outW) && WindowsStartInside(d, inH, inW, |doutP|, outW)
    requires Position(doutP, i, j)
    ensures Sum(AvgGradPrefix(d, doutP, inH, inW, outW, i, j)) == PrefixSum(doutP, i, j)
    decreases i, j
  {
    var g := AvgGradPrefix(d, doutP, inH, inW, outW, i, j);
    if j == 0 {
      if i == 0 {
        PlaneExt(g, Zeros(inH, inW), inH, inW);
        PrefixSumZeros(inH, inW, inH, 0);
      } else {
        assert |doutP[i - 1]| == outW;
        AvgGradPrefixConserves(d, doutP, inH, inW, outW, i - 1, outW);
        PlaneExt(g, AvgGradPrefix(d, doutP, inH, inW, outW, i - 1, outW), inH, inW);
      }
    } else {
      AvgGradPrefixConserves(d, doutP, inH, inW, outW, i, j - 1);
      var q := AvgContributionPlane(d, doutP, inH, inW, i, j - 1);
      SumAdd(AvgGradPrefix(d, doutP, inH, inW, outW, i, j - 1), q, g, inH, inW);
      AvgContributionSum(d, doutP, inH, inW, i, j - 1);
      PoolSizeCountsPadding(d, inH, inW, i, j - 1);
    }
  }

  /**
   * Average mode without padding: every window's divisor is its in-bounds
   * count, so the input gradient plane sums exactly to the output gradient
   * plane.
   */
  lemma AvgGradConservesNoPad(d: PoolingDescriptor, doutP: Plane, inH: nat, inW: nat, outW: nat)
    requires d.Valid() && d.padH == 0 && d.padW == 0
    requires IsPlane(doutP, |doutP|, outW) && WindowsStartInside(d, inH, inW, |doutP|, outW)
    ensures Sum(AvgGrad(d, doutP, inH, inW, outW)) == Sum(doutP)
  {
    AvgGradPrefixConserves(d, doutP, inH, inW, outW, |doutP|, 0);
    PlaneExt(AvgGrad(d, doutP, inH, inW, outW), AvgGradPrefix(d, doutP, inH, inW, outW, |doutP|, 0), inH, inW);
  }

  /**
   * Shapes for max-mode backward: dout, out and the index map share the
   * output shape, dinput has the input shape and is none of the inputs, and
   * the (n, c) planes line up.
   */
  predicate MaxShapes(input: array4<real>, dout: array4<real>, out: array4<real>, indices: array4<Uint16>, dinput: array4<real>) {
    dinput != dout && dinput != out && dinput != input &&
    dinput.Length0 == input.Length0 && dinput.Length1 == input.Length1 &&
    dinput.Length2 == input.Length2 && dinput.Length3 == input.Length3 &&
    out.Length0 == dout.Length0 && out.Length1 == dout.Length1 &&
    out.Length2 == dout.Length2 && out.Length3 == dout.Length3 &&
    indices.Length0 == dout.Length0 && indices.Length1 == dout.Length1 &&
    indices.Length2 == dout.Length2 && indices.Length3 == dout.Length3 &&
    dout.Length0 == input.Length0 && dout.Length1 == input.Length1
  }

  /**
   * Max-mode progress on plane (n, c) once the output cells before (i, j)
   * in row-major order are done: dinput holds MaxGradPrefix and ok is the
   * self-check over those cells.
   */
  ghost predicate MaxProgress(input: array4<real>, dout: array4<real>, out: array4<real>, indices: array4<Uint16>,
                              dinput: array4<real>, n: int, c: int, i: int, j: int, ok: bool)
    reads input, dout, out, indices, dinput
  {
    MaxShapes(input, dout, out, indices, dinput) && 0 <= n < dout.Length0 && 0 <= c < dout.Length1 &&
    ValidIndices(PlaneOf(indices, n, c), input.Length2, input.Length3) && Position(PlaneOf(dout, n, c), i, j) &&
    HoldsPlane(dinput, n, c, MaxGradPrefix(PlaneOf(dout, n, c), PlaneOf(indices, n, c), input.Length2, input.Length3,
                                           dout.Length3, i, j)) &&
    ok == CheckedPrefix(PlaneOf(input, n, c), PlaneOf(out, n, c), PlaneOf(indices, n, c),
                        input.Length2, input.Length3, dout.Length3, i, j)
  }

  /**
   * Max-mode backward over plane (n, c), starting from a zero plane: add
   * each output gradient at its decoded offset and run the index self-check.
   * Only plane (n, c) of dinput changes.
   */
  method BackwardMaxPlane(input: array4<real>, dout: array4<real>, out: array4<real>, indices: array4<Uint16>,
                          dinput: array4<real>, n: int, c: int) returns (ok: bool)
    requires MaxShapes(input, dout, out, indices, dinput)
    requires 0 <= n < dout.Length0 && 0 <= c < dout.Length1
    requires ValidIndices(PlaneOf(indices, n, c), input.Length2, input.Length3)
    requires HoldsPlane(dinput, n, c, Zeros(input.Length2, input.Length3))
    modifies dinput
    ensures ok == MaxSelfCheck(PlaneOf(input, n, c), PlaneOf(out, n, c), PlaneOf(indices, n, c),
                               input.Length2, input.Length3, dout.Length2, dout.Length3)
    ensures HoldsPlane(dinput, n, c, MaxGrad(PlaneOf(dout, n, c), PlaneOf(indices, n, c), input.Length2, input.Length3, dout.Length3))
    ensures forall n', c', h, w | 0 <= n' < dinput.Length0 && 0 <= c' < dinput.Length1 && 0 <= h < dinput.Length2 &&
              0 <= w < dinput.Length3 && (n', c') != (n, c) :: dinput[n', c', h, w] == old(dinput[n', c', h, w])
  {
    ok := true;
    for i := 0 to dout.Length2
      invariant MaxProgress(input, dout, out, indices, dinput, n, c, i, 0, ok)
      invariant forall n', c', h, w | 0 <= n' < dinput.Length0 && 0 <= c' < dinput.Length1 && 0 <= h < dinput.Length2 &&
                  0 <= w < dinput.Length3 && (n', c') != (n, c) :: dinput[n', c', h, w] == old(dinput[n', c', h, w])
    {
      ok := BackwardMaxRow(input, dout, out, indices, dinput, n, c, i, ok);
    }
    CheckedPrefixAll(PlaneOf(input, n, c), PlaneOf(out, n, c), PlaneOf(indices, n, c),
                     input.Length2, input.Length3, dout.Length3, dout.Length2, 0);
  }

  /** Max-mode backward over output row i of plane (n, c); `ok` carries the self-check so far. */
  method BackwardMaxRow(input: array4<real>, dout: array4<real>, out: array4<real>, indices: array4<Uint16>,
                        dinput: array4<real>, n: int, c: int, i: int, okIn: bool) returns (ok: bool)
    requires 0 <= i < dout.Length2 && MaxProgress(input, dout, out, indices, dinput, n, c, i, 0, okIn)
    modifies dinput
    ensures MaxProgress(input, dout, out, indices, dinput, n, c, i + 1, 0, ok)
    ensures forall n', c', h, w | 0 <= n' < dinput.Length0 && 0 <= c' < dinput.Length1 && 0 <= h < dinput.Length2 &&
              0 <= w < dinput.Length3 && (n', c') != (n, c) :: dinput[n', c', h, w] == old(dinput[n', c', h, w])
  {
    ok := okIn;
    for j := 0 to dout.Length3
      invariant MaxProgress(input, dout, out, indices, dinput, n, c, i, j, ok)
      invariant forall n', c', h, w | 0 <= n' < dinput.Length0 && 0 <= c' < dinput.Length1 && 0 <= h < dinput.Length2 &&
                  0 <= w < dinput.Length3 && (n', c') != (n, c) :: dinput[n', c', h, w] == old(dinput[n', c', h, w])
    {
      ok := RouteMaxGradient(input, dout, out, indices, dinput, n, c, i, j, ok);
    }
  }

  /**
   * Average-mode backward over plane (n, c), starting from a zero plane:
   * for every output cell recompute the window and the divisor and add the
   * share to every in-bounds window cell. Only plane (n, c) of dinput changes.
   */
  method BackwardAveragePlane(d: PoolingDescriptor, dout: array4<real>, dinput: array4<real>, n: int, c: int)
    requires d.Valid() && dinput != dout
    requires 0 <= n < dout.Length0 && 0 <= c < dout.Length1 && n < dinput.Length0 && c < dinput.Length1
    requires WindowsStartInside(d, dinput.Length2, dinput.Length3, dout.Length2, dout.Length3)
    requires HoldsPlane(dinput, n, c, Zeros(dinput.Length2, dinput.Length3))
    modifies dinput
    ensures HoldsPlane(dinput, n, c, AvgGrad(d, PlaneOf(dout, n, c), dinput.Length2, dinput.Length3, dout.Length3))
    ensures forall n', c', h, w | 0 <= n' < dinput.Length0 && 0 <= c' < dinput.Length1 && 0 <= h < dinput.Length2 &&
              0 <= w < dinput.Length3 && (n', c') != (n, c) :: dinput[n', c', h, w] == old(dinput[n', c', h, w])
  {
    var inH, inW := dinput.Length2, dinput.Length3;
    var outH, outW := dout.Length2, dout.Length3;
    ghost var doutP := PlaneOf(dout, n, c);
    for i := 0 to outH
      invariant forall h, w :: 0 <= h < inH && 0 <= w < inW ==>
                  dinput[n, c, h, w] == AvgGradAt(d, doutP, inH, inW, outW, h, w, i, 0)
      invariant forall n', c', h, w | 0 <= n' < dinput.Length0 && 0 <= c' < dinput.Length1 && 0 <= h < inH &&
                  0 <= w < inW && (n', c') != (n, c) :: dinput[n', c', h, w] == old(dinput[n', c', h, w])
    {
      for j := 0 to outW
        invariant forall h, w :: 0 <= h < inH && 0 <= w < inW ==>
                    dinput[n, c, h, w] == AvgGradAt(d, doutP, inH, inW, outW, h, w, i, j)
        invariant forall n', c', h, w | 0 <= n' < dinput.Length0 && 0 <= c' < dinput.Length1 && 0 <= h < inH &&
                    0 <= w < inW && (n', c') != (n, c) :: dinput[n', c', h, w] == old(dinput[n', c', h, w])
      {
        AddWindowShare(d, dout, dinput, n, c, i, j);
      }
    }
  }

  /** The `ford(window_h, window_w)` part of average backward for output cell (i, j). */
  method AddWindowShare(d: PoolingDescriptor, dout: array4<real>, dinput: array4<real>, n: int, c: int, i: int, j: int)
    requires d.Valid() && dinput != dout
    requires 0 <= n < dout.Length0 && 0 <= c < dout.Length1 && n < dinput.Length0 && c < dinput.Length1
    requires 0 <= i < dout.Length2 && 0 <= j < dout.Length3
    requires WindowsStartInside(d, dinput.Length2, dinput.Length3, dout.Length2, dout.Length3)
    modifies dinput
    ensures forall h, w :: 0 <= h < dinput.Length2 && 0 <= w < dinput.Length3 ==>
              dinput[n, c, h, w] == old(dinput[n, c, h, w]) +
                AvgContribution(d, PlaneOf(dout, n, c), dinput.Length2, dinput.Length3, i, j, h, w)
    ensures forall n', c', h, w | 0 <= n' < dinput.Length0 && 0 <= c' < dinput.Length1 && 0 <= h < dinput.Length2 &&
              0 <= w < dinput.Length3 && (n', c') != (n, c) :: dinput[n', c', h, w] == old(dinput[n', c', h, w])
  {
    var inH, inW := dinput.Length2, dinput.Length3;
    ghost var doutP := PlaneOf(dout, n, c);
    ghost var share := AvgShare(d, doutP, inH, inW, i, j);
    ghost var sx, sy := StartX(d, i), StartY(d, j);
    for x := 0 to d.windowH
      invariant forall h, w :: 0 <= h < inH && 0 <= w < inW ==>
                  dinput[n, c, h, w] == old(dinput[n, c, h, w]) +
                    (if Covers(d, i, j, h, w) && Before(h - sx, w - sy, x, 0) then share else 0.0)
      invariant forall n', c', h, w | 0 <= n' < dinput.Length0 && 0 <= c' < dinput.Length1 && 0 <= h < inH &&
                  0 <= w < inW && (n', c') != (n, c) :: dinput[n', c', h, w] == old(dinput[n', c', h, w])
    {
      for y := 0 to d.windowW
        invariant forall h, w :: 0 <= h < inH && 0 <= w < inW ==>
                    dinput[n, c, h, w] == old(dinput[n, c, h, w]) +
                      (if Covers(d, i, j, h, w) && Before(h - sx, w - sy, x, y) then share else 0.0)
        invariant forall n', c', h, w | 0 <= n' < dinput.Length0 && 0 <= c' < dinput.Length1 && 0 <= h < inH &&
                    0 <= w < inW && (n', c') != (n, c) :: dinput[n', c', h, w] == old(dinput[n', c', h, w])
      {
        var startX := i * d.v - d.padH;
        var startY := j * d.u - d.padW;
        var hend := Min(startX + d.windowH, inH + d.padH);
        var wend := Min(startY + d.windowW, inW + d.padW);
        var poolSize := (hend - startX) * (wend - startY);
        assert poolSize == PoolSize(d, inH, inW, i, j) >= 1;
        var inX := startX + x;
        var inY := startY + y;
        if inX >= 0 && inX < inH && inY >= 0 && inY < inW {
          dinput[n, c, inX, inY] := dinput[n, c, inX, inY] + dout[n, c, i, j] / poolSize as real;
        }
      }
    }
  }

  /**
   * What backward demands of its arguments: a valid descriptor, dout of the
   * same shape as out (the dout/out shape check), out with the batch and channel
   * counts of input; in max mode an index map of the output shape whose
   * every offset lies inside its input plane, in average mode output
   * dimensions whose windows all start inside the padded input.
   */
  ghost predicate BackwardInputs(input: array4<real>, dout: array4<real>, out: array4<real>, indices: array4<Uint16>,
                                 d: PoolingDescriptor)
    reads indices
  {
    d.Valid() &&
    dout.Length0 == out.Length0 && dout.Length1 == out.Length1 &&
    dout.Length2 == out.Length2 && dout.Length3 == out.Length3 &&
    out.Length0 == input.Length0 && out.Length1 == input.Length1 &&
    (d.mode == PoolingMax ==>
      indices.Length0 == out.Length0 && indices.Length1 == out.Length1 &&
      indices.Length2 == out.Length2 && indices.Length3 == out.Length3 &&
      forall n, c | 0 <= n < out.Length0 && 0 <= c < out.Length1 ::
        ValidIndices(PlaneOf(indices, n, c), input.Length2, input.Length3)) &&
    (d.mode == PoolingAverage ==> WindowsStartInside(d, input.Length2, input.Length3, out.Length2, out.Length3))
  }

  /** The gradient plane the reference computes for plane (n, c), in the descriptor's mode. */
  ghost function PlaneGrad(input: array4<real>, dout: array4<real>, out: array4<real>, indices: array4<Uint16>,
                           d: PoolingDescriptor, n: int, c: int): (g: Plane)
    reads indices, dout
    requires BackwardInputs(input, dout, out, indices, d) && 0 <= n < out.Length0 && 0 <= c < out.Length1
    ensures IsPlane(g, input.Length2, input.Length3)
  {
    if d.mode == PoolingMax then MaxGrad(PlaneOf(dout, n, c), PlaneOf(indices, n, c), input.Length2, input.Length3, out.Length3)
    else AvgGrad(d, PlaneOf(dout, n, c), input.Length2, input.Length3, out.Length3)
  }

  /** The index self-check of plane (n, c); average mode has none. */
  ghost predicate SelfCheckHolds(input: array4<real>, out: array4<real>, indices: array4<Uint16>, d: PoolingDescriptor,
                                 n: int, c: int)
    reads input, out, indices
    requires 0 <= n < out.Length0 && 0 <= c < out.Length1 && n < input.Length0 && c < input.Length1
  {
    d.mode == PoolingMax ==>
      indices.Length0 == out.Length0 && indices.Length1 == out.Length1 &&
      indices.Length2 == out.Length2 && indices.Length3 == out.Length3 &&
      ValidIndices(PlaneOf(indices, n, c), input.Length2, input.Length3) &&
      MaxSelfCheck(PlaneOf(input, n, c), PlaneOf(out, n, c), PlaneOf(indices, n, c),
                   input.Length2, input.Length3, out.Length2, out.Length3)
  }

  /**
   * Every plane before (n, c) in row-major (n, c) order holds its gradient;
   * every later plane is still zero.
   */
  ghost predicate DoneBefore(input: array4<real>, dout: array4<real>, out: array4<real>, indices: array4<Uint16>,
                             d: PoolingDescriptor, dinput: array4<real>, n: int, c: int)
    reads indices, dout, dinput
  {
    BackwardInputs(input, dout, out, indices, d) &&
    dinput.Length0 == input.Length0 && dinput.Length1 == input.Length1 &&
    dinput.Length2 == input.Length2 && dinput.Length3 == input.Length3 &&
    forall n', c', h, w | 0 <= n' < dinput.Length0 && 0 <= c' < dinput.Length1 && 0 <= h < dinput.Length2 &&
      0 <= w < dinput.Length3 ::
      dinput[n', c', h, w] == if Before(n', c', n, c) then PlaneGrad(input, dout, out, indices, d, n', c')[h][w] else 0.0
  }

  /** The self-check held on every plane before (n, c). */
  ghost predicate ChecksBefore(input: array4<real>, out: array4<real>, indices: array4<Uint16>, d: PoolingDescriptor, n: int, c: int)
    reads input, out, indices
  {
    out.Length0 == input.Length0 && out.Length1 == input.Length1 &&
    forall n', c' | 0 <= n' < out.Length0 && 0 <= c' < out.Length1 && Before(n', c', n, c) ::
      SelfCheckHolds(input, out, indices, d, n', c')
  }

  /**
   * Backward reference pooling: a fresh gradient tensor of the input's
   * shape, each (n, c) plane the gradient of that plane alone, and `ok`
   * reporting whether every index self-check held.
   */
  method Backward(input: array4<real>, dout: array4<real>, out: array4<real>, d: PoolingDescriptor, indices: array4<Uint16>)
    returns (dinput: array4<real>, ok: bool)
    requires BackwardInputs(input, dout, out, indices, d)
    ensures fresh(dinput)
    ensures dinput.Length0 == input.Length0 && dinput.Length1 == input.Length1
    ensures dinput.Length2 == input.Length2 && dinput.Length3 == input.Length3
    ensures d.mode == PoolingMax ==> forall n, c | 0 <= n < out.Length0 && 0 <= c < out.Length1 ::
              PlaneOf(dinput, n, c) == MaxGrad(PlaneOf(dout, n, c), PlaneOf(indices, n, c), input.Length2, input.Length3, out.Length3)
    ensures d.mode == PoolingAverage ==> forall n, c | 0 <= n < out.Length0 && 0 <= c < out.Length1 ::
              PlaneOf(dinput, n, c) == AvgGrad(d, PlaneOf(dout, n, c), input.Length2, input.Length3, out.Length3)
    ensures ok <==> forall n, c | 0 <= n < out.Length0 && 0 <= c < out.Length1 :: SelfCheckHolds(input, out, indices, d, n, c)
  {
    dinput := new real[input.Length0, input.Length1, input.Length2, input.Length3]((_, _, _, _) => 0.0);
    ok := true;
    for n := 0 to out.Length0
      invariant DoneBefore(input, dout, out, indices, d, dinput, n, 0)
      invariant ok == ChecksBefore(input, out, indices, d, n, 0)
    {
      for c := 0 to out.Length1
        invariant DoneBefore(input, dout, out, indices, d, dinput, n, c)
        invariant ok == ChecksBefore(input, out, indices, d, n, c)
      {
        ok := BackwardStep(input, dout, out, d, indices, dinput, n, c, ok);
      }
      NextBatch(input, dout, out, indices, d, dinput, n);
    }
    forall n, c | 0 <= n < out.Length0 && 0 <= c < out.Length1
      ensures PlaneOf(dinput, n, c) == PlaneGrad(input, dout, out, indices, d, n, c)
    {
      PlaneExt(PlaneOf(dinput, n, c), PlaneGrad(input, dout, out, indices, d, n, c), input.Length2, input.Length3);
    }
  }

  /** Finishing every channel of batch n is starting batch n + 1. */
  lemma NextBatch(input: array4<real>, dout: array4<real>, out: array4<real>, indices: array4<Uint16>,
                  d: PoolingDescriptor, dinput: array4<real>, n: int)
    requires DoneBefore(input, dout, out, indices, d, dinput, n, out.Length1)
    ensures DoneBefore(input, dout, out, indices, d, dinput, n + 1, 0)
    ensures ChecksBefore(input, out, indices, d, n, out.Length1) == ChecksBefore(input, out, indices, d, n + 1, 0)
  {
    assert forall n', c' | 0 <= c' < out.Length1 :: Before(n', c', n, out.Length1) == Before(n', c', n + 1, 0);
  }

  /** One (n, c) iteration: fill plane (n, c) and fold its self-check into ok. */
  method BackwardStep(input: array4<real>, dout: array4<real>, out: array4<real>, d: PoolingDescriptor, indices: array4<Uint16>,
                      dinput: array4<real>, n: int, c: int, okIn: bool) returns (ok: bool)
    requires 0 <= n < out.Length0 && 0 <= c < out.Length1 && dinput != dout && dinput != out && dinput != input
    requires DoneBefore(input, dout, out, indices, d, dinput, n, c) && okIn == ChecksBefore(input, out, indices, d, n, c)
    modifies dinput
    ensures DoneBefore(input, dout, out, indices, d, dinput, n, c + 1) && ok == ChecksBefore(input, out, indices, d, n, c + 1)
  {
    var planeOk := BackwardPlane(input, dout, out, d, indices, dinput, n, c);
    ok := okIn && planeOk;
  }

  /** The body of the (n, c) loop: dispatch on the mode for one zero-filled plane. */
  method BackwardPlane(input: array4<real>, dout: array4<real>, out: array4<real>, d: PoolingDescriptor, indices: array4<Uint16>,
                       dinput: array4<real>, n: int, c: int) returns (ok: bool)
    requires BackwardInputs(input, dout, out, indices, d) && 0 <= n < out.Length0 && 0 <= c < out.Length1
    requires dinput != dout && dinput != out && dinput != input
    requires dinput.Length0 == input.Length0 && dinput.Length1 == input.Length1
    requires dinput.Length2 == input.Length2 && dinput.Length3 == input.Length3
    requires HoldsPlane(dinput, n, c, Zeros(input.Length2, input.Length3))
    modifies dinput
    ensures HoldsPlane(dinput, n, c, PlaneGrad(input, dout, out, indices, d, n, c))
    ensures ok == SelfCheckHolds(input, out, indices, d, n, c)
    ensures forall n', c', h, w | 0 <= n' < dinput.Length0 && 0 <= c' < dinput.Length1 && 0 <= h < dinput.Length2 &&
              0 <= w < dinput.Length3 && (n', c') != (n, c) :: dinput[n', c', h, w] == old(dinput[n', c', h, w])
  {
    if d.mode == PoolingMax {
      ok := BackwardMaxPlane(input, dout, out, indices, dinput, n, c);
    } else {
      BackwardAveragePlane(d, dout, dinput, n, c);
      ok := true;
    }
  }

  /**
   * The body of the max-mode loop for output cell (i, j): decode the stored
   * offset, run the self-check and add the output gradient there. It takes
   * plane (n, c) of dinput from the gradient before (i, j) to the gradient
   * after it.
   */
  method RouteMaxGradient(input: array4<real>, dout: array4<real>, out: array4<real>, indices: array4<Uint16>,
                          dinput: array4<real>, n: int, c: int, i: int, j: int, okIn: bool) returns (ok: bool)
    requires 0 <= i < dout.Length2 && 0 <= j < dout.Length3 && MaxProgress(input, dout, out, indices, dinput, n, c, i, j, okIn)
    modifies dinput
    ensures ok == (okIn && SelectsOutput(PlaneOf(input, n, c), PlaneOf(out, n, c), PlaneOf(indices, n, c),
                                         input.Length2, input.Length3, i, j))
    ensures MaxProgress(input, dout, out, indices, dinput, n, c, i, j + 1, ok)
    ensures forall n', c', h, w | 0 <= n' < dinput.Length0 && 0 <= c' < dinput.Length1 && 0 <= h < dinput.Length2 &&
              0 <= w < dinput.Length3 && (n', c') != (n, c) :: dinput[n', c', h, w] == old(dinput[n', c', h, w])
  {
    var inH, inW := input.Length2, input.Length3;
    ghost var inP, outP := PlaneOf(input, n, c), PlaneOf(out, n, c);
    ghost var doutP, idxP := PlaneOf(dout, n, c), PlaneOf(indices, n, c);
    ghost var g := MaxGradPrefix(doutP, idxP, inH, inW, dout.Length3, i, j);
    var idx := indices[n, c, i, j];
    assert idx == idxP[i][j];
    DecodeInPlane(idx, inH, inW);
    var idxH := idx / inW;
    var idxW := idx % inW;
    var selects := input[n, c, idxH, idxW] == out[n, c, i, j];
    ok := okIn && selects;
    dinput[n, c, idxH, idxW] := dinput[n, c, idxH, idxW] + dout[n, c, i, j];
    assert MaxGradPrefix(doutP, idxP, inH, inW, dout.Length3, i, j + 1) == AddAt(g, idxH, idxW, doutP[i][j]);
    assert ok == CheckedPrefix(inP, outP, idxP, inH, inW, dout.Length3, i, j + 1);
  }
}
