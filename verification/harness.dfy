/**
 * The pooling test driver: which inputs it skips and which descriptors it
 * sweeps on each input it keeps.
 */
module VerifyPooling {
  import opened PoolingGeometry
  import opened MaxIndex

  /**
   * The plane-size guard: an input whose inH x inW plane has more cells than
   * the largest uint16_t value is skipped, so every index-map entry fits.
   */
  predicate PlaneFits(inH: int, inW: int) {
    inH * inW <= Uint16Max
  }

  /** The five window/stride/pad triples of the sweep, in one mode. */
  function Filters(m: Mode): (fs: seq<PoolingDescriptor>)
    ensures |fs| == 5
    ensures forall k :: 0 <= k < |fs| ==> fs[k].mode == m && fs[k].Valid()
    ensures forall k :: 0 <= k < |fs| ==> fs[k].u == fs[k].v && fs[k].windowH == fs[k].windowW && fs[k].padH == fs[k].padW
  {
    [PoolingDescriptor(m, 2, 2, 2, 2, 0, 0),
     PoolingDescriptor(m, 2, 2, 1, 1, 0, 0),
     PoolingDescriptor(m, 2, 2, 1, 1, 1, 1),
     PoolingDescriptor(m, 3, 3, 2, 2, 0, 0),
     PoolingDescriptor(m, 3, 3, 1, 1, 1, 1)]
  }

  /**
   * The descriptors the driver runs forward and backward with on one input:
   * none when the guard trips, otherwise every filter in max mode and then
   * every filter in average mode.
   */
  function Sweep(inH: int, inW: int): (ds: seq<PoolingDescriptor>)
    ensures !PlaneFits(inH, inW) ==> ds == []
    ensures PlaneFits(inH, inW) ==> |ds| == 10 && ds[..5] == Filters(PoolingMax) && ds[5..] == Filters(PoolingAverage)
    ensures forall k :: 0 <= k < |ds| ==> ds[k].Valid()
    ensures forall k :: 0 <= k < |ds| ==> ds[k].mode == (if k < 5 then PoolingMax else PoolingAverage)
  {
    if !PlaneFits(inH, inW) then [] else Filters(PoolingMax) + Filters(PoolingAverage)
  }

  /**
   * Under the guard every cell of the plane has an offset that is a
   * uint16_t value, and decoding that offset gives the cell back.
   */
  lemma GuardedOffsetsFit(inH: int, inW: int)
    requires 1 <= inH && 1 <= inW && PlaneFits(inH, inW)
    ensures forall h, w :: 0 <= h < inH && 0 <= w < inW ==> 0 <= Encode(h, w, inW) <= Uint16Max
    ensures forall h, w :: 0 <= h < inH && 0 <= w < inW ==>
              DecodeRow(Encode(h, w, inW), inW) == h && DecodeCol(Encode(h, w, inW), inW) == w
  {
    forall h, w | 0 <= h < inH && 0 <= w < inW
      ensures 0 <= Encode(h, w, inW) <= Uint16Max
      ensures DecodeRow(Encode(h, w, inW), inW) == h && DecodeCol(Encode(h, w, inW), inW) == w
    {
      MulLe(h, inH - 1, inW);
      DecodeEncode(h, w, inW);
    }
  }

  /**
   * Under the guard every offset inside the plane is a uint16_t value and
   * decodes to a row of the plane, so the backward pass reads no row past
   * the plane.
   */
  lemma GuardedIndicesDecode(inH: int, inW: int)
    requires 1 <= inH && 1 <= inW && PlaneFits(inH, inW)
    ensures forall idx :: 0 <= idx < inH * inW ==> idx <= Uint16Max && DecodeRow(idx, inW) < inH
  {
    forall idx | 0 <= idx < inH * inW
      ensures idx <= Uint16Max && DecodeRow(idx, inW) < inH
    {
      DecodeInPlane(idx, inH, inW);
    }
  }
}
