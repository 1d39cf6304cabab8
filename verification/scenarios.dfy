/**
 * A worked case on a 2 x 2 plane: the corner window of a padded, stride-1
 * sweep, whose divisor counts three padding cells.
 */
module PoolingScenarios {
  import opened PoolingGeometry
  import opened Planes
  import opened ForwardPooling

  function Sample(): (p: Plane)
    ensures IsPlane(p, 2, 2)
  {
    [[1.0, 4.0], [3.0, 2.0]]
  }

  /**
   * With pad 1 and stride 1 the first window starts at (-1, -1): it holds
   * one real cell, yet the average divides by 4.
   */
  lemma PaddedCornerWindow()
    ensures PoolSize(PoolingDescriptor(PoolingAverage, 2, 2, 1, 1, 1, 1), 2, 2, 0, 0) == 4
    ensures InBoundsCount(PoolingDescriptor(PoolingAverage, 2, 2, 1, 1, 1, 1), 2, 2, 0, 0) == 1
    ensures PoolValue(PoolingDescriptor(PoolingAverage, 2, 2, 1, 1, 1, 1), Sample(), 2, 2, 0, 0) == 0.25
    ensures PoolValue(PoolingDescriptor(PoolingMax, 2, 2, 1, 1, 1, 1), Sample(), 2, 2, 0, 0) == 1.0
  {
    var p := Sample();
    var avg := PoolingDescriptor(PoolingAverage, 2, 2, 1, 1, 1, 1);
    var mx := PoolingDescriptor(PoolingMax, 2, 2, 1, 1, 1, 1);
    AveragePoolIsClippedMean(avg, p, 2, 2, 0, 0);
    assert RectSum(p, 2, 0, 1, 0, 1) == 1.0 by {
      assert RowSum(p, 0, 0, 1) == 1.0;
    }
    MaxPoolIsWindowMax(mx, p, 2, 2, 0, 0);
    assert Covers(mx, 0, 0, 0, 0);
    assert forall h, w :: InBounds(h, w, 2, 2) && Covers(mx, 0, 0, h, w) ==> h == 0 && w == 0;
  }
}
