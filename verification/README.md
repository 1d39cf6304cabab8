# Reference 2D pooling, modelled in Dafny

This project models the host-side reference 2D pooling of `test/pooling.cpp`. That test compares the accelerated pooling primitive with this reference. The model covers:

- **Mode operators.** `pooling_operators` provides a start value, a binary combinator and a finaliser for the two modes. Max mode starts from the lowest finite float, combines with `max` and ignores the divisor. Average mode starts from 0, combines with `+` and divides by the divisor.
- **Forward pass.** For every output cell `(n, c, i, j)`, the forward pass computes its window:
  - the origin `(i*v - pad_h, j*u - pad_w)`;
  - far ends clipped to `in + pad`;
  - the divisor `pool_size = (hend - start_x) * (wend - start_y)`, which counts padding cells.

  It then folds the operator over the window cells that lie inside the input, and finalises the result with the divisor.
- **Backward pass.** The backward pass starts from a zero gradient.
  - In max mode it decodes each stored index into `(idx / in_w, idx % in_w)`. It checks that the input there equals the forward output, and adds the output gradient there.
  - In average mode it recomputes the window and divisor, and adds `dout / pool_size` to every in-bounds window cell.
- **Test driver.** The driver skips planes with more cells than a `uint16_t` can hold, and sweeps ten descriptors.

Element values are exact reals in both modes, and the tensors are `array4<real>` in NCHW order. The specification functions read one `(n, c)` plane at a time as a `seq<seq<real>>` (`Planes.PlaneOf`). Each method's postcondition therefore states that plane `(n, c)` of a result depends only on plane `(n, c)` of its arguments.

A pooling descriptor is `(mode, windowH, windowW, u, v, padH, padW)`. As in the source, output rows step by `v` and output columns step by `u`, although the pair is read as `(u, v)`.

Modules:

- `PoolingGeometry` (geometry.dfy): window origin, clipped ends, divisor, coverage.
- `PoolingOperators` (operators.dfy): start value, combinator, finaliser.
- `Planes` (planes.dfy): plane views of a 4-D array, row-major sums, single-cell updates.
- `MaxIndex` (indexing.dfy): the offset encoding used by the max-mode index map.
- `ForwardPooling` (forward.dfy): the forward specification and the forward method.
- `BackwardPooling` (backward.dfy): the backward specification per mode and the backward methods.
- `VerifyPooling` (harness.dfy): the plane-size guard and the descriptor sweep.
- `PoolingScenarios` (scenarios.dfy): a worked padded window.

## Model

| member | source | states |
|---|---|---|
| PoolingGeometry.PoolSize | test/pooling.cpp:70-76 | the divisor of output cell (i, j): the window origin at (i*v - pad_h, j*u - pad_w), far ends clipped to in + pad, near ends not clipped, so padding cells on both sides are counted |
| PoolingGeometry.PoolSizeBounds | test/pooling.cpp:70-76 | when the window starts inside the padded extent, the divisor lies between 1 and window_h*window_w, so neither pass divides by zero |
| PoolingGeometry.PoolSizeCountsPadding | test/pooling.cpp:73-76 | the divisor is at least the number of real input cells in the window, and equal to it when both pads are 0 |
| PoolingOperators.Combine | test/pooling.cpp:38-42 | in max mode the result bounds both operands and is one of them |
| PoolingOperators.Start | test/pooling.cpp:32-36 | the start value is the identity of the combinator (for max mode, over values not below the lowest float) |
| PoolingOperators.Final | test/pooling.cpp:44-48 | max mode returns the accumulator unchanged; in average mode the result times the divisor is the accumulator |
| ForwardPooling.WindowAcc | test/pooling.cpp:78-86 | the accumulator of the row-major fold over the window: starts at the mode's start value and combines only the window cells that lie inside the input plane |
| ForwardPooling.PoolValue | test/pooling.cpp:87 | the value written to output cell (i, j): the finaliser applied to the full window fold and the divisor |
| ForwardPooling.MaxWindowAcc | test/pooling.cpp:78-86 | the max-mode fold after any prefix of the window is at least Lowest, bounds every in-bounds cell folded so far, and is Lowest or one of them |
| ForwardPooling.AverageWindowAcc | test/pooling.cpp:78-86 | the average-mode fold after any number of window rows is the sum of the in-bounds part of those rows; padding cells add nothing |
| ForwardPooling.AverageRowAcc | test/pooling.cpp:79-86 | the average-mode fold across one window row adds exactly the in-bounds cells of that row |
| ForwardPooling.MaxPoolIsWindowMax | test/pooling.cpp:78-87 | a max-mode output bounds every in-bounds cell of its window and is one of them or Lowest, and it is Lowest when the window holds no input cell |
| ForwardPooling.AveragePoolIsClippedMean | test/pooling.cpp:70-87 | an average-mode output is the sum of the in-bounds window cells divided by the padding-inclusive divisor |
| ForwardPooling.AccumulateWindow | test/pooling.cpp:78-86 | the loop over the window computes the fold of the mode operator over the in-bounds cells |
| ForwardPooling.Forward | test/pooling.cpp:53-90 | a fresh output of the input's batch and channels; every cell is the pooled value of its window in the same (n, c) plane of the input |
| MaxIndex.DecodeRow | test/pooling.cpp:163 | the decoded row r satisfies r*in_w <= idx < (r+1)*in_w |
| MaxIndex.DecodeCol | test/pooling.cpp:164 | the decoded column lies in [0, in_w), and row*in_w + column gives idx back |
| MaxIndex.DecodeInPlane | test/pooling.cpp:162-164 | an offset below in_h*in_w decodes to a row below in_h |
| MaxIndex.DecodeEncode | test/pooling.cpp:162-164 | decoding the offset of a cell gives that cell back |
| MaxIndex.EncodeInjective | test/pooling.cpp:162-164 | two cells of one plane with the same offset are the same cell |
| Planes.SumAddAt | test/pooling.cpp:166 | adding v to one cell adds exactly v to the sum of the plane |
| BackwardPooling.SelectsOutput | test/pooling.cpp:162-165 | the self-check of one output cell: the input at the decoded row and column of its stored offset equals the forward output |
| BackwardPooling.MaxGradPrefix | test/pooling.cpp:160-166 | the max-mode gradient plane after the output cells before (i, j) in row-major order have each added their dout at their decoded offset, starting from zeros |
| BackwardPooling.MaxGrad | test/pooling.cpp:143-167 | the max-mode input gradient of one plane: the scatter over every output cell |
| BackwardPooling.AvgGradAt | test/pooling.cpp:171-186 | the average-mode gradient of one input cell from the output cells before (i, j): the sum of the shares of those whose window covers the cell |
| BackwardPooling.AvgGrad | test/pooling.cpp:143-187 | the average-mode input gradient of one plane, each cell the sum of the shares of every window covering it |
| BackwardPooling.AvgContributionSum | test/pooling.cpp:171-185 | one output cell hands out its share once per real input cell of its window, so it sends share times the in-bounds count, which ties that count to the cells the loop updates |
| BackwardPooling.AvgGradConservesNoPad | test/pooling.cpp:171-186 | in average mode with both pads 0, the input gradient plane sums exactly to the output gradient plane |
| BackwardPooling.CheckedPrefixAll | test/pooling.cpp:165 | the running self-check over the output cells before (i, j) holds exactly when every one of those cells selects an input equal to its output |
| BackwardPooling.MaxGradConserves | test/pooling.cpp:141-167 | in max mode, starting from zeros, the input gradient of a plane sums to the output gradient of the plane |
| BackwardPooling.MaxGradAt | test/pooling.cpp:160-167 | in max mode each input cell receives the sum of the output gradients whose stored index is that cell's offset |
| BackwardPooling.MaxGradUnselectedZero | test/pooling.cpp:141-167 | in max mode an input cell that no index selects keeps gradient 0 |
| BackwardPooling.AvgShare | test/pooling.cpp:173-184 | the share sent by output cell (i, j) times the forward divisor PoolSize for (i, j) is that cell's output gradient |
| BackwardPooling.AvgGradUncoveredZero | test/pooling.cpp:141-186 | in average mode an input cell covered by no window keeps gradient 0 |
| BackwardPooling.AvgGradSingleCover | test/pooling.cpp:171-186 | in average mode an input cell covered by exactly one window receives exactly that output cell's share |
| BackwardPooling.AddWindowShare | test/pooling.cpp:171-185 | one output cell adds its share to every in-bounds cell of its window, adds nothing elsewhere, and leaves other planes unchanged |
| BackwardPooling.BackwardAveragePlane | test/pooling.cpp:171-186 | from a zero plane, plane (n, c) ends as the average-mode gradient of dout's plane (n, c); other planes are unchanged |
| BackwardPooling.RouteMaxGradient | test/pooling.cpp:160-166 | one output cell decodes its index, folds the self-check into ok, adds its gradient at the decoded cell, and moves the plane one step along the max-mode gradient |
| BackwardPooling.BackwardMaxRow | test/pooling.cpp:158-167 | one output row moves the plane and the self-check from the start of row i to the start of row i+1 |
| BackwardPooling.BackwardMaxPlane | test/pooling.cpp:158-167 | from a zero plane, plane (n, c) ends as the max-mode gradient of that plane's dout and indices; ok is the self-check over the whole plane; other planes are unchanged |
| BackwardPooling.BackwardPlane | test/pooling.cpp:156-187 | one (n, c) plane gets the gradient of the descriptor's mode and reports its self-check; other planes are unchanged |
| BackwardPooling.BackwardStep | test/pooling.cpp:156-188 | after plane (n, c) every plane before (n, c+1) holds its gradient, later planes are still zero, and ok covers the self-checks so far |
| BackwardPooling.NextBatch | test/pooling.cpp:156 | finishing every channel of batch n is starting batch n+1 |
| BackwardPooling.Backward | test/pooling.cpp:138-190 | a fresh zero-initialised gradient of the input's shape; each plane is the max-mode or average-mode gradient of that plane alone; ok holds exactly when every max-mode self-check held |
| VerifyPooling.PlaneFits | test/pooling.cpp:251 | the driver's guard: an input plane is kept only when in_h*in_w is at most the largest uint16_t value |
| VerifyPooling.Sweep | test/pooling.cpp:251-261 | no descriptor when the plane is too large; otherwise ten valid descriptors, the first five exactly the five filters in max mode and the last five the same filters in average mode |
| VerifyPooling.Filters | test/pooling.cpp:255-261 | the five filters are valid and symmetric in window, stride and pad |
| VerifyPooling.GuardedOffsetsFit | test/pooling.cpp:251 | under the guard every cell's offset is a uint16_t value and decodes back to that cell |
| VerifyPooling.GuardedIndicesDecode | test/pooling.cpp:251 | under the guard every in-plane offset is a uint16_t value and decodes to a row inside the plane |
| PoolingScenarios.PaddedCornerWindow | test/pooling.cpp:70-87 | with pad 1 and stride 1 on a 2x2 plane, the corner window holds one real cell but the divisor is 4, so the average is a quarter of that cell |

## Left out

- The `gpu` methods of both verifiers. They transfer buffers and call the library's own pooling, which is not part of this model.
- The `fail` diagnostics, which only print.
- `verify(...)` and the tolerance comparison: `float_equal` is not part of this model, and the self-check at :165 is modelled as exact equality.
- The synthetic output-gradient generator, which is floating-point arithmetic. `dout` is an arbitrary input.
- `par_for_each` and `par_ford` parallelism. The loops are sequential, and the per-plane independence they rely on is stated in the postconditions.
- `GetForwardOutputTensor`, which is not part of this model. The forward output dimensions are parameters, required to start every window inside the padded extent (`WindowsStartInside`), and the backward pass takes them from `out`.
- `test_drive` and `main`.
- BackwardPooling.Backward: the :165 check is returned as `ok`; when it fails the source aborts. The `CHECK` at :142 is a precondition (dout and out share a shape).
- BackwardPooling.Backward: reading `indices.at` out of range is excluded by the clause of the precondition `BackwardInputs` that gives the index map exactly the output shape; decoding an offset to a cell outside the input plane is excluded by its `ValidIndices` clause. Neither is modelled as an exception or undefined behaviour.
- The index map is a 4-D array with the output's shape, not a flat vector addressed through `dout.desc.GetIndex`. The reference forward ignores its index argument, so the map is an input to backward.
- PoolingOperators.Final: floating-point rounding, NaN and infinities are not modelled. Values are exact reals, and the average-mode divisor must be nonzero (PoolSizeBounds shows it always is).
- 32-bit `int` overflow in the window arithmetic is not modelled; integers are unbounded.
