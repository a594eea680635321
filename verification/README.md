# axisight core in Dafny

axisight is an Android app that finds a small dark circular target in camera frames. It
collects the target's centre across frames, or from taps on the screen, in a bounded history.
It then fits a circle to the collected points and reports the radius and the fit's residual,
in pixels or in millimetres once the scale has been calibrated. This project models the
numerical core of that app and proves properties of the model:

- `BlobDetector` (`blob_detector.dfy`, with the grid and its sums in `blob_grid.dfy`): the
  dark-dot detector. Both entry points of the app are modelled: the camera Y plane and the
  ARGB bitmap. They sample a grid at stride `downscale`, and one function, `Detect`, runs the
  four passes over that grid:
  - statistics and a clamped threshold;
  - the dark cells and their centroid;
  - an inclusive area gate;
  - an eigenvalue circularity gate.
- `CircleFit` (`circle_fit.dfy`): the algebraic least-squares circle fit. It covers the
  accumulation of the normal equations, the radius and the root-mean-square residual.
- `LinearSolve` (`linear_solve.dfy`): `solve3x3`, the Gauss-Jordan elimination with partial
  pivoting that solves those equations, and its rejection of small pivots.
- `PointHistory` (`point_history.dfy`): the overlay's first-in first-out point queue, which
  holds at most `maxPoints` (240) points, and the three-point gate in front of the fit.
- `Controls` (`controls.dfy`): the four configuration sliders, the calibrate button, and the
  touch handler. The touch handler either calibrates millimetres per pixel from two taps or adds
  the tapped point to the overlay.
- Shared pieces:
  - `Config` (`detector_config.dfy`), the detector's settings with their defaults;
  - `Geometry`, points and squared distances;
  - `RealMath`, small real-number facts and the abstract square root;
  - `Wrappers`, `Option`.

The model follows these conventions:

- All arithmetic is exact `real`. The square root (`sqrt` and `hypot` in the app) is a
  function parameter. Lemmas that need its meaning require `IsSqrt(sqrt)`: the result is
  non-negative and squares back to the argument on non-negative arguments.
- Every rejection of the app (a `null` return) is `None`.
- An exception that a caller can provoke with valid state is also `None`: `removeFirst` on an
  empty queue when the capacity is zero or less.
- Two exceptions are ruled out by preconditions instead. A zero `downscale` makes `w / ds`
  throw `ArithmeticException`, and a sample offset outside the Y-plane buffer makes `bb.get`
  throw `IndexOutOfBoundsException`. The entry points require a non-zero `downscale` and, for
  the Y plane, a buffer that covers every sampled offset. `downscale` is 4 and no control
  changes it.
- Integer byte and colour handling is written out explicitly: `and 0xFF` on a signed byte, and
  `shr` on a signed 32-bit pixel.

Two behaviours of the code are easy to overlook, and the model keeps both:

- `minAreaPx < maxAreaPx` is not an invariant of the configuration. Only the maximum slider
  enforces it, and only when it moves. A later move of the minimum slider can cross the bounds,
  and then every frame is rejected (`Controls.SlidersCanCross`).
- The history can hold more than its capacity. `maxPoints` is a public, writable field, and
  each addition removes at most one point. A queue already above a lowered capacity therefore
  stays at its size instead of shrinking. `PointHistory.AddPoint` states this case, and
  `PointHistory.CapacityKept` assumes the queue starts within capacity.

## Model

| member | source | states |
|---|---|---|
| BlobDetector.Variance | app/src/main/java/com/etrsystems/axisight/BlobDetector.kt:37 | the variance is never negative, and equals `E[v²] - E[v]²` whenever that is non-negative |
| BlobDetector.VarianceIsMeanSquaredDeviation | app/src/main/java/com/etrsystems/axisight/BlobDetector.kt:21-37 | over exact reals the clamp at zero is never active, and the one-pass variance times the count is the sum of squared deviations from the mean |
| BlobGrid.RawVarianceNonNegative | app/src/main/java/com/etrsystems/axisight/BlobDetector.kt:36-37 | `sum2/n - mean²` is non-negative for every non-empty sample |
| BlobGrid.SumSqDevAtMean | app/src/main/java/com/etrsystems/axisight/BlobDetector.kt:30-37 | the squared deviations about the mean add up to `n` times the raw variance |
| BlobDetector.Threshold | app/src/main/java/com/etrsystems/axisight/BlobDetector.kt:38-39 | the threshold lies in [0, 255], and equals `mean - kStd·std` whenever that is in range |
| BlobDetector.ThresholdAtLeastMean | app/src/main/java/com/etrsystems/axisight/BlobDetector.kt:36-39 | with `kStd <= 0` and intensities in [0, 255], the threshold is at least the mean |
| BlobGrid.Cells | app/src/main/java/com/etrsystems/axisight/BlobDetector.kt:24-34 | the scan visits every grid position exactly with its sample, and nothing else |
| BlobGrid.CellsCount | app/src/main/java/com/etrsystems/axisight/BlobDetector.kt:23-35 | a grid of `dh` rows of `dw` samples yields `n = dh·dw` samples |
| BlobGrid.Dark | app/src/main/java/com/etrsystems/axisight/BlobDetector.kt:49 | a cell is kept exactly when its intensity is at most the threshold, as often as it occurs in the scan, and never otherwise |
| BlobDetector.DarkCells | app/src/main/java/com/etrsystems/axisight/BlobDetector.kt:41-55 | the dark cells are exactly the samples at or below the computed threshold, each with its multiplicity in the scan |
| BlobDetector.DarkNonEmptyWhenLenient | app/src/main/java/com/etrsystems/axisight/BlobDetector.kt:39-56 | with `kStd <= 0` some sample is dark, so the `count == 0` rejection cannot happen |
| BlobGrid.MeanAttained | app/src/main/java/com/etrsystems/axisight/BlobDetector.kt:36 | some sample lies at or below the mean |
| BlobDetector.AreaGateInclusive | app/src/main/java/com/etrsystems/axisight/BlobDetector.kt:58-59 | the area gate accepts exactly when `minAreaPx <= count·ds·ds <= maxAreaPx`, so both bounds accept |
| BlobDetector.CentroidWithin | app/src/main/java/com/etrsystems/axisight/BlobDetector.kt:61-62 | the centroid of cells inside a box lies inside that box |
| BlobDetector.Eigenvalues | app/src/main/java/com/etrsystems/axisight/BlobDetector.kt:81-85 | the two values add up to the trace |
| BlobDetector.EigenvaluesCorrect | app/src/main/java/com/etrsystems/axisight/BlobDetector.kt:81-85 | `l1 >= l2`, and their product is the determinant, so they are the covariance's eigenvalues and the clamp of `root` is never active |
| BlobDetector.AxisRatio | app/src/main/java/com/etrsystems/axisight/BlobDetector.kt:86 | the ratio lies in [0, 1], and is 0 when `l1 <= 1e-9` |
| BlobDetector.AxisRatioOfOrdered | app/src/main/java/com/etrsystems/axisight/BlobDetector.kt:86 | for ordered non-negative eigenvalues with `l1 > 1e-9`, the ratio is exactly `l2/l1` |
| BlobDetector.ShapeGate | app/src/main/java/com/etrsystems/axisight/BlobDetector.kt:87-89 | the circularity lies in [0, 1]; the gate rejects exactly when `minCircularity > 0` and the ratio is below `minCircularity²`, so a minimum at or below zero never rejects |
| BlobDetector.IsotropicSpreadIsRound | app/src/main/java/com/etrsystems/axisight/BlobDetector.kt:81-87 | equal variances and no covariance give axis ratio and circularity 1 |
| BlobDetector.SingleRowIsFlat | app/src/main/java/com/etrsystems/axisight/BlobDetector.kt:61-86 | dark cells confined to one grid row have axis ratio 0 |
| BlobDetector.SingleRowFailsShapeGate | app/src/main/java/com/etrsystems/axisight/BlobDetector.kt:87-89 | such cells fail every positive minimum circularity |
| BlobDetector.Detect | app/src/main/java/com/etrsystems/axisight/BlobDetector.kt:21-93 | an empty grid gives `None`; a point is returned exactly when the dark set is non-empty and passes the area and shape gates, and it is then the dark set's centroid scaled by `downscale` |
| BlobDetector.NoDarkRejects | app/src/main/java/com/etrsystems/axisight/BlobDetector.kt:41-56 | if no sample is at or below the threshold, the frame is rejected |
| BlobDetector.AreaRejects | app/src/main/java/com/etrsystems/axisight/BlobDetector.kt:58-59 | a dark area below `minAreaPx` or above `maxAreaPx` is rejected |
| BlobDetector.CrossedAreaBoundsRejectAll | app/src/main/java/com/etrsystems/axisight/BlobDetector.kt:58-59 | with `minAreaPx > maxAreaPx` every frame is rejected |
| BlobDetector.LenientShapeAccepts | app/src/main/java/com/etrsystems/axisight/BlobDetector.kt:56-93 | with `minCircularity <= 0`, dark cells within the area bounds always yield a point |
| BlobDetector.LineRejected | app/src/main/java/com/etrsystems/axisight/BlobDetector.kt:61-89 | a dark region confined to one grid row is rejected by any positive minimum circularity |
| BlobDetector.DetectWithinFrame | app/src/main/java/com/etrsystems/axisight/BlobDetector.kt:61-93 | a returned point lies in `[0, (dw-1)·ds] x [0, (dh-1)·ds]` |
| BlobDetector.Unsigned | app/src/main/java/com/etrsystems/axisight/BlobDetector.kt:29 | `and 0xFF` maps a signed byte into [0, 255]: unchanged when non-negative, plus 256 when negative |
| BlobDetector.YGrid | app/src/main/java/com/etrsystems/axisight/BlobDetector.kt:24-29 | grid cell `(i, j)` is the unsigned byte at offset `j·ds·rowStride + i·ds·pixelStride` |
| BlobDetector.DetectYPlane | app/src/main/java/com/etrsystems/axisight/BlobDetector.kt:9-19 | `w/ds <= 0` or `h/ds <= 0` gives `None` before any byte is read; otherwise the result is the grid algorithm on the sampled Y plane |
| BlobDetector.YSamplesInRange | app/src/main/java/com/etrsystems/axisight/BlobDetector.kt:29 | every Y-plane sample is an intensity in [0, 255] |
| BlobDetector.NegativeStrideRejects | app/src/main/java/com/etrsystems/axisight/BlobDetector.kt:16-19 | a negative `downscale` leaves no samples, so the frame is rejected |
| BlobDetector.Channel | app/src/main/java/com/etrsystems/axisight/BlobDetector.kt:113 | `pixel shr k and 0xFF` is a channel value in [0, 255] |
| BlobDetector.Luma | app/src/main/java/com/etrsystems/axisight/BlobDetector.kt:113 | the luma lies in [0, 255] |
| BlobDetector.ChannelsOfPack | app/src/main/java/com/etrsystems/axisight/BlobDetector.kt:113 | extracting the channels undoes packing an ARGB word, for either sign of the alpha byte |
| BlobDetector.GreyLuma | app/src/main/java/com/etrsystems/axisight/BlobDetector.kt:113 | a grey pixel's luma is its channel value, because the weights add up to 1 |
| BlobDetector.BitmapIndexInBounds | app/src/main/java/com/etrsystems/axisight/BlobDetector.kt:100-112 | every grid cell reads a pixel inside the `w·h` array |
| BlobDetector.BitmapGrid | app/src/main/java/com/etrsystems/axisight/BlobDetector.kt:110-113 | grid cell `(i, j)` is the luma of pixel `j·ds·w + i·ds` |
| BlobDetector.DetectBitmap | app/src/main/java/com/etrsystems/axisight/BlobDetector.kt:96-102 | `w/ds <= 0` or `h/ds <= 0` gives `None`; otherwise the result is the grid algorithm on the bitmap's luma grid |
| BlobDetector.BitmapSamplesInRange | app/src/main/java/com/etrsystems/axisight/BlobDetector.kt:113 | every bitmap sample is an intensity in [0, 255] |
| CircleFit.Fit | app/src/main/java/com/etrsystems/axisight/CircleFit.kt:8-9 | fewer than three points give `None` |
| CircleFit.ErrorSum | app/src/main/java/com/etrsystems/axisight/CircleFit.kt:41-45 | the sum of squared radial residuals is never negative |
| CircleFit.AccumulatedCount | app/src/main/java/com/etrsystems/axisight/CircleFit.kt:14 | the corner entry `a33` of the matrix is the point count `n` |
| CircleFit.NormalMatrixShape | app/src/main/java/com/etrsystems/axisight/CircleFit.kt:31-35 | the accumulated matrix is symmetric, with `a33 = n` |
| CircleFit.MatrixRows | app/src/main/java/com/etrsystems/axisight/CircleFit.kt:17-35 | each row of `A·u` is the sum over the points of that point's equation weighted by its coefficient |
| CircleFit.RhsEntries | app/src/main/java/com/etrsystems/axisight/CircleFit.kt:17-36 | each entry of `b` is the sum over the points of the coefficient times `x² + y²` |
| CircleFit.OnCircleSolves | app/src/main/java/com/etrsystems/axisight/CircleFit.kt:17-36 | if every point lies on the circle `(cx, cy, r)`, then `(cx, cy, r² - cx² - cy²)` solves `A·u = b` |
| CircleFit.CollinearKernel | app/src/main/java/com/etrsystems/axisight/CircleFit.kt:17-35 | points on a line `a·x + b·y + d = 0` give the matrix a non-zero kernel vector `(a/2, b/2, d)` |
| CircleFit.RadicandIsMeanSquaredDistance | app/src/main/java/com/etrsystems/axisight/CircleFit.kt:37-39 | for a solution of the system, `c + cx² + cy²` is the mean squared distance of the points from the centre, so the root's argument is never negative |
| CircleFit.SolutionCircle | app/src/main/java/com/etrsystems/axisight/CircleFit.kt:37-39 | the solution describes the returned circle, and the radius is the root-mean-square distance of the points from its centre |
| CircleFit.FitSolvesNormalEquations | app/src/main/java/com/etrsystems/axisight/CircleFit.kt:31-39 | a vector solves the normal equations exactly when it is the returned circle's parameters `(cx, cy, r² - cx² - cy²)` |
| CircleFit.FitRadius | app/src/main/java/com/etrsystems/axisight/CircleFit.kt:37-39 | the returned radius is non-negative, and its square times `n` is the sum of squared distances from the centre |
| CircleFit.FitRms | app/src/main/java/com/etrsystems/axisight/CircleFit.kt:41-46 | `rms >= 0`, and its square times `n` is the sum of squared radial residuals over all points |
| CircleFit.ErrorSumZero | app/src/main/java/com/etrsystems/axisight/CircleFit.kt:41-45 | points all at distance `r` from the centre have no residual |
| CircleFit.PerfectCircleRecovered | app/src/main/java/com/etrsystems/axisight/CircleFit.kt:8-48 | if every point lies on the circle `(cx, cy, r0)` and a fit is returned, the fit is exactly that circle with `rms = 0` |
| CircleFit.AxisPointsSolve | app/src/main/java/com/etrsystems/axisight/CircleFit.kt:50-70 | for the points `(±5, 0)` and `(0, ±5)` the normal equations are `diag(200, 200, 4)·u = (0, 0, 100)`, and the elimination accepts every pivot and returns `(0, 0, 25)` |
| CircleFit.AxisPointsFit | app/src/main/java/com/etrsystems/axisight/CircleFit.kt:8-48 | for the same four points a fit is returned, and it is the circle of radius 5 about the origin with `rms = 0` |
| CircleFit.CollinearRejected | app/src/main/java/com/etrsystems/axisight/CircleFit.kt:37 | collinear points are always rejected |
| LinearSolve.Augment | app/src/main/java/com/etrsystems/axisight/CircleFit.kt:51-52 | the augmented matrix `[A | b]` has exactly the solutions of `A·u = b` |
| LinearSolve.Pivot | app/src/main/java/com/etrsystems/axisight/CircleFit.kt:54-59 | the pivot row is at or below the diagonal, has the largest magnitude, and is the first such row |
| LinearSolve.Eliminate | app/src/main/java/com/etrsystems/axisight/CircleFit.kt:53-60 | a column is rejected exactly when every candidate pivot has magnitude below `1e-12` |
| LinearSolve.SwapPreserves | app/src/main/java/com/etrsystems/axisight/CircleFit.kt:61 | swapping the pivot row into place keeps the solution set and the reduced columns |
| LinearSolve.NormalizePreserves | app/src/main/java/com/etrsystems/axisight/CircleFit.kt:62-63 | dividing the pivot row by the pivot keeps the solution set |
| LinearSolve.NormalizeReduces | app/src/main/java/com/etrsystems/axisight/CircleFit.kt:62-63 | after the division the diagonal entry is 1, and the earlier columns stay reduced |
| LinearSolve.ClearPreserves | app/src/main/java/com/etrsystems/axisight/CircleFit.kt:64-67 | subtracting multiples of the pivot row keeps the solution set |
| LinearSolve.ClearReduces | app/src/main/java/com/etrsystems/axisight/CircleFit.kt:64-67 | after the subtraction, column `col` is an identity column: 1 on the diagonal, 0 elsewhere |
| LinearSolve.EliminatePreserves | app/src/main/java/com/etrsystems/axisight/CircleFit.kt:53-67 | one pass keeps the solution set and extends the reduced columns by one |
| LinearSolve.ReducePreserves | app/src/main/java/com/etrsystems/axisight/CircleFit.kt:53-68 | the whole elimination keeps the solution set and ends with the identity in the coefficient columns |
| LinearSolve.IdentitySolution | app/src/main/java/com/etrsystems/axisight/CircleFit.kt:69 | once the coefficients are the identity, the last column is the only solution |
| LinearSolve.Solve3x3 | app/src/main/java/com/etrsystems/axisight/CircleFit.kt:50-70 | a returned vector has three entries and satisfies `A·sol = b` |
| LinearSolve.SolutionIsUnique | app/src/main/java/com/etrsystems/axisight/CircleFit.kt:50-70 | a returned `sol` satisfies `A·sol = b`, and it is the only vector that does |
| LinearSolve.SingularRejected | app/src/main/java/com/etrsystems/axisight/CircleFit.kt:60 | a system with a non-zero kernel vector is always rejected |
| PointHistory.Clear | app/src/main/java/com/etrsystems/axisight/OverlayView.kt:36 | clearing leaves the queue empty and the capacity unchanged |
| PointHistory.AddPoint | app/src/main/java/com/etrsystems/axisight/OverlayView.kt:38-42 | the new point is the newest entry. Below capacity it is appended, with the earlier points kept in order. At or above capacity the oldest point is dropped first and the size stays the same. The addition throws exactly when the capacity is zero or less and the queue is empty |
| PointHistory.AddPointWindow | app/src/main/java/com/etrsystems/axisight/OverlayView.kt:38-40 | for a queue within a positive capacity, one addition leaves the last `maxPoints` of the old contents followed by the new point |
| PointHistory.SlidingWindow | app/src/main/java/com/etrsystems/axisight/OverlayView.kt:38-40 | adding a sequence of points leaves exactly the last `maxPoints` of the old contents followed by the new points, in order |
| PointHistory.PointsInInsertionOrder | app/src/main/java/com/etrsystems/axisight/OverlayView.kt:36-46 | after a clear, the queue holds the last `maxPoints` of the added points, in insertion order |
| PointHistory.OldestDropped | app/src/main/java/com/etrsystems/axisight/OverlayView.kt:38-40 | after `maxPoints + k` additions to an empty queue, exactly the last `maxPoints` points are held |
| PointHistory.CapacityKept | app/src/main/java/com/etrsystems/axisight/OverlayView.kt:38-40 | a queue within a positive capacity stays within it, whatever is added |
| PointHistory.ZeroCapacityThrows | app/src/main/java/com/etrsystems/axisight/OverlayView.kt:39 | with capacity 0, the first addition to an empty queue throws |
| PointHistory.DrawnFit | app/src/main/java/com/etrsystems/axisight/OverlayView.kt:70-72 | a circle is drawn only when at least three points are held |
| PointHistory.DrawnFitIsFit | app/src/main/java/com/etrsystems/axisight/OverlayView.kt:70-72 | the gate never changes the outcome: the drawn fit is the fit of the held points |
| Controls.SetMinArea | app/src/main/java/com/etrsystems/axisight/MainActivity.kt:149-151 | the minimum area is at least 1 and at least the progress, equal to one of them, and no other field changes |
| Controls.MinAreaValidity | app/src/main/java/com/etrsystems/axisight/MainActivity.kt:149-151 | on a valid configuration, the minimum slider keeps it valid exactly when the progress is below the maximum area |
| Controls.SetMaxArea | app/src/main/java/com/etrsystems/axisight/MainActivity.kt:152-154 | the maximum area is above the current minimum and at least the progress, equal to one of them, and no other field changes |
| Controls.MaxAreaRestoresValidity | app/src/main/java/com/etrsystems/axisight/MainActivity.kt:152-154 | the maximum slider makes the area bounds valid, whatever the progress |
| Controls.SlidersCanCross | app/src/main/java/com/etrsystems/axisight/MainActivity.kt:149-154 | maximum to 300 and then minimum to 500 leaves `minAreaPx > maxAreaPx`, and the detector then rejects every frame |
| Controls.SetCircularity | app/src/main/java/com/etrsystems/axisight/MainActivity.kt:155-157 | the minimum circularity always lies in [0, 1], and no other field changes |
| Controls.CircularityReading | app/src/main/java/com/etrsystems/axisight/MainActivity.kt:155-157 | for progress in 0..100 the circularity is the progress in hundredths; below that it is 0, and above that it is 1 |
| Controls.CircularityMonotone | app/src/main/java/com/etrsystems/axisight/MainActivity.kt:155-157 | a larger progress never gives a smaller circularity |
| Controls.SetKStd | app/src/main/java/com/etrsystems/axisight/MainActivity.kt:158 | `kStd` times 100 is the progress, with no clamp, and no other field changes |
| Controls.PressCalibrate | app/src/main/java/com/etrsystems/axisight/MainActivity.kt:135 | the button enters calibration mode with no stored first point, and nothing else changes |
| Controls.Tap | app/src/main/java/com/etrsystems/axisight/MainActivity.kt:173-195 | a tap in calibration mode never touches the overlay; no tap changes the configuration, the known length or the switches |
| Controls.TapDistanceMeaning | app/src/main/java/com/etrsystems/axisight/MainActivity.kt:182 | `hypot` of the tap offsets is non-negative, squares to the squared distance, and is positive exactly when the taps differ |
| Controls.FirstTapStores | app/src/main/java/com/etrsystems/axisight/MainActivity.kt:178-179 | the first calibration tap stores the point, stays in calibration mode, and leaves the scale unchanged |
| Controls.SecondTapCalibrates | app/src/main/java/com/etrsystems/axisight/MainActivity.kt:180-189 | the second tap always leaves calibration mode and clears the stored point. The scale times the tap distance becomes `knownMm` when the taps differ, and stays unchanged when they coincide |
| Controls.TwoTapCalibration | app/src/main/java/com/etrsystems/axisight/MainActivity.kt:178-189 | the button followed by taps at two distinct points sets a scale whose product with their distance is `knownMm`, and leaves the overlay untouched |
| Controls.TapAddsPoint | app/src/main/java/com/etrsystems/axisight/MainActivity.kt:190-192 | outside calibration mode, a tap adds the point exactly when detection is manual or the target is simulated; otherwise nothing changes |
| Controls.TapChangesOverlayOnlyWhenAdding | app/src/main/java/com/etrsystems/axisight/MainActivity.kt:177-192 | if a tap changes the overlay, the tap was outside calibration mode with manual detection or simulation, and the tapped point is now the newest entry |
| Controls.InitialTapIgnored | app/src/main/java/com/etrsystems/axisight/MainActivity.kt:190-192 | on a freshly created screen detection is automatic, so a tap changes nothing |

## Left out

- Camera acquisition is not modelled: CameraX, the USB/UVC monitor, the RTSP player and the
  surface callbacks are device I/O and lifecycle.
- Permission handling is not modelled.
- Canvas drawing and text formatting are not modelled, except for the three-point fit gate in
  `onDraw`.
- The simulated-target animation is not modelled. It uses `cos`, `sin` and timed callbacks.
- CSV export is not modelled. It is file I/O.
- The text fields for millimetres per pixel and for the known length are not modelled. They
  parse user text into a number. `knownMm` is a field of the session state, and the model
  treats it as given.
- The switches that set `simulate` and `autoDetect` are not modelled. They also restart cameras.
  Their values are fields of the session state.
- Floating point is not modelled. Arithmetic is exact `real`, so IEEE round-off, the
  `toFloat()` of the returned centre, and `Float` tap coordinates are not represented. Near
  degenerate inputs, the `1e-9` and `1e-12` guards are modelled as written, but not as the
  round-off guards they are in the app.
- The square root is a parameter. Its value on a negative argument is left unconstrained. The
  model proves that no negative argument reaches it in the fit's radius or in the variance.
- Kotlin `Int` overflow is not modelled. This covers `count·ds·ds`, `cfg.minAreaPx + 1` and the
  buffer offsets, which are unbounded integers here.
- `Controls.Tap` is a touch-down. The app ignores every other motion event.
- The overlay's `mmPerPx` copy is the session's one `mmPerPx` field. The app assigns both
  together.
- `CircleFit.Sums` counts `a33` up by one per point. The app assigns `n` once, and
  `CircleFit.AccumulatedCount` proves the two agree.
- `BlobDetector.Detect` takes the sampled grid. The two samplers (`YGrid`, `BitmapGrid`)
  produce the grid, and the app's interleaving of reads and sums is not represented.
- `PointHistory.CapacityKept` requires the queue to start within its capacity. A queue above a
  lowered capacity is covered only by `PointHistory.AddPoint`'s same-size clause.
- `CircleFit.PerfectCircleRecovered` assumes a fit is returned. Whether a non-collinear point
  set passes the `1e-12` pivot guard depends on magnitudes that exact reals do not bound. For
  one concrete set, the four points at distance 5 on the axes, `CircleFit.AxisPointsFit`
  shows that the fit is returned.
- `BlobDetector.DetectYPlane` requires a non-zero `downscale` and a buffer that covers every
  sampled offset. It does not model the `ArithmeticException` and `IndexOutOfBoundsException`
  that the code throws otherwise.
- `BlobDetector.DetectBitmap` requires a non-zero `downscale` and a pixel array of exactly
  `width·height` entries. It does not model the `ArithmeticException` of a zero `downscale`.
