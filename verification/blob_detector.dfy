/** The dark-dot detector. Both entry points of the app (a camera Y plane with row and
    pixel strides, and an ARGB bitmap read through luma weights) sample a grid of `dh` rows of
    `dw` intensities at stride `downscale` and then run the same four passes over it:

    1. mean and variance of all samples, and the dark threshold `mean - kStd * std` clamped
       to [0, 255];
    2. the dark cells (intensity at most the threshold), their count and centroid;
    3. an inclusive gate on the dark area `count * downscale * downscale`;
    4. a shape gate on the square root of the ratio of the eigenvalues of the dark cells'
       2x2 covariance.

    `Detect` is that algorithm over an already sampled grid; `DetectYPlane` and
    `DetectBitmap` are the two samplers. Every rejection is `None`. */
module BlobDetector {
  import opened Wrappers
  import opened RealMath
  import opened Geometry
  import opened BlobGrid
  import opened Config

  // ---------------------------------------------------------------------------------------
  // Pass 1: statistics and threshold

  /** Population variance from the mean `mean` and the mean square `meanSq`, computed as
      `E[v²] - E[v]²` and clamped at zero. */
  function Variance(mean: real, meanSq: real): (variance: real)
    ensures variance >= 0.0
    ensures meanSq - mean * mean >= 0.0 ==> variance == meanSq - mean * mean
  {
    Max(0.0, meanSq - mean * mean)
  }

  /** Over exact reals the clamp at zero in `Variance` is never active, and the one-pass value
      is the mean squared deviation from the mean (times the count). */
  lemma VarianceIsMeanSquaredDeviation(cs: seq<Cell>, mean: real, meanSq: real)
    requires |cs| > 0
    requires (|cs| as real) * mean == SumV(cs) && (|cs| as real) * meanSq == SumSqV(cs)
    ensures Variance(mean, meanSq) == meanSq - mean * mean
    ensures SumSqDev(cs, mean) == (|cs| as real) * (meanSq - mean * mean)
  {
    RawVarianceNonNegative(cs, mean, meanSq);
    SumSqDevAtMean(cs, mean, meanSq);
  }

  /** The dark threshold: `mean - kStd * std` clamped to the intensity range. */
  function Threshold(cs: seq<Cell>, kStd: real, sqrt: real -> real): (thr: real)
    requires |cs| > 0
    ensures 0.0 <= thr <= 255.0
    ensures 0.0 <= Mean(cs) - kStd * sqrt(Variance(Mean(cs), MeanSq(cs))) <= 255.0 ==>
      thr == Mean(cs) - kStd * sqrt(Variance(Mean(cs), MeanSq(cs)))
  {
    Clamp(Mean(cs) - kStd * sqrt(Variance(Mean(cs), MeanSq(cs))), 0.0, 255.0)
  }

  /** With `kStd <= 0` and intensities in [0, 255] the threshold is never below the mean. */
  lemma ThresholdAtLeastMean(cs: seq<Cell>, kStd: real, sqrt: real -> real)
    requires IsSqrt(sqrt)
    requires |cs| > 0 && kStd <= 0.0
    requires forall c :: c in cs ==> 0.0 <= c.v <= 255.0
    ensures Mean(cs) <= Threshold(cs, kStd, sqrt)
  {
    var s := sqrt(Variance(Mean(cs), MeanSq(cs)));
    assert s >= 0.0;
    NonPositiveTimesNonNegative(kStd, s);
    SumVBounds(cs, 0.0, 255.0);
    MeanBounds(SumV(cs), |cs| as real, 0.0, 255.0);
  }

  lemma NonPositiveTimesNonNegative(k: real, s: real)
    requires k <= 0.0 && s >= 0.0
    ensures k * s <= 0.0
  {
    if k < 0.0 && s > 0.0 {
      MulPos(-k, s);
    }
  }

  /** A quotient `s / n` stays within the bounds `s` obeys scaled by `n`. */
  lemma MeanBounds(s: real, n: real, lo: real, hi: real)
    requires n > 0.0
    requires n * lo <= s <= n * hi
    ensures lo <= s / n <= hi
  {
    var q := s / n;
    assert s == n * q;
    if q < lo {
      MulPos(n, lo - q);
      assert false;
    }
    if q > hi {
      MulPos(n, q - hi);
      assert false;
    }
  }

  /** The dark cells of the grid's samples for `cfg`. */
  function DarkCells(cs: seq<Cell>, cfg: DetectorConfig, sqrt: real -> real): (dark: seq<Cell>)
    requires |cs| > 0
    ensures forall c :: c in dark <==> c in cs && c.v <= Threshold(cs, cfg.kStd, sqrt)
    ensures forall c :: (multiset(dark)[c]
                         == if c.v <= Threshold(cs, cfg.kStd, sqrt) then multiset(cs)[c] else 0)
  {
    Dark(cs, Threshold(cs, cfg.kStd, sqrt))
  }

  /** With `kStd <= 0` some sample is dark: the one at or below the mean. */
  lemma DarkNonEmptyWhenLenient(cs: seq<Cell>, cfg: DetectorConfig, sqrt: real -> real)
    requires IsSqrt(sqrt)
    requires |cs| > 0 && cfg.kStd <= 0.0
    requires forall c :: c in cs ==> 0.0 <= c.v <= 255.0
    ensures |DarkCells(cs, cfg, sqrt)| > 0
  {
    MeanAttained(cs);
    var c :| c in cs && c.v <= SumV(cs) / (|cs| as real);
    ThresholdAtLeastMean(cs, cfg.kStd, sqrt);
    assert c in DarkCells(cs, cfg, sqrt);
  }

  // ---------------------------------------------------------------------------------------
  // Passes 2 and 3: centroid and area gate

  /** The dark area in full-resolution pixels. */
  function Area(count: nat, ds: int): int
  {
    count * ds * ds
  }

  /** The area gate; both bounds accept. */
  predicate AreaAccepted(count: nat, cfg: DetectorConfig)
  {
    !(Area(count, cfg.downscale) < cfg.minAreaPx || Area(count, cfg.downscale) > cfg.maxAreaPx)
  }

  lemma AreaGateInclusive(count: nat, cfg: DetectorConfig)
    ensures AreaAccepted(count, cfg) <==>
      cfg.minAreaPx <= count * cfg.downscale * cfg.downscale <= cfg.maxAreaPx
  {
  }

  /** The mean grid position of `cs`. */
  function Centroid(cs: seq<Cell>): Point
    requires |cs| > 0
  {
    Point(SumCol(cs) / (|cs| as real), SumRow(cs) / (|cs| as real))
  }

  /** The centroid lies in the box spanned by the cells. */
  lemma CentroidWithin(cs: seq<Cell>, maxCol: nat, maxRow: nat)
    requires |cs| > 0
    requires forall c :: c in cs ==> c.col <= maxCol && c.row <= maxRow
    ensures 0.0 <= Centroid(cs).x <= maxCol as real
    ensures 0.0 <= Centroid(cs).y <= maxRow as real
  {
    SumColBounds(cs, maxCol as real);
    SumRowBounds(cs, maxRow as real);
    MeanBounds(SumCol(cs), |cs| as real, 0.0, maxCol as real);
    MeanBounds(SumRow(cs), |cs| as real, 0.0, maxRow as real);
  }

  // ---------------------------------------------------------------------------------------
  // Pass 4: covariance, eigenvalues and the shape gate

  /** The normalised second moments of the dark cells about their centroid. */
  datatype Moments = Moments(sxx: real, syy: real, sxy: real)

  function CovarianceOf(cs: seq<Cell>): Moments
    requires |cs| > 0
  {
    var n := |cs| as real;
    var p := Centroid(cs);
    Moments(SumDxx(cs, p.x) / n, SumDyy(cs, p.y) / n, SumDxy(cs, p.x, p.y) / n)
  }

  datatype Eigen = Eigen(l1: real, l2: real)

  function Trace(m: Moments): real
  {
    m.sxx + m.syy
  }

  function Det(m: Moments): real
  {
    m.sxx * m.syy - m.sxy * m.sxy
  }

  /** `trace²/4 - det`, the square of half the gap between the two eigenvalues. */
  function Disc(trace: real, det: real): real
  {
    trace * trace / 4.0 - det
  }

  /** The closed-form eigenvalues of `[[sxx, sxy], [sxy, syy]]`, the discriminant clamped at
      zero. */
  function Eigenvalues(m: Moments, sqrt: real -> real): (e: Eigen)
    ensures e.l1 + e.l2 == Trace(m)
  {
    var root := Max(0.0, Disc(Trace(m), Det(m)));
    Eigen(Trace(m) / 2.0 + sqrt(root), Trace(m) / 2.0 - sqrt(root))
  }

  /** The discriminant of a symmetric 2x2 matrix is never negative, so the clamp is inactive
      and the two values really are the eigenvalues: they come in order and multiply to the
      determinant (their sum is the trace by construction). */
  lemma EigenvaluesCorrect(m: Moments, sqrt: real -> real)
    requires IsSqrt(sqrt)
    ensures Eigenvalues(m, sqrt).l1 >= Eigenvalues(m, sqrt).l2
    ensures Eigenvalues(m, sqrt).l1 * Eigenvalues(m, sqrt).l2 == Det(m)
  {
    DiscNonNegative(m.sxx, m.syy, m.sxy);
    var s := sqrt(Max(0.0, Disc(Trace(m), Det(m))));
    assert s >= 0.0 && s * s == Disc(Trace(m), Det(m));
    RootProduct(Eigenvalues(m, sqrt), Trace(m), Det(m), s);
  }

  lemma DiscNonNegative(a: real, b: real, c: real)
    ensures Disc(a + b, a * b - c * c) >= 0.0
  {
    var h := (a - b) / 2.0;
    calc {
      Disc(a + b, a * b - c * c);
    ==
      (a + b) * (a + b) / 4.0 - (a * b - c * c);
    ==
      h * h + c * c;
    >= { SumOfSquares(h, c); }
      0.0;
    }
  }

  lemma RootProduct(e: Eigen, trace: real, det: real, s: real)
    requires e == Eigen(trace / 2.0 + s, trace / 2.0 - s)
    requires s * s == Disc(trace, det)
    ensures e.l1 * e.l2 == det
  {
    calc {
      e.l1 * e.l2;
    ==
      (trace / 2.0 + s) * (trace / 2.0 - s);
    ==
      trace * trace / 4.0 - s * s;
    ==
      det;
    }
  }

  /** The minor-to-major eigenvalue ratio clipped to [0, 1]; zero for a degenerate spread. */
  function AxisRatio(e: Eigen): (ratio: real)
    ensures 0.0 <= ratio <= 1.0
    ensures e.l1 <= 0.000000001 ==> ratio == 0.0
  {
    if e.l1 > 0.000000001 then Max(0.0, Min(1.0, e.l2 / e.l1)) else 0.0
  }

  lemma AxisRatioOfOrdered(e: Eigen)
    requires e.l1 > 0.000000001 && 0.0 <= e.l2 <= e.l1
    ensures AxisRatio(e) * e.l1 == e.l2
  {
    MeanBounds(e.l2, e.l1, 0.0, 1.0);
  }

  /** The circularity estimate of a set of dark cells. */
  function Circularity(cs: seq<Cell>, sqrt: real -> real): real
    requires |cs| > 0
  {
    sqrt(AxisRatio(Eigenvalues(CovarianceOf(cs), sqrt)))
  }

  /** The shape gate rejects exactly when the ratio is below the square of a positive
      minimum circularity; a minimum at or below zero never rejects. */
  lemma ShapeGate(cs: seq<Cell>, minCircularity: real, sqrt: real -> real)
    requires IsSqrt(sqrt)
    requires |cs| > 0
    ensures 0.0 <= Circularity(cs, sqrt) <= 1.0
    ensures Circularity(cs, sqrt) < minCircularity <==>
      0.0 < minCircularity &&
      AxisRatio(Eigenvalues(CovarianceOf(cs), sqrt)) < minCircularity * minCircularity
  {
    var ratio := AxisRatio(Eigenvalues(CovarianceOf(cs), sqrt));
    SqrtBelowIff(sqrt, ratio, minCircularity);
    SqrtMonotone(sqrt, ratio, 1.0);
    SqrtOfSquare(sqrt, 1.0);
  }

  /** A perfectly isotropic spread has circularity 1 and passes every gate up to 1. */
  lemma IsotropicSpreadIsRound(m: Moments, sqrt: real -> real)
    requires IsSqrt(sqrt)
    requires m.sxx == m.syy && m.sxx > 0.000000001 && m.sxy == 0.0
    ensures AxisRatio(Eigenvalues(m, sqrt)) == 1.0
    ensures sqrt(AxisRatio(Eigenvalues(m, sqrt))) == 1.0
  {
    var a := m.sxx;
    calc {
      m.sxx * m.syy - m.sxy * m.sxy;
    ==
      a * a;
    }
    assert (a + a) * (a + a) / 4.0 - a * a == 0.0;
    SqrtOfSquare(sqrt, 0.0);
    SqrtOfSquare(sqrt, 1.0);
    assert Eigenvalues(m, sqrt) == Eigen(a, a);
  }

  /** Dark cells that all lie in one grid row have no vertical spread, so their axis ratio is
      zero. */
  lemma SingleRowIsFlat(cs: seq<Cell>, row: nat, sqrt: real -> real)
    requires IsSqrt(sqrt)
    requires |cs| > 0
    requires forall c :: c in cs ==> c.row == row
    ensures AxisRatio(Eigenvalues(CovarianceOf(cs), sqrt)) == 0.0
  {
    var n := |cs| as real;
    var p := Centroid(cs);
    assert p.y == row as real by {
      SumRowConstant(cs, row);
      MeanBounds(SumRow(cs), n, row as real, row as real);
    }
    var m := CovarianceOf(cs);
    assert m.syy == 0.0 by {
      SumDyyZero(cs, row);
      ZeroQuotient(SumDyy(cs, p.y), n);
    }
    assert m.sxy == 0.0 by {
      SumDxyZero(cs, p.x, row);
      ZeroQuotient(SumDxy(cs, p.x, p.y), n);
    }
    assert m.sxx >= 0.0 by {
      SumDxxNonNegative(cs, p.x);
      NonNegativeQuotient(SumDxx(cs, p.x), n);
    }
    assert m == Moments(m.sxx, 0.0, 0.0);
    FlatEigenvalues(m.sxx, sqrt);
    var e := Eigenvalues(m, sqrt);
    if e.l1 > 0.000000001 {
      ZeroQuotient(e.l2, e.l1);
    }
  }

  lemma ZeroQuotient(s: real, n: real)
    requires s == 0.0 && n != 0.0
    ensures s / n == 0.0
  {
  }

  /** A spread along one axis only: the smaller eigenvalue is zero. */
  lemma FlatEigenvalues(a: real, sqrt: real -> real)
    requires IsSqrt(sqrt)
    requires a >= 0.0
    ensures Eigenvalues(Moments(a, 0.0, 0.0), sqrt).l2 == 0.0
  {
    var m := Moments(a, 0.0, 0.0);
    var h := a / 2.0;
    assert Trace(m) == a;
    assert Det(m) == 0.0;
    calc {
      Disc(a, 0.0);
    ==
      a * a / 4.0;
    ==
      h * h;
    }
    SquareNonNegative(h);
    SqrtOfSquare(sqrt, h);
  }

  /** ... and so any positive minimum circularity rejects them. */
  lemma SingleRowFailsShapeGate(cs: seq<Cell>, row: nat, minCircularity: real,
                                sqrt: real -> real)
    requires IsSqrt(sqrt)
    requires |cs| > 0 && minCircularity > 0.0
    requires forall c :: c in cs ==> c.row == row
    ensures Circularity(cs, sqrt) < minCircularity
  {
    SingleRowIsFlat(cs, row, sqrt);
    ShapeGate(cs, minCircularity, sqrt);
    ZeroRatioFails(Circularity(cs, sqrt), AxisRatio(Eigenvalues(CovarianceOf(cs), sqrt)),
                   minCircularity);
  }

  lemma ZeroRatioFails(circularity: real, ratio: real, minCircularity: real)
    requires circularity < minCircularity <==>
      0.0 < minCircularity && ratio < minCircularity * minCircularity
    requires ratio == 0.0 && minCircularity > 0.0
    ensures circularity < minCircularity
  {
    calc {
      ratio;
    ==
      0.0;
    < { MulPos(minCircularity, minCircularity); }
      minCircularity * minCircularity;
    }
  }

  lemma {:induction false} SumRowConstant(cs: seq<Cell>, row: nat)
    requires forall c :: c in cs ==> c.row == row
    ensures SumRow(cs) == (|cs| as real) * (row as real)
  {
    if |cs| > 0 {
      var rest := SumRow(cs[1..]);
      assert rest == (|cs[1..]| as real) * (row as real) by {
        assert forall c :: c in cs[1..] ==> c in cs;
        SumRowConstant(cs[1..], row);
      }
      StepBounds(|cs| as real, |cs[1..]| as real, row as real, row as real, cs[0].row as real, rest, SumRow(cs));
    }
  }

  lemma {:induction false} SumDyyZero(cs: seq<Cell>, row: nat)
    requires forall c :: c in cs ==> c.row == row
    ensures SumDyy(cs, row as real) == 0.0
  {
    if |cs| > 0 {
      assert forall c :: c in cs[1..] ==> c in cs;
      SumDyyZero(cs[1..], row);
    }
  }

  lemma {:induction false} SumDxyZero(cs: seq<Cell>, cx: real, row: nat)
    requires forall c :: c in cs ==> c.row == row
    ensures SumDxy(cs, cx, row as real) == 0.0
  {
    if |cs| > 0 {
      assert forall c :: c in cs[1..] ==> c in cs;
      SumDxyZero(cs[1..], cx, row);
    }
  }

  lemma {:induction false} SumDxxNonNegative(cs: seq<Cell>, cx: real)
    ensures SumDxx(cs, cx) >= 0.0
  {
    if |cs| > 0 {
      SumDxxNonNegative(cs[1..], cx);
      var d := cs[0].col as real - cx;
      assert d * d >= 0.0;
    }
  }

  // ---------------------------------------------------------------------------------------
  // The whole detector over a sampled grid

  /** A grid position scaled back to full-resolution pixels. */
  function ToFrame(p: Point, ds: int): Point
  {
    Point(p.x * ds as real, p.y * ds as real)
  }

  /** Runs the four passes over the grid `g` (row `j`, column `i`) and returns the dot centre
      in full-resolution pixel coordinates. */
  function Detect(g: seq<seq<real>>, cfg: DetectorConfig, sqrt: real -> real): (r: Option<Point>)
    ensures |Cells(g)| == 0 ==> r == None
    ensures r.Some? ==>
      var dark := DarkCells(Cells(g), cfg, sqrt);
      |dark| > 0
      && AreaAccepted(|dark|, cfg)
      && !(Circularity(dark, sqrt) < cfg.minCircularity)
      && r.value == ToFrame(Centroid(dark), cfg.downscale)
    ensures |Cells(g)| > 0 ==>
      var dark := DarkCells(Cells(g), cfg, sqrt);
      |dark| > 0 && AreaAccepted(|dark|, cfg) && !(Circularity(dark, sqrt) < cfg.minCircularity)
      ==> r == Some(ToFrame(Centroid(dark), cfg.downscale))
  {
    var cs := Cells(g);
    if |cs| == 0 then None
    else
      var dark := DarkCells(cs, cfg, sqrt);
      if |dark| == 0 then None
      else if !AreaAccepted(|dark|, cfg) then None
      else if Circularity(dark, sqrt) < cfg.minCircularity then None
      else
        Some(ToFrame(Centroid(dark), cfg.downscale))
  }

  /** No sample at or below the threshold: rejected. */
  lemma NoDarkRejects(g: seq<seq<real>>, cfg: DetectorConfig, sqrt: real -> real)
    requires |Cells(g)| > 0
    requires forall c :: c in Cells(g) ==> c.v > Threshold(Cells(g), cfg.kStd, sqrt)
    ensures Detect(g, cfg, sqrt) == None
  {
  }

  /** Outside the area bounds: rejected. */
  lemma AreaRejects(g: seq<seq<real>>, cfg: DetectorConfig, sqrt: real -> real)
    requires |Cells(g)| > 0
    requires var n := |DarkCells(Cells(g), cfg, sqrt)|;
      n * cfg.downscale * cfg.downscale < cfg.minAreaPx
      || n * cfg.downscale * cfg.downscale > cfg.maxAreaPx
    ensures Detect(g, cfg, sqrt) == None
  {
  }

  /** A configuration whose minimum area exceeds its maximum rejects every frame. */
  lemma CrossedAreaBoundsRejectAll(g: seq<seq<real>>, cfg: DetectorConfig, sqrt: real -> real)
    requires cfg.minAreaPx > cfg.maxAreaPx
    ensures Detect(g, cfg, sqrt) == None
  {
  }

  /** With a non-positive minimum circularity the shape gate never rejects: dark cells in
      the area bounds always yield a point. */
  lemma LenientShapeAccepts(g: seq<seq<real>>, cfg: DetectorConfig, sqrt: real -> real)
    requires IsSqrt(sqrt)
    requires |Cells(g)| > 0 && cfg.minCircularity <= 0.0
    requires |DarkCells(Cells(g), cfg, sqrt)| > 0
    requires AreaAccepted(|DarkCells(Cells(g), cfg, sqrt)|, cfg)
    ensures Detect(g, cfg, sqrt).Some?
  {
    ShapeGate(DarkCells(Cells(g), cfg, sqrt), cfg.minCircularity, sqrt);
  }

  /** A dark region confined to one grid row is a line, not a dot: any positive minimum
      circularity rejects it. */
  lemma LineRejected(g: seq<seq<real>>, row: nat, cfg: DetectorConfig, sqrt: real -> real)
    requires IsSqrt(sqrt)
    requires |Cells(g)| > 0 && cfg.minCircularity > 0.0
    requires forall c :: c in DarkCells(Cells(g), cfg, sqrt) ==> c.row == row
    ensures Detect(g, cfg, sqrt) == None
  {
    var dark := DarkCells(Cells(g), cfg, sqrt);
    if |dark| > 0 {
      SingleRowFailsShapeGate(dark, row, cfg.minCircularity, sqrt);
    }
  }

  /** A returned point lies in the sampled frame `[0, (dw-1)*ds] x [0, (dh-1)*ds]`. */
  lemma DetectWithinFrame(g: seq<seq<real>>, dw: nat, cfg: DetectorConfig, sqrt: real -> real)
    requires IsGrid(g, dw) && cfg.downscale > 0
    requires Detect(g, cfg, sqrt).Some?
    ensures dw > 0 && |g| > 0
    ensures var p := Detect(g, cfg, sqrt).value;
      0.0 <= p.x <= ((dw - 1) * cfg.downscale) as real
      && 0.0 <= p.y <= ((|g| - 1) * cfg.downscale) as real
  {
    var cs := Cells(g);
    var dark := DarkCells(cs, cfg, sqrt);
    assert |dark| > 0 && Detect(g, cfg, sqrt).value == ToFrame(Centroid(dark), cfg.downscale);
    assert dw > 0 && |g| > 0 by { assert dark[0] in cs; }
    var c := Centroid(dark);
    assert 0.0 <= c.x <= (dw - 1) as real && 0.0 <= c.y <= (|g| - 1) as real by {
      DarkCellsInGrid(g, dw, dark);
      CentroidWithin(dark, dw - 1, |g| - 1);
    }
    var p := ToFrame(c, cfg.downscale);
    assert 0.0 <= p.x <= ((dw - 1) * cfg.downscale) as real && 0.0 <= p.y <= ((|g| - 1) * cfg.downscale) as real by {
      FrameBounds(c, dw - 1, |g| - 1, cfg.downscale);
    }
  }

  lemma DarkCellsInGrid(g: seq<seq<real>>, dw: nat, dark: seq<Cell>)
    requires IsGrid(g, dw) && dw > 0 && |g| > 0
    requires forall c :: c in dark ==> c in Cells(g)
    ensures forall c :: c in dark ==> c.col <= dw - 1 && c.row <= |g| - 1
  {
  }

  /** Scaling a position in `[0, maxCol] x [0, maxRow]` by a positive stride. */
  lemma FrameBounds(p: Point, maxCol: nat, maxRow: nat, ds: int)
    requires ds > 0
    requires 0.0 <= p.x <= maxCol as real && 0.0 <= p.y <= maxRow as real
    ensures 0.0 <= ToFrame(p, ds).x <= (maxCol * ds) as real
    ensures 0.0 <= ToFrame(p, ds).y <= (maxRow * ds) as real
  {
    ScaleWithin(p.x, maxCol as real, ds as real);
    ScaleWithin(p.y, maxRow as real, ds as real);
    CastProduct(maxCol, ds);
    CastProduct(maxRow, ds);
  }

  lemma ScaleWithin(x: real, hi: real, ds: real)
    requires 0.0 <= x <= hi && ds > 0.0
    ensures 0.0 <= x * ds <= hi * ds
  {
    if x > 0.0 { MulPos(x, ds); }
    if x < hi { MulPos(hi - x, ds); }
  }

  lemma CastProduct(a: int, b: int)
    ensures (a * b) as real == a as real * b as real
  {
  }

  // ---------------------------------------------------------------------------------------
  // Sampling: the camera Y plane

  /** A signed 8-bit buffer element. */
  type SByte = b: int | -128 <= b < 128

  /** `b.toInt() and 0xFF`: the unsigned value of a signed byte. */
  function Unsigned(b: SByte): (v: int)
    ensures 0 <= v <= 255
    ensures b >= 0 ==> v == b
    ensures b < 0 ==> v == b + 256
  {
    b % 256
  }

  /** Buffer offset of grid cell `(i, j)`: source row `j*ds` at `rowStride`, source column
      `i*ds` at `pixelStride`. */
  function YIndex(j: int, i: int, rowStride: int, pixelStride: int, ds: int): int
  {
    (j * ds) * rowStride + (i * ds) * pixelStride
  }

  /** Every offset the `dh x dw` sampling reads is inside the buffer. */
  ghost predicate YCovers(buf: seq<SByte>, dw: int, dh: int, rowStride: int, pixelStride: int, ds: int)
  {
    forall j, i :: 0 <= j < dh && 0 <= i < dw ==>
      0 <= YIndex(j, i, rowStride, pixelStride, ds) < |buf|
  }

  function YGrid(buf: seq<SByte>, dw: nat, dh: nat, rowStride: int, pixelStride: int, ds: int)
    : (g: seq<seq<real>>)
    requires YCovers(buf, dw, dh, rowStride, pixelStride, ds)
    ensures |g| == dh && IsGrid(g, dw)
    ensures forall j, i :: 0 <= j < dh && 0 <= i < dw ==>
      g[j][i] == Unsigned(buf[YIndex(j, i, rowStride, pixelStride, ds)]) as real
  {
    seq(dh, j requires 0 <= j < dh =>
      seq(dw, i requires 0 <= i < dw =>
        Unsigned(buf[YIndex(j, i, rowStride, pixelStride, ds)]) as real))
  }

  /** The Y-plane entry point. A frame narrower or lower than one stride is rejected before
      any byte is read. */
  function DetectYPlane(buf: seq<SByte>, width: nat, height: nat, rowStride: int,
                        pixelStride: int, cfg: DetectorConfig, sqrt: real -> real)
    : (r: Option<Point>)
    requires cfg.downscale != 0
    requires YCovers(buf, width / cfg.downscale, height / cfg.downscale, rowStride, pixelStride,
                     cfg.downscale)
    ensures width / cfg.downscale <= 0 || height / cfg.downscale <= 0 ==> r == None
    ensures width / cfg.downscale > 0 && height / cfg.downscale > 0 ==>
      r == Detect(YGrid(buf, width / cfg.downscale, height / cfg.downscale, rowStride,
                        pixelStride, cfg.downscale), cfg, sqrt)
  {
    var ds := cfg.downscale;
    var dw := width / ds;
    var dh := height / ds;
    if dw <= 0 || dh <= 0 then None
    else Detect(YGrid(buf, dw, dh, rowStride, pixelStride, ds), cfg, sqrt)
  }

  /** Every Y-plane sample is an intensity in [0, 255]. */
  lemma YSamplesInRange(buf: seq<SByte>, dw: nat, dh: nat, rowStride: int, pixelStride: int,
                        ds: int)
    requires YCovers(buf, dw, dh, rowStride, pixelStride, ds)
    ensures forall c :: c in Cells(YGrid(buf, dw, dh, rowStride, pixelStride, ds)) ==>
      0.0 <= c.v <= 255.0
  {
  }

  /** A negative stride leaves no whole sample, so the frame is rejected. */
  lemma NegativeStrideRejects(width: nat, height: nat, ds: int)
    requires ds < 0
    ensures width / ds <= 0
  {
  }

  // ---------------------------------------------------------------------------------------
  // Sampling: the ARGB bitmap

  /** A 32-bit signed colour word `0xAARRGGBB`. */
  type Int32 = x: int | -0x8000_0000 <= x < 0x8000_0000

  /** `pixel shr k and 0xFF`: arithmetic shift then mask. */
  function Channel(pixel: Int32, shift: nat): (c: int)
    requires shift == 0 || shift == 8 || shift == 16
    ensures 0 <= c <= 255
  {
    var scale := if shift == 16 then 0x1_0000 else if shift == 8 then 0x100 else 1;
    (pixel / scale) % 256
  }

  function Red(pixel: Int32): int { Channel(pixel, 16) }
  function Green(pixel: Int32): int { Channel(pixel, 8) }
  function Blue(pixel: Int32): int { Channel(pixel, 0) }

  /** The luma the bitmap overload thresholds. */
  function Luma(pixel: Int32): (v: real)
    ensures 0.0 <= v <= 255.0
  {
    Red(pixel) as real * 0.299 + Green(pixel) as real * 0.587 + Blue(pixel) as real * 0.114
  }

  /** The colour word with alpha `a` and channels `r`, `g`, `b`, as a signed 32-bit value. */
  function Pack(a: int, r: int, g: int, b: int): (p: Int32)
    requires 0 <= a <= 255 && 0 <= r <= 255 && 0 <= g <= 255 && 0 <= b <= 255
  {
    var u := a * 0x100_0000 + r * 0x1_0000 + g * 0x100 + b;
    if u >= 0x8000_0000 then u - 0x1_0000_0000 else u
  }

  /** The channel extraction undoes the packing, whatever the alpha (sign) byte. */
  lemma ChannelsOfPack(a: int, r: int, g: int, b: int)
    requires 0 <= a <= 255 && 0 <= r <= 255 && 0 <= g <= 255 && 0 <= b <= 255
    ensures Red(Pack(a, r, g, b)) == r
    ensures Green(Pack(a, r, g, b)) == g
    ensures Blue(Pack(a, r, g, b)) == b
  {
    var a' := if a >= 128 then a - 256 else a;
    var p := Pack(a, r, g, b);
    assert p == a' * 0x100_0000 + r * 0x1_0000 + g * 0x100 + b;
    DivStep65536(p, a' * 0x100 + r, g * 0x100 + b);
    ModTop(a' * 0x100 + r, a', r);
    DivStep256(p, a' * 0x1_0000 + r * 0x100 + g, b);
    ModTop(a' * 0x1_0000 + r * 0x100 + g, a' * 0x100 + r, g);
    ModTop(p, a' * 0x1_0000 + r * 0x100 + g, b);
  }

  /** `(q*65536 + s) / 65536 == q` for `0 <= s < 65536`: the shift drops the low bits. */
  lemma DivStep65536(x: int, q: int, s: int)
    requires 0 <= s < 0x1_0000 && x == q * 0x1_0000 + s
    ensures x / 0x1_0000 == q
  {
  }

  lemma DivStep256(x: int, q: int, s: int)
    requires 0 <= s < 0x100 && x == q * 0x100 + s
    ensures x / 0x100 == q
  {
  }

  /** `(q*256 + s) % 256 == s` for `0 <= s < 256`. */
  lemma ModTop(x: int, q: int, s: int)
    requires 0 <= s < 256 && x == q * 256 + s
    ensures x % 256 == s
  {
  }

  /** A grey pixel's luma is its channel value: the weights sum to one. */
  lemma GreyLuma(pixel: Int32)
    requires Red(pixel) == Green(pixel) == Blue(pixel)
    ensures Luma(pixel) == Red(pixel) as real
  {
  }

  /** Row `j` of the grid reads source row `j*ds` of a `width`-wide bitmap. */
  function BitmapIndex(j: int, i: int, width: int, ds: int): int
  {
    j * ds * width + i * ds
  }

  /** Every grid cell reads a pixel inside the `width x height` array. */
  lemma BitmapIndexInBounds(j: nat, i: nat, width: nat, height: nat, ds: int)
    requires ds > 0 && j < height / ds && i < width / ds
    ensures 0 <= BitmapIndex(j, i, width, ds) < width * height
  {
    var sy, sx := j * ds, i * ds;
    StrideFits(j, height, ds);
    StrideFits(i, width, ds);
    MulLe(sy + 1, height, width);
    NonNegProduct(sy, width);
    assert BitmapIndex(j, i, width, ds) == sy * width + sx;
    assert (sy + 1) * width == sy * width + width;
  }

  /** Sample `k` of `n / ds` starts a whole stride inside the `n` source pixels. */
  lemma StrideFits(k: nat, n: nat, ds: int)
    requires ds > 0 && k < n / ds
    ensures 0 <= k * ds && k * ds + ds <= n
  {
    var q := n / ds;
    assert q * ds <= n;
    MulLe(k + 1, q, ds);
    assert (k + 1) * ds == k * ds + ds;
    NonNegProduct(k, ds);
  }

  lemma MulLe(a: int, b: int, c: nat)
    requires a <= b
    ensures a * c <= b * c
  {
    assert b * c - a * c == (b - a) * c;
    NonNegProduct(b - a, c);
  }

  lemma NonNegProduct(a: nat, b: nat)
    ensures a * b >= 0
  {
  }

  /** The luma of the pixel under grid cell `(i, j)`. */
  function BitmapSample(pixels: seq<Int32>, width: nat, height: nat, ds: int, j: nat, i: nat)
    : real
    requires |pixels| == width * height
    requires ds > 0 && j < height / ds && i < width / ds
  {
    BitmapIndexInBounds(j, i, width, height, ds);
    Luma(pixels[BitmapIndex(j, i, width, ds)])
  }

  lemma BitmapIndicesInBounds(width: nat, height: nat, ds: int)
    requires ds > 0
    ensures forall j, i :: 0 <= j < height / ds && 0 <= i < width / ds ==>
      0 <= BitmapIndex(j, i, width, ds) < width * height
  {
    forall j, i | 0 <= j < height / ds && 0 <= i < width / ds
      ensures 0 <= BitmapIndex(j, i, width, ds) < width * height
    {
      BitmapIndexInBounds(j, i, width, height, ds);
    }
  }

  function BitmapGrid(pixels: seq<Int32>, width: nat, height: nat, ds: int): (g: seq<seq<real>>)
    requires |pixels| == width * height && ds > 0
    ensures |g| == height / ds && IsGrid(g, width / ds)
    ensures forall j, i :: 0 <= j < height / ds && 0 <= i < width / ds ==>
      0 <= BitmapIndex(j, i, width, ds) < |pixels|
      && g[j][i] == Luma(pixels[BitmapIndex(j, i, width, ds)])
  {
    BitmapIndicesInBounds(width, height, ds);
    seq(height / ds, j requires 0 <= j < height / ds =>
      seq(width / ds, i requires 0 <= i < width / ds => BitmapSample(pixels, width, height, ds, j, i)))
  }

  /** The bitmap entry point; `pixels` is the row-major ARGB copy of the whole bitmap. */
  function DetectBitmap(pixels: seq<Int32>, width: nat, height: nat, cfg: DetectorConfig,
                        sqrt: real -> real): (r: Option<Point>)
    requires cfg.downscale != 0
    requires |pixels| == width * height
    ensures width / cfg.downscale <= 0 || height / cfg.downscale <= 0 ==> r == None
    ensures width / cfg.downscale > 0 && height / cfg.downscale > 0 ==>
      cfg.downscale > 0 && r == Detect(BitmapGrid(pixels, width, height, cfg.downscale), cfg, sqrt)
  {
    var ds := cfg.downscale;
    var dw := width / ds;
    var dh := height / ds;
    if dw <= 0 || dh <= 0 then None
    else Detect(BitmapGrid(pixels, width, height, ds), cfg, sqrt)
  }

  /** Every bitmap sample is an intensity in [0, 255]. */
  lemma BitmapSamplesInRange(pixels: seq<Int32>, width: nat, height: nat, ds: int)
    requires |pixels| == width * height && ds > 0
    ensures forall c :: c in Cells(BitmapGrid(pixels, width, height, ds)) ==> 0.0 <= c.v <= 255.0
  {
  }
}
