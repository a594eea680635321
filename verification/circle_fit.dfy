/** `CircleFit.fit`: the algebraic (Kasa) least-squares circle through a list of points.

    A circle with centre `(cx, cy)` and radius `r` is rewritten as the linear equation
    `2x·cx + 2y·cy + c = x² + y²` in the unknowns `(cx, cy, c)`, with `c = r² - cx² - cy²`.
    Each point contributes one such equation; the fit solves the 3 x 3 normal equations of that
    over-determined system, takes `r = sqrt(c + cx² + cy²)` and reports the root-mean-square
    of the radial residuals `|p - centre| - r`. */
module CircleFit {

  import opened Wrappers
  import opened RealMath
  import opened Geometry
  import opened LinearSolve

  /** `CircleFit.Result`. */
  datatype FitResult = FitResult(cx: real, cy: real, r: real, rms: real)

  /** The running sums of the accumulation loop. The source sets `a33` to the point count once;
      here it is counted along with the sums, and `AccumulatedCount` shows it ends at `n`. */
  datatype Sums = Sums(a11: real, a12: real, a13: real, a22: real, a23: real, a33: real,
                       b1: real, b2: real, b3: real)

  const NoSums := Sums(0.0, 0.0, 0.0, 0.0, 0.0, 0.0, 0.0, 0.0, 0.0)

  /** One iteration of the accumulation loop. */
  function AccumulateStep(s: Sums, p: Point): Sums
  {
    var ax, ay := 2.0 * p.x, 2.0 * p.y;
    var rhs := p.x * p.x + p.y * p.y;
    Sums(s.a11 + ax * ax, s.a12 + ax * ay, s.a13 + ax, s.a22 + ay * ay, s.a23 + ay, s.a33 + 1.0,
         s.b1 + ax * rhs, s.b2 + ay * rhs, s.b3 + rhs)
  }

  /** The sums after the loop has visited every point, in order. */
  function Accumulate(pts: seq<Point>): Sums
  {
    if |pts| == 0 then NoSums else AccumulateStep(Accumulate(pts[..|pts| - 1]), pts[|pts| - 1])
  }

  /** The symmetric matrix built from the sums. */
  function MatrixOf(s: Sums): (a: Matrix)
    ensures IsSquare(a)
  {
    [[s.a11, s.a12, s.a13], [s.a12, s.a22, s.a23], [s.a13, s.a23, s.a33]]
  }

  /** The matrix `A` of the normal equations. */
  function NormalMatrix(pts: seq<Point>): (a: Matrix)
    ensures IsSquare(a)
  {
    MatrixOf(Accumulate(pts))
  }

  /** The right-hand side `b` of the normal equations. */
  function NormalRhs(pts: seq<Point>): (b: seq<real>)
    ensures |b| == 3
  {
    var s := Accumulate(pts);
    [s.b1, s.b2, s.b3]
  }

  /** The sum of `(d - r)²` over the points, `d` being each point's distance from the centre. */
  function ErrorSum(pts: seq<Point>, cx: real, cy: real, r: real, sqrt: real -> real): (e: real)
    ensures e >= 0.0
  {
    if |pts| == 0 then 0.0
    else
      var d := sqrt(SqDist(pts[|pts| - 1], cx, cy));
      SquareNonNegative(d - r);
      ErrorSum(pts[..|pts| - 1], cx, cy, r, sqrt) + (d - r) * (d - r)
  }

  /** `fit(points)`. */
  function Fit(pts: seq<Point>, sqrt: real -> real): (res: Option<FitResult>)
    ensures |pts| < 3 ==> res.None?
  {
    if |pts| < 3 then None
    else match Solve3x3(NormalMatrix(pts), NormalRhs(pts))
      case None => None
      case Some(sol) => Some(FitFromSolution(pts, sol, sqrt))
  }

  /** The part of `fit` after the solve: `r = sqrt(c + cx² + cy²)` and the root-mean-square
      residual over all `n` points. */
  function FitFromSolution(pts: seq<Point>, sol: seq<real>, sqrt: real -> real): (res: FitResult)
    requires |pts| > 0 && |sol| == 3
    ensures res.cx == sol[0] && res.cy == sol[1]
    ensures res.rms == sqrt(ErrorSum(pts, res.cx, res.cy, res.r, sqrt) / (|pts| as real))
  {
    var cx, cy, c := sol[0], sol[1], sol[2];
    var r := sqrt(c + cx * cx + cy * cy);
    var se := ErrorSum(pts, cx, cy, r, sqrt);
    FitResult(cx, cy, r, sqrt(se / (|pts| as real)))
  }

  // ---------------------------------------------------------------------------------------
  // Sums over the points

  /** The sum of `g` over the points. */
  function SumOver(pts: seq<Point>, g: Point -> real): real
  {
    if |pts| == 0 then 0.0 else SumOver(pts[..|pts| - 1], g) + g(pts[|pts| - 1])
  }

  /** A quantity of the running sums that every iteration increases by `g` of the visited point
      ends up increased by the sum of `g` over all points. */
  lemma {:induction false} FoldAdditive(pts: seq<Point>, f: Sums -> real, g: Point -> real)
    requires forall t: Sums, p: Point :: f(AccumulateStep(t, p)) == f(t) + g(p)
    ensures f(Accumulate(pts)) == f(NoSums) + SumOver(pts, g)
  {
    if |pts| > 0 {
      FoldAdditive(pts[..|pts| - 1], f, g);
    }
  }

  /** Sums of functions that agree on the points are equal. */
  lemma {:induction false} SumOverAgree(pts: seq<Point>, g: Point -> real, h: Point -> real)
    requires forall p :: p in pts ==> g(p) == h(p)
    ensures SumOver(pts, g) == SumOver(pts, h)
  {
    if |pts| > 0 {
      assert pts[|pts| - 1] in pts;
      assert forall p :: p in pts[..|pts| - 1] ==> p in pts;
      SumOverAgree(pts[..|pts| - 1], g, h);
    }
  }

  /** A sum of terms that all vanish vanishes. */
  lemma {:induction false} SumOverZero(pts: seq<Point>, g: Point -> real)
    requires forall p :: p in pts ==> g(p) == 0.0
    ensures SumOver(pts, g) == 0.0
  {
    if |pts| > 0 {
      assert pts[|pts| - 1] in pts;
      assert forall p :: p in pts[..|pts| - 1] ==> p in pts;
      SumOverZero(pts[..|pts| - 1], g);
    }
  }

  /** A sum of non-negative terms is non-negative. */
  lemma {:induction false} SumOverNonNegative(pts: seq<Point>, g: Point -> real)
    requires forall p :: p in pts ==> g(p) >= 0.0
    ensures SumOver(pts, g) >= 0.0
  {
    if |pts| > 0 {
      assert pts[|pts| - 1] in pts;
      assert forall p :: p in pts[..|pts| - 1] ==> p in pts;
      SumOverNonNegative(pts[..|pts| - 1], g);
    }
  }

  lemma AffineStep(total: real, n: real, k: real, gs: real, hs: real, w: real, g: real, h: real)
    requires total == gs - hs + n * k && w == g - h + k
    ensures total + w == (gs + g) - (hs + h) + (n + 1.0) * k
  {
  }

  /** Summing `g - h + k` over `n` points gives the difference of the sums plus `n·k`. */
  lemma {:induction false} SumOverAffine(pts: seq<Point>, w: Point -> real, g: Point -> real,
                                         h: Point -> real, k: real)
    requires forall p: Point :: w(p) == g(p) - h(p) + k
    ensures SumOver(pts, w) == SumOver(pts, g) - SumOver(pts, h) + (|pts| as real) * k
  {
    if |pts| > 0 {
      var init, p := pts[..|pts| - 1], pts[|pts| - 1];
      SumOverAffine(init, w, g, h, k);
      AffineStep(SumOver(init, w), |init| as real, k, SumOver(init, g), SumOver(init, h),
                 w(p), g(p), h(p));
    }
  }

  // ---------------------------------------------------------------------------------------
  // The normal equations, point by point

  /** The coefficients `(2x, 2y, 1)` of the equation a point contributes. */
  function Coeffs(p: Point): (v: seq<real>)
    ensures |v| == 3
  {
    [2.0 * p.x, 2.0 * p.y, 1.0]
  }

  /** The right-hand side `x² + y²` of the equation a point contributes. */
  function Rhs(p: Point): real
  {
    p.x * p.x + p.y * p.y
  }

  /** Coefficient `i` of a point's equation times its left-hand side at `u`. */
  function RowWeight(u: seq<real>, i: nat): Point -> real
    requires |u| == 3 && i < 3
  {
    (p: Point) => Coeffs(p)[i] * Dot(Coeffs(p), u)
  }

  /** Coefficient `i` of a point's equation times its right-hand side. */
  function RhsWeight(i: nat): Point -> real
    requires i < 3
  {
    (p: Point) => Coeffs(p)[i] * Rhs(p)
  }

  /** Row `i` of the matrix built from the sums, applied to `u`. */
  function RowValue(u: seq<real>, i: nat): Sums -> real
    requires |u| == 3 && i < 3
  {
    (s: Sums) => Dot(MatrixOf(s)[i], u)
  }

  /** Entry `i` of the right-hand side built from the sums. */
  function RhsValue(i: nat): Sums -> real
    requires i < 3
  {
    (s: Sums) => [s.b1, s.b2, s.b3][i]
  }

  /** Squared distance from `(cx, cy)`. */
  function SqDistTo(cx: real, cy: real): Point -> real
  {
    (p: Point) => SqDist(p, cx, cy)
  }

  /** Sum of the squared distances of the points from `(cx, cy)`. */
  function SqDistSum(pts: seq<Point>, cx: real, cy: real): (t: real)
    ensures t >= 0.0
  {
    SumOverNonNegative(pts, SqDistTo(cx, cy));
    SumOver(pts, SqDistTo(cx, cy))
  }

  lemma Row0Step(a: real, b: real, c: real, ax: real, ay: real, u0: real, u1: real, u2: real)
    ensures (a + ax * ax) * u0 + (b + ax * ay) * u1 + (c + ax) * u2
         == (a * u0 + b * u1 + c * u2) + ax * (ax * u0 + ay * u1 + 1.0 * u2)
  {
  }

  lemma Row1Step(a: real, b: real, c: real, ax: real, ay: real, u0: real, u1: real, u2: real)
    ensures (a + ax * ay) * u0 + (b + ay * ay) * u1 + (c + ay) * u2
         == (a * u0 + b * u1 + c * u2) + ay * (ax * u0 + ay * u1 + 1.0 * u2)
  {
  }

  lemma Row2Step(a: real, b: real, n: real, ax: real, ay: real, u0: real, u1: real, u2: real)
    ensures (a + ax) * u0 + (b + ay) * u1 + (n + 1.0) * u2
         == (a * u0 + b * u1 + n * u2) + 1.0 * (ax * u0 + ay * u1 + 1.0 * u2)
  {
  }

  lemma SumsRow0Step(t: Sums, p: Point, u: seq<real>)
    requires |u| == 3
    ensures Dot(MatrixOf(AccumulateStep(t, p))[0], u)
         == Dot(MatrixOf(t)[0], u) + Coeffs(p)[0] * Dot(Coeffs(p), u)
  {
    Row0Step(t.a11, t.a12, t.a13, 2.0 * p.x, 2.0 * p.y, u[0], u[1], u[2]);
  }

  lemma SumsRow1Step(t: Sums, p: Point, u: seq<real>)
    requires |u| == 3
    ensures Dot(MatrixOf(AccumulateStep(t, p))[1], u)
         == Dot(MatrixOf(t)[1], u) + Coeffs(p)[1] * Dot(Coeffs(p), u)
  {
    Row1Step(t.a12, t.a22, t.a23, 2.0 * p.x, 2.0 * p.y, u[0], u[1], u[2]);
  }

  lemma SumsRow2Step(t: Sums, p: Point, u: seq<real>)
    requires |u| == 3
    ensures Dot(MatrixOf(AccumulateStep(t, p))[2], u)
         == Dot(MatrixOf(t)[2], u) + Coeffs(p)[2] * Dot(Coeffs(p), u)
  {
    Row2Step(t.a13, t.a23, t.a33, 2.0 * p.x, 2.0 * p.y, u[0], u[1], u[2]);
  }

  /** One loop iteration adds the point's equation at `u`, weighted by its coefficient `i`,
      to row `i` of the matrix applied to `u`. */
  lemma RowValueStep(t: Sums, p: Point, u: seq<real>, i: nat)
    requires |u| == 3 && i < 3
    ensures RowValue(u, i)(AccumulateStep(t, p)) == RowValue(u, i)(t) + RowWeight(u, i)(p)
  {
    if i == 0 {
      SumsRow0Step(t, p, u);
    } else if i == 1 {
      SumsRow1Step(t, p, u);
    } else {
      SumsRow2Step(t, p, u);
    }
  }

  lemma RowValueAdditive(u: seq<real>, i: nat)
    requires |u| == 3 && i < 3
    ensures RowValue(u, i)(NoSums) == 0.0
    ensures forall t: Sums, p: Point ::
      RowValue(u, i)(AccumulateStep(t, p)) == RowValue(u, i)(t) + RowWeight(u, i)(p)
  {
    forall t: Sums, p: Point
      ensures RowValue(u, i)(AccumulateStep(t, p)) == RowValue(u, i)(t) + RowWeight(u, i)(p)
    {
      RowValueStep(t, p, u, i);
    }
  }

  /** Row `i` of `A` applied to `u` is the sum over the points of their coefficient `i` times
      their equation's left-hand side at `u`. */
  lemma MatrixRows(pts: seq<Point>, u: seq<real>, i: nat)
    requires |u| == 3 && i < 3
    ensures Dot(NormalMatrix(pts)[i], u) == SumOver(pts, RowWeight(u, i))
  {
    RowValueAdditive(u, i);
    FoldAdditive(pts, RowValue(u, i), RowWeight(u, i));
  }

  lemma RhsValueStep(t: Sums, p: Point, i: nat)
    requires i < 3
    ensures RhsValue(i)(AccumulateStep(t, p)) == RhsValue(i)(t) + RhsWeight(i)(p)
  {
  }

  lemma RhsValueAdditive(i: nat)
    requires i < 3
    ensures RhsValue(i)(NoSums) == 0.0
    ensures forall t: Sums, p: Point :: RhsValue(i)(AccumulateStep(t, p)) == RhsValue(i)(t) + RhsWeight(i)(p)
  {
    forall t: Sums, p: Point
      ensures RhsValue(i)(AccumulateStep(t, p)) == RhsValue(i)(t) + RhsWeight(i)(p)
    {
      RhsValueStep(t, p, i);
    }
  }

  /** Entry `i` of `b` is the sum over the points of their coefficient `i` times their
      equation's right-hand side. */
  lemma RhsEntries(pts: seq<Point>, i: nat)
    requires i < 3
    ensures NormalRhs(pts)[i] == SumOver(pts, RhsWeight(i))
  {
    RhsValueAdditive(i);
    FoldAdditive(pts, RhsValue(i), RhsWeight(i));
  }

  /** The corner entry `a33` is the number of points. */
  lemma {:induction false} AccumulatedCount(pts: seq<Point>)
    ensures Accumulate(pts).a33 == |pts| as real
  {
    if |pts| > 0 {
      AccumulatedCount(pts[..|pts| - 1]);
    }
  }

  /** `A` is symmetric, and its corner entry is the number of points. */
  lemma NormalMatrixShape(pts: seq<Point>)
    ensures var a := NormalMatrix(pts);
      (forall i, j :: 0 <= i < 3 && 0 <= j < 3 ==> a[i][j] == a[j][i]) && a[2][2] == |pts| as real
  {
    AccumulatedCount(pts);
  }

  // ---------------------------------------------------------------------------------------
  // Circles and lines

  /** `(x - cx)² + (y - cy)² = rr` is the linear equation `2x·cx + 2y·cy + c = x² + y²` with
      `c = rr - cx² - cy²`. */
  lemma OnCircleAlgebra(x: real, y: real, cx: real, cy: real, rr: real)
    requires (x - cx) * (x - cx) + (y - cy) * (y - cy) == rr
    ensures (2.0 * x) * cx + (2.0 * y) * cy + 1.0 * (rr - cx * cx - cy * cy) == x * x + y * y
  {
  }

  /** When `u` satisfies every point's equation, it satisfies row `i` of the normal equations. */
  lemma ExactRow(pts: seq<Point>, u: seq<real>, i: nat)
    requires |u| == 3 && i < 3
    requires forall p :: p in pts ==> Dot(Coeffs(p), u) == Rhs(p)
    ensures Dot(NormalMatrix(pts)[i], u) == NormalRhs(pts)[i]
  {
    ExactWeights(pts, u, i);
    MatrixRows(pts, u, i);
    RhsEntries(pts, i);
  }

  lemma ExactWeights(pts: seq<Point>, u: seq<real>, i: nat)
    requires |u| == 3 && i < 3
    requires forall p :: p in pts ==> Dot(Coeffs(p), u) == Rhs(p)
    ensures SumOver(pts, RowWeight(u, i)) == SumOver(pts, RhsWeight(i))
  {
    forall p | p in pts
      ensures RowWeight(u, i)(p) == RhsWeight(i)(p)
    {
      ExactPoint(p, u, i);
    }
    SumOverAgree(pts, RowWeight(u, i), RhsWeight(i));
  }

  lemma MulLeft(c: real, a: real, b: real)
    requires a == b
    ensures c * a == c * b
  {
  }

  lemma ExactPoint(p: Point, u: seq<real>, i: nat)
    requires |u| == 3 && i < 3
    requires Dot(Coeffs(p), u) == Rhs(p)
    ensures RowWeight(u, i)(p) == RhsWeight(i)(p)
  {
    MulLeft(Coeffs(p)[i], Dot(Coeffs(p), u), Rhs(p));
  }


  /** If all points lie on the circle `(cx, cy)` with squared radius `rr`, then
      `(cx, cy, rr - cx² - cy²)` satisfies the normal equations. */
  lemma OnCircleSolves(pts: seq<Point>, cx: real, cy: real, r: real)
    requires forall p :: p in pts ==> SqDist(p, cx, cy) == r * r
    ensures SolvesSystem(NormalMatrix(pts), NormalRhs(pts), [cx, cy, r * r - cx * cx - cy * cy])
  {
    var u := [cx, cy, r * r - cx * cx - cy * cy];
    forall p | p in pts
      ensures Dot(Coeffs(p), u) == Rhs(p)
    {
      OnCircleAlgebra(p.x, p.y, cx, cy, r * r);
    }
    ExactRow(pts, u, 0);
    ExactRow(pts, u, 1);
    ExactRow(pts, u, 2);
  }


  /** When every point's left-hand side vanishes at `k`, so does row `i` of `A` applied to
      `k`. */
  lemma KernelRow(pts: seq<Point>, k: seq<real>, i: nat)
    requires |k| == 3 && i < 3
    requires forall p :: p in pts ==> Dot(Coeffs(p), k) == 0.0
    ensures Dot(NormalMatrix(pts)[i], k) == 0.0
  {
    forall p | p in pts
      ensures RowWeight(k, i)(p) == 0.0
    {
    }
    SumOverZero(pts, RowWeight(k, i));
    MatrixRows(pts, k, i);
  }

  /** Points on the line `a·x + b·y + d = 0` (with `a`, `b` not both zero) make `A` singular. */
  lemma CollinearKernel(pts: seq<Point>, a: real, b: real, d: real)
    requires a != 0.0 || b != 0.0
    requires forall p :: p in pts ==> a * p.x + b * p.y + d == 0.0
    ensures Kernel(NormalMatrix(pts), [a / 2.0, b / 2.0, d])
  {
    var k := [a / 2.0, b / 2.0, d];
    forall p | p in pts
      ensures Dot(Coeffs(p), k) == 0.0
    {
      assert Dot(Coeffs(p), k) == a * p.x + b * p.y + d;
    }
    KernelRow(pts, k, 0);
    KernelRow(pts, k, 1);
    KernelRow(pts, k, 2);
  }

  lemma PointDistance(x: real, y: real, cx: real, cy: real, c: real)
    ensures (x - cx) * (x - cx) + (y - cy) * (y - cy)
         == 1.0 * (x * x + y * y) - 1.0 * ((2.0 * x) * cx + (2.0 * y) * cy + 1.0 * c) + (c + cx * cx + cy * cy)
  {
  }

  /** The squared distances from `(u[0], u[1])` add up to the difference of the third entries of
      `b` and `A·u` plus `n` times `k = u[2] + u[0]² + u[1]²`. */
  lemma DistanceIdentity(pts: seq<Point>, u: seq<real>, k: real)
    requires |u| == 3 && k == u[2] + u[0] * u[0] + u[1] * u[1]
    ensures SumOver(pts, SqDistTo(u[0], u[1]))
         == SumOver(pts, RhsWeight(2)) - SumOver(pts, RowWeight(u, 2)) + (|pts| as real) * k
  {
    DistanceTerms(pts, u);
    SumOverAffine(pts, SqDistTo(u[0], u[1]), RhsWeight(2), RowWeight(u, 2), k);
  }

  lemma DistanceTerms(pts: seq<Point>, u: seq<real>)
    requires |u| == 3
    ensures forall p: Point ::
      SqDistTo(u[0], u[1])(p) == RhsWeight(2)(p) - RowWeight(u, 2)(p) + (u[2] + u[0] * u[0] + u[1] * u[1])
  {
    forall p: Point
      ensures SqDistTo(u[0], u[1])(p) == RhsWeight(2)(p) - RowWeight(u, 2)(p) + (u[2] + u[0] * u[0] + u[1] * u[1])
    {
      PointDistance(p.x, p.y, u[0], u[1], u[2]);
    }
  }

  /** At a solution `u` of the normal equations, `k = u[2] + u[0]² + u[1]²` (the quantity whose
      root is the radius) is the mean squared distance of the points from the centre
      `(u[0], u[1])`, hence never negative. */
  lemma RadicandIsMeanSquaredDistance(pts: seq<Point>, u: seq<real>, k: real)
    requires |pts| > 0 && |u| == 3 && k == u[2] + u[0] * u[0] + u[1] * u[1]
    requires SolvesSystem(NormalMatrix(pts), NormalRhs(pts), u)
    ensures (|pts| as real) * k == SqDistSum(pts, u[0], u[1]) && k >= 0.0
  {
    ThirdRowBalanced(pts, u);
    RadicandFromBalance(pts, u, k);
    RadicandNonNegative(pts, u, k);
  }

  lemma RadicandNonNegative(pts: seq<Point>, u: seq<real>, k: real)
    requires |pts| > 0 && |u| == 3
    requires (|pts| as real) * k == SumOver(pts, SqDistTo(u[0], u[1]))
    ensures k >= 0.0
  {
    NonNegativeFactor(|pts| as real, k, SqDistSum(pts, u[0], u[1]));
  }

  lemma RadicandFromBalance(pts: seq<Point>, u: seq<real>, k: real)
    requires |u| == 3 && k == u[2] + u[0] * u[0] + u[1] * u[1]
    requires SumOver(pts, RowWeight(u, 2)) == SumOver(pts, RhsWeight(2))
    ensures (|pts| as real) * k == SumOver(pts, SqDistTo(u[0], u[1]))
  {
    DistanceIdentity(pts, u, k);
  }

  lemma ThirdRowBalanced(pts: seq<Point>, u: seq<real>)
    requires |u| == 3
    requires SolvesSystem(NormalMatrix(pts), NormalRhs(pts), u)
    ensures SumOver(pts, RowWeight(u, 2)) == SumOver(pts, RhsWeight(2))
  {
    MatrixRows(pts, u, 2);
    RhsEntries(pts, 2);
  }


  // ---------------------------------------------------------------------------------------
  // Properties of the fit

  /** A returned fit is built from the solution of the normal equations. */
  lemma FitParts(pts: seq<Point>, sqrt: real -> real)
    requires Fit(pts, sqrt).Some?
    ensures |pts| >= 3 && Solve3x3(NormalMatrix(pts), NormalRhs(pts)).Some?
    ensures Fit(pts, sqrt).value
         == FitFromSolution(pts, Solve3x3(NormalMatrix(pts), NormalRhs(pts)).value, sqrt)
  {
  }

  /** `root` is the square root of the mean `total / n`. */
  predicate IsRootMean(root: real, total: real, n: real)
  {
    root >= 0.0 && root * root * n == total
  }

  /** `u` holds the unknowns `(cx, cy, c)` of the linearised circle equation for the circle with
      centre `(cx, cy)` and radius `r`: `c = r² - cx² - cy²`. */
  predicate CircleParameters(u: seq<real>, cx: real, cy: real, r: real)
    requires |u| == 3
  {
    u[0] == cx && u[1] == cy && u[2] == r * r - cx * cx - cy * cy
  }

  /** Two parameter vectors of the same circle are equal. */
  lemma CircleParametersUnique(u: seq<real>, v: seq<real>, cx: real, cy: real, r: real)
    requires |u| == 3 && |v| == 3
    requires CircleParameters(u, cx, cy, r) && CircleParameters(v, cx, cy, r)
    ensures u == v
  {
    assert u == [v[0], v[1], v[2]];
  }

  /** Parameters determine the circle: the centre, and the radius once both are non-negative. */
  lemma SameCircle(u: seq<real>, cx: real, cy: real, r: real, cx0: real, cy0: real, r0: real)
    requires |u| == 3 && CircleParameters(u, cx, cy, r)
    requires u == [cx0, cy0, r0 * r0 - cx0 * cx0 - cy0 * cy0]
    requires r >= 0.0 && r0 >= 0.0
    ensures cx == cx0 && cy == cy0 && r == r0
  {
    assert r * r == r0 * r0;
    SquareLess(r, r0);
    SquareLess(r0, r);
  }

  /** The radius is the root of `c + cx² + cy²` for the solution `[cx, cy, c]`. */
  lemma SolutionRadius(pts: seq<Point>, sol: seq<real>, sqrt: real -> real)
    requires |pts| > 0 && |sol| == 3
    ensures FitFromSolution(pts, sol, sqrt).r == sqrt(sol[2] + sol[0] * sol[0] + sol[1] * sol[1])
  {
  }

  lemma SqrtSquared(sqrt: real -> real, x: real)
    requires IsSqrt(sqrt) && x >= 0.0
    ensures sqrt(x) >= 0.0 && sqrt(x) * sqrt(x) == x
  {
  }

  /** With `n·k = sq` and `k = u[2] + u[0]² + u[1]²` non-negative, the root of `k` is a radius
      whose parameters are `u` and which is the root mean of `sq`. */
  lemma CircleFromRadicand(sqrt: real -> real, u: seq<real>, k: real, n: real, sq: real)
    requires IsSqrt(sqrt) && |u| == 3 && k == u[2] + u[0] * u[0] + u[1] * u[1]
    requires k >= 0.0 && n * k == sq
    ensures CircleParameters(u, u[0], u[1], sqrt(k)) && IsRootMean(sqrt(k), sq, n)
  {
    SqrtSquared(sqrt, k);
  }

  /** The circle built from a solution of the normal equations has that solution as its
      parameters, and its radius is the root mean distance of the points from its centre. */
  lemma SolutionCircle(pts: seq<Point>, sol: seq<real>, sqrt: real -> real)
    requires IsSqrt(sqrt) && |pts| > 0 && |sol| == 3
    requires SolvesSystem(NormalMatrix(pts), NormalRhs(pts), sol)
    ensures var res := FitFromSolution(pts, sol, sqrt);
      CircleParameters(sol, res.cx, res.cy, res.r)
      && IsRootMean(res.r, SqDistSum(pts, res.cx, res.cy), |pts| as real)
  {
    RadicandIsMeanSquaredDistance(pts, sol, sol[2] + sol[0] * sol[0] + sol[1] * sol[1]);
    SolutionRadius(pts, sol, sqrt);
    CircleFromRadicand(sqrt, sol, sol[2] + sol[0] * sol[0] + sol[1] * sol[1], |pts| as real,
                       SqDistSum(pts, sol[0], sol[1]));
  }

  /** The root of a non-negative mean is the root mean. */
  lemma RootOfMean(sqrt: real -> real, total: real, n: real)
    requires IsSqrt(sqrt) && total >= 0.0 && n > 0.0
    ensures IsRootMean(sqrt(total / n), total, n)
  {
    NonNegativeQuotient(total, n);
    SqrtSquared(sqrt, total / n);
    QuotientTimes(total, n);
  }

  /** The residual reported with a solution is the root of the mean squared error. */
  lemma SolutionRms(pts: seq<Point>, sol: seq<real>, sqrt: real -> real)
    requires IsSqrt(sqrt) && |pts| > 0 && |sol| == 3
    ensures var res := FitFromSolution(pts, sol, sqrt);
      IsRootMean(res.rms, ErrorSum(pts, res.cx, res.cy, res.r, sqrt), |pts| as real)
  {
    var res := FitFromSolution(pts, sol, sqrt);
    RootOfMean(sqrt, ErrorSum(pts, res.cx, res.cy, res.r, sqrt), |pts| as real);
  }

  /** A fit exists only when the normal equations have exactly one solution, and that solution
      holds the parameters of the fitted circle. */
  lemma FitSolvesNormalEquations(pts: seq<Point>, sqrt: real -> real, u: seq<real>)
    requires IsSqrt(sqrt) && |u| == 3
    requires Fit(pts, sqrt).Some?
    ensures var res := Fit(pts, sqrt).value;
      SolvesSystem(NormalMatrix(pts), NormalRhs(pts), u) <==> CircleParameters(u, res.cx, res.cy, res.r)
  {
    FitParts(pts, sqrt);
    var a, b := NormalMatrix(pts), NormalRhs(pts);
    var sol := Solve3x3(a, b).value;
    var res := Fit(pts, sqrt).value;
    SolutionIsUnique(a, b, sol);
    SolutionCircle(pts, sol, sqrt);
    SolutionIsUnique(a, b, u);
    if CircleParameters(u, res.cx, res.cy, res.r) {
      CircleParametersUnique(u, sol, res.cx, res.cy, res.r);
    }
  }

  /** The radius is the root mean squared distance of the points from the fitted centre. */
  lemma FitRadius(pts: seq<Point>, sqrt: real -> real)
    requires IsSqrt(sqrt)
    requires Fit(pts, sqrt).Some?
    ensures var res := Fit(pts, sqrt).value;
      IsRootMean(res.r, SqDistSum(pts, res.cx, res.cy), |pts| as real)
  {
    FitParts(pts, sqrt);
    var sol := Solve3x3(NormalMatrix(pts), NormalRhs(pts)).value;
    SolutionIsUnique(NormalMatrix(pts), NormalRhs(pts), sol);
    SolutionCircle(pts, sol, sqrt);
  }

  /** `rms` is the root of the mean of `(d - r)²` over all `n` points. */
  lemma FitRms(pts: seq<Point>, sqrt: real -> real)
    requires IsSqrt(sqrt)
    requires Fit(pts, sqrt).Some?
    ensures var res := Fit(pts, sqrt).value;
      IsRootMean(res.rms, ErrorSum(pts, res.cx, res.cy, res.r, sqrt), |pts| as real)
  {
    FitParts(pts, sqrt);
    SolutionRms(pts, Solve3x3(NormalMatrix(pts), NormalRhs(pts)).value, sqrt);
  }

  lemma RootOfZeroMean(sqrt: real -> real, total: real, n: real)
    requires IsSqrt(sqrt) && total == 0.0 && n > 0.0
    ensures sqrt(total / n) == 0.0
  {
    SqrtOfSquare(sqrt, 0.0);
  }

  /** With every distance equal to `r`, the error sum vanishes. */
  lemma {:induction false} ErrorSumZero(pts: seq<Point>, cx: real, cy: real, r: real, sqrt: real -> real)
    requires forall p :: p in pts ==> sqrt(SqDist(p, cx, cy)) == r
    ensures ErrorSum(pts, cx, cy, r, sqrt) == 0.0
  {
    if |pts| > 0 {
      assert pts[|pts| - 1] in pts;
      assert forall p :: p in pts[..|pts| - 1] ==> p in pts;
      ErrorSumZero(pts[..|pts| - 1], cx, cy, r, sqrt);
    }
  }

  /** Points exactly on a circle are fitted exactly: when a fit is returned it is that circle,
      with zero residual. */
  lemma PerfectCircleRecovered(pts: seq<Point>, cx: real, cy: real, r0: real, sqrt: real -> real)
    requires IsSqrt(sqrt) && r0 >= 0.0
    requires forall p :: p in pts ==> SqDist(p, cx, cy) == r0 * r0
    requires Fit(pts, sqrt).Some?
    ensures Fit(pts, sqrt).value == FitResult(cx, cy, r0, 0.0)
  {
    FitParts(pts, sqrt);
    var res := Fit(pts, sqrt).value;
    var u := [cx, cy, r0 * r0 - cx * cx - cy * cy];
    OnCircleSolves(pts, cx, cy, r0);
    FitSolvesNormalEquations(pts, sqrt, u);
    FitRadius(pts, sqrt);
    SameCircle(u, res.cx, res.cy, res.r, cx, cy, r0);
    forall p | p in pts
      ensures sqrt(SqDist(p, cx, cy)) == r0
    {
      SqrtOfSquare(sqrt, r0);
    }
    ErrorSumZero(pts, cx, cy, r0, sqrt);
    RootOfZeroMean(sqrt, ErrorSum(pts, res.cx, res.cy, res.r, sqrt), |pts| as real);
  }

  /** Collinear points never yield a circle. */
  lemma CollinearRejected(pts: seq<Point>, a: real, b: real, d: real, sqrt: real -> real)
    requires a != 0.0 || b != 0.0
    requires forall p :: p in pts ==> a * p.x + b * p.y + d == 0.0
    ensures Fit(pts, sqrt).None?
  {
    CollinearKernel(pts, a, b, d);
    SingularRejected(NormalMatrix(pts), NormalRhs(pts), [a / 2.0, b / 2.0, d]);
  }
  // ---------------------------------------------------------------------------------------
  // A fit that succeeds

  /** Four points on the circle of radius 5 about the origin, one on each axis. */
  const AxisPoints: seq<Point> := [Point(5.0, 0.0), Point(-5.0, 0.0), Point(0.0, 5.0), Point(0.0, -5.0)]

  /** The accumulation loop visits the last point last. */
  lemma AccumulateSnoc(q: seq<Point>, p: Point)
    ensures Accumulate(q + [p]) == AccumulateStep(Accumulate(q), p)
  {
    assert (q + [p])[..|q|] == q;
  }

  /** The sums the accumulation loop reaches on [AxisPoints], point by point. */
  lemma AxisSums1()
    ensures Accumulate([Point(5.0, 0.0)]) == Sums(100.0, 0.0, 10.0, 0.0, 0.0, 1.0, 250.0, 0.0, 25.0)
  {
    assert [Point(5.0, 0.0)] == [] + [Point(5.0, 0.0)];
    AccumulateSnoc([], Point(5.0, 0.0));
  }

  lemma AxisSums2()
    ensures Accumulate(AxisPoints[..2]) == Sums(200.0, 0.0, 0.0, 0.0, 0.0, 2.0, 0.0, 0.0, 50.0)
  {
    assert AxisPoints[..2] == [Point(5.0, 0.0)] + [Point(-5.0, 0.0)];
    AxisSums1();
    AccumulateSnoc([Point(5.0, 0.0)], Point(-5.0, 0.0));
  }

  lemma AxisSums3()
    ensures Accumulate(AxisPoints[..3]) == Sums(200.0, 0.0, 0.0, 100.0, 10.0, 3.0, 0.0, 250.0, 75.0)
  {
    assert AxisPoints[..3] == AxisPoints[..2] + [Point(0.0, 5.0)];
    AxisSums2();
    AccumulateSnoc(AxisPoints[..2], Point(0.0, 5.0));
  }

  lemma AxisPointsSums()
    ensures Accumulate(AxisPoints) == Sums(200.0, 0.0, 0.0, 200.0, 0.0, 4.0, 0.0, 0.0, 100.0)
  {
    assert AxisPoints == AxisPoints[..3] + [Point(0.0, -5.0)];
    AxisSums3();
    AccumulateSnoc(AxisPoints[..3], Point(0.0, -5.0));
  }

  /** The augmented matrix of [AxisPoints] and its three elimination passes. */
  const AxisM0: Matrix := [[200.0, 0.0, 0.0, 0.0], [0.0, 200.0, 0.0, 0.0], [0.0, 0.0, 4.0, 100.0]]
  const AxisM1: Matrix := [[1.0, 0.0, 0.0, 0.0], [0.0, 200.0, 0.0, 0.0], [0.0, 0.0, 4.0, 100.0]]
  const AxisM2: Matrix := [[1.0, 0.0, 0.0, 0.0], [0.0, 1.0, 0.0, 0.0], [0.0, 0.0, 4.0, 100.0]]
  const AxisM3: Matrix := [[1.0, 0.0, 0.0, 0.0], [0.0, 1.0, 0.0, 0.0], [0.0, 0.0, 1.0, 25.0]]

  lemma AxisPointsSystem()
    ensures NormalMatrix(AxisPoints) == [[200.0, 0.0, 0.0], [0.0, 200.0, 0.0], [0.0, 0.0, 4.0]]
    ensures NormalRhs(AxisPoints) == [0.0, 0.0, 100.0]
    ensures Augment(NormalMatrix(AxisPoints), NormalRhs(AxisPoints)) == AxisM0
  {
    AxisPointsSums();
    var a, b := NormalMatrix(AxisPoints), NormalRhs(AxisPoints);
    assert a[0] + [b[0]] == AxisM0[0];
    assert a[1] + [b[1]] == AxisM0[1];
    assert a[2] + [b[2]] == AxisM0[2];
  }

  lemma AxisPass0()
    ensures Eliminate(AxisM0, 0) == Some(AxisM1)
  {
    assert Pivot(AxisM0, 0) == 0;
    var n := Normalize(AxisM0, 0);
    assert n == AxisM1;
    assert ClearRow(n, 0, 1) == n[1];
    assert ClearRow(n, 0, 2) == n[2];
  }

  lemma AxisPass1()
    ensures Eliminate(AxisM1, 1) == Some(AxisM2)
  {
    assert Pivot(AxisM1, 1) == 1;
    var n := Normalize(AxisM1, 1);
    assert n == AxisM2;
    assert ClearRow(n, 1, 0) == n[0];
    assert ClearRow(n, 1, 2) == n[2];
  }

  lemma AxisPass2()
    ensures Eliminate(AxisM2, 2) == Some(AxisM3)
  {
    assert Pivot(AxisM2, 2) == 2;
    var n := Normalize(AxisM2, 2);
    assert n == AxisM3;
    assert ClearRow(n, 2, 0) == n[0];
    assert ClearRow(n, 2, 1) == n[1];
  }

  /** The elimination on the diagonal system of [AxisPoints] succeeds. */
  lemma AxisPointsSolve()
    ensures NormalMatrix(AxisPoints) == [[200.0, 0.0, 0.0], [0.0, 200.0, 0.0], [0.0, 0.0, 4.0]]
    ensures NormalRhs(AxisPoints) == [0.0, 0.0, 100.0]
    ensures Solve3x3(NormalMatrix(AxisPoints), NormalRhs(AxisPoints)) == Some([0.0, 0.0, 25.0])
  {
    AxisPointsSystem();
    AxisPass0();
    AxisPass1();
    AxisPass2();
    assert Reduce(AxisM0, 0) == Some(AxisM3);
  }

  /** Every point of [AxisPoints] lies on the circle of radius 5 about the origin. */
  lemma AxisPointsOnCircle()
    ensures forall p :: p in AxisPoints ==> SqDist(p, 0.0, 0.0) == 25.0
  {
    forall p | p in AxisPoints
      ensures SqDist(p, 0.0, 0.0) == 25.0
    {
      assert p == Point(5.0, 0.0) || p == Point(-5.0, 0.0) || p == Point(0.0, 5.0) || p == Point(0.0, -5.0);
    }
  }

  /** Four points give the solve a chance, and the solve succeeds. */
  lemma AxisPointsFitted(sqrt: real -> real)
    ensures Fit(AxisPoints, sqrt).Some?
  {
    AxisPointsSolve();
    assert |AxisPoints| == 4;
  }

  /** The fit of [AxisPoints] is returned, and it is that circle with zero residual. */
  lemma AxisPointsFit(sqrt: real -> real)
    requires IsSqrt(sqrt)
    ensures Fit(AxisPoints, sqrt) == Some(FitResult(0.0, 0.0, 5.0, 0.0))
  {
    AxisPointsFitted(sqrt);
    AxisPointsOnCircle();
    PerfectCircleRecovered(AxisPoints, 0.0, 0.0, 5.0, sqrt);
  }
}
