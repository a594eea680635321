/** The downsampled intensity grid the dark-blob detector works on, and the running sums its
    passes accumulate. Grid row `j` holds the samples taken from source row `j * downscale`;
    column `i` those from source column `i * downscale`. */
module BlobGrid {
  import RealMath

  /** One grid cell: column `col`, row `row`, intensity `v`. */
  datatype Cell = Cell(col: nat, row: nat, v: real)

  /** Every row of `g` has `dw` samples. */
  ghost predicate IsGrid(g: seq<seq<real>>, dw: nat)
  {
    forall j :: 0 <= j < |g| ==> |g[j]| == dw
  }

  function RowCells(r: seq<real>, j: nat): (cs: seq<Cell>)
    ensures |cs| == |r|
    ensures forall i :: 0 <= i < |r| ==> cs[i] == Cell(i, j, r[i])
  {
    seq(|r|, i requires 0 <= i < |r| => Cell(i, j, r[i]))
  }

  /** The cells of `g` in the order of the detector's nested loops: row by row, and left to
      right within a row. Every cell is a grid position with its sample, and every grid
      position appears. */
  function Cells(g: seq<seq<real>>): (cs: seq<Cell>)
    ensures forall c :: c in cs ==> c.row < |g| && c.col < |g[c.row]| && c.v == g[c.row][c.col]
    ensures forall j, i :: 0 <= j < |g| && 0 <= i < |g[j]| ==> Cell(i, j, g[j][i]) in cs
    decreases |g|
  {
    if |g| == 0 then []
    else
      var front := Cells(g[..|g| - 1]);
      var last := RowCells(g[|g| - 1], |g| - 1);
      assert forall j, i :: 0 <= j < |g| - 1 && 0 <= i < |g[j]| ==>
        g[..|g| - 1][j][i] == g[j][i];
      assert forall i :: 0 <= i < |g[|g| - 1]| ==> last[i] == Cell(i, |g| - 1, g[|g| - 1][i]);
      front + last
  }

  /** A grid of `dh` rows of `dw` samples has `dh * dw` cells. */
  lemma {:induction false} CellsCount(g: seq<seq<real>>, dw: nat)
    requires IsGrid(g, dw)
    ensures |Cells(g)| == |g| * dw
    decreases |g|
  {
    if |g| > 0 {
      CellsCount(g[..|g| - 1], dw);
    }
  }

  /** The cells of `cs` whose intensity is at most `thr`, in scan order. */
  function Dark(cs: seq<Cell>, thr: real): (dark: seq<Cell>)
    ensures |dark| <= |cs|
    ensures forall c :: c in dark <==> c in cs && c.v <= thr
    ensures forall c :: multiset(dark)[c] == (if c.v <= thr then multiset(cs)[c] else 0)
  {
    if |cs| == 0 then []
    else
      assert cs == [cs[0]] + cs[1..];
      if cs[0].v <= thr then [cs[0]] + Dark(cs[1..], thr)
      else Dark(cs[1..], thr)
  }

  /** Sum of intensities. */
  function SumV(cs: seq<Cell>): real
  {
    if |cs| == 0 then 0.0 else cs[0].v + SumV(cs[1..])
  }

  /** Sum of squared intensities. */
  function SumSqV(cs: seq<Cell>): real
  {
    if |cs| == 0 then 0.0 else cs[0].v * cs[0].v + SumSqV(cs[1..])
  }

  /** Sum of squared deviations of the intensities from `m`. */
  function SumSqDev(cs: seq<Cell>, m: real): real
  {
    if |cs| == 0 then 0.0 else (cs[0].v - m) * (cs[0].v - m) + SumSqDev(cs[1..], m)
  }

  /** Sum of column indices. */
  function SumCol(cs: seq<Cell>): real
  {
    if |cs| == 0 then 0.0 else cs[0].col as real + SumCol(cs[1..])
  }

  /** Sum of row indices. */
  function SumRow(cs: seq<Cell>): real
  {
    if |cs| == 0 then 0.0 else cs[0].row as real + SumRow(cs[1..])
  }

  /** Second moments of the cell positions about `(cx, cy)`. */
  function SumDxx(cs: seq<Cell>, cx: real): real
  {
    if |cs| == 0 then 0.0
    else (cs[0].col as real - cx) * (cs[0].col as real - cx) + SumDxx(cs[1..], cx)
  }

  function SumDyy(cs: seq<Cell>, cy: real): real
  {
    if |cs| == 0 then 0.0
    else (cs[0].row as real - cy) * (cs[0].row as real - cy) + SumDyy(cs[1..], cy)
  }

  function SumDxy(cs: seq<Cell>, cx: real, cy: real): real
  {
    if |cs| == 0 then 0.0
    else (cs[0].col as real - cx) * (cs[0].row as real - cy) + SumDxy(cs[1..], cx, cy)
  }

  /** `dev = s2 - 2·m·s + n·m²`: a sum of squared deviations about `m` in terms of the sum `s`
      and the sum of squares `s2` of `n` values. */
  predicate IsExpansion(dev: real, s2: real, s: real, n: real, m: real)
  {
    dev == s2 - 2.0 * m * s + n * m * m
  }

  lemma {:induction false} SumSqDevExpand(cs: seq<Cell>, m: real)
    ensures IsExpansion(SumSqDev(cs, m), SumSqV(cs), SumV(cs), |cs| as real, m)
  {
    if |cs| > 0 {
      SumSqDevExpand(cs[1..], m);
    }
  }

  lemma {:induction false} SumSqDevNonNegative(cs: seq<Cell>, m: real)
    ensures SumSqDev(cs, m) >= 0.0
  {
    if |cs| > 0 {
      SumSqDevNonNegative(cs[1..], m);
      var d := cs[0].v - m;
      assert d * d >= 0.0;
    }
  }

  /** Mean intensity. */
  function Mean(cs: seq<Cell>): real
    requires |cs| > 0
  {
    SumV(cs) / (|cs| as real)
  }

  /** Mean squared intensity. */
  function MeanSq(cs: seq<Cell>): real
    requires |cs| > 0
  {
    SumSqV(cs) / (|cs| as real)
  }

  /** Over exact reals the raw variance `E[v²] - E[v]²` is never negative, so the clamp to
      zero in front of the square root only guards against round-off. */
  lemma RawVarianceNonNegative(cs: seq<Cell>, m: real, q: real)
    requires (|cs| as real) * m == SumV(cs) && (|cs| as real) * q == SumSqV(cs)
    requires |cs| > 0
    ensures q - m * m >= 0.0
  {
    SumSqDevAtMean(cs, m, q);
    SumSqDevNonNegative(cs, m);
    RealMath.NonNegativeFactor(|cs| as real, q - m * m, SumSqDev(cs, m));
  }

  lemma MeanTimesCount(cs: seq<Cell>)
    requires |cs| > 0
    ensures (|cs| as real) * Mean(cs) == SumV(cs)
    ensures (|cs| as real) * MeanSq(cs) == SumSqV(cs)
  {
  }

  /** The squared deviations about the mean `m` are `n` times the raw variance `q - m²`. */
  lemma SumSqDevAtMean(cs: seq<Cell>, m: real, q: real)
    requires (|cs| as real) * m == SumV(cs) && (|cs| as real) * q == SumSqV(cs)
    ensures SumSqDev(cs, m) == (|cs| as real) * (q - m * m)
  {
    SumSqDevExpand(cs, m);
    VarianceAlgebra(SumSqDev(cs, m), SumSqV(cs), SumV(cs), |cs| as real, m, q);
  }

  /** The algebra behind `SumSqDevAtMean`, on plain numbers. */
  lemma VarianceAlgebra(dev: real, s2: real, s: real, n: real, m: real, q: real)
    requires n * m == s && n * q == s2
    requires IsExpansion(dev, s2, s, n, m)
    ensures dev == n * (q - m * m)
  {
  }

  /** If every intensity exceeds `m`, so does their mean. */
  lemma {:induction false} AllAboveSum(cs: seq<Cell>, m: real)
    requires |cs| > 0
    requires forall c :: c in cs ==> c.v > m
    ensures SumV(cs) > (|cs| as real) * m
  {
    if |cs| > 1 {
      assert forall c :: c in cs[1..] ==> c in cs;
      AllAboveSum(cs[1..], m);
    }
  }

  /** Some cell lies at or below the mean intensity. */
  lemma MeanAttained(cs: seq<Cell>)
    requires |cs| > 0
    ensures exists c :: c in cs && c.v <= SumV(cs) / (|cs| as real)
  {
    var n := |cs| as real;
    if forall c :: c in cs ==> c.v > SumV(cs) / n {
      AllAboveSum(cs, SumV(cs) / n);
      assert false;
    }
  }

  /** Column and row sums are bounded by the count times the largest index. */
  lemma {:induction false} SumColBounds(cs: seq<Cell>, hi: real)
    requires forall c :: c in cs ==> c.col as real <= hi
    ensures 0.0 <= SumCol(cs) <= (|cs| as real) * hi
  {
    if |cs| > 0 {
      assert forall c :: c in cs[1..] ==> c in cs;
      SumColBounds(cs[1..], hi);
      SumColStep(cs, cs[1..], hi);
    }
  }

  lemma {:induction false} SumRowBounds(cs: seq<Cell>, hi: real)
    requires forall c :: c in cs ==> c.row as real <= hi
    ensures 0.0 <= SumRow(cs) <= (|cs| as real) * hi
  {
    if |cs| > 0 {
      assert forall c :: c in cs[1..] ==> c in cs;
      SumRowBounds(cs[1..], hi);
      SumRowStep(cs, cs[1..], hi);
    }
  }

  /** The tail of a sequence of cells within `[lo, hi]` is within it too. */
  lemma TailWithin(cs: seq<Cell>, lo: real, hi: real)
    requires |cs| > 0 && forall c :: c in cs ==> lo <= c.v <= hi
    ensures lo <= cs[0].v <= hi
    ensures forall c :: c in cs[1..] ==> lo <= c.v <= hi
  {
    assert forall c :: c in cs[1..] ==> c in cs;
  }

  lemma {:induction false} SumVBounds(cs: seq<Cell>, lo: real, hi: real)
    requires forall c :: c in cs ==> lo <= c.v <= hi
    ensures (|cs| as real) * lo <= SumV(cs) <= (|cs| as real) * hi
  {
    if |cs| > 0 {
      var tl := cs[1..];
      TailWithin(cs, lo, hi);
      SumVBounds(tl, lo, hi);
      SumVStep(cs, tl, lo, hi);
    }
  }

  lemma SumColStep(cs: seq<Cell>, tl: seq<Cell>, hi: real)
    requires |cs| > 0 && tl == cs[1..] && 0.0 <= cs[0].col as real <= hi
    requires (|tl| as real) * 0.0 <= SumCol(tl) <= (|tl| as real) * hi
    ensures (|cs| as real) * 0.0 <= SumCol(cs) <= (|cs| as real) * hi
  {
    StepBounds(|cs| as real, |tl| as real, 0.0, hi, cs[0].col as real, SumCol(tl), SumCol(cs));
  }

  lemma SumRowStep(cs: seq<Cell>, tl: seq<Cell>, hi: real)
    requires |cs| > 0 && tl == cs[1..] && 0.0 <= cs[0].row as real <= hi
    requires (|tl| as real) * 0.0 <= SumRow(tl) <= (|tl| as real) * hi
    ensures (|cs| as real) * 0.0 <= SumRow(cs) <= (|cs| as real) * hi
  {
    StepBounds(|cs| as real, |tl| as real, 0.0, hi, cs[0].row as real, SumRow(tl), SumRow(cs));
  }

  lemma SumVStep(cs: seq<Cell>, tl: seq<Cell>, lo: real, hi: real)
    requires |cs| > 0 && tl == cs[1..] && lo <= cs[0].v <= hi
    requires (|tl| as real) * lo <= SumV(tl) <= (|tl| as real) * (hi)
    ensures (|cs| as real) * lo <= SumV(cs) <= (|cs| as real) * (hi)
  {
    StepBounds(|cs| as real, |tl| as real, lo, hi, cs[0].v, SumV(tl), SumV(cs));
  }

  /** One more summand within `[lo, hi]` moves the bounds by one `lo` and one `hi`. */
  lemma StepBounds(n: real, k: real, lo: real, hi: real, v: real, rest: real, total: real)
    requires n == k + 1.0 && total == v + rest
    requires k * lo <= rest <= k * hi && lo <= v <= hi
    ensures n * lo <= total <= n * hi
  {
  }
}
