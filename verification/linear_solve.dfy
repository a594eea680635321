/** `CircleFit.solve3x3`: Gauss-Jordan elimination with partial pivoting on the 3 x 4
    augmented matrix `[A | b]`, over exact reals.

    Column by column the elimination picks the first row (from the diagonal down) whose entry
    in that column has the largest magnitude, gives up when that magnitude is below `Epsilon`,
    swaps the pivot row into place, divides it by the pivot, and subtracts multiples of it from
    the two other rows. The solution is read off the last column. */
module LinearSolve {

  import opened Wrappers
  import opened RealMath

  /** Pivots smaller than this in magnitude make the system count as singular (1e-12). */
  const Epsilon: real := 0.000000000001

  type Matrix = seq<seq<real>>

  /** Three rows of four entries: three coefficients and a right-hand side. */
  predicate IsAugmented(m: Matrix)
  {
    |m| == 3 && |m[0]| == 4 && |m[1]| == 4 && |m[2]| == 4
  }

  /** A 3 x 3 coefficient matrix. */
  predicate IsSquare(a: Matrix)
  {
    |a| == 3 && |a[0]| == 3 && |a[1]| == 3 && |a[2]| == 3
  }

  /** The left-hand side of one equation at `u`. */
  function Dot(row: seq<real>, u: seq<real>): real
    requires |row| >= 3 && |u| == 3
  {
    row[0] * u[0] + row[1] * u[1] + row[2] * u[2]
  }

  /** How far `u` is from satisfying the equation `row`. */
  function Residual(row: seq<real>, u: seq<real>): real
    requires |row| == 4 && |u| == 3
  {
    Dot(row, u) - row[3]
  }

  /** `u` satisfies every equation of the augmented matrix. */
  predicate Solves(m: Matrix, u: seq<real>)
    requires IsAugmented(m) && |u| == 3
  {
    Residual(m[0], u) == 0.0 && Residual(m[1], u) == 0.0 && Residual(m[2], u) == 0.0
  }

  /** `A u = b`. */
  predicate SolvesSystem(a: Matrix, b: seq<real>, u: seq<real>)
    requires IsSquare(a) && |b| == 3 && |u| == 3
  {
    Dot(a[0], u) == b[0] && Dot(a[1], u) == b[1] && Dot(a[2], u) == b[2]
  }

  /** Two augmented matrices with the same solution set. */
  ghost predicate Equivalent(m: Matrix, n: Matrix)
    requires IsAugmented(m) && IsAugmented(n)
  {
    forall u :: |u| == 3 ==> (Solves(m, u) <==> Solves(n, u))
  }

  /** Columns `0..k-1` are those of the identity matrix. */
  predicate Reduced(m: Matrix, k: nat)
    requires IsAugmented(m) && k <= 3
  {
    forall c, r :: 0 <= c < k && 0 <= r < 3 ==> m[r][c] == if r == c then 1.0 else 0.0
  }

  /** The matrix `M` the app builds from `A` and `b`. */
  function Augment(a: Matrix, b: seq<real>): (m: Matrix)
    requires IsSquare(a) && |b| == 3
    ensures IsAugmented(m)
    ensures forall u :: |u| == 3 ==> (Solves(m, u) <==> SolvesSystem(a, b, u))
  {
    [a[0] + [b[0]], a[1] + [b[1]], a[2] + [b[2]]]
  }

  // ---------------------------------------------------------------------------------------
  // Pivot choice

  /** The scan over rows `row..2`: a row replaces the current choice `best` only when its
      magnitude is strictly larger, so ties keep the upper row. */
  function PivotScan(m: Matrix, col: nat, row: nat, best: nat): (p: nat)
    requires IsAugmented(m) && col <= best < row <= 3
    requires forall r :: col <= r < row ==> Abs(m[r][col]) <= Abs(m[best][col])
    requires forall r :: col <= r < best ==> Abs(m[r][col]) < Abs(m[best][col])
    ensures col <= p < 3
    ensures forall r :: col <= r < 3 ==> Abs(m[r][col]) <= Abs(m[p][col])
    ensures forall r :: col <= r < p ==> Abs(m[r][col]) < Abs(m[p][col])
    decreases 3 - row
  {
    if row == 3 then best
    else if Abs(m[row][col]) > Abs(m[best][col]) then PivotScan(m, col, row + 1, row)
    else PivotScan(m, col, row + 1, best)
  }

  /** The pivot row for column `col`: the first row at or below the diagonal whose entry in
      that column has the largest magnitude. */
  function Pivot(m: Matrix, col: nat): (p: nat)
    requires IsAugmented(m) && col < 3
    ensures col <= p < 3
    ensures forall r :: col <= r < 3 ==> Abs(m[r][col]) <= Abs(m[p][col])
    ensures forall r :: col <= r < p ==> Abs(m[r][col]) < Abs(m[p][col])
  {
    PivotScan(m, col, col + 1, col)
  }

  // ---------------------------------------------------------------------------------------
  // Row operations, on the columns `col..3` the app touches

  function Swap(m: Matrix, i: nat, j: nat): (s: Matrix)
    requires IsAugmented(m) && i < 3 && j < 3
    ensures IsAugmented(s)
  {
    m[i := m[j]][j := m[i]]
  }

  /** Entry `j` of a row after `for (j in col..3) row[j] /= p`. */
  function ScaleEntry(x: real, j: nat, col: nat, p: real): real
    requires p != 0.0
  {
    if j >= col then x / p else x
  }

  function ScaleFrom(row: seq<real>, col: nat, p: real): (s: seq<real>)
    requires |row| == 4 && p != 0.0
    ensures |s| == 4
  {
    [ScaleEntry(row[0], 0, col, p), ScaleEntry(row[1], 1, col, p),
     ScaleEntry(row[2], 2, col, p), ScaleEntry(row[3], 3, col, p)]
  }

  /** Entry `j` of a row after `for (j in col..3) row[j] -= f * piv[j]`. */
  function SubtractEntry(x: real, pivX: real, j: nat, col: nat, f: real): real
  {
    if j >= col then x - f * pivX else x
  }

  function SubtractFrom(row: seq<real>, piv: seq<real>, col: nat, f: real): (s: seq<real>)
    requires |row| == 4 && |piv| == 4
    ensures |s| == 4
  {
    [SubtractEntry(row[0], piv[0], 0, col, f), SubtractEntry(row[1], piv[1], 1, col, f),
     SubtractEntry(row[2], piv[2], 2, col, f), SubtractEntry(row[3], piv[3], 3, col, f)]
  }

  /** Divide the pivot row by its diagonal entry. */
  function Normalize(m: Matrix, col: nat): (n: Matrix)
    requires IsAugmented(m) && col < 3 && m[col][col] != 0.0
    ensures IsAugmented(n)
  {
    m[col := ScaleFrom(m[col], col, m[col][col])]
  }

  /** Subtract the right multiple of the pivot row from each other row. */
  function ClearColumn(m: Matrix, col: nat): (n: Matrix)
    requires IsAugmented(m) && col < 3
    ensures IsAugmented(n)
  {
    [ClearRow(m, col, 0), ClearRow(m, col, 1), ClearRow(m, col, 2)]
  }

  /** Row `r` after the pivot row has been subtracted from every other row. */
  function ClearRow(m: Matrix, col: nat, r: nat): (s: seq<real>)
    requires IsAugmented(m) && col < 3 && r < 3
    ensures |s| == 4
  {
    if r == col then m[col] else SubtractFrom(m[r], m[col], col, m[r][col])
  }

  /** One pass of the outer loop: `None` when the best pivot is too small. */
  function Eliminate(m: Matrix, col: nat): (r: Option<Matrix>)
    requires IsAugmented(m) && col < 3
    ensures r.None? <==> forall row :: col <= row < 3 ==> Abs(m[row][col]) < Epsilon
    ensures r.Some? ==> IsAugmented(r.value)
  {
    var pivot := Pivot(m, col);
    if Abs(m[pivot][col]) < Epsilon then None
    else
      var s := if pivot != col then Swap(m, pivot, col) else m;
      Some(ClearColumn(Normalize(s, col), col))
  }

  /** The outer loop from column `col` on. */
  function Reduce(m: Matrix, col: nat): (r: Option<Matrix>)
    requires IsAugmented(m) && col <= 3
    ensures r.Some? ==> IsAugmented(r.value)
    decreases 3 - col
  {
    if col == 3 then Some(m)
    else match Eliminate(m, col)
      case None => None
      case Some(n) => Reduce(n, col + 1)
  }

  /** `solve3x3(A, b)`: a returned vector solves `A u = b`. */
  function Solve3x3(a: Matrix, b: seq<real>): (r: Option<seq<real>>)
    requires IsSquare(a) && |b| == 3
    ensures r.Some? ==> |r.value| == 3 && SolvesSystem(a, b, r.value)
  {
    var m := Augment(a, b);
    assert Reduced(m, 0);
    match Reduce(m, 0)
    case None => None
    case Some(n) =>
      ReducePreserves(m, 0);
      IdentitySolution(n, [n[0][3], n[1][3], n[2][3]]);
      Some([n[0][3], n[1][3], n[2][3]])
  }

  // ---------------------------------------------------------------------------------------
  // Correctness

  /** Dividing an equation by a non-zero number divides its residual by it. */
  lemma ScaledResidual(row: seq<real>, s: seq<real>, p: real, u: seq<real>)
    requires |row| == 4 && |s| == 4 && |u| == 3 && p != 0.0
    requires s[0] == row[0] / p && s[1] == row[1] / p && s[2] == row[2] / p && s[3] == row[3] / p
    ensures Residual(s, u) * p == Residual(row, u)
  {
    var a, b, c, d := s[0], s[1], s[2], s[3];
    assert a * p == row[0] by { QuotientTimes(row[0], p); }
    assert b * p == row[1] by { QuotientTimes(row[1], p); }
    assert c * p == row[2] by { QuotientTimes(row[2], p); }
    assert d * p == row[3] by { QuotientTimes(row[3], p); }
    ScaleAlgebra(a, b, c, d, p, u[0], u[1], u[2]);
  }

  lemma ScaleAlgebra(a: real, b: real, c: real, d: real, p: real, x: real, y: real, z: real)
    ensures (a * x + b * y + c * z - d) * p == (a * p) * x + (b * p) * y + (c * p) * z - d * p
  {
  }

  /** Subtracting `f` times one equation from another subtracts `f` times its residual. */
  lemma CombinedResidual(row: seq<real>, piv: seq<real>, s: seq<real>, f: real, u: seq<real>)
    requires |row| == 4 && |piv| == 4 && |s| == 4 && |u| == 3
    requires s[0] == row[0] - f * piv[0] && s[1] == row[1] - f * piv[1]
    requires s[2] == row[2] - f * piv[2] && s[3] == row[3] - f * piv[3]
    ensures Residual(s, u) == Residual(row, u) - f * Residual(piv, u)
  {
    CombineAlgebra(row[0], row[1], row[2], row[3], piv[0], piv[1], piv[2], piv[3], f, u[0], u[1], u[2]);
  }

  lemma CombineAlgebra(a: real, b: real, c: real, d: real, pa: real, pb: real, pc: real, pd: real,
                       f: real, x: real, y: real, z: real)
    ensures (a - f * pa) * x + (b - f * pb) * y + (c - f * pc) * z - (d - f * pd)
         == (a * x + b * y + c * z - d) - f * (pa * x + pb * y + pc * z - pd)
  {
  }

  /** Swapping two rows changes neither the solution set nor the cleared columns below them. */
  lemma SwapPreserves(m: Matrix, i: nat, col: nat)
    requires IsAugmented(m) && col <= i < 3 && Reduced(m, col)
    ensures Equivalent(m, Swap(m, i, col))
    ensures Reduced(Swap(m, i, col), col)
    ensures Swap(m, i, col)[col] == m[i]
  {
  }

  /** An equation divided by a non-zero number has the same solutions. */
  lemma ScaledRowSameSolutions(row: seq<real>, s: seq<real>, p: real)
    requires |row| == 4 && |s| == 4 && p != 0.0
    requires s[0] == row[0] / p && s[1] == row[1] / p && s[2] == row[2] / p && s[3] == row[3] / p
    ensures forall u :: |u| == 3 ==> (Residual(s, u) == 0.0 <==> Residual(row, u) == 0.0)
  {
    forall u | |u| == 3
      ensures Residual(s, u) == 0.0 <==> Residual(row, u) == 0.0
    {
      var rs, rr := Residual(s, u), Residual(row, u);
      assert rs * p == rr by { ScaledResidual(row, s, p, u); }
      if rs != 0.0 {
        MulNonZero(rs, p);
      }
    }
  }

  /** Replacing one equation by one with the same solutions keeps the solution set. */
  lemma ReplaceRowEquivalent(m: Matrix, i: nat, s: seq<real>)
    requires IsAugmented(m) && i < 3 && |s| == 4
    requires forall u :: |u| == 3 ==> (Residual(s, u) == 0.0 <==> Residual(m[i], u) == 0.0)
    ensures IsAugmented(m[i := s]) && Equivalent(m, m[i := s])
  {
  }

  /** With the cleared columns zero in the pivot row, dividing the entries from `col` on
      divides the whole row. */
  lemma ScaleFromWholeRow(m: Matrix, col: nat)
    requires IsAugmented(m) && col < 3 && Reduced(m, col) && m[col][col] != 0.0
    ensures var s, p, row := ScaleFrom(m[col], col, m[col][col]), m[col][col], m[col];
      s[0] == row[0] / p && s[1] == row[1] / p && s[2] == row[2] / p && s[3] == row[3] / p
  {
    var p, row := m[col][col], m[col];
    ScaleEntryQuotient(row[0], 0, col, p);
    assert 1 < col ==> row[1] == 0.0;
    ScaleEntryQuotient(row[1], 1, col, p);
    ScaleEntryQuotient(row[2], 2, col, p);
    ScaleEntryQuotient(row[3], 3, col, p);
  }

  lemma ScaleEntryQuotient(x: real, j: nat, col: nat, p: real)
    requires p != 0.0 && (j < col ==> x == 0.0)
    ensures ScaleEntry(x, j, col, p) == x / p
  {
  }

  /** Dividing the pivot row by its non-zero pivot keeps the solution set. */
  lemma NormalizePreserves(m: Matrix, col: nat)
    requires IsAugmented(m) && col < 3 && Reduced(m, col) && m[col][col] != 0.0
    ensures Equivalent(m, Normalize(m, col))
  {
    var s := ScaleFrom(m[col], col, m[col][col]);
    ScaleFromWholeRow(m, col);
    ScaledRowSameSolutions(m[col], s, m[col][col]);
    ReplaceRowEquivalent(m, col, s);
  }

  /** Dividing the pivot row by its pivot puts a 1 on the diagonal and keeps the cleared
      columns. */
  lemma NormalizeReduces(m: Matrix, col: nat)
    requires IsAugmented(m) && col < 3 && Reduced(m, col) && m[col][col] != 0.0
    ensures Reduced(Normalize(m, col), col)
    ensures Normalize(m, col)[col][col] == 1.0
  {
    var n := Normalize(m, col);
    forall c, r | 0 <= c < col && 0 <= r < 3
      ensures n[r][c] == if r == c then 1.0 else 0.0
    {
      assert m[r][c] == if r == c then 1.0 else 0.0;
    }
  }

  lemma MulNonZero(x: real, y: real)
    requires x != 0.0 && y != 0.0
    ensures x * y != 0.0
  {
    if x > 0.0 && y > 0.0 {
      MulPos(x, y);
    } else if x > 0.0 {
      MulPos(x, -y);
    } else if y > 0.0 {
      MulPos(-x, y);
    } else {
      MulPos(-x, -y);
    }
  }

  /** With the cleared columns zero in the pivot row, the partial update of row `r` subtracts
      the whole pivot row. */
  lemma ClearRowWhole(m: Matrix, col: nat, r: nat)
    requires IsAugmented(m) && col < 3 && r < 3 && r != col && Reduced(m, col)
    ensures var s, row, piv, f := ClearRow(m, col, r), m[r], m[col], m[r][col];
      s[0] == row[0] - f * piv[0] && s[1] == row[1] - f * piv[1]
      && s[2] == row[2] - f * piv[2] && s[3] == row[3] - f * piv[3]
  {
    var s, row, piv, f := ClearRow(m, col, r), m[r], m[col], m[r][col];
    assert s[0] == row[0] - f * piv[0] by { SubtractEntryWhole(row[0], piv[0], 0, col, f); }
    assert s[1] == row[1] - f * piv[1] by {
      assert 1 < col ==> piv[1] == 0.0;
      SubtractEntryWhole(row[1], piv[1], 1, col, f);
    }
    assert s[2] == row[2] - f * piv[2] by { SubtractEntryWhole(row[2], piv[2], 2, col, f); }
    assert s[3] == row[3] - f * piv[3] by { SubtractEntryWhole(row[3], piv[3], 3, col, f); }
  }

  lemma SubtractEntryWhole(x: real, pivX: real, j: nat, col: nat, f: real)
    requires j < col ==> pivX == 0.0
    ensures SubtractEntry(x, pivX, j, col, f) == x - f * pivX
  {
  }

  /** Clearing the pivot column from the other rows makes column `col` that of the identity. */
  lemma ClearReduces(m: Matrix, col: nat)
    requires IsAugmented(m) && col < 3 && Reduced(m, col) && m[col][col] == 1.0
    ensures Reduced(ClearColumn(m, col), col + 1)
  {
    var n := ClearColumn(m, col);
    forall c, r | 0 <= c < col + 1 && 0 <= r < 3
      ensures n[r][c] == if r == c then 1.0 else 0.0
    {
      if r != col {
        ClearRowWhole(m, col, r);
        if c < col {
          assert m[col][c] == 0.0;
        }
      }
    }
  }

  /** Subtracting a multiple of an equation that `u` satisfies leaves the residual unchanged. */
  lemma SatisfiedCombination(row: seq<real>, piv: seq<real>, s: seq<real>, f: real, u: seq<real>)
    requires |row| == 4 && |piv| == 4 && |s| == 4 && |u| == 3
    requires s[0] == row[0] - f * piv[0] && s[1] == row[1] - f * piv[1]
    requires s[2] == row[2] - f * piv[2] && s[3] == row[3] - f * piv[3]
    requires Residual(piv, u) == 0.0
    ensures Residual(s, u) == Residual(row, u)
  {
    CombinedResidual(row, piv, s, f, u);
  }

  /** At a solution of the pivot equation, subtracting a multiple of it from row `r` leaves
      the residual of row `r` unchanged. */
  lemma ClearRowResidual(m: Matrix, col: nat, r: nat, u: seq<real>)
    requires IsAugmented(m) && col < 3 && r < 3 && Reduced(m, col) && |u| == 3
    requires Residual(m[col], u) == 0.0
    ensures Residual(ClearRow(m, col, r), u) == Residual(m[r], u)
  {
    if r != col {
      ClearRowWhole(m, col, r);
      SatisfiedCombination(m[r], m[col], ClearRow(m, col, r), m[r][col], u);
    }
  }

  /** Clearing the pivot column from the other rows keeps the solution set. */
  lemma ClearPreserves(m: Matrix, col: nat)
    requires IsAugmented(m) && col < 3 && Reduced(m, col)
    ensures Equivalent(m, ClearColumn(m, col))
  {
    var n := ClearColumn(m, col);
    forall u | |u| == 3
      ensures Solves(m, u) <==> Solves(n, u)
    {
      assert n[col] == m[col];
      if Residual(m[col], u) == 0.0 {
        ClearRowResidual(m, col, 0, u);
        ClearRowResidual(m, col, 1, u);
        ClearRowResidual(m, col, 2, u);
      }
    }
  }

  /** One elimination pass keeps the solution set and clears one more column. */
  lemma EliminatePreserves(m: Matrix, col: nat)
    requires IsAugmented(m) && col < 3 && Reduced(m, col)
    requires Eliminate(m, col).Some?
    ensures Equivalent(m, Eliminate(m, col).value)
    ensures Reduced(Eliminate(m, col).value, col + 1)
  {
    var pivot := Pivot(m, col);
    var s := if pivot != col then Swap(m, pivot, col) else m;
    SwapPreserves(m, pivot, col);
    NormalizePreserves(s, col);
    NormalizeReduces(s, col);
    var n := Normalize(s, col);
    ClearPreserves(n, col);
    ClearReduces(n, col);
  }

  /** The whole elimination keeps the solution set and ends at the identity. */
  lemma {:induction false} ReducePreserves(m: Matrix, col: nat)
    requires IsAugmented(m) && col <= 3 && Reduced(m, col)
    requires Reduce(m, col).Some?
    ensures Equivalent(m, Reduce(m, col).value)
    ensures Reduced(Reduce(m, col).value, 3)
    decreases 3 - col
  {
    if col < 3 {
      var n := Eliminate(m, col).value;
      EliminatePreserves(m, col);
      ReducePreserves(n, col + 1);
    }
  }

  /** Once the coefficients are the identity, the last column is the one solution. */
  lemma IdentitySolution(m: Matrix, u: seq<real>)
    requires IsAugmented(m) && Reduced(m, 3) && |u| == 3
    ensures Solves(m, u) <==> u == [m[0][3], m[1][3], m[2][3]]
  {
    assert m[0][0] == 1.0 && m[0][1] == 0.0 && m[0][2] == 0.0;
    assert m[1][0] == 0.0 && m[1][1] == 1.0 && m[1][2] == 0.0;
    assert m[2][0] == 0.0 && m[2][1] == 0.0 && m[2][2] == 1.0;
    if Solves(m, u) {
      assert u == [u[0], u[1], u[2]];
    }
  }

  /** A returned solution solves `A u = b`, and it is the only one. */
  lemma SolutionIsUnique(a: Matrix, b: seq<real>, u: seq<real>)
    requires IsSquare(a) && |b| == 3 && |u| == 3
    requires Solve3x3(a, b).Some?
    ensures SolvesSystem(a, b, u) <==> u == Solve3x3(a, b).value
  {
    var m := Augment(a, b);
    assert Reduced(m, 0);
    ReducePreserves(m, 0);
    var n := Reduce(m, 0).value;
    IdentitySolution(n, u);
  }

  /** `A` maps the non-zero vector `k` to zero. */
  predicate Kernel(a: Matrix, k: seq<real>)
    requires IsSquare(a) && |k| == 3
  {
    (k[0] != 0.0 || k[1] != 0.0 || k[2] != 0.0) && Dot(a[0], k) == 0.0 && Dot(a[1], k) == 0.0 && Dot(a[2], k) == 0.0
  }

  lemma DotAdd(row: seq<real>, u: seq<real>, k: seq<real>)
    requires |row| >= 3 && |u| == 3 && |k| == 3
    ensures Dot(row, [u[0] + k[0], u[1] + k[1], u[2] + k[2]]) == Dot(row, u) + Dot(row, k)
  {
  }

  /** A singular system is always rejected: over exact reals a returned solution is unique,
      and adding a kernel vector would give a second one. */
  lemma SingularRejected(a: Matrix, b: seq<real>, k: seq<real>)
    requires IsSquare(a) && |b| == 3 && |k| == 3 && Kernel(a, k)
    ensures Solve3x3(a, b).None?
  {
    if Solve3x3(a, b).Some? {
      var u := Solve3x3(a, b).value;
      var v := [u[0] + k[0], u[1] + k[1], u[2] + k[2]];
      assert SolvesSystem(a, b, u) by { SolutionIsUnique(a, b, u); }
      assert SolvesSystem(a, b, v) by {
        DotAdd(a[0], u, k);
        DotAdd(a[1], u, k);
        DotAdd(a[2], u, k);
      }
      SolutionIsUnique(a, b, v);
      assert false;
    }
  }
}
