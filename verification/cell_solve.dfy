/**
 * The serial solver of the impurity species (impurity.py `solve` and
 * `evolve`, lines 365-404). The steady state of each spatial cell solves its
 * rate matrix with the last row replaced by ones and a right-hand side that
 * is zero except for the cell's total density. A time step multiplies each
 * cell's densities by the backward-Euler operator `inv(I - dt * R)` built in
 * impurity.py:355-358. Inversion is an oracle; what is proved is what
 * follows from the oracle's answer being exact.
 */
module CellSolve {
  import opened Common
  import opened RateMatrix

  /** `loc_mat[-1, :] = 1.0`: the last row becomes ones, every other row is kept. */
  function WithConservationRow(m: Matrix): (a: Matrix)
    requires |m| > 0 && IsSquare(m, |m|)
    ensures IsSquare(a, |m|)
    ensures forall r, c :: 0 <= r < |m| && 0 <= c < |m| ==>
      a[r][c] == (if r == |m| - 1 then 1.0 else m[r][c])
  {
    m[|m| - 1 := seq(|m|, _ => 1.0)]
  }

  /** The right-hand side of one cell: zeros, and the cell's total density last. */
  function CellRhs(dens: seq<real>): (b: seq<real>)
    requires |dens| > 0
    ensures |b| == |dens|
    ensures forall k :: 0 <= k < |b| ==> b[k] == (if k == |b| - 1 then Sum(dens) else 0.0)
  {
    Zeros(|dens|)[|dens| - 1 := Sum(dens)]
  }

  /** Any exact solution of one cell's conserving system keeps the cell's total. */
  lemma CellSolutionConserves(m: Matrix, dens: seq<real>, x: seq<real>)
    requires |m| > 0 && IsSquare(m, |m|) && |dens| == |m| && |x| == |m|
    requires MatVec(WithConservationRow(m), x) == CellRhs(dens)
    ensures Sum(x) == Sum(dens)
  {
    var a := WithConservationRow(m);
    DotOnes(a[|m| - 1], x);
    assert MatVec(a, x)[|m| - 1] == Dot(a[|m| - 1], x);
  }

  /** Every cell has n states and an n-by-n matrix. */
  predicate CellShapes(mats: seq<Matrix>, dens: Grid, n: nat)
  {
    |mats| == |dens| && RowsOfWidth(dens, n) && forall i :: 0 <= i < |mats| ==> IsSquare(mats[i], n)
  }

  /**
   * impurity.py:365-373 for one species of electrons. `linSolve` stands
   * for `inv(A).dot(b)` and is `None` where inversion fails. Cells are
   * visited in order: cell i's matrix gets its ones row, is inverted, and
   * cell i's densities are overwritten with the answer, which depends only
   * on matrix i and the prior densities of cell i. `written` is the number
   * of cells overwritten; it is below the cell count exactly when some
   * inversion fails, and then it is the first failing cell. The failing
   * cell's matrix already has its ones row; later matrices and densities
   * are as they were.
   */
  method SolveCells(mats: seq<Matrix>, dens: Grid, n: nat,
                    linSolve: (Matrix, seq<real>) -> Option<seq<real>>)
    returns (written: nat, out: Grid, mutated: seq<Matrix>)
    requires n > 0 && CellShapes(mats, dens, n)
    requires forall A, b :: linSolve(A, b).Some? ==> |linSolve(A, b).value| == |b|
    ensures written <= |mats| && |out| == |dens| && RowsOfWidth(out, n) && |mutated| == |mats|
    ensures written == |mats| <==>
      forall i :: 0 <= i < |mats| ==> linSolve(WithConservationRow(mats[i]), CellRhs(dens[i])).Some?
    ensures written < |mats| ==> linSolve(WithConservationRow(mats[written]), CellRhs(dens[written])).None?
    ensures forall i :: 0 <= i < written ==>
      Some(out[i]) == linSolve(WithConservationRow(mats[i]), CellRhs(dens[i]))
    ensures forall i :: written <= i < |dens| ==> out[i] == dens[i]
    ensures forall i :: 0 <= i < |mats| ==>
      mutated[i] == (if i <= written then WithConservationRow(mats[i]) else mats[i])
    ensures forall i ::
      (0 <= i < written && MatVec(WithConservationRow(mats[i]), out[i]) == CellRhs(dens[i])) ==>
      Sum(out[i]) == Sum(dens[i])
  {
    out := dens;
    mutated := mats;
    written := 0;
    while written < |mats|
      invariant written <= |mats| && |out| == |dens| && RowsOfWidth(out, n) && |mutated| == |mats|
      invariant forall j :: 0 <= j < written ==>
        Some(out[j]) == linSolve(WithConservationRow(mats[j]), CellRhs(dens[j]))
      invariant forall j :: written <= j < |dens| ==> out[j] == dens[j]
      invariant forall j :: 0 <= j < |mats| ==>
        mutated[j] == (if j < written then WithConservationRow(mats[j]) else mats[j])
    {
      var a := WithConservationRow(mats[written]);
      mutated := mutated[written := a];
      var x := linSolve(a, CellRhs(dens[written]));
      if x.None? {
        break;
      }
      out := out[written := x.value];
      written := written + 1;
    }
    forall j | 0 <= j < written && MatVec(WithConservationRow(mats[j]), out[j]) == CellRhs(dens[j])
      ensures Sum(out[j]) == Sum(dens[j])
    {
      CellSolutionConserves(mats[j], dens[j], out[j]);
    }
  }

  /** Setting up a cell again on its mutated matrix gives the same system. */
  lemma ConservationRowIdempotent(m: Matrix)
    requires |m| > 0 && IsSquare(m, |m|)
    ensures WithConservationRow(WithConservationRow(m)) == WithConservationRow(m)
  {
  }

  /** Entry-wise sum of two vectors of the same length. */
  function Plus(a: seq<real>, b: seq<real>): (s: seq<real>)
    requires |a| == |b|
    ensures |s| == |a| && forall i :: 0 <= i < |a| ==> s[i] == a[i] + b[i]
  {
    seq(|a|, i requires 0 <= i < |a| => a[i] + b[i])
  }

  /** The column sums of a matrix with rows of width w, accumulated row by row. */
  function ColumnSums(m: Matrix, w: nat): (cs: seq<real>)
    requires RowsOfWidth(m, w)
    ensures |cs| == w
  {
    if |m| == 0 then Zeros(w) else Plus(m[0], ColumnSums(m[1..], w))
  }

  /** Entry c of the accumulated column sums is the sum of column c. */
  lemma {:induction false} ColumnSumsAt(m: Matrix, w: nat, c: nat)
    requires RowsOfWidth(m, w) && c < w
    ensures ColumnSums(m, w)[c] == Sum(Column(m, c))
  {
    if |m| > 0 {
      ColumnSumsAt(m[1..], w, c);
      assert Column(m, c)[1..] == Column(m[1..], c);
    }
  }

  lemma {:induction false} DotPlus(a: seq<real>, b: seq<real>, x: seq<real>)
    requires |a| == |b| == |x|
    ensures Dot(Plus(a, b), x) == Dot(a, x) + Dot(b, x)
  {
    if |a| > 0 {
      DotPlus(a[1..], b[1..], x[1..]);
      assert Plus(a, b)[1..] == Plus(a[1..], b[1..]);
    }
  }

  /** Summing a product over its rows weighs each input entry by its column's sum. */
  lemma {:induction false} SumMatVec(m: Matrix, x: seq<real>)
    requires RowsOfWidth(m, |x|)
    ensures Sum(MatVec(m, x)) == Dot(ColumnSums(m, |x|), x)
  {
    if |m| == 0 {
      DotZeros(Zeros(|x|), x);
    } else {
      SumMatVec(m[1..], x);
      assert MatVec(m, x)[1..] == MatVec(m[1..], x);
      DotPlus(m[0], ColumnSums(m[1..], |x|), x);
    }
  }

  /** Every column of m sums to one. */
  predicate UnitColumnSums(m: Matrix, w: nat)
    requires RowsOfWidth(m, w)
  {
    forall c :: 0 <= c < w ==> Sum(Column(m, c)) == 1.0
  }

  /** An operator whose columns sum to one keeps the total of whatever it multiplies. */
  lemma KeepsTotal(op: Matrix, x: seq<real>)
    requires IsSquare(op, |x|) && UnitColumnSums(op, |x|)
    ensures Sum(MatVec(op, x)) == Sum(x)
  {
    SumMatVec(op, x);
    var cs := ColumnSums(op, |x|);
    forall c | 0 <= c < |x| ensures cs[c] == 1.0 {
      ColumnSumsAt(op, |x|, c);
    }
    DotOnes(cs, x);
  }

  /** Row r of the n-by-n identity. */
  function Unit(n: nat, r: nat): (e: seq<real>)
    requires r < n
    ensures |e| == n && forall c :: 0 <= c < n ==> e[c] == (if c == r then 1.0 else 0.0)
  {
    Zeros(n)[r := 1.0]
  }

  /** The backward-Euler matrix `I - dt * R` (impurity.py:355-358, solver.py:126). */
  function EulerMatrix(rm: Matrix, dt: real): (e: Matrix)
    requires IsSquare(rm, |rm|)
    ensures IsSquare(e, |rm|)
    ensures forall r, c :: 0 <= r < |rm| && 0 <= c < |rm| ==>
      e[r][c] == (if r == c then 1.0 else 0.0) - dt * rm[r][c]
  {
    seq(|rm|, r requires 0 <= r < |rm| =>
      seq(|rm|, c requires 0 <= c < |rm| => (if r == c then 1.0 else 0.0) - dt * rm[r][c]))
  }

  lemma {:induction false} SumScaledDiff(a: seq<real>, b: seq<real>, s: seq<real>, k: real)
    requires |a| == |b| == |s|
    requires forall i :: 0 <= i < |s| ==> s[i] == a[i] - k * b[i]
    ensures Sum(s) == Sum(a) - k * Sum(b)
  {
    if |s| > 0 {
      SumScaledDiff(a[1..], b[1..], s[1..], k);
    }
  }

  /** With zero column sums in R, every column of `I - dt * R` sums to one, for any dt. */
  lemma EulerColumnSums(rm: Matrix, dt: real)
    requires IsSquare(rm, |rm|)
    requires forall c :: 0 <= c < |rm| ==> Sum(Column(rm, c)) == 0.0
    ensures UnitColumnSums(EulerMatrix(rm, dt), |rm|)
  {
    var n := |rm|;
    var e := EulerMatrix(rm, dt);
    forall c | 0 <= c < n ensures Sum(Column(e, c)) == 1.0 {
      SumScaledDiff(Unit(n, c), Column(rm, c), Column(e, c), dt);
      SumUpdate(Zeros(n), c, 1.0);
      SumZeros(n);
    }
  }

  /** `op` is a right inverse of `a`: column c of `a * op` is the c-th unit vector. */
  predicate RightInverse(a: Matrix, op: Matrix, n: nat)
    requires IsSquare(a, n) && IsSquare(op, n)
  {
    forall c :: 0 <= c < n ==> MatVec(a, Column(op, c)) == Unit(n, c)
  }

  /** Inverting a matrix whose columns sum to one gives a matrix whose columns sum to one. */
  lemma InverseColumnSums(a: Matrix, op: Matrix, n: nat)
    requires IsSquare(a, n) && IsSquare(op, n)
    requires UnitColumnSums(a, n) && RightInverse(a, op, n)
    ensures UnitColumnSums(op, n)
  {
    forall c | 0 <= c < n ensures Sum(Column(op, c)) == 1.0 {
      var col := Column(op, c);
      KeepsTotal(a, col);
      SumUpdate(Zeros(n), c, 1.0);
      SumZeros(n);
    }
  }

  /**
   * `op` is the backward-Euler operator of a rate matrix whose columns sum
   * to zero: it inverts `I - dt * rm`.
   */
  predicate ConservingOperator(rm: Matrix, op: Matrix, dt: real, n: nat)
  {
    && IsSquare(rm, n) && IsSquare(op, n)
    && (forall c :: 0 <= c < n ==> Sum(Column(rm, c)) == 0.0)
    && RightInverse(EulerMatrix(rm, dt), op, n)
  }

  /**
   * One time step of every cell (impurity.py:389-391): new densities are
   * the operator times the old ones. Where a cell's operator inverts
   * `I - dt * R` for a rate matrix with zero column sums, the step keeps the
   * cell's total.
   */
  function StepCells(ops: seq<Matrix>, dens: Grid, n: nat, rms: seq<Matrix>, dt: real): (next: Grid)
    requires CellShapes(ops, dens, n) && |rms| == |ops|
    ensures |next| == |dens| && RowsOfWidth(next, n)
    ensures forall i :: 0 <= i < |dens| ==> next[i] == MatVec(ops[i], dens[i])
    ensures forall i :: 0 <= i < |dens| && ConservingOperator(rms[i], ops[i], dt, n) ==>
      Sum(next[i]) == Sum(dens[i])
  {
    var next := seq(|dens|, i requires 0 <= i < |dens| => MatVec(ops[i], dens[i]));
    forall i | 0 <= i < |dens| && ConservingOperator(rms[i], ops[i], dt, n)
      ensures Sum(next[i]) == Sum(dens[i])
    {
      EulerColumnSums(rms[i], dt);
      InverseColumnSums(EulerMatrix(rms[i], dt), ops[i], n);
      KeepsTotal(ops[i], dens[i]);
    }
    next
  }

  /** The largest entry-wise change between two grids of the same shape (numpy `max(abs(a - b))`). */
  function GridMaxAbsDiff(a: Grid, b: Grid, n: nat): (d: real)
    requires |a| == |b| > 0 && n > 0 && RowsOfWidth(a, n) && RowsOfWidth(b, n)
    ensures d >= 0.0
    ensures forall i, k :: 0 <= i < |a| && 0 <= k < n ==> Abs(a[i][k] - b[i][k]) <= d
    ensures exists i, k :: 0 <= i < |a| && 0 <= k < n && Abs(a[i][k] - b[i][k]) == d
  {
    var rows := seq(|a|, i requires 0 <= i < |a| => MaxAbsDiff(a[i], b[i]));
    RowMaxima(a, b, n, rows);
    Max(rows)
  }

  /** The largest of the row maxima bounds every entry-wise change, and one change attains it. */
  lemma RowMaxima(a: Grid, b: Grid, n: nat, rows: seq<real>)
    requires |a| == |b| > 0 && n > 0 && RowsOfWidth(a, n) && RowsOfWidth(b, n)
    requires |rows| == |a| && forall i :: 0 <= i < |a| ==> rows[i] == MaxAbsDiff(a[i], b[i])
    ensures Max(rows) >= 0.0
    ensures forall i, k :: 0 <= i < |a| && 0 <= k < n ==> Abs(a[i][k] - b[i][k]) <= Max(rows)
    ensures exists i, k :: 0 <= i < |a| && 0 <= k < n && Abs(a[i][k] - b[i][k]) == Max(rows)
  {
    MaxIsLargest(rows);
    RowMaximaBound(a, b, n, rows, Max(rows));
    RowMaximaAttained(a, b, n, rows, Max(rows));
  }

  lemma RowMaximaBound(a: Grid, b: Grid, n: nat, rows: seq<real>, d: real)
    requires |a| == |b| > 0 && n > 0 && RowsOfWidth(a, n) && RowsOfWidth(b, n)
    requires |rows| == |a| && forall i :: 0 <= i < |a| ==> rows[i] == MaxAbsDiff(a[i], b[i])
    requires forall i :: 0 <= i < |rows| ==> rows[i] <= d
    ensures d >= 0.0
    ensures forall i, k :: 0 <= i < |a| && 0 <= k < n ==> Abs(a[i][k] - b[i][k]) <= d
  {
    forall j | 0 <= j < |a|
      ensures forall k :: 0 <= k < n ==> Abs(a[j][k] - b[j][k]) <= d
    {
      MaxAbsDiffIsLargest(a[j], b[j]);
    }
    MaxAbsDiffIsLargest(a[0], b[0]);
    assert rows[0] >= 0.0;
  }

  lemma RowMaximaAttained(a: Grid, b: Grid, n: nat, rows: seq<real>, d: real)
    requires |a| == |b| > 0 && n > 0 && RowsOfWidth(a, n) && RowsOfWidth(b, n)
    requires |rows| == |a| && forall i :: 0 <= i < |a| ==> rows[i] == MaxAbsDiff(a[i], b[i])
    requires exists i :: 0 <= i < |rows| && rows[i] == d
    ensures exists i, k :: 0 <= i < |a| && 0 <= k < n && Abs(a[i][k] - b[i][k]) == d
  {
    var i :| 0 <= i < |rows| && rows[i] == d;
    MaxAbsDiffIsLargest(a[i], b[i]);
    var k :| 0 <= k < n && Abs(a[i][k] - b[i][k]) == MaxAbsDiff(a[i], b[i]);
  }

  /**
   * m bounds the change of every density of both species, and some
   * density changes by exactly m.
   */
  predicate LargestChange(a: Grid, a0: Grid, b: Grid, b0: Grid, n: nat, m: real)
    requires |a| == |a0| == |b| == |b0|
    requires RowsOfWidth(a, n) && RowsOfWidth(a0, n) && RowsOfWidth(b, n) && RowsOfWidth(b0, n)
  {
    && (forall i, k :: 0 <= i < |a| && 0 <= k < n ==>
          Abs(a[i][k] - a0[i][k]) <= m && Abs(b[i][k] - b0[i][k]) <= m)
    && exists i, k :: 0 <= i < |a| && 0 <= k < n &&
          (Abs(a[i][k] - a0[i][k]) == m || Abs(b[i][k] - b0[i][k]) == m)
  }

  /** The densities of both electron species after one step, and the step's residual. */
  datatype Step = Step(dens: Grid, densMax: Grid, residual: real)

  /**
   * `evolve` (impurity.py:384-404): both species are stepped and the
   * residual is the largest change of any density of either species.
   */
  function Evolve(ops: seq<Matrix>, opsMax: seq<Matrix>, dens: Grid, densMax: Grid, n: nat,
                  rms: seq<Matrix>, rmsMax: seq<Matrix>, dt: real): (s: Step)
    requires n > 0 && |dens| > 0
    requires CellShapes(ops, dens, n) && CellShapes(opsMax, densMax, n) && |densMax| == |dens|
    requires |rms| == |ops| && |rmsMax| == |opsMax|
    ensures s.dens == StepCells(ops, dens, n, rms, dt)
    ensures s.densMax == StepCells(opsMax, densMax, n, rmsMax, dt)
    ensures LargestChange(s.dens, dens, s.densMax, densMax, n, s.residual)
  {
    var next := StepCells(ops, dens, n, rms, dt);
    var nextMax := StepCells(opsMax, densMax, n, rmsMax, dt);
    LargerAttained(next, dens, nextMax, densMax, n);
    var r := GridMaxAbsDiff(next, dens, n);
    var rMax := GridMaxAbsDiff(nextMax, densMax, n);
    Step(next, nextMax, if r >= rMax then r else rMax)
  }

  lemma LargerAttained(a: Grid, a0: Grid, b: Grid, b0: Grid, n: nat)
    requires |a| == |a0| == |b| == |b0| > 0 && n > 0
    requires RowsOfWidth(a, n) && RowsOfWidth(a0, n) && RowsOfWidth(b, n) && RowsOfWidth(b0, n)
    ensures var r := GridMaxAbsDiff(a, a0, n);
            var rMax := GridMaxAbsDiff(b, b0, n);
            LargestChange(a, a0, b, b0, n, if r >= rMax then r else rMax)
  {
    var r := GridMaxAbsDiff(a, a0, n);
    var rMax := GridMaxAbsDiff(b, b0, n);
    if r >= rMax {
      var i, k :| 0 <= i < |a| && 0 <= k < n && Abs(a[i][k] - a0[i][k]) == r;
    } else {
      var i, k :| 0 <= i < |a| && 0 <= k < n && Abs(b[i][k] - b0[i][k]) == rMax;
    }
  }
}
