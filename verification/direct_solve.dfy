/**
 * The direct steady-state solve of one rank (solver.py `solve`): the
 * right-hand side carries each local cell's total impurity density in the
 * slot of the cell's last state, the matching row of the block-diagonal rate
 * matrix is overwritten with ones over the cell's block, and a Krylov
 * solver (an oracle here) returns a solution or a negative converged reason.
 */
module DirectSolve {
  import opened Common
  import opened Layout

  /** What the linear solver hands back: PETSc's converged reason and the solution vector. */
  datatype KspResult = KspResult(reason: int, x: seq<real>)

  /** Entry (r, c) lies on the last row of a cell's block and inside that block. */
  predicate ConservationEntry(r: nat, c: nat, ns: nat)
    requires ns > 0
  {
    StateOf(r, ns) == ns - 1 && CellOf(r, ns) == CellOf(c, ns)
  }

  /** Every entry outside the ns-by-ns diagonal blocks is zero: cells do not couple. */
  predicate BlockDiagonal(m: Matrix, ns: nat)
    requires ns > 0
  {
    forall r, c :: 0 <= r < |m| && 0 <= c < |m[r]| && CellOf(r, ns) != CellOf(c, ns) ==> m[r][c] == 0.0
  }

  /** `a` is `m` with every conservation entry set to one and nothing else changed. */
  predicate IsConservingSystem(a: Matrix, m: Matrix, ns: nat)
    requires ns > 0
  {
    && |a| == |m|
    && (forall r :: 0 <= r < |a| ==> |a[r]| == |m[r]|)
    && forall r, c :: 0 <= r < |a| && 0 <= c < |a[r]| ==>
         a[r][c] == (if ConservationEntry(r, c, ns) then 1.0 else m[r][c])
  }

  /** The slot of cell i's last state, `num_states * (i + 1) - 1`. */
  lemma LastSlot(i: nat, ns: nat, count: nat)
    requires ns > 0 && i < count
    ensures ns * (i + 1) - 1 == i * ns + (ns - 1) < ns * count
    ensures CellOf(ns * (i + 1) - 1, ns) == i && StateOf(ns * (i + 1) - 1, ns) == ns - 1
  {
    MulDistrib(i + 1, 1, ns);
    SlotBound(ns - 1, i, ns, count);
    DivModUnique(i * ns + (ns - 1), ns, i, ns - 1);
  }

  /** Writes the totals of cells i .. count-1 into their last-state slots. */
  function ScatterTotals(b: seq<real>, nInit: Grid, minX: nat, ns: nat, i: nat, count: nat): (r: seq<real>)
    requires ns > 0 && |b| == ns * count && i <= count && minX + count <= |nInit|
    ensures |r| == |b|
    ensures forall k :: 0 <= k < |b| ==>
      r[k] == (if StateOf(k, ns) == ns - 1 && i <= CellOf(k, ns) < count
               then Sum(nInit[minX + CellOf(k, ns)]) else b[k])
    decreases count - i
  {
    if i == count then b
    else
      LastSlot(i, ns, count);
      var p := ns * (i + 1) - 1;
      var r := ScatterTotals(b[p := Sum(nInit[minX + i])], nInit, minX, ns, i + 1, count);
      assert forall k :: 0 <= k < |b| && StateOf(k, ns) == ns - 1 && CellOf(k, ns) == i ==> k == p by {
        forall k | 0 <= k < |b| && StateOf(k, ns) == ns - 1 && CellOf(k, ns) == i
          ensures k == p
        {
          DivModBasics(k, ns);
        }
      }
      r
  }

  /**
   * The right-hand side of the conserving system (solver.py:28-32): one
   * slot per local cell and state, zero except the last state of each
   * cell, which holds that cell's prior total density.
   */
  function ConservationRhs(nInit: Grid, minX: nat, maxX: nat, ns: nat): (b: seq<real>)
    requires ns > 0 && minX <= maxX <= |nInit|
    ensures |b| == ns * (maxX - minX)
    ensures forall k :: 0 <= k < |b| ==>
      b[k] == (if StateOf(k, ns) == ns - 1 && CellOf(k, ns) < maxX - minX
               then Sum(nInit[minX + CellOf(k, ns)]) else 0.0)
  {
    ScatterTotals(Zeros(ns * (maxX - minX)), nInit, minX, ns, 0, maxX - minX)
  }

  /** Every flat index of a block vector belongs to one of its cells. */
  lemma CellInRange(k: nat, ns: nat, count: nat)
    requires ns > 0 && k < ns * count
    ensures CellOf(k, ns) < count
    ensures CellOf(k, ns) * ns <= k < CellOf(k, ns) * ns + ns
  {
    DivModBasics(k, ns);
    var j := CellOf(k, ns);
    if j >= count {
      MulAtLeast(j - count + 1, ns);
      MulDistrib(j + 1, count, ns);
      MulDistrib(j + 1, j, ns);
      assert false;
    }
  }

  /** Flat index c comes before state j of cell i. */
  predicate Before(c: nat, ns: nat, i: nat, j: nat)
    requires ns > 0
  {
    CellOf(c, ns) < i || (CellOf(c, ns) == i && StateOf(c, ns) < j)
  }

  /** `a` is `m` with the conservation entries before state j of cell i set to one. */
  predicate SetUpTo(a: Matrix, m: Matrix, ns: nat, n: nat, i: nat, j: nat)
    requires ns > 0 && IsSquare(a, n) && IsSquare(m, n)
  {
    forall r, c :: 0 <= r < n && 0 <= c < n ==>
      a[r][c] == (if ConservationEntry(r, c, ns) && Before(c, ns, i, j) then 1.0 else m[r][c])
  }

  /** Setting entry (last row of cell i, state j of cell i) extends the set entries by one. */
  lemma SetStep(a: Matrix, m: Matrix, ns: nat, count: nat, i: nat, j: nat)
    requires ns > 0 && i < count && j < ns
    requires IsSquare(a, ns * count) && IsSquare(m, ns * count) && SetUpTo(a, m, ns, ns * count, i, j)
    ensures i * ns + ns - 1 < ns * count && i * ns + j < ns * count
    ensures var a' := a[i * ns + ns - 1 := a[i * ns + ns - 1][i * ns + j := 1.0]];
            IsSquare(a', ns * count) && SetUpTo(a', m, ns, ns * count, i, j + 1)
  {
    var n := ns * count;
    var row := i * ns + ns - 1;
    var col := i * ns + j;
    SlotBound(ns - 1, i, ns, count);
    SlotBound(j, i, ns, count);
    DivModUnique(row, ns, i, ns - 1);
    DivModUnique(col, ns, i, j);
    var a' := a[row := a[row][col := 1.0]];
    forall r, c | 0 <= r < n && 0 <= c < n
      ensures a'[r][c] == (if ConservationEntry(r, c, ns) && Before(c, ns, i, j + 1) then 1.0 else m[r][c])
    {
      if r == row && c == col {
      } else if ConservationEntry(r, c, ns) && CellOf(c, ns) == i && StateOf(c, ns) == j {
        DivModBasics(r, ns);
        DivModBasics(c, ns);
        assert false;
      }
    }
  }

  /** Having set every state of cell i is having set everything before cell i + 1. */
  lemma NextCell(a: Matrix, m: Matrix, ns: nat, n: nat, i: nat)
    requires ns > 0 && IsSquare(a, n) && IsSquare(m, n) && SetUpTo(a, m, ns, n, i, ns)
    ensures SetUpTo(a, m, ns, n, i + 1, 0)
  {
    forall c: nat | c < n
      ensures Before(c, ns, i, ns) == Before(c, ns, i + 1, 0)
    {
      DivModBasics(c, ns);
    }
  }

  /**
   * Overwrites the last row of every cell's block with ones over that
   * block (solver.py:43-48); all other entries keep their values.
   */
  method SetConservationRows(m: Matrix, ns: nat, count: nat) returns (a: Matrix)
    requires ns > 0 && IsSquare(m, ns * count)
    ensures IsSquare(a, ns * count)
    ensures IsConservingSystem(a, m, ns)
  {
    var n := ns * count;
    a := m;
    var i := 0;
    while i < count
      invariant 0 <= i <= count
      invariant IsSquare(a, n) && SetUpTo(a, m, ns, n, i, 0)
    {
      var offset := i * ns;
      var j := 0;
      while j < ns
        invariant 0 <= j <= ns
        invariant IsSquare(a, n) && SetUpTo(a, m, ns, n, i, j)
      {
        SetStep(a, m, ns, count, i, j);
        a := a[offset + ns - 1 := a[offset + ns - 1][offset + j := 1.0]];
        j := j + 1;
      }
      NextCell(a, m, ns, n, i);
      i := i + 1;
    }
    forall r, c | 0 <= r < n && 0 <= c < n
      ensures a[r][c] == (if ConservationEntry(r, c, ns) then 1.0 else m[r][c])
    {
      CellInRange(c, ns, count);
    }
  }

  /** A row that is one on [lo, hi) and zero elsewhere sums that stretch of x. */
  lemma {:induction false} DotIndicator(row: seq<real>, x: seq<real>, lo: nat, hi: nat)
    requires |row| == |x| && lo <= hi <= |row|
    requires forall c :: 0 <= c < |row| ==> row[c] == (if lo <= c < hi then 1.0 else 0.0)
    ensures Dot(row, x) == Sum(x[lo..hi])
  {
    if hi == 0 {
      DotZeros(row, x);
    } else if lo > 0 {
      DotIndicator(row[1..], x[1..], lo - 1, hi - 1);
      assert x[1..][lo - 1..hi - 1] == x[lo..hi];
    } else {
      DotIndicator(row[1..], x[1..], 0, hi - 1);
      assert x[1..][0..hi - 1] == x[0..hi][1..];
    }
  }

  /** Cell j's block of a flat vector. */
  lemma UnflattenBlock(x: seq<real>, ns: nat, count: nat, j: nat)
    requires ns > 0 && |x| == ns * count && j < count
    ensures j * ns + ns <= |x|
    ensures Unflatten(x, ns, count)[j] == x[j * ns .. j * ns + ns]
  {
    SlotBound(ns - 1, j, ns, count);
  }

  /**
   * Conservation of the direct solve: if x solves the conserving system,
   * every local cell's solved densities add up to that cell's prior total.
   * The only facts used are the ones-row of each block and that the rate
   * matrix does not couple cells.
   */
  lemma {:induction false} SolutionConservesCellTotals(
    m: Matrix, a: Matrix, nInit: Grid, minX: nat, maxX: nat, ns: nat, x: seq<real>)
    requires ns > 0 && minX <= maxX <= |nInit|
    requires IsSquare(m, ns * (maxX - minX)) && BlockDiagonal(m, ns)
    requires IsConservingSystem(a, m, ns)
    requires |x| == ns * (maxX - minX)
    requires MatVec(a, x) == ConservationRhs(nInit, minX, maxX, ns)
    ensures forall i :: minX <= i < maxX ==>
      Sum(Unflatten(x, ns, maxX - minX)[i - minX]) == Sum(nInit[i])
  {
    var count := maxX - minX;
    var b := ConservationRhs(nInit, minX, maxX, ns);
    forall i | minX <= i < maxX
      ensures Sum(Unflatten(x, ns, count)[i - minX]) == Sum(nInit[i])
    {
      var j := i - minX;
      LastSlot(j, ns, count);
      var r := j * ns + (ns - 1);
      forall c | 0 <= c < |x|
        ensures a[r][c] == (if j * ns <= c < j * ns + ns then 1.0 else 0.0)
      {
        CellInRange(c, ns, count);
        if j * ns <= c < j * ns + ns {
          DivModUnique(c, ns, j, c - j * ns);
        }
      }
      UnflattenBlock(x, ns, count, j);
      DotIndicator(a[r], x, j * ns, j * ns + ns);
      assert MatVec(a, x)[r] == Dot(a[r], x);
      assert b[r] == Sum(nInit[minX + j]);
    }
  }

  /**
   * One direct solve on one rank (solver.py:8-78). `ksp` stands for the
   * Krylov solve of `a x = b`. The result is `None` exactly when the
   * converged reason is negative; otherwise it is the solution read back
   * cell by cell, and when that solution is exact every cell keeps its total.
   * The overwritten matrix is returned too: the source changes the caller's
   * matrix in place.
   */
  method Solve(m: Matrix, nInit: Grid, minX: nat, maxX: nat, ns: nat,
               ksp: (Matrix, seq<real>) -> KspResult)
    returns (res: Option<Grid>, a: Matrix)
    requires ns > 0 && RowsOfWidth(nInit, ns) && minX <= maxX <= |nInit|
    requires IsSquare(m, ns * (maxX - minX))
    requires forall A, b :: |ksp(A, b).x| == |b|
    ensures IsConservingSystem(a, m, ns)
    ensures res.None? <==> ksp(a, ConservationRhs(nInit, minX, maxX, ns)).reason < 0
    ensures res.Some? ==>
      res.value == Unflatten(ksp(a, ConservationRhs(nInit, minX, maxX, ns)).x, ns, maxX - minX)
    ensures res.Some? && BlockDiagonal(m, ns)
            && MatVec(a, ksp(a, ConservationRhs(nInit, minX, maxX, ns)).x)
               == ConservationRhs(nInit, minX, maxX, ns)
            ==> forall i :: minX <= i < maxX ==> Sum(res.value[i - minX]) == Sum(nInit[i])
  {
    var count := maxX - minX;
    var rhs := ConservationRhs(nInit, minX, maxX, ns);
    a := SetConservationRows(m, ns, count);
    var out := ksp(a, rhs);
    if out.reason < 0 {
      return None, a;
    }
    res := Some(Unflatten(out.x, ns, count));
    if BlockDiagonal(m, ns) && MatVec(a, out.x) == rhs {
      SolutionConservesCellTotals(m, a, nInit, minX, maxX, ns, out.x);
    }
  }
}
