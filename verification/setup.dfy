/**
 * Domain set-up and orchestration of a run (sike/core.py): which inputs
 * start the run, how the spatial cells are split across ranks, the grid
 * widths, the order of the solve phases, how solver results are stored,
 * and the index ranges of the P and Q blocks of the effective rate matrix.
 */
module Setup {
  import opened Common
  import Layout

  // ---------------------------------------------------------------------
  // Input dispatch (sike/core.py:146-157, 246-247)
  // ---------------------------------------------------------------------

  /** The optional array inputs of the constructor. */
  datatype Inputs = Inputs(fe: Option<Grid>, vgrid: Option<seq<real>>, te: Option<seq<real>>, ne: Option<seq<real>>)

  /** The two ways a run is initialised. */
  datatype InitPath = FromDistribution | FromProfiles

  /**
   * The initialisation path: from the distribution when `fe` and `vgrid`
   * are both given, else from the profiles when `Te` and `ne` are both
   * given; `None` is the ValueError.
   */
  function InitPathOf(inp: Inputs): (p: Option<InitPath>)
    ensures p == Some(FromDistribution) <==> inp.fe.Some? && inp.vgrid.Some?
    ensures p == Some(FromProfiles) <==> !(inp.fe.Some? && inp.vgrid.Some?) && inp.te.Some? && inp.ne.Some?
    ensures p.None? <==> !(inp.fe.Some? && inp.vgrid.Some?) && !(inp.te.Some? && inp.ne.Some?)
  {
    if inp.fe.Some? && inp.vgrid.Some? then Some(FromDistribution)
    else if inp.te.Some? && inp.ne.Some? then Some(FromProfiles)
    else None
  }

  /** Which electron populations the rate equations are solved for. */
  datatype Electrons = Electrons(kinetic: bool, maxwellian: bool)

  /** The electron populations after initialisation: the profile path has no distribution to solve with. */
  function ElectronsAfterInit(path: InitPath, requested: Electrons): (e: Electrons)
    ensures path == FromProfiles ==> !e.kinetic && e.maxwellian
    ensures path == FromDistribution ==> e == requested
  {
    match path
    case FromDistribution => requested
    case FromProfiles => Electrons(false, true)
  }

  // ---------------------------------------------------------------------
  // Rank partition (sike/core.py:204-210, 260-266)
  // ---------------------------------------------------------------------

  /** The first cell of a rank: the floor of rank * numX / numProcs. */
  function MinX(rank: nat, numProcs: nat, numX: nat): nat
    requires numProcs > 0
  {
    (rank * numX) / numProcs
  }

  /** One past the last cell of a rank; the last rank runs to the end of the grid. */
  function MaxX(rank: nat, numProcs: nat, numX: nat): nat
    requires rank < numProcs
  {
    if rank == numProcs - 1 then numX else ((rank + 1) * numX) / numProcs
  }

  /** The number of cells of a rank. */
  function LocNumX(rank: nat, numProcs: nat, numX: nat): (n: nat)
    requires rank < numProcs
    ensures MinX(rank, numProcs, numX) + n == MaxX(rank, numProcs, numX)
  {
    RangeOrdered(rank, numProcs, numX);
    MaxX(rank, numProcs, numX) - MinX(rank, numProcs, numX)
  }

  /** Floor division by a positive number is monotone. */
  lemma DivMonotone(x: nat, y: nat, d: nat)
    requires d > 0 && x <= y
    ensures x / d <= y / d
  {
    if x / d > y / d {
      assert x == d * (x / d) + x % d;
      assert y == d * (y / d) + y % d;
      assert d * (x / d) >= d * (y / d + 1) by {
        MulMonotone(d, y / d + 1, x / d);
      }
    }
  }

  lemma MulMonotone(d: nat, a: nat, b: nat)
    requires a <= b
    ensures d * a <= d * b
  {
  }

  /** Scaling a count by numX / numProcs is monotone. */
  lemma MinXMonotone(a: nat, b: nat, numProcs: nat, numX: nat)
    requires numProcs > 0 && a <= b
    ensures MinX(a, numProcs, numX) <= MinX(b, numProcs, numX)
  {
    MulMonotone(numX, a, b);
    assert a * numX <= b * numX;
    DivMonotone(a * numX, b * numX, numProcs);
  }

  /** Every rank's range is ordered and lies inside the grid. */
  lemma RangeOrdered(rank: nat, numProcs: nat, numX: nat)
    requires rank < numProcs
    ensures MinX(rank, numProcs, numX) <= MaxX(rank, numProcs, numX) <= numX
  {
    MinXMonotone(rank, rank + 1, numProcs, numX);
    MinXMonotone(rank + 1, numProcs, numProcs, numX);
    MinXAtEnd(numProcs, numX);
  }

  /** The rank one past the last starts at the end of the grid. */
  lemma MinXAtEnd(numProcs: nat, numX: nat)
    requires numProcs > 0
    ensures MinX(numProcs, numProcs, numX) == numX
  {
    assert numProcs * numX == numX * numProcs + 0;
    Layout.DivModUnique(numProcs * numX, numProcs, numX, 0);
  }

  /** Every cell from the first cell of rank r onwards belongs to some rank r' >= r. */
  lemma {:induction false} CoveredFrom(c: nat, numProcs: nat, numX: nat, r: nat)
    requires r < numProcs && MinX(r, numProcs, numX) <= c < numX
    ensures exists r': nat :: r <= r' < numProcs && Owns(r', numProcs, numX, c)
    decreases numProcs - r
  {
    if c >= MaxX(r, numProcs, numX) {
      assert r < numProcs - 1;
      CoveredFrom(c, numProcs, numX, r + 1);
    } else {
      assert Owns(r, numProcs, numX, c);
    }
  }

  /** Cell c lies in the range of rank r. */
  predicate Owns(r: nat, numProcs: nat, numX: nat, c: nat)
    requires r < numProcs
  {
    MinX(r, numProcs, numX) <= c < MaxX(r, numProcs, numX)
  }

  /** Every cell of the grid belongs to exactly one rank. */
  lemma PartitionCovers(numProcs: nat, numX: nat, c: nat)
    requires numProcs > 0 && c < numX
    ensures exists r: nat :: r < numProcs && Owns(r, numProcs, numX, c)
    ensures forall r1: nat, r2: nat :: r1 < numProcs && r2 < numProcs && Owns(r1, numProcs, numX, c) && Owns(r2, numProcs, numX, c) ==> r1 == r2
  {
    CoveredFrom(c, numProcs, numX, 0);
    forall r1: nat, r2: nat | r1 < numProcs && r2 < numProcs && Owns(r1, numProcs, numX, c) && Owns(r2, numProcs, numX, c)
      ensures r1 == r2
    {
      if r1 < r2 {
        MinXMonotone(r1 + 1, r2, numProcs, numX);
      } else if r2 < r1 {
        MinXMonotone(r2 + 1, r1, numProcs, numX);
      }
    }
  }

  /** The cells of ranks 0 .. k - 1 together. */
  function CellsBefore(k: nat, numProcs: nat, numX: nat): nat
    requires k <= numProcs
  {
    if k == 0 then 0 else CellsBefore(k - 1, numProcs, numX) + LocNumX(k - 1, numProcs, numX)
  }

  /** The ranks' cell counts add up to the grid: no cell is lost or doubled. */
  lemma {:induction false} CellCountsAddUp(numProcs: nat, numX: nat, k: nat)
    requires 0 < k <= numProcs
    ensures CellsBefore(k, numProcs, numX) == MaxX(k - 1, numProcs, numX)
    ensures k == numProcs ==> CellsBefore(k, numProcs, numX) == numX
  {
    if k > 1 {
      CellCountsAddUp(numProcs, numX, k - 1);
    }
  }

  // ---------------------------------------------------------------------
  // Grid widths (sike/core.py:329-342)
  // ---------------------------------------------------------------------

  /**
   * Spatial cell widths: twice the first point, twice the last spacing,
   * and the distance between neighbours inside. A grid of fewer than two
   * points has no second point to read: `None`.
   */
  function SpatialWidths(x: seq<real>): (d: Option<seq<real>>)
    ensures d.None? <==> |x| < 2
    ensures d.Some? ==> |d.value| == |x|
    ensures d.Some? ==> d.value[0] == 2.0 * x[1]
    ensures d.Some? ==> d.value[|x| - 1] == 2.0 * (x[|x| - 1] - x[|x| - 2])
    ensures d.Some? ==> forall i :: 0 < i < |x| - 1 ==> d.value[i] == x[i + 1] - x[i - 1]
  {
    if |x| < 2 then None
    else
      var n := |x|;
      var inner := seq(n, i requires 0 <= i < n => if 0 < i < n - 1 then x[i + 1] - x[i - 1] else 0.0);
      Some(inner[0 := 2.0 * x[1]][n - 1 := 2.0 * (x[n - 1] - x[n - 2])])
  }

  predicate StrictlyIncreasing(x: seq<real>)
  {
    forall i :: 0 < i < |x| ==> x[i - 1] < x[i]
  }

  /** On an increasing grid starting at or after 0, every spatial width is positive. */
  lemma SpatialWidthsPositive(x: seq<real>)
    requires |x| >= 2 && StrictlyIncreasing(x) && x[0] >= 0.0
    ensures forall i :: 0 <= i < |x| ==> SpatialWidths(x).value[i] > 0.0
  {
    var d := SpatialWidths(x).value;
    var n := |x|;
    forall i | 0 <= i < n
      ensures d[i] > 0.0
    {
      if i == 0 {
      } else if i == n - 1 {
      } else {
        assert x[i - 1] < x[i] < x[i + 1];
      }
    }
  }

  /**
   * Velocity cell widths: twice the first point, then each width is what
   * makes the point the centre of its cell given the previous width. An
   * empty grid has no first point: `None`.
   */
  method VelocityWidths(v: seq<real>) returns (d: Option<seq<real>>)
    ensures d.None? <==> |v| == 0
    ensures d.Some? ==> |d.value| == |v| && d.value[0] == 2.0 * v[0]
    ensures d.Some? ==> forall i :: 0 < i < |v| ==> d.value[i - 1] + d.value[i] == 2.0 * (v[i] - v[i - 1])
    ensures d.Some? ==> forall i :: 0 <= i < |v| ==> CellCentre(d.value, i) == v[i]
  {
    if |v| == 0 {
      return None;
    }
    var w := [2.0 * v[0]];
    CentreStep(w, v, 0);
    while |w| < |v|
      invariant 0 < |w| <= |v| && w[0] == 2.0 * v[0]
      invariant forall i :: 0 < i < |w| ==> w[i - 1] + w[i] == 2.0 * (v[i] - v[i - 1])
      invariant forall i :: 0 <= i < |w| ==> CellCentre(w, i) == v[i]
    {
      var i := |w|;
      var next := w + [2.0 * (v[i] - v[i - 1]) - w[i - 1]];
      CentresExtend(w, next, v);
      w := next;
    }
    d := Some(w);
  }

  /** The velocity-cell faces: cells of widths d stacked from 0, face i = d[0] + ... + d[i - 1]. */
  function Face(d: seq<real>, i: nat): real
    requires i <= |d|
  {
    Sum(d[..i])
  }

  /** The centre of velocity cell i. */
  function CellCentre(d: seq<real>, i: nat): real
    requires i < |d|
  {
    (Face(d, i) + Face(d, i + 1)) / 2.0
  }

  lemma FaceStep(d: seq<real>, i: nat)
    requires i < |d|
    ensures Face(d, i + 1) == Face(d, i) + d[i]
  {
    assert d[..i + 1] == d[..i] + [d[i]];
    SumAppend(d[..i], [d[i]]);
  }

  lemma CentreStep(w: seq<real>, v: seq<real>, i: nat)
    requires |w| == 1 && |v| > 0 && i == 0 && w[0] == 2.0 * v[0]
    ensures CellCentre(w, 0) == v[0]
  {
    FaceStep(w, 0);
    assert w[..0] == [];
  }

  /** Appending the next width keeps every earlier centre and puts the new cell's centre on the new point. */
  lemma CentresExtend(w: seq<real>, next: seq<real>, v: seq<real>)
    requires 0 < |w| < |v|
    requires forall i :: 0 <= i < |w| ==> CellCentre(w, i) == v[i]
    requires next == w + [2.0 * (v[|w|] - v[|w| - 1]) - w[|w| - 1]]
    ensures forall i :: 0 <= i < |next| ==> CellCentre(next, i) == v[i]
    ensures forall i :: 0 < i < |next| ==> next[i - 1] + next[i] == 2.0 * (v[i] - v[i - 1]) || i < |w|
  {
    var n := |w|;
    forall i | 0 <= i <= n
      ensures Face(next, i) == Face(w, i)
    {
      assert next[..i] == w[..i];
    }
    forall i | 0 <= i < n
      ensures CellCentre(next, i) == v[i]
    {
    }
    assert CellCentre(w, n - 1) == v[n - 1];
    FaceStep(w, n - 1);
    FaceStep(next, n);
  }

  // ---------------------------------------------------------------------
  // Run orchestration (sike/core.py:344-364, 553-557)
  // ---------------------------------------------------------------------

  /** A step of `run`: building a rate matrix, or computing densities, for one electron population. */
  datatype Action = BuildMatrix(kinetic: bool) | ComputeDensities(kinetic: bool)

  /** The actions of `run`, in order: the kinetic phase, then the Maxwellian one, each only when enabled. */
  function RunActions(e: Electrons): (acts: seq<Action>)
    ensures BuildMatrix(true) in acts <==> e.kinetic
    ensures BuildMatrix(false) in acts <==> e.maxwellian
    ensures forall i :: 0 <= i < |acts| ==>
      (acts[i].ComputeDensities? <==> i % 2 == 1) && (i % 2 == 1 ==> acts[i - 1] == BuildMatrix(acts[i].kinetic))
    ensures forall i, j :: 0 <= i < j < |acts| && !acts[i].kinetic ==> !acts[j].kinetic
  {
    (if e.kinetic then [BuildMatrix(true), ComputeDensities(true)] else []) +
    (if e.maxwellian then [BuildMatrix(false), ComputeDensities(false)] else [])
  }

  /** The densities of every modelled element and the run's success flag. */
  datatype Store = Store(dens: seq<Grid>, success: bool)

  /**
   * The storing loop of `compute_densities` as written: each element's
   * densities are replaced when its solve returned a result, and
   * `success` is overwritten for every element, so it ends up describing
   * the last element only.
   */
  function StoreResultsAsWritten(s: Store, solved: seq<Option<Grid>>): (r: Store)
    requires |solved| == |s.dens|
    ensures |r.dens| == |s.dens|
    ensures forall e :: 0 <= e < |solved| ==> r.dens[e] == if solved[e].Some? then solved[e].value else s.dens[e]
    ensures |solved| > 0 ==> r.success == solved[|solved| - 1].Some?
    ensures |solved| == 0 ==> r.success == s.success
    decreases |solved|
  {
    if |solved| == 0 then s
    else
      var k := |solved| - 1;
      var front := StoreResultsAsWritten(Store(s.dens[..k], s.success), solved[..k]);
      var last := if solved[k].Some? then solved[k].value else s.dens[k];
      Store(front.dens + [last], solved[k].Some?)
  }

  /** An earlier element's failure is hidden by a later element's success. */
  lemma EarlierFailureHidden(g: Grid)
    ensures var s := Store([g, g], true);
            var r := StoreResultsAsWritten(s, [None, Some(g)]);
            r.success && r.dens[0] == g
  {
    var s := Store([g, g], true);
    var front := StoreResultsAsWritten(Store(s.dens[..1], true), [None]);
    assert [None, Some(g)][..1] == [None];
    assert front.dens[0] == g;
  }

  /**
   * The storing loop with `success` meaning every element's solve
   * returned a result; the densities are stored as in the source.
   */
  function StoreResults(s: Store, solved: seq<Option<Grid>>): (r: Store)
    requires |solved| == |s.dens|
    ensures |r.dens| == |s.dens|
    ensures forall e :: 0 <= e < |solved| ==> r.dens[e] == if solved[e].Some? then solved[e].value else s.dens[e]
    ensures |solved| > 0 ==> (r.success <==> forall e :: 0 <= e < |solved| ==> solved[e].Some?)
    ensures |solved| == 0 ==> r.success == s.success
  {
    var stored := StoreResultsAsWritten(s, solved);
    if |solved| == 0 then stored
    else Store(stored.dens, forall e :: 0 <= e < |solved| ==> solved[e].Some?)
  }

  /** When every solve succeeds, both versions agree. */
  lemma StoreResultsAgreeOnSuccess(s: Store, solved: seq<Option<Grid>>)
    requires |solved| == |s.dens| > 0 && forall e :: 0 <= e < |solved| ==> solved[e].Some?
    ensures StoreResults(s, solved) == StoreResultsAsWritten(s, solved)
  {
  }

  // ---------------------------------------------------------------------
  // P and Q blocks of the effective rate matrix (sike/core.py:407-410)
  // ---------------------------------------------------------------------

  /** The rows lo .. hi - 1 and columns clo .. chi - 1 of a square matrix. */
  function Block(m: Matrix, lo: nat, hi: nat, clo: nat, chi: nat): (b: Matrix)
    requires lo <= hi <= |m| && clo <= chi && forall i :: 0 <= i < |m| ==> chi <= |m[i]|
    ensures |b| == hi - lo && forall i :: 0 <= i < |b| ==> |b[i]| == chi - clo
    ensures forall i, j :: 0 <= i < hi - lo && 0 <= j < chi - clo ==> b[i][j] == m[lo + i][clo + j]
  {
    seq(hi - lo, i requires 0 <= i < hi - lo => m[lo + i][clo..chi])
  }

  /** The four blocks M_P, M_Q, M_PQ and M_QP. */
  datatype Blocks = Blocks(p: Matrix, q: Matrix, pq: Matrix, qp: Matrix)

  /** Whether index k of the full matrix appears in a block starting at qStart. */
  predicate InP(k: nat, numP: nat) { k < numP }
  predicate InQ(k: nat, qStart: nat, n: nat) { qStart <= k < n }

  /** Where the slice `num_P + 1 :` starts in a matrix of size n: one past P, or the end when P fills it. */
  function AsWrittenQStart(numP: nat, n: nat): nat
  {
    if numP < n then numP + 1 else n
  }

  /** The blocks as sliced: P is [0, numP) and Q is [numP + 1, n), empty when numP is n. */
  function BlocksAsWritten(m: Matrix, numP: nat): (b: Blocks)
    requires numP <= |m| && IsSquare(m, |m|)
    ensures var qs := AsWrittenQStart(numP, |m|);
      && |b.p| == numP && |b.q| == |m| - qs && |b.pq| == numP && |b.qp| == |m| - qs
      && RowsOfWidth(b.p, numP) && RowsOfWidth(b.q, |m| - qs)
      && RowsOfWidth(b.pq, |m| - qs) && RowsOfWidth(b.qp, numP)
    ensures forall i, j :: 0 <= i < numP && 0 <= j < numP ==> b.p[i][j] == m[i][j]
    ensures forall i, j :: 0 <= i < |b.q| && 0 <= j < |b.q| ==>
      b.q[i][j] == m[AsWrittenQStart(numP, |m|) + i][AsWrittenQStart(numP, |m|) + j]
    ensures forall i, j :: 0 <= i < numP && 0 <= j < |b.q| ==> b.pq[i][j] == m[i][AsWrittenQStart(numP, |m|) + j]
    ensures forall i, j :: 0 <= i < |b.q| && 0 <= j < numP ==> b.qp[i][j] == m[AsWrittenQStart(numP, |m|) + i][j]
  {
    var n := |m|;
    var qs := AsWrittenQStart(numP, n);
    Blocks(Block(m, 0, numP, 0, numP), Block(m, qs, n, qs, n),
           Block(m, 0, numP, qs, n), Block(m, qs, n, 0, numP))
  }

  /**
   * As sliced, when state numP exists its row and column never reach M_eff:
   * the blocks span n - 1 states and hold (n - 1)^2 of the n^2 entries.
   */
  lemma StateNumPDropped(m: Matrix, numP: nat)
    requires numP < |m| && IsSquare(m, |m|)
    ensures var b := BlocksAsWritten(m, numP);
      && |b.p| + |b.q| == |m| - 1
      && |b.p| * |b.p| + |b.pq| * |b.q| + |b.qp| * |b.p| + |b.q| * |b.q| == (|m| - 1) * (|m| - 1)
  {
  }

  /** The blocks with Q starting right after P: Q is [numP, n). */
  function PQBlocks(m: Matrix, numP: nat): (b: Blocks)
    requires numP <= |m| && IsSquare(m, |m|)
    ensures |b.p| == numP && |b.q| == |m| - numP && |b.pq| == numP && |b.qp| == |m| - numP
    ensures RowsOfWidth(b.p, numP) && RowsOfWidth(b.q, |m| - numP)
    ensures RowsOfWidth(b.pq, |m| - numP) && RowsOfWidth(b.qp, numP)
    ensures forall i, j :: 0 <= i < numP && 0 <= j < numP ==> b.p[i][j] == m[i][j]
    ensures forall i, j :: 0 <= i < |b.q| && 0 <= j < |b.q| ==> b.q[i][j] == m[numP + i][numP + j]
    ensures forall i, j :: 0 <= i < numP && 0 <= j < |b.q| ==> b.pq[i][j] == m[i][numP + j]
    ensures forall i, j :: 0 <= i < |b.q| && 0 <= j < numP ==> b.qp[i][j] == m[numP + i][j]
  {
    var n := |m|;
    Blocks(Block(m, 0, numP, 0, numP), Block(m, numP, n, numP, n),
           Block(m, 0, numP, numP, n), Block(m, numP, n, 0, numP))
  }

  /** When P holds every state, the slices as written and the corrected blocks coincide. */
  lemma BlocksAgreeWhenPFull(m: Matrix)
    requires IsSquare(m, |m|)
    ensures BlocksAsWritten(m, |m|) == PQBlocks(m, |m|)
  {
  }

  /** Every entry of the matrix lands in exactly one of the four blocks. */
  lemma PQBlocksPartition(m: Matrix, numP: nat, i: nat, j: nat)
    requires numP <= |m| && IsSquare(m, |m|) && i < |m| && j < |m|
    ensures InP(i, numP) != InQ(i, numP, |m|) && InP(j, numP) != InQ(j, numP, |m|)
    ensures var b := PQBlocks(m, numP);
      && (InP(i, numP) && InP(j, numP) ==> b.p[i][j] == m[i][j])
      && (InP(i, numP) && InQ(j, numP, |m|) ==> b.pq[i][j - numP] == m[i][j])
      && (InQ(i, numP, |m|) && InP(j, numP) ==> b.qp[i - numP][j] == m[i][j])
      && (InQ(i, numP, |m|) && InQ(j, numP, |m|) ==> b.q[i - numP][j - numP] == m[i][j])
  {
  }
}
