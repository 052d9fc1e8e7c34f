/**
 * Accumulation of the per-cell rate matrices (impurity.py
 * `build_rate_matrices`, lines 206-353). Every process moves population
 * from one state to another: it adds a loss -K on the diagonal at
 * (from, from) and the same K as a gain at (to, from). The rate
 * coefficients K come from cross-section integrals and interpolation tables
 * that are not modelled; they are inputs here, one per transition and cell.
 */
module RateMatrix {
  import opened Common
  import opened Catalogue

  /** One process in one cell: population moves from `from` to `to` at rate k. */
  datatype Flux = Flux(from: nat, to: nat, k: real)

  function ZeroMatrix(n: nat): (m: Matrix)
    ensures IsSquare(m, n)
    ensures forall r, c :: 0 <= r < n && 0 <= c < n ==> m[r][c] == 0.0
  {
    seq(n, _ => Zeros(n))
  }

  /** numpy's `mat[row, col] += v`. */
  function AddAt(m: Matrix, row: nat, col: nat, v: real): (m': Matrix)
    requires IsSquare(m, |m|) && row < |m| && col < |m|
    ensures IsSquare(m', |m|)
    ensures forall r, c :: 0 <= r < |m| && 0 <= c < |m| ==>
      m'[r][c] == (if r == row && c == col then m[r][c] + v else m[r][c])
  {
    m[row := m[row][col := m[row][col] + v]]
  }

  function InRange(f: Flux, n: nat): bool
  {
    f.from < n && f.to < n
  }

  /** The loss/gain pair of one process (impurity.py:224-233 and each like block). */
  function AddFlux(m: Matrix, f: Flux): Matrix
    requires IsSquare(m, |m|) && InRange(f, |m|)
  {
    AddAt(AddAt(m, f.from, f.from, -f.k), f.to, f.from, f.k)
  }

  /** Adds the fluxes in order. */
  function Accumulate(m: Matrix, fs: seq<Flux>): Matrix
    requires IsSquare(m, |m|)
    requires forall i :: 0 <= i < |fs| ==> InRange(fs[i], |m|)
    decreases |fs|
  {
    if |fs| == 0 then m
    else
      Accumulate(AddFlux(m, fs[0]), fs[1..])
  }

  /** A loss/gain pair takes from its column exactly what it gives back. */
  lemma AddFluxKeepsColumnSums(m: Matrix, f: Flux)
    requires IsSquare(m, |m|) && InRange(f, |m|)
    ensures IsSquare(AddFlux(m, f), |m|)
    ensures forall c :: 0 <= c < |m| ==> Sum(Column(AddFlux(m, f), c)) == Sum(Column(m, c))
  {
    var m1 := AddAt(m, f.from, f.from, -f.k);
    var m2 := AddAt(m1, f.to, f.from, f.k);
    forall c | 0 <= c < |m|
      ensures Sum(Column(m2, c)) == Sum(Column(m, c))
    {
      if c == f.from {
        assert Column(m1, c) == Column(m, c)[f.from := m[f.from][c] - f.k];
        SumUpdate(Column(m, c), f.from, m[f.from][c] - f.k);
        assert Column(m2, c) == Column(m1, c)[f.to := m1[f.to][c] + f.k];
        SumUpdate(Column(m1, c), f.to, m1[f.to][c] + f.k);
      } else {
        assert Column(m2, c) == Column(m, c);
      }
    }
  }

  lemma {:induction false} AccumulateKeepsColumnSums(m: Matrix, fs: seq<Flux>)
    requires IsSquare(m, |m|)
    requires forall i :: 0 <= i < |fs| ==> InRange(fs[i], |m|)
    ensures IsSquare(Accumulate(m, fs), |m|)
    ensures forall c :: 0 <= c < |m| ==> Sum(Column(Accumulate(m, fs), c)) == Sum(Column(m, c))
    decreases |fs|
  {
    if |fs| > 0 {
      AddFluxKeepsColumnSums(m, fs[0]);
      AccumulateKeepsColumnSums(AddFlux(m, fs[0]), fs[1..]);
    }
  }

  /** Off-diagonal entries are gains (non-negative), diagonal entries losses (non-positive). */
  predicate RateSigns(m: Matrix)
    requires IsSquare(m, |m|)
  {
    forall r, c :: 0 <= r < |m| && 0 <= c < |m| ==> (if r == c then m[r][c] <= 0.0 else m[r][c] >= 0.0)
  }

  lemma {:induction false} AccumulateKeepsSigns(m: Matrix, fs: seq<Flux>)
    requires IsSquare(m, |m|) && RateSigns(m)
    requires forall i :: 0 <= i < |fs| ==> InRange(fs[i], |m|)
    requires NonNegativeFluxes(fs)
    ensures IsSquare(Accumulate(m, fs), |m|)
    ensures RateSigns(Accumulate(m, fs))
    decreases |fs|
  {
    if |fs| > 0 {
      AccumulateKeepsSigns(AddFlux(m, fs[0]), fs[1..]);
    }
  }

  /**
   * A forward process and its inverse for each transition: ionization with
   * three-body recombination, or excitation with de-excitation. The forward
   * flux goes from -> to at kFwd[j], the inverse to -> from at kInv[j].
   */
  function ForwardInverseFluxes(ts: seq<Transition>, kFwd: seq<real>, kInv: seq<real>): (fs: seq<Flux>)
    requires |kFwd| == |ts| && |kInv| == |ts|
    ensures |fs| == 2 * |ts|
    ensures forall j :: 0 <= j < |ts| ==>
      fs[2 * j] == Flux(ts[j].from.loc, ts[j].to.loc, kFwd[j])
      && fs[2 * j + 1] == Flux(ts[j].to.loc, ts[j].from.loc, kInv[j])
  {
    if |ts| == 0 then []
    else
      [Flux(ts[0].from.loc, ts[0].to.loc, kFwd[0]), Flux(ts[0].to.loc, ts[0].from.loc, kInv[0])]
      + ForwardInverseFluxes(ts[1..], kFwd[1..], kInv[1..])
  }

  /** impurity.py:269-270: an interpolated radiative-recombination coefficient is clamped at zero. */
  function ClampRadRec(alpha: real): (a: real)
    ensures a >= 0.0 && a >= alpha
    ensures a == alpha || a == 0.0
  {
    if alpha >= 0.0 then alpha else 0.0
  }

  /** Radiative recombination from -> to at ne * max(alpha, 0) (impurity.py:266-280). */
  function RadRecFluxes(ts: seq<Transition>, alpha: seq<real>, ne: real): (fs: seq<Flux>)
    requires |alpha| == |ts|
    ensures |fs| == |ts|
    ensures forall j :: 0 <= j < |ts| ==> fs[j] == Flux(ts[j].from.loc, ts[j].to.loc, ne * ClampRadRec(alpha[j]))
  {
    if |ts| == 0 then []
    else [Flux(ts[0].from.loc, ts[0].to.loc, ne * ClampRadRec(alpha[0]))] + RadRecFluxes(ts[1..], alpha[1..], ne)
  }

  /** Spontaneous emission from -> to at the transition's averaged rate (impurity.py:340-353). */
  function EmissionFluxes(ts: seq<Transition>): (fs: seq<Flux>)
    requires forall j :: 0 <= j < |ts| ==> ts[j].Emission?
    ensures |fs| == |ts|
    ensures forall j :: 0 <= j < |ts| ==> fs[j] == Flux(ts[j].from.loc, ts[j].to.loc, ts[j].rate)
  {
    if |ts| == 0 then []
    else [Flux(ts[0].from.loc, ts[0].to.loc, ts[0].rate)] + EmissionFluxes(ts[1..])
  }

  /**
   * The rate coefficients of one cell, aligned with the transition lists:
   * electron density, ionization and three-body recombination, interpolated
   * radiative recombination (before clamping), excitation and de-excitation.
   */
  datatype CellRates = CellRates(ne: real, kIon: seq<real>, kRec: seq<real>, alpha: seq<real>,
                                 kEx: seq<real>, kDeex: seq<real>)

  predicate Aligned(lists: TransitionLists, rates: CellRates)
  {
    && |rates.kIon| == |lists.iz| && |rates.kRec| == |lists.iz|
    && |rates.alpha| == |lists.radrec|
    && |rates.kEx| == |lists.ex| && |rates.kDeex| == |lists.ex|
  }

  /** Every transition joins two states with locations below n, and the emission list holds emissions. */
  predicate WellFormed(lists: TransitionLists, n: nat)
  {
    && (forall t :: t in lists.iz ==> t.from.loc < n && t.to.loc < n)
    && (forall t :: t in lists.radrec ==> t.from.loc < n && t.to.loc < n)
    && (forall t :: t in lists.ex ==> t.from.loc < n && t.to.loc < n)
    && (forall t :: t in lists.spontem ==> t.Emission? && t.from.loc < n && t.to.loc < n)
  }

  /** The fluxes of one cell, in the order the source adds them. */
  function CellFluxes(lists: TransitionLists, flags: Flags, rates: CellRates): (fs: seq<Flux>)
    requires Aligned(lists, rates)
    requires forall t :: t in lists.spontem ==> t.Emission?
  {
    (if flags.collIonRec then ForwardInverseFluxes(lists.iz, rates.kIon, rates.kRec) else [])
    + (if flags.radRec then RadRecFluxes(lists.radrec, rates.alpha, rates.ne) else [])
    + (if flags.collExDeex then ForwardInverseFluxes(lists.ex, rates.kEx, rates.kDeex) else [])
    + (if flags.spontEm then EmissionFluxes(lists.spontem) else [])
  }

  /** Every flux joins two locations below n. */
  predicate FluxesInRange(fs: seq<Flux>, n: nat)
  {
    forall i :: 0 <= i < |fs| ==> InRange(fs[i], n)
  }

  /** Every transition joins two locations below n. */
  predicate TransitionsInRange(ts: seq<Transition>, n: nat)
  {
    forall t :: t in ts ==> t.from.loc < n && t.to.loc < n
  }

  lemma ForwardInverseInRange(ts: seq<Transition>, kFwd: seq<real>, kInv: seq<real>, n: nat)
    requires |kFwd| == |ts| && |kInv| == |ts| && TransitionsInRange(ts, n)
    ensures FluxesInRange(ForwardInverseFluxes(ts, kFwd, kInv), n)
  {
    var fs := ForwardInverseFluxes(ts, kFwd, kInv);
    forall i | 0 <= i < |fs| ensures InRange(fs[i], n) {
      var j := i / 2;
      assert ts[j] in ts;
      assert i == 2 * j || i == 2 * j + 1;
    }
  }

  lemma RadRecInRange(ts: seq<Transition>, alpha: seq<real>, ne: real, n: nat)
    requires |alpha| == |ts| && TransitionsInRange(ts, n)
    ensures FluxesInRange(RadRecFluxes(ts, alpha, ne), n)
  {
    var fs := RadRecFluxes(ts, alpha, ne);
    forall i | 0 <= i < |fs| ensures InRange(fs[i], n) {
      assert ts[i] in ts;
    }
  }

  lemma EmissionInRange(ts: seq<Transition>, n: nat)
    requires (forall j :: 0 <= j < |ts| ==> ts[j].Emission?) && TransitionsInRange(ts, n)
    ensures FluxesInRange(EmissionFluxes(ts), n)
  {
    var fs := EmissionFluxes(ts);
    forall i | 0 <= i < |fs| ensures InRange(fs[i], n) {
      assert ts[i] in ts;
    }
  }

  lemma FluxesInRangeAppend(a: seq<Flux>, b: seq<Flux>, n: nat)
    requires FluxesInRange(a, n) && FluxesInRange(b, n)
    ensures FluxesInRange(a + b, n)
  {
    forall i | 0 <= i < |a + b| ensures InRange((a + b)[i], n) {
      if i >= |a| {
        assert (a + b)[i] == b[i - |a|];
      }
    }
  }

  /** Every flux of a well-formed cell joins two of its n locations. */
  lemma CellFluxesInRange(lists: TransitionLists, flags: Flags, rates: CellRates, n: nat)
    requires Aligned(lists, rates) && WellFormed(lists, n)
    ensures forall i :: 0 <= i < |CellFluxes(lists, flags, rates)| ==> InRange(CellFluxes(lists, flags, rates)[i], n)
  {
    var a := if flags.collIonRec then ForwardInverseFluxes(lists.iz, rates.kIon, rates.kRec) else [];
    var b := if flags.radRec then RadRecFluxes(lists.radrec, rates.alpha, rates.ne) else [];
    var c := if flags.collExDeex then ForwardInverseFluxes(lists.ex, rates.kEx, rates.kDeex) else [];
    var d := if flags.spontEm then EmissionFluxes(lists.spontem) else [];
    ForwardInverseInRange(lists.iz, rates.kIon, rates.kRec, n);
    RadRecInRange(lists.radrec, rates.alpha, rates.ne, n);
    ForwardInverseInRange(lists.ex, rates.kEx, rates.kDeex, n);
    assert forall j :: 0 <= j < |lists.spontem| ==> lists.spontem[j].Emission? by {
      forall j | 0 <= j < |lists.spontem| ensures lists.spontem[j].Emission? {
        assert lists.spontem[j] in lists.spontem;
      }
    }
    EmissionInRange(lists.spontem, n);
    assert FluxesInRange(a, n) && FluxesInRange(b, n) && FluxesInRange(c, n) && FluxesInRange(d, n);
    FluxesInRangeAppend(a, b, n);
    FluxesInRangeAppend(a + b, c, n);
    FluxesInRangeAppend(a + b + c, d, n);
    assert CellFluxes(lists, flags, rates) == a + b + c + d;
  }

  /**
   * The rate matrix of one cell (impurity.py:206-353): every column sums to
   * zero whatever the coefficient values, because each process takes from
   * its source state exactly what it gives to its destination.
   */
  function BuildCellMatrix(n: nat, lists: TransitionLists, flags: Flags, rates: CellRates): (m: Matrix)
    requires Aligned(lists, rates) && WellFormed(lists, n)
    ensures IsSquare(m, n)
    ensures forall c :: 0 <= c < n ==> Sum(Column(m, c)) == 0.0
  {
    CellFluxesInRange(lists, flags, rates, n);
    var fs := CellFluxes(lists, flags, rates);
    var m := Accumulate(ZeroMatrix(n), fs);
    AccumulateKeepsColumnSums(ZeroMatrix(n), fs);
    forall c | 0 <= c < n
      ensures Sum(Column(ZeroMatrix(n), c)) == 0.0
    {
      assert Column(ZeroMatrix(n), c) == Zeros(n);
      SumZeros(n);
    }
    m
  }

  /** Non-negative coefficients for the forward/inverse and emission processes. */
  predicate NonNegativeRates(lists: TransitionLists, rates: CellRates)
    requires Aligned(lists, rates)
  {
    && rates.ne >= 0.0
    && (forall j :: 0 <= j < |lists.iz| ==> rates.kIon[j] >= 0.0 && rates.kRec[j] >= 0.0)
    && (forall j :: 0 <= j < |lists.ex| ==> rates.kEx[j] >= 0.0 && rates.kDeex[j] >= 0.0)
    && (forall t :: t in lists.spontem ==> t.Emission? && t.rate >= 0.0)
  }

  predicate NonNegativeFluxes(fs: seq<Flux>)
  {
    forall i :: 0 <= i < |fs| ==> fs[i].k >= 0.0
  }

  lemma {:induction false} ForwardInverseNonNegative(ts: seq<Transition>, kFwd: seq<real>, kInv: seq<real>)
    requires |kFwd| == |ts| && |kInv| == |ts|
    requires forall j :: 0 <= j < |ts| ==> kFwd[j] >= 0.0 && kInv[j] >= 0.0
    ensures NonNegativeFluxes(ForwardInverseFluxes(ts, kFwd, kInv))
  {
    if |ts| > 0 {
      ForwardInverseNonNegative(ts[1..], kFwd[1..], kInv[1..]);
      var head := [Flux(ts[0].from.loc, ts[0].to.loc, kFwd[0]), Flux(ts[0].to.loc, ts[0].from.loc, kInv[0])];
      NonNegativeAppend(head, ForwardInverseFluxes(ts[1..], kFwd[1..], kInv[1..]));
    }
  }

  lemma NonNegativeAppend(a: seq<Flux>, b: seq<Flux>)
    requires NonNegativeFluxes(a) && NonNegativeFluxes(b)
    ensures NonNegativeFluxes(a + b)
  {
    forall i | 0 <= i < |a + b| ensures (a + b)[i].k >= 0.0 {
      if i >= |a| {
        assert (a + b)[i] == b[i - |a|];
      }
    }
  }

  lemma RadRecNonNegative(ts: seq<Transition>, alpha: seq<real>, ne: real)
    requires |alpha| == |ts| && ne >= 0.0
    ensures NonNegativeFluxes(RadRecFluxes(ts, alpha, ne))
  {
    var fs := RadRecFluxes(ts, alpha, ne);
    forall i | 0 <= i < |fs| ensures fs[i].k >= 0.0 {
      var a := ClampRadRec(alpha[i]);
      assert ne * a >= 0.0;
    }
  }

  lemma EmissionNonNegative(ts: seq<Transition>)
    requires forall t :: t in ts ==> t.Emission? && t.rate >= 0.0
    ensures NonNegativeFluxes(EmissionFluxes(ts))
  {
    var fs := EmissionFluxes(ts);
    forall i | 0 <= i < |fs| ensures fs[i].k >= 0.0 {
      assert ts[i] in ts;
    }
  }

  /**
   * With non-negative coefficients the cell matrix has losses on the
   * diagonal and gains off it. The interpolated radiative-recombination
   * coefficient needs no sign assumption: the clamp makes its flux
   * non-negative.
   */
  lemma CellMatrixSigns(n: nat, lists: TransitionLists, flags: Flags, rates: CellRates)
    requires Aligned(lists, rates) && WellFormed(lists, n) && NonNegativeRates(lists, rates)
    ensures RateSigns(BuildCellMatrix(n, lists, flags, rates))
  {
    CellFluxesInRange(lists, flags, rates, n);
    var a := if flags.collIonRec then ForwardInverseFluxes(lists.iz, rates.kIon, rates.kRec) else [];
    var b := if flags.radRec then RadRecFluxes(lists.radrec, rates.alpha, rates.ne) else [];
    var c := if flags.collExDeex then ForwardInverseFluxes(lists.ex, rates.kEx, rates.kDeex) else [];
    var d := if flags.spontEm then EmissionFluxes(lists.spontem) else [];
    if flags.collIonRec { ForwardInverseNonNegative(lists.iz, rates.kIon, rates.kRec); }
    if flags.radRec { RadRecNonNegative(lists.radrec, rates.alpha, rates.ne); }
    if flags.collExDeex { ForwardInverseNonNegative(lists.ex, rates.kEx, rates.kDeex); }
    if flags.spontEm { EmissionNonNegative(lists.spontem); }
    NonNegativeAppend(a, b);
    NonNegativeAppend(a + b, c);
    NonNegativeAppend(a + b + c, d);
    AccumulateKeepsSigns(ZeroMatrix(n), CellFluxes(lists, flags, rates));
  }

  /**
   * The rate matrices of all cells (one list for kinetic electrons, the
   * same construction with Maxwellian coefficients for `rate_mat_max`);
   * cells are built independently and every column of every matrix sums to
   * zero.
   */
  function BuildRateMatrices(n: nat, lists: TransitionLists, flags: Flags, cells: seq<CellRates>): (mats: seq<Matrix>)
    requires WellFormed(lists, n)
    requires forall i :: 0 <= i < |cells| ==> Aligned(lists, cells[i])
    ensures |mats| == |cells|
    ensures forall i :: 0 <= i < |cells| ==> mats[i] == BuildCellMatrix(n, lists, flags, cells[i])
    ensures forall i, c :: 0 <= i < |cells| && 0 <= c < n ==> IsSquare(mats[i], n) && Sum(Column(mats[i], c)) == 0.0
  {
    seq(|cells|, i requires 0 <= i < |cells| => BuildCellMatrix(n, lists, flags, cells[i]))
  }

  /**
   * Transitions loaded from a loaded state table are well formed for its
   * size, with the emission list as the source loads it and as corrected.
   */
  lemma LoadedTransitionsWellFormed(rows: seq<StateRow>, numZ: int, trows: seq<TransitionRow>,
                                    flags: Flags, erows: seq<EmissionRow>)
    ensures var states := LoadStates(rows, numZ);
            var lists := LoadCollisional(states, trows, flags).(spontem := SpontEmAsWritten(states, erows, numZ));
            WellFormed(lists, |states|)
    ensures var states := LoadStates(rows, numZ);
            var lists := LoadCollisional(states, trows, flags).(spontem := LoadSpontEm(states, erows, numZ));
            WellFormed(lists, |states|)
  {
    LoadedStatesIndexed(rows, numZ);
  }

  /**
   * Radiated power of radiative recombination in one cell, without unit
   * factors (impurity.py:654-664): energy times clamped coefficient times
   * electron density times the density of the recombining state.
   */
  function RadRecPower(ts: seq<Transition>, alpha: seq<real>, eps: seq<real>, ne: real, dens: seq<real>): real
    requires |alpha| == |ts| && |eps| == |ts|
    requires forall t :: t in ts ==> t.from.loc < |dens|
  {
    if |ts| == 0 then 0.0
    else
      eps[0] * ClampRadRec(alpha[0]) * ne * dens[ts[0].from.loc]
      + RadRecPower(ts[1..], alpha[1..], eps[1..], ne, dens)
  }

  /** The clamp keeps the recombination power non-negative even where interpolation went negative. */
  lemma {:induction false} RadRecPowerNonNegative(ts: seq<Transition>, alpha: seq<real>, eps: seq<real>, ne: real, dens: seq<real>)
    requires |alpha| == |ts| && |eps| == |ts|
    requires forall t :: t in ts ==> t.from.loc < |dens|
    requires ne >= 0.0
    requires forall j :: 0 <= j < |eps| ==> eps[j] >= 0.0
    requires forall k :: 0 <= k < |dens| ==> dens[k] >= 0.0
    ensures RadRecPower(ts, alpha, eps, ne, dens) >= 0.0
  {
    if |ts| > 0 {
      assert ts[0] in ts;
      var a := ClampRadRec(alpha[0]);
      assert eps[0] * a >= 0.0;
      assert eps[0] * a * ne >= 0.0;
      assert eps[0] * a * ne * dens[ts[0].from.loc] >= 0.0;
      RadRecPowerNonNegative(ts[1..], alpha[1..], eps[1..], ne, dens);
    }
  }
}
