/**
 * Density diagnostics of one spatial cell (impurity.py `get_Zavg`,
 * `get_Zeff`, `get_z_dens`, `get_saha_eq`). A cell's densities are one row,
 * indexed by state location. The same computations run for the kinetic,
 * Maxwellian and Saha densities; the model states them once, for one row.
 */
module Diagnostics {
  import opened Common
  import opened Catalogue

  /** Every state's location indexes the density row. */
  predicate LocsIn(states: seq<State>, row: seq<real>)
  {
    forall k :: 0 <= k < |states| ==> states[k].loc < |row|
  }

  /** z to the power p, as a real. */
  function Pow(z: int, p: nat): real
  {
    if p == 0 then 1.0 else (z as real) * Pow(z, p - 1)
  }

  /** Sum over the states of density times charge to the power p. */
  function Moment(states: seq<State>, row: seq<real>, p: nat): real
    requires LocsIn(states, row)
  {
    if |states| == 0 then 0.0
    else row[states[0].loc] * Pow(states[0].iz, p) + Moment(states[1..], row, p)
  }

  /** For a table numbered from `off`, the zeroth moment is the sum of the row from `off`. */
  lemma {:induction false} MomentZeroFrom(states: seq<State>, row: seq<real>, off: nat)
    requires off + |states| == |row|
    requires forall k :: 0 <= k < |states| ==> states[k].loc == off + k
    ensures LocsIn(states, row) && Moment(states, row, 0) == Sum(row[off..])
  {
    if |states| > 0 {
      MomentZeroFrom(states[1..], row, off + 1);
      assert row[off..][1..] == row[off + 1..];
    }
  }

  /** For an indexed table, the zeroth moment is the cell's total density. */
  lemma MomentZeroIsTotal(states: seq<State>, row: seq<real>)
    requires Indexed(states) && |row| == |states|
    ensures LocsIn(states, row) && Moment(states, row, 0) == Sum(row)
  {
    MomentZeroFrom(states, row, 0);
    assert row[0..] == row;
  }

  /** With stages in [0, top] and non-negative densities, 0 <= first moment <= top * zeroth moment. */
  lemma {:induction false} ChargeMomentBounds(states: seq<State>, row: seq<real>, top: int)
    requires LocsIn(states, row)
    requires forall k :: 0 <= k < |states| ==> 0 <= states[k].iz <= top
    requires forall k :: 0 <= k < |row| ==> row[k] >= 0.0
    ensures 0.0 <= Moment(states, row, 1) <= (top as real) * Moment(states, row, 0)
  {
    if |states| > 0 {
      ChargeMomentBounds(states[1..], row, top);
      var d := row[states[0].loc];
      var z := states[0].iz as real;
      assert Pow(states[0].iz, 1) == z;
      assert d * z <= (top as real) * d by {
        assert (top as real - z) * d >= 0.0;
      }
    }
  }

  /** Every ion carries at least as much z-squared as z: the second moment bounds the first. */
  lemma {:induction false} SquareMomentDominates(states: seq<State>, row: seq<real>)
    requires LocsIn(states, row)
    requires forall k :: 0 <= k < |states| ==> states[k].iz >= 0
    requires forall k :: 0 <= k < |row| ==> row[k] >= 0.0
    ensures Moment(states, row, 2) >= Moment(states, row, 1)
  {
    if |states| > 0 {
      SquareMomentDominates(states[1..], row);
      var d := row[states[0].loc];
      var z := states[0].iz as real;
      assert Pow(states[0].iz, 0) == 1.0;
      assert Pow(states[0].iz, 1) == z;
      assert Pow(states[0].iz, 2) == z * z;
      assert z * z >= z by {
        if states[0].iz >= 1 {
          assert z >= 1.0;
          assert z * (z - 1.0) >= 0.0;
        } else {
          assert z == 0.0;
        }
      }
      assert d * (z * z) >= d * z by {
        assert d * (z * z - z) >= 0.0;
      }
    }
  }

  /**
   * Mean charge of a cell (impurity.py:432-454): the first moment over the
   * cell's total density when that is positive; otherwise the undivided
   * first moment.
   */
  function Zavg(states: seq<State>, row: seq<real>): (z: real)
    requires LocsIn(states, row)
    ensures Sum(row) > 0.0 ==> z * Sum(row) == Moment(states, row, 1)
    ensures Sum(row) <= 0.0 ==> z == Moment(states, row, 1)
  {
    if Sum(row) > 0.0 then Moment(states, row, 1) / Sum(row) else Moment(states, row, 1)
  }

  /** With non-negative densities on a loaded table, the mean charge lies in [0, numZ - 1]. */
  lemma ZavgBounds(states: seq<State>, row: seq<real>, numZ: int)
    requires Indexed(states) && |row| == |states|
    requires forall k :: 0 <= k < |states| ==> 0 <= states[k].iz < numZ
    requires forall k :: 0 <= k < |row| ==> row[k] >= 0.0
    requires numZ >= 1
    ensures LocsIn(states, row)
    ensures 0.0 <= Zavg(states, row) <= (numZ - 1) as real
  {
    MomentZeroIsTotal(states, row);
    ChargeMomentBounds(states, row, numZ - 1);
    SumNonNegative(row);
    if Sum(row) > 0.0 {
      QuotientBounds(Zavg(states, row), Sum(row), Moment(states, row, 1), (numZ - 1) as real);
    }
  }

  /** A quotient of a value in [0, top * tot] by a positive tot lies in [0, top]. */
  lemma QuotientBounds(z: real, tot: real, acc: real, top: real)
    requires tot > 0.0 && z * tot == acc && 0.0 <= acc <= top * tot
    ensures 0.0 <= z <= top
  {
  }

  /**
   * Effective charge of a cell (impurity.py:406-430): the second moment
   * over the electron density ne when the cell's impurity total is
   * positive; otherwise the undivided second moment. Dividing by ne == 0
   * gives no finite number: `None`.
   */
  function Zeff(states: seq<State>, row: seq<real>, ne: real): (r: Option<real>)
    requires LocsIn(states, row)
    ensures r.None? <==> Sum(row) > 0.0 && ne == 0.0
    ensures r.Some? && Sum(row) > 0.0 ==> r.value * ne == Moment(states, row, 2)
    ensures r.Some? && Sum(row) <= 0.0 ==> r.value == Moment(states, row, 2)
  {
    if Sum(row) > 0.0 then
      if ne == 0.0 then None else Some(Moment(states, row, 2) / ne)
    else Some(Moment(states, row, 2))
  }

  /** The electron-weighted effective charge is at least the mean charge times the impurity total. */
  lemma ZeffDominatesZavg(states: seq<State>, row: seq<real>, ne: real)
    requires Indexed(states) && |row| == |states|
    requires forall k :: 0 <= k < |states| ==> states[k].iz >= 0
    requires forall k :: 0 <= k < |row| ==> row[k] >= 0.0
    requires ne > 0.0 && Sum(row) > 0.0
    ensures LocsIn(states, row)
    ensures Zeff(states, row, ne).Some?
    ensures Zeff(states, row, ne).value * ne >= Zavg(states, row) * Sum(row)
  {
    MomentZeroIsTotal(states, row);
    SquareMomentDominates(states, row);
    var m1 := Moment(states, row, 1);
    var m2 := Moment(states, row, 2);
    assert Zeff(states, row, ne).value * ne == m2;
    assert Zavg(states, row) * Sum(row) == m1;
  }

  /** Reference: the density of stage z, summed over the states of that stage. */
  function StageDensity(states: seq<State>, row: seq<real>, z: int): real
    requires LocsIn(states, row)
  {
    if |states| == 0 then 0.0
    else (if states[0].iz == z then row[states[0].loc] else 0.0) + StageDensity(states[1..], row, z)
  }

  /**
   * impurity.py:548-557: each state adds its density to its stage's slot.
   * Slot z ends up holding the density of stage z, and the slots together
   * hold the zeroth moment (the cell total, for a loaded table).
   */
  function ZDens(states: seq<State>, row: seq<real>, numZ: nat): (zd: seq<real>)
    requires LocsIn(states, row)
    requires forall k :: 0 <= k < |states| ==> 0 <= states[k].iz < numZ
    ensures |zd| == numZ
    ensures forall z :: 0 <= z < numZ ==> zd[z] == StageDensity(states, row, z)
    ensures Sum(zd) == Moment(states, row, 0)
  {
    if |states| == 0 then
      SumZeros(numZ);
      Zeros(numZ)
    else
      var rest := ZDens(states[1..], row, numZ);
      var z := states[0].iz;
      SumUpdate(rest, z, rest[z] + row[states[0].loc]);
      rest[z := rest[z] + row[states[0].loc]]
  }

  /** Summing the stage densities of a loaded table gives back the cell total. */
  lemma ZDensTotal(states: seq<State>, row: seq<real>, numZ: nat)
    requires Indexed(states) && |row| == |states|
    requires forall k :: 0 <= k < |states| ==> 0 <= states[k].iz < numZ
    ensures LocsIn(states, row) && Sum(ZDens(states, row, numZ)) == Sum(row)
  {
    MomentZeroIsTotal(states, row);
  }

  /**
   * impurity.py:156-159: the location of each stage's ground state. The
   * source fails when a stage has no state; that is `None` here.
   */
  function GroundLocs(states: seq<State>, numZ: nat): (r: Option<seq<nat>>)
    ensures r.None? <==> exists z :: 0 <= z < numZ && GetGroundState(states, z).None?
    ensures r.Some? ==> |r.value| == numZ && forall z :: 0 <= z < numZ ==>
      GetGroundState(states, z).Some? && r.value[z] == GetGroundState(states, z).value.loc
  {
    if numZ == 0 then Some([])
    else
      match GroundLocs(states, numZ - 1)
      case None => None
      case Some(gs) =>
        match GetGroundState(states, numZ - 1)
        case None => None
        case Some(s) => Some(gs + [s.loc])
  }

  predicate Distinct(gs: seq<nat>)
  {
    forall a, b :: 0 <= a < b < |gs| ==> gs[a] != gs[b]
  }

  /**
   * On a loaded table the ground-state locations are distinct, and stage
   * 0's ground state sits at location 0 exactly when the table starts with
   * a stage-0 state.
   */
  lemma GroundLocsOfIndexed(states: seq<State>, numZ: nat)
    requires Indexed(states) && GroundLocs(states, numZ).Some?
    ensures Distinct(GroundLocs(states, numZ).value)
    ensures forall z :: 0 <= z < numZ ==> GroundLocs(states, numZ).value[z] < |states|
    ensures numZ > 0 ==> (GroundLocs(states, numZ).value[0] == 0 <==> states[0].iz == 0)
  {
    var gs := GroundLocs(states, numZ).value;
    forall z | 0 <= z < numZ
      ensures gs[z] < |states| && states[gs[z]].iz == z
    {
      var s := GetGroundState(states, z).value;
      var k :| 0 <= k < |states| && states[k] == s && s.iz == z;
    }
    if numZ > 0 {
      var s := GetGroundState(states, 0).value;
      var k :| 0 <= k < |states| && states[k] == s && s.iz == 0
               && forall j :: 0 <= j < k ==> states[j].iz != 0;
      assert gs[0] == k;
    }
  }

  /** Product of a sequence, peeled from the back so that a prefix extends by one factor. */
  function Prod(s: seq<real>): real
  {
    if |s| == 0 then 1.0 else Prod(s[..|s| - 1]) * s[|s| - 1]
  }

  lemma ProdPrefixStep(r: seq<real>, z: nat)
    requires z < |r|
    ensures Prod(r[..z + 1]) == Prod(r[..z]) * r[z]
  {
    assert r[..z + 1][..z] == r[..z];
  }

  lemma {:induction false} ProdNonNegative(s: seq<real>)
    requires forall i :: 0 <= i < |s| ==> s[i] >= 0.0
    ensures Prod(s) >= 0.0
  {
    if |s| > 0 {
      ProdNonNegative(s[..|s| - 1]);
    }
  }

  /** The Saha chain weights: weight z is the product of the first z ratios. */
  function ChainWeights(r: seq<real>): (w: seq<real>)
    ensures |w| == |r| + 1 && w[0] == 1.0
  {
    assert r[..0] == [];
    seq(|r| + 1, z requires 0 <= z <= |r| => Prod(r[..z]))
  }

  /** Each weight is the one before it times the ratio between the two stages. */
  lemma ChainStep(r: seq<real>, z: nat)
    requires 1 <= z <= |r|
    ensures ChainWeights(r)[z] == ChainWeights(r)[z - 1] * r[z - 1]
  {
    ProdPrefixStep(r, z - 1);
  }

  /** One plus the sum of the chain weights of stages 1 .. numZ - 1 (impurity.py:173-174). */
  function SahaDenominator(r: seq<real>): (d: real)
    requires forall i :: 0 <= i < |r| ==> r[i] >= 0.0
    ensures d == Sum(ChainWeights(r)) && d >= 1.0
  {
    var tail := seq(|r|, z requires 0 <= z < |r| => Prod(r[..z + 1]));
    var w := ChainWeights(r);
    assert w[1..] == tail;
    assert r[..0] == [];
    forall i | 0 <= i < |tail| ensures tail[i] >= 0.0 {
      ProdNonNegative(r[..i + 1]);
    }
    SumNonNegative(tail);
    1.0 + Sum(tail)
  }

  /** Density of stage 0's ground state, `tot / D` (impurity.py:175). */
  function SahaGround(tot: real, ratios: seq<real>): (n0: real)
    requires forall i :: 0 <= i < |ratios| ==> ratios[i] >= 0.0
    ensures n0 * SahaDenominator(ratios) == tot
  {
    tot / SahaDenominator(ratios)
  }

  lemma {:induction false} SumScale(s: seq<real>, t: seq<real>, c: real)
    requires |s| == |t| && forall i :: 0 <= i < |s| ==> t[i] == c * s[i]
    ensures Sum(t) == c * Sum(s)
  {
    if |s| > 0 {
      SumScale(s[1..], t[1..], c);
    }
  }

  /** Entries of row at the positions gs, in the order of gs. */
  function Pick(row: seq<real>, gs: seq<nat>): (p: seq<real>)
    requires forall z :: 0 <= z < |gs| ==> gs[z] < |row|
    ensures |p| == |gs| && forall z :: 0 <= z < |gs| ==> p[z] == row[gs[z]]
  {
    seq(|gs|, z requires 0 <= z < |gs| => row[gs[z]])
  }

  /** A row that is zero off the distinct positions gs sums to its entries at gs. */
  lemma {:induction false} SumSparse(row: seq<real>, gs: seq<nat>)
    requires Distinct(gs) && forall z :: 0 <= z < |gs| ==> gs[z] < |row|
    requires forall k :: 0 <= k < |row| && k !in gs ==> row[k] == 0.0
    ensures Sum(row) == Sum(Pick(row, gs))
    decreases |gs|
  {
    if |gs| == 0 {
      assert row == Zeros(|row|);
      SumZeros(|row|);
    } else {
      var l := |gs| - 1;
      var row' := row[gs[l] := 0.0];
      var init := gs[..l];
      forall k | 0 <= k < |row'| && k !in init
        ensures row'[k] == 0.0
      {
        if k != gs[l] {
          assert k !in gs;
        }
      }
      SumSparse(row', init);
      SumUpdate(row, gs[l], 0.0);
      assert Pick(row', init) == Pick(row, gs)[..l];
      assert Pick(row, gs) == Pick(row, gs)[..l] + [row[gs[l]]];
      SumAppend(Pick(row, gs)[..l], [row[gs[l]]]);
    }
  }

  /** Outside location 0 and the first z ground states, row still holds prev. */
  predicate Untouched(row: seq<real>, prev: seq<real>, gs: seq<nat>, z: nat)
    requires z <= |gs| && |row| == |prev|
  {
    forall k :: 0 < k < |prev| && k !in gs[..z] ==> row[k] == prev[k]
  }

  /** The first z ground states hold c times their chain weights (when the chain is well placed). */
  predicate Filled(row: seq<real>, gs: seq<nat>, w: seq<real>, c: real, z: nat)
    requires 0 < |gs| && z <= |gs| && |w| == |gs|
    requires forall y :: 0 <= y < |gs| ==> gs[y] < |row|
  {
    gs[0] == 0 && Distinct(gs) ==> forall y :: 0 <= y < z ==> row[gs[y]] == c * w[y]
  }

  /** Writing ground state z leaves untouched everything outside location 0 and the first z + 1 ground states. */
  lemma UntouchedStep(prev: seq<real>, gs: seq<nat>, row: seq<real>, z: nat, v: real)
    requires z < |gs| && |row| == |prev| && gs[z] < |prev|
    requires Untouched(row, prev, gs, z)
    ensures Untouched(row[gs[z] := v], prev, gs, z + 1)
  {
    assert gs[..z + 1] == gs[..z] + [gs[z]];
  }

  /** Writing the previous stage's density times the ratio fills ground state z with c times its weight. */
  lemma FilledStep(gs: seq<nat>, ratios: seq<real>, w: seq<real>, c: real, row: seq<real>, z: nat)
    requires |gs| == |ratios| + 1 && w == ChainWeights(ratios) && 1 <= z < |gs|
    requires forall y :: 0 <= y < |gs| ==> gs[y] < |row|
    requires Filled(row, gs, w, c, z)
    ensures Filled(row[gs[z] := row[gs[z - 1]] * ratios[z - 1]], gs, w, c, z + 1)
  {
    if gs[0] == 0 && Distinct(gs) {
      var v := row[gs[z - 1]] * ratios[z - 1];
      var row' := row[gs[z] := v];
      ChainStep(ratios, z);
      assert row[gs[z - 1]] == c * w[z - 1];
      assert v == c * (w[z - 1] * ratios[z - 1]);
      forall y | 0 <= y < z + 1 ensures row'[gs[y]] == c * w[y] {
        if y < z {
          assert gs[y] != gs[z];
        }
      }
    }
  }

  /**
   * A row that is zero off the distinct positions gs, with c * w[z] at
   * gs[z], sums to c * Sum(w); when c * Sum(w) is tot, it sums to tot.
   */
  lemma SparseWeightedSum(row: seq<real>, gs: seq<nat>, w: seq<real>, c: real, tot: real)
    requires |w| == |gs| && Distinct(gs)
    requires forall z :: 0 <= z < |gs| ==> gs[z] < |row| && row[gs[z]] == c * w[z]
    requires forall k :: 0 <= k < |row| && k !in gs ==> row[k] == 0.0
    requires c * Sum(w) == tot
    ensures Sum(row) == tot
  {
    SumSparse(row, gs);
    SumScale(w, Pick(row, gs), c);
  }

  /** Outside location 0 and the positions gs, row holds what prev held. */
  predicate KeepsOff(row: seq<real>, prev: seq<real>, gs: seq<nat>)
  {
    |row| == |prev| && forall k :: 0 < k < |prev| && k !in gs ==> row[k] == prev[k]
  }

  /** Each position gs[z] of row holds c times the weight w[z]. */
  predicate ChainFilled(row: seq<real>, gs: seq<nat>, w: seq<real>, c: real)
  {
    |w| == |gs| && forall z :: 0 <= z < |gs| ==> gs[z] < |row| && row[gs[z]] == c * w[z]
  }

  /**
   * The fill loop of impurity.py:175-178: location 0 gets c and each
   * stage's ground state gets the previous stage's density times the ratio.
   */
  method FillChain(prev: seq<real>, gs: seq<nat>, ratios: seq<real>, c: real) returns (row: seq<real>)
    requires |prev| > 0 && |gs| == |ratios| + 1
    requires forall z :: 0 <= z < |gs| ==> gs[z] < |prev|
    ensures KeepsOff(row, prev, gs)
    ensures gs[0] == 0 && Distinct(gs) ==> ChainFilled(row, gs, ChainWeights(ratios), c)
  {
    var w := ChainWeights(ratios);
    row := prev[0 := c];
    var z := 1;
    while z < |gs|
      invariant 1 <= z <= |gs| && |row| == |prev|
      invariant Untouched(row, prev, gs, z) && Filled(row, gs, w, c, z)
    {
      UntouchedStep(prev, gs, row, z, row[gs[z - 1]] * ratios[z - 1]);
      FilledStep(gs, ratios, w, c, row, z);
      row := row[gs[z] := row[gs[z - 1]] * ratios[z - 1]];
      z := z + 1;
    }
    assert gs[..z] == gs;
  }

  /** The row holds nothing outside the positions gs. */
  predicate ZeroOff(row: seq<real>, gs: seq<nat>)
  {
    forall k :: 0 <= k < |row| && k !in gs ==> row[k] == 0.0
  }

  /**
   * A filled chain over distinct positions that include location 0, in a
   * row that was zero elsewhere, sums to c times the sum of the weights.
   */
  lemma ChainRowSums(prev: seq<real>, gs: seq<nat>, w: seq<real>, c: real, tot: real, row: seq<real>)
    requires |gs| > 0 && gs[0] == 0 && Distinct(gs) && ZeroOff(prev, gs)
    requires KeepsOff(row, prev, gs) && ChainFilled(row, gs, w, c)
    requires c * Sum(w) == tot
    ensures Sum(row) == tot
  {
    assert 0 in gs;
    assert ZeroOff(row, gs);
    SparseWeightedSum(row, gs, w, c, tot);
  }

  /** The ground density times the sum of the chain weights is the total. */
  lemma SahaGroundScales(tot: real, ratios: seq<real>)
    requires forall i :: 0 <= i < |ratios| ==> ratios[i] >= 0.0
    ensures SahaGround(tot, ratios) * Sum(ChainWeights(ratios)) == tot
  {
    var d := SahaDenominator(ratios);
    assert SahaGround(tot, ratios) * d == tot;
  }

  /**
   * Saha densities of one cell (impurity.py:154-178) for given density
   * ratios of neighbouring stages (their physics is not modelled). Location
   * 0 gets `tot / D` and each stage's ground state gets the previous
   * stage's density times the ratio; nothing else in the row changes. When
   * stage 0's ground state is location 0, the ground states are distinct
   * and the row held nothing elsewhere, the Saha row sums to `tot`.
   */
  method SahaRow(prev: seq<real>, gs: seq<nat>, ratios: seq<real>, tot: real) returns (row: seq<real>)
    requires |prev| > 0 && |gs| == |ratios| + 1
    requires forall z :: 0 <= z < |gs| ==> gs[z] < |prev|
    requires forall i :: 0 <= i < |ratios| ==> ratios[i] >= 0.0
    ensures KeepsOff(row, prev, gs)
    ensures gs[0] == 0 && Distinct(gs) ==> ChainFilled(row, gs, ChainWeights(ratios), SahaGround(tot, ratios))
    ensures gs[0] == 0 && Distinct(gs) && ZeroOff(prev, gs) ==> Sum(row) == tot
  {
    var c := SahaGround(tot, ratios);
    row := FillChain(prev, gs, ratios, c);
    if gs[0] == 0 && Distinct(gs) && ZeroOff(prev, gs) {
      SahaGroundScales(tot, ratios);
      ChainRowSums(prev, gs, ChainWeights(ratios), c, tot, row);
    }
  }
}
