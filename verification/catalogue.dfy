/**
 * The state and transition catalogue of one impurity species
 * (impurity.py `load_states`, `load_transitions`, `load_spontem_transitions`,
 * `get_state`, `get_ground_state`). Table files are already split into
 * records; reading and parsing them is not modelled.
 */
module Catalogue {
  import opened Common

  /** One line of the states table: stage, level name, statistical weight, energy. */
  datatype StateRow = StateRow(iz: int, name: string, statw: int, energy: real)

  /** A loaded state; `loc` is its index into every per-state array. */
  datatype State = State(iz: int, name: string, loc: nat, statw: int, energy: real)

  /** The record a state was loaded from. */
  function RowOf(s: State): StateRow
  {
    StateRow(s.iz, s.name, s.statw, s.energy)
  }

  /** The records of stages below numZ, in file order. */
  function KeptRows(rows: seq<StateRow>, numZ: int): (kept: seq<StateRow>)
    ensures forall r :: r in kept <==> r in rows && r.iz < numZ
  {
    if |rows| == 0 then []
    else (if rows[0].iz < numZ then [rows[0]] else []) + KeptRows(rows[1..], numZ)
  }

  function LoadFrom(rows: seq<StateRow>, numZ: int, next: nat): (states: seq<State>)
    ensures |states| == |KeptRows(rows, numZ)|
    ensures forall k :: 0 <= k < |states| ==>
      states[k].loc == next + k && RowOf(states[k]) == KeptRows(rows, numZ)[k]
  {
    if |rows| == 0 then []
    else if rows[0].iz < numZ then
      var r := rows[0];
      var rest := LoadFrom(rows[1..], numZ, next + 1);
      assert KeptRows(rows, numZ) == [r] + KeptRows(rows[1..], numZ);
      [State(r.iz, r.name, next, r.statw, r.energy)] + rest
    else
      assert KeptRows(rows, numZ) == KeptRows(rows[1..], numZ);
      LoadFrom(rows[1..], numZ, next)
  }

  /**
   * impurity.py:37-46: keep the records of stages below numZ in file order
   * and number them 0, 1, 2, ... as they are kept; `tot_states` is the
   * length of the result.
   */
  function LoadStates(rows: seq<StateRow>, numZ: int): (states: seq<State>)
    ensures |states| == |KeptRows(rows, numZ)|
    ensures forall k :: 0 <= k < |states| ==>
      states[k].loc == k && RowOf(states[k]) == KeptRows(rows, numZ)[k]
  {
    LoadFrom(rows, numZ, 0)
  }

  /** Every state's `loc` is its own position in the table. */
  predicate Indexed(states: seq<State>)
  {
    forall k :: 0 <= k < |states| ==> states[k].loc == k
  }

  /** A loaded table is indexed, and every state in it has a location inside the table. */
  lemma LoadedStatesIndexed(rows: seq<StateRow>, numZ: int)
    ensures Indexed(LoadStates(rows, numZ))
    ensures forall s :: s in LoadStates(rows, numZ) ==> s.loc < |LoadStates(rows, numZ)| && s.iz < numZ
  {
    var states := LoadStates(rows, numZ);
    forall s | s in states
      ensures s.loc < |states| && s.iz < numZ
    {
      var k :| 0 <= k < |states| && states[k] == s;
      assert RowOf(s) in KeptRows(rows, numZ);
    }
  }

  /** Index of the first state satisfying p, if any. */
  function FirstWhere(states: seq<State>, p: State -> bool): (r: Option<nat>)
    ensures r.Some? ==> r.value < |states| && p(states[r.value])
    ensures r.Some? ==> forall j :: 0 <= j < r.value ==> !p(states[j])
    ensures r.None? ==> forall j :: 0 <= j < |states| ==> !p(states[j])
  {
    if |states| == 0 then None
    else if p(states[0]) then Some(0)
    else
      match FirstWhere(states[1..], p)
      case None => None
      case Some(k) => Some(k + 1)
  }

  /** impurity.py:136-139: the first state of stage iz named `name`; `None` when there is none. */
  function GetState(states: seq<State>, iz: int, name: string): (r: Option<State>)
    ensures r.None? <==> forall k :: 0 <= k < |states| ==> !(states[k].iz == iz && states[k].name == name)
    ensures r.Some? ==> exists k :: 0 <= k < |states| && states[k] == r.value
                         && r.value.iz == iz && r.value.name == name
                         && forall j :: 0 <= j < k ==> !(states[j].iz == iz && states[j].name == name)
  {
    match FirstWhere(states, (s: State) => s.iz == iz && s.name == name)
    case None => None
    case Some(k) => Some(states[k])
  }

  /** impurity.py:141-144: the first state of stage z (its ground state); `None` when there is none. */
  function GetGroundState(states: seq<State>, z: int): (r: Option<State>)
    ensures r.None? <==> forall k :: 0 <= k < |states| ==> states[k].iz != z
    ensures r.Some? ==> exists k :: 0 <= k < |states| && states[k] == r.value && r.value.iz == z
                         && forall j :: 0 <= j < k ==> states[j].iz != z
  {
    match FirstWhere(states, (s: State) => s.iz == z)
    case None => None
    case Some(k) => Some(states[k])
  }

  /** One line of the transitions table: type, both endpoints by stage and name, data type. */
  datatype TransitionRow = TransitionRow(kind: string, fromIz: int, fromName: string,
                                         toIz: int, toName: string, dtype: string)

  datatype Process = Ionization | RadRec | Excitation

  /**
   * A transition between two loaded states. Cross-sections and
   * interpolation tables live inside the source's transition objects and are
   * not modelled; an emission carries its averaged rate.
   */
  datatype Transition =
    | Collisional(process: Process, from: State, to: State, dtype: string)
    | Emission(from: State, to: State, rate: real)

  /** The process switches of a run. */
  datatype Flags = Flags(collIonRec: bool, radRec: bool, collExDeex: bool, spontEm: bool)

  /** The four lists an impurity keeps. */
  datatype TransitionLists = TransitionLists(iz: seq<Transition>, ex: seq<Transition>,
                                             radrec: seq<Transition>, spontem: seq<Transition>)

  function ProcessName(p: Process): string
  {
    match p
    case Ionization => "ionization"
    case RadRec => "radrec"
    case Excitation => "excitation"
  }

  function Enabled(flags: Flags, p: Process): bool
  {
    match p
    case Ionization => flags.collIonRec
    case RadRec => flags.radRec
    case Excitation => flags.collExDeex
  }

  /** The transition a record contributes to the list of process p, if any. */
  function Resolve(states: seq<State>, row: TransitionRow, p: Process, flags: Flags): Option<Transition>
  {
    var from := GetState(states, row.fromIz, row.fromName);
    var to := GetState(states, row.toIz, row.toName);
    if from.Some? && to.Some? && row.kind == ProcessName(p) && Enabled(flags, p)
    then Some(Collisional(p, from.value, to.value, row.dtype))
    else None
  }

  /** Reference list for one process: one transition per record it keeps, in file order. */
  function KeptFor(states: seq<State>, rows: seq<TransitionRow>, p: Process, flags: Flags): (ts: seq<Transition>)
    ensures forall t :: t in ts ==>
      t.Collisional? && t.process == p && Enabled(flags, p) && t.from in states && t.to in states
  {
    if |rows| == 0 then []
    else
      (match Resolve(states, rows[0], p, flags) case Some(t) => [t] case None => [])
      + KeptFor(states, rows[1..], p, flags)
  }

  /** The three process names are different strings. */
  lemma ProcessNamesDistinct()
    ensures ProcessName(Ionization) != ProcessName(RadRec)
    ensures ProcessName(Ionization) != ProcessName(Excitation)
    ensures ProcessName(RadRec) != ProcessName(Excitation)
  {
    assert |ProcessName(RadRec)| == 6 && |ProcessName(Ionization)| == 10;
    assert ProcessName(Ionization)[0] != ProcessName(Excitation)[0];
  }

  /** KeptFor of a non-empty record list: the first record's contribution, then the rest. */
  lemma KeptForStep(states: seq<State>, rows: seq<TransitionRow>, p: Process, flags: Flags)
    requires |rows| > 0
    ensures var r := Resolve(states, rows[0], p, flags);
            KeptFor(states, rows, p, flags) == (if r.Some? then [r.value] else []) + KeptFor(states, rows[1..], p, flags)
  {
  }

  /**
   * impurity.py:63-107: one pass over the records; a record is kept only
   * when both endpoints resolve and its type's switch is on, and then it goes
   * into the list of its own type and no other.
   */
  function LoadCollisional(states: seq<State>, rows: seq<TransitionRow>, flags: Flags): (lists: TransitionLists)
    ensures lists.iz == KeptFor(states, rows, Ionization, flags)
    ensures lists.radrec == KeptFor(states, rows, RadRec, flags)
    ensures lists.ex == KeptFor(states, rows, Excitation, flags)
    ensures lists.spontem == []
  {
    if |rows| == 0 then TransitionLists([], [], [], [])
    else
      var rest := LoadCollisional(states, rows[1..], flags);
      var row := rows[0];
      ProcessNamesDistinct();
      KeptForStep(states, rows, Ionization, flags);
      KeptForStep(states, rows, RadRec, flags);
      KeptForStep(states, rows, Excitation, flags);
      var from := GetState(states, row.fromIz, row.fromName);
      var to := GetState(states, row.toIz, row.toName);
      if from.None? || to.None? then rest
      else if row.kind == "ionization" && flags.collIonRec then
        rest.(iz := [Collisional(Ionization, from.value, to.value, row.dtype)] + rest.iz)
      else if row.kind == "radrec" && flags.radRec then
        rest.(radrec := [Collisional(RadRec, from.value, to.value, row.dtype)] + rest.radrec)
      else if row.kind == "excitation" && flags.collExDeex then
        rest.(ex := [Collisional(Excitation, from.value, to.value, row.dtype)] + rest.ex)
      else rest
  }

  /** Every record that resolves for process p is in p's list. */
  lemma {:induction false} KeptForComplete(states: seq<State>, rows: seq<TransitionRow>, p: Process, flags: Flags, k: nat)
    requires k < |rows| && Resolve(states, rows[k], p, flags).Some?
    ensures Resolve(states, rows[k], p, flags).value in KeptFor(states, rows, p, flags)
  {
    if k > 0 {
      KeptForComplete(states, rows[1..], p, flags, k - 1);
    }
  }

  /** One line of the emission-rate table: stage, lower and upper level names, rate. */
  datatype EmissionRow = EmissionRow(iz: int, lower: string, upper: string, rate: real)

  /** Rates of the table lines of stage z from level `upper` down to level `lower`. */
  function MatchingRates(rows: seq<EmissionRow>, z: int, lower: string, upper: string): (rates: seq<real>)
    ensures |rates| <= |rows|
  {
    if |rows| == 0 then []
    else
      (if rows[0].iz == z && rows[0].lower == lower && rows[0].upper == upper then [rows[0].rate] else [])
      + MatchingRates(rows[1..], z, lower, upper)
  }

  function Mean(s: seq<real>): real
    requires |s| > 0
  {
    Sum(s) / (|s| as real)
  }

  /** t is an emission between two distinct-named states of one stage of the table. */
  predicate Joins(t: Transition, states: seq<State>)
  {
    t.Emission? && t.from in states && t.to in states
    && t.from.iz == t.to.iz && t.from.name != t.to.name
  }

  /** t's rate is the mean of the table lines of stage z for its pair of levels. */
  predicate RateFromStage(t: Transition, rows: seq<EmissionRow>, z: int)
    requires t.Emission?
  {
    var rates := MatchingRates(rows, z, t.to.name, t.from.name);
    |rates| > 0 && t.rate == Mean(rates)
  }

  /**
   * The candidate for one (from, to) pair at table stage z. With
   * `stageChecked` false this is the condition as written in the source;
   * with it true the state's own stage must also be z.
   */
  function EmissionCandidate(z: int, from: State, to: State, rows: seq<EmissionRow>, stageChecked: bool): seq<Transition>
  {
    if from.iz == to.iz && from.name != to.name && (!stageChecked || from.iz == z) then
      var rates := MatchingRates(rows, z, to.name, from.name);
      if |rates| > 0 then [Emission(from, to, Mean(rates))] else []
    else []
  }

  function EmissionsTo(z: int, from: State, tos: seq<State>, rows: seq<EmissionRow>, stageChecked: bool): (ts: seq<Transition>)
    ensures forall t :: t in ts ==>
      t.Emission? && t.from == from && t.to in tos && t.from.iz == t.to.iz && t.from.name != t.to.name
      && RateFromStage(t, rows, z) && (stageChecked ==> from.iz == z)
  {
    if |tos| == 0 then []
    else EmissionCandidate(z, from, tos[0], rows, stageChecked) + EmissionsTo(z, from, tos[1..], rows, stageChecked)
  }

  function EmissionsFrom(z: int, froms: seq<State>, states: seq<State>, rows: seq<EmissionRow>, stageChecked: bool): (ts: seq<Transition>)
    ensures forall t :: t in ts ==>
      t.Emission? && t.from in froms && t.to in states && t.from.iz == t.to.iz && t.from.name != t.to.name
      && RateFromStage(t, rows, z) && (stageChecked ==> t.from.iz == z)
  {
    if |froms| == 0 then []
    else EmissionsTo(z, froms[0], states, rows, stageChecked) + EmissionsFrom(z, froms[1..], states, rows, stageChecked)
  }

  /** All candidates of the stages z .. numZ - 1, for every ordered pair of states. */
  function EmissionsFromStage(z: int, numZ: int, states: seq<State>, rows: seq<EmissionRow>, stageChecked: bool): (ts: seq<Transition>)
    ensures forall t :: t in ts ==> Joins(t, states)
    ensures forall t :: t in ts ==> t.Emission? && exists y :: z <= y < numZ && RateFromStage(t, rows, y) && (stageChecked ==> t.from.iz == y)
    decreases numZ - z
  {
    if z >= numZ then []
    else EmissionsFrom(z, states, states, rows, stageChecked) + EmissionsFromStage(z + 1, numZ, states, rows, stageChecked)
  }

  /**
   * impurity.py:119-134 as written: the stage loop matches table lines of
   * stage z against every same-stage pair of states, whatever the pair's own
   * stage is.
   */
  function SpontEmAsWritten(states: seq<State>, rows: seq<EmissionRow>, numZ: int): (ts: seq<Transition>)
    ensures forall t :: t in ts ==> Joins(t, states)
    ensures forall t :: t in ts ==> t.Emission? && exists y :: 0 <= y < numZ && RateFromStage(t, rows, y)
  {
    EmissionsFromStage(0, numZ, states, rows, false)
  }

  /**
   * Spontaneous-emission transitions with the stage check the loop
   * evidently intends: each joins two distinct-named states of one stage
   * below numZ, and its rate is the mean of that stage's table lines for the
   * pair.
   */
  function LoadSpontEm(states: seq<State>, rows: seq<EmissionRow>, numZ: int): (ts: seq<Transition>)
    ensures forall t :: t in ts ==> Joins(t, states)
    ensures forall t :: t in ts ==> t.Emission? && 0 <= t.from.iz < numZ && RateFromStage(t, rows, t.from.iz)
  {
    EmissionsFromStage(0, numZ, states, rows, true)
  }

  lemma {:induction false} EmissionsToComplete(z: int, from: State, tos: seq<State>, rows: seq<EmissionRow>, to: State)
    requires to in tos && from.iz == to.iz && from.name != to.name && from.iz == z
    requires |MatchingRates(rows, z, to.name, from.name)| > 0
    ensures Emission(from, to, Mean(MatchingRates(rows, z, to.name, from.name))) in EmissionsTo(z, from, tos, rows, true)
  {
    if tos[0] != to {
      EmissionsToComplete(z, from, tos[1..], rows, to);
    }
  }

  lemma {:induction false} EmissionsFromComplete(z: int, froms: seq<State>, states: seq<State>, rows: seq<EmissionRow>, from: State, to: State)
    requires from in froms && to in states && from.iz == to.iz && from.name != to.name && from.iz == z
    requires |MatchingRates(rows, z, to.name, from.name)| > 0
    ensures Emission(from, to, Mean(MatchingRates(rows, z, to.name, from.name))) in EmissionsFrom(z, froms, states, rows, true)
  {
    if froms[0] == from {
      EmissionsToComplete(z, from, states, rows, to);
    } else {
      EmissionsFromComplete(z, froms[1..], states, rows, from, to);
    }
  }

  lemma {:induction false} EmissionsFromStageComplete(z: int, numZ: int, states: seq<State>, rows: seq<EmissionRow>, from: State, to: State)
    requires from in states && to in states && from.iz == to.iz && from.name != to.name
    requires z <= from.iz < numZ
    requires |MatchingRates(rows, from.iz, to.name, from.name)| > 0
    ensures Emission(from, to, Mean(MatchingRates(rows, from.iz, to.name, from.name)))
            in EmissionsFromStage(z, numZ, states, rows, true)
    decreases numZ - z
  {
    var e := Emission(from, to, Mean(MatchingRates(rows, from.iz, to.name, from.name)));
    var here := EmissionsFrom(z, states, states, rows, true);
    var later := EmissionsFromStage(z + 1, numZ, states, rows, true);
    assert EmissionsFromStage(z, numZ, states, rows, true) == here + later;
    if from.iz == z {
      EmissionsFromComplete(z, states, states, rows, from, to);
      assert e in here;
    } else {
      EmissionsFromStageComplete(z + 1, numZ, states, rows, from, to);
      assert e in later;
    }
  }

  /**
   * Completeness of the corrected matching: every pair of distinct-named
   * states of one stage below numZ that has table lines gets its transition,
   * carrying the mean of those lines.
   */
  lemma LoadSpontEmComplete(states: seq<State>, rows: seq<EmissionRow>, numZ: int, from: State, to: State)
    requires from in states && to in states && from.iz == to.iz && from.name != to.name
    requires 0 <= from.iz < numZ
    requires |MatchingRates(rows, from.iz, to.name, from.name)| > 0
    ensures Emission(from, to, Mean(MatchingRates(rows, from.iz, to.name, from.name))) in LoadSpontEm(states, rows, numZ)
  {
    EmissionsFromStageComplete(0, numZ, states, rows, from, to);
  }

  /**
   * The stage check is missing in the source: with stage 0 and stage 1
   * both having levels named "a" and "b", and one table line for stage 0
   * from "a" to "b", the loop as written also creates the stage-1 emission
   * a -> b, although the table has nothing for stage 1, and gives it the
   * stage-0 rate. The corrected matching leaves it out.
   */
  lemma SpontEmStageMismatch()
    ensures var states := [State(0, "a", 0, 1, 0.0), State(0, "b", 1, 1, 0.0),
                           State(1, "a", 2, 1, 0.0), State(1, "b", 3, 1, 0.0)];
            var rows := [EmissionRow(0, "b", "a", 1.0)];
            var spurious := Emission(states[2], states[3], 1.0);
            && spurious in SpontEmAsWritten(states, rows, 2)
            && MatchingRates(rows, 1, "b", "a") == []
            && spurious !in LoadSpontEm(states, rows, 2)
  {
    var states := [State(0, "a", 0, 1, 0.0), State(0, "b", 1, 1, 0.0),
                   State(1, "a", 2, 1, 0.0), State(1, "b", 3, 1, 0.0)];
    var rows := [EmissionRow(0, "b", "a", 1.0)];
    var spurious := Emission(states[2], states[3], 1.0);
    assert MatchingRates(rows, 0, "b", "a") == [1.0];
    assert Mean([1.0]) == 1.0;
    assert MatchingRates(rows, 1, "b", "a") == [];
    var tail := states[2..];
    assert tail[1..] == states[3..];
    assert EmissionCandidate(0, states[2], states[3], rows, false) == [spurious];
    assert spurious in EmissionsTo(0, states[2], states[3..], rows, false);
    assert spurious in EmissionsTo(0, states[2], states[2..], rows, false);
    assert spurious in EmissionsTo(0, states[2], states, rows, false) by {
      assert states[1..][1..] == states[2..];
      assert EmissionsTo(0, states[2], states[1..], rows, false)
             == EmissionCandidate(0, states[2], states[1], rows, false) + EmissionsTo(0, states[2], states[2..], rows, false);
    }
    assert spurious in EmissionsFrom(0, states[2..], states, rows, false);
    assert spurious in EmissionsFrom(0, states, states, rows, false) by {
      assert states[1..][1..] == states[2..];
      assert EmissionsFrom(0, states[1..], states, rows, false)
             == EmissionsTo(0, states[1], states, rows, false) + EmissionsFrom(0, states[2..], states, rows, false);
    }
    assert spurious in EmissionsFromStage(0, 2, states, rows, false);
  }
}
