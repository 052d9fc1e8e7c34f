/**
 * The distributed backward-Euler solve (solver.py `evolve`, lines 81-204).
 * Every rank holds the flattened densities of its own cells and solves
 * `(I - dt * R) n_new = n_old` with a Krylov solver, an oracle here that
 * takes the rank and the old vector. After each step the ranks agree on
 * the largest residual and on the number of failed solves; the gather and
 * broadcast become a max and a sum over the ranks' values, which every
 * rank then sees. The loop itself is `StoppingLoop.Drive`.
 */
module BackwardEuler {
  import opened Common
  import opened DirectSolve
  import opened StoppingLoop

  /** A rank's Krylov solve: its converged reason and the new vector. */
  type Solver = (nat, seq<real>) -> KspResult

  /** The solver returns a vector as long as the one it was given. */
  ghost predicate KeepsLength(ksp: Solver)
  {
    forall r: nat, v: seq<real> :: |ksp(r, v).x| == |v|
  }

  /** At least one rank, and every rank owns some densities. */
  predicate Shaped(cur: seq<seq<real>>)
  {
    |cur| > 0 && forall r :: 0 <= r < |cur| ==> |cur[r]| > 0
  }

  /** One step on every rank: each rank's vector replaced by its solve's result (solver.py:144). */
  function Next(cur: seq<seq<real>>, ksp: Solver): (next: seq<seq<real>>)
    ensures |next| == |cur| && forall r :: 0 <= r < |cur| ==> next[r] == ksp(r, cur[r]).x
  {
    seq(|cur|, r requires 0 <= r < |cur| => ksp(r, cur[r]).x)
  }

  /** `ksp_failed` of one rank: 1 when its converged reason is negative (solver.py:145-148). */
  function FailFlag(res: KspResult): (f: nat)
    ensures f <= 1 && (f == 1 <==> res.reason < 0)
  {
    if res.reason < 0 then 1 else 0
  }

  /** The sum of the failure flags of ranks 0 .. upTo - 1 (solver.py:167). */
  function CountFails(cur: seq<seq<real>>, ksp: Solver, upTo: nat): (n: nat)
    requires upTo <= |cur|
    ensures n <= upTo
  {
    if upTo == 0 then 0 else CountFails(cur, ksp, upTo - 1) + FailFlag(ksp(upTo - 1, cur[upTo - 1]))
  }

  /** The flag sum is positive exactly when some rank's solve failed. */
  lemma {:induction false} CountFailsPositive(cur: seq<seq<real>>, ksp: Solver, upTo: nat)
    requires upTo <= |cur|
    ensures CountFails(cur, ksp, upTo) > 0 <==> exists r :: 0 <= r < upTo && ksp(r, cur[r]).reason < 0
  {
    if upTo > 0 {
      CountFailsPositive(cur, ksp, upTo - 1);
      if ksp(upTo - 1, cur[upTo - 1]).reason < 0 {
        assert upTo - 1 < upTo;
      }
    }
  }

  /** Rank vectors before and after a step, of the same non-empty shapes. */
  predicate SameShape(cur: seq<seq<real>>, next: seq<seq<real>>)
  {
    |cur| == |next| > 0 && forall r :: 0 <= r < |cur| ==> |cur[r]| == |next[r]| > 0
  }

  /** `dndt` of every rank: its largest density change over dt (solver.py:151). */
  function RankResiduals(cur: seq<seq<real>>, next: seq<seq<real>>, dt: real): (all: seq<real>)
    requires SameShape(cur, next) && dt != 0.0
    ensures |all| == |cur|
  {
    seq(|cur|, r requires 0 <= r < |cur| => MaxAbsDiff(cur[r], next[r]) / dt)
  }

  /** `dndt_global`: the largest rank residual, which every rank receives (solver.py:158-168). */
  function GlobalResidual(cur: seq<seq<real>>, next: seq<seq<real>>, dt: real): real
    requires SameShape(cur, next) && dt != 0.0
  {
    Max(RankResiduals(cur, next, dt))
  }

  /** The global residual bounds every rank's residual and is one of them. */
  lemma GlobalResidualIsLargest(cur: seq<seq<real>>, next: seq<seq<real>>, dt: real)
    requires SameShape(cur, next) && dt != 0.0
    ensures forall r :: 0 <= r < |cur| ==> MaxAbsDiff(cur[r], next[r]) / dt <= GlobalResidual(cur, next, dt)
    ensures exists r :: 0 <= r < |cur| && MaxAbsDiff(cur[r], next[r]) / dt == GlobalResidual(cur, next, dt)
  {
    var all := RankResiduals(cur, next, dt);
    MaxIsLargest(all);
    assert forall r :: 0 <= r < |cur| ==> all[r] == MaxAbsDiff(cur[r], next[r]) / dt;
  }

  /** What the ranks observe about the step that starts from `cur`. */
  function Observe(cur: seq<seq<real>>, ksp: Solver, dt: real): Observed
    requires SameShape(cur, Next(cur, ksp)) && dt != 0.0
  {
    Observed(CountFails(cur, ksp, |cur|) > 0, GlobalResidual(cur, Next(cur, ksp), dt))
  }

  /** A step counts as failed exactly when some rank's solve failed. */
  lemma FailedIffSomeRank(cur: seq<seq<real>>, ksp: Solver, dt: real)
    requires SameShape(cur, Next(cur, ksp)) && dt != 0.0
    ensures Observe(cur, ksp, dt).failed <==> exists r :: 0 <= r < |cur| && ksp(r, cur[r]).reason < 0
  {
    CountFailsPositive(cur, ksp, |cur|);
  }

  /** The step of all ranks, as a state transition. */
  function StepOf(ksp: Solver): seq<seq<real>> -> seq<seq<real>>
  {
    cur => Next(cur, ksp)
  }

  /** The observation of a step, defined on every state of matching shape. */
  function ObserverOf(ksp: Solver, dt: real): seq<seq<real>> --> Observed
  {
    cur requires SameShape(cur, Next(cur, ksp)) && dt != 0.0 => Observe(cur, ksp, dt)
  }

  /** With a length-keeping solver, stepping keeps the shape and every shaped state can be observed. */
  lemma ShapedIsClosed(ksp: Solver, dt: real)
    requires KeepsLength(ksp) && dt != 0.0
    ensures Closed(StepOf(ksp), ObserverOf(ksp, dt), Shaped)
  {
    forall cur | Shaped(cur)
      ensures ObserverOf(ksp, dt).requires(cur) && Shaped(StepOf(ksp)(cur))
    {
      StepKeepsShape(cur, ksp);
    }
  }

  /** A length-keeping step from a shaped state gives a state of the same shape. */
  lemma StepKeepsShape(cur: seq<seq<real>>, ksp: Solver)
    requires Shaped(cur) && KeepsLength(ksp)
    ensures SameShape(cur, Next(cur, ksp)) && Shaped(Next(cur, ksp))
  {
    var next := Next(cur, ksp);
    forall r | 0 <= r < |cur| ensures |next[r]| == |cur[r]| {
      assert |ksp(r, cur[r]).x| == |cur[r]|;
    }
  }

  /** The PETSc vector `n_new` before any step: zeros. */
  function ZeroVectors(vs: seq<seq<real>>): (zs: seq<seq<real>>)
    ensures |zs| == |vs| && forall r :: 0 <= r < |vs| ==> zs[r] == Zeros(|vs[r]|)
  {
    seq(|vs|, r requires 0 <= r < |vs| => Zeros(|vs[r]|))
  }

  /**
   * `evolve` on all ranks at once, on their flattened vectors: the loop
   * of `StoppingLoop.Drive` with every rank stepped by its Krylov solve.
   * `trace` holds what the ranks observed at each step. The result is
   * `None` when the last step's solve failed on some rank, otherwise
   * every rank's latest vector.
   */
  method Evolve(init: seq<seq<real>>, ksp: Solver, dt: real, numT: nat, thresh: real)
    returns (res: Option<seq<seq<real>>>, trace: seq<Observed>)
    requires Shaped(init) && KeepsLength(ksp) && dt != 0.0
    ensures Closed(StepOf(ksp), ObserverOf(ksp, dt), Shaped)
    ensures |trace| <= numT && (numT > 0 ==> |trace| > 0)
    ensures trace == Trace(init, StepOf(ksp), ObserverOf(ksp, dt), Shaped, |trace|)
    ensures forall k :: 0 <= k < |trace| - 1 ==> !StopsAt(trace, k, numT, thresh)
    ensures 0 < |trace| < numT ==> StopsAt(trace, |trace| - 1, numT, thresh)
    ensures res.None? <==> |trace| > 0 && trace[|trace| - 1].failed
    ensures res.Some? ==> res.value == if |trace| == 0 then ZeroVectors(init) else Iterate(init, StepOf(ksp), |trace|)
  {
    ShapedIsClosed(ksp, dt);
    res, trace := Drive(init, ZeroVectors(init), StepOf(ksp), ObserverOf(ksp, dt), Shaped, numT, thresh);
  }

  /**
   * Step k of the trace observes the step from the k-th iterate: it
   * failed exactly when some rank's solve from that iterate failed, and
   * its residual bounds every rank's residual of that step.
   */
  lemma TraceObservesRanks(init: seq<seq<real>>, ksp: Solver, dt: real, n: nat, k: nat)
    requires Shaped(init) && KeepsLength(ksp) && dt != 0.0 && k < n
    ensures Closed(StepOf(ksp), ObserverOf(ksp, dt), Shaped)
    ensures var cur := Iterate(init, StepOf(ksp), k);
            var t := Trace(init, StepOf(ksp), ObserverOf(ksp, dt), Shaped, n);
            && SameShape(cur, Next(cur, ksp))
            && (t[k].failed <==> exists r :: 0 <= r < |cur| && ksp(r, cur[r]).reason < 0)
            && (forall r :: 0 <= r < |cur| ==> MaxAbsDiff(cur[r], Next(cur, ksp)[r]) / dt <= t[k].residual)
  {
    ShapedIsClosed(ksp, dt);
    TraceAt(init, StepOf(ksp), ObserverOf(ksp, dt), Shaped, n, k);
    var cur := Iterate(init, StepOf(ksp), k);
    FailedIffSomeRank(cur, ksp, dt);
    GlobalResidualIsLargest(cur, Next(cur, ksp), dt);
  }
}
