/**
 * The control flow of the time-stepping loop of solver.py (lines 141-195),
 * independent of what a state is: a state is stepped, the step is
 * observed (did it fail, and what is its residual), and the observations
 * decide whether the loop carries on.
 */
module StoppingLoop {
  import opened Common

  /** The initial value of `prev_residual` (solver.py:141). */
  const InitialResidual: real := 100000000000000000000.0

  /** What every rank knows after a step: whether any solve failed, and the global residual. */
  datatype Observed = Observed(failed: bool, residual: real)

  /** Every state satisfying inv can be observed, and stepping keeps inv. */
  ghost predicate Closed<S(!new)>(step: S -> S, observe: S --> Observed, inv: S -> bool)
  {
    forall x :: inv(x) ==> observe.requires(x) && inv(step(x))
  }

  /** The state after k steps. */
  function Iterate<S(!new)>(x0: S, step: S -> S, k: nat): S
  {
    if k == 0 then x0 else step(Iterate(x0, step, k - 1))
  }

  lemma {:induction false} IterateKeeps<S(!new)>(x0: S, step: S -> S, observe: S --> Observed, inv: S -> bool, k: nat)
    requires inv(x0) && Closed(step, observe, inv)
    ensures inv(Iterate(x0, step, k))
  {
    if k > 0 {
      IterateKeeps(x0, step, observe, inv, k - 1);
    }
  }

  /** The observations of the first n steps. */
  function Trace<S(!new)>(x0: S, step: S -> S, observe: S --> Observed, inv: S -> bool, n: nat): (t: seq<Observed>)
    requires inv(x0) && Closed(step, observe, inv)
    ensures |t| == n
  {
    if n == 0 then []
    else
      IterateKeeps(x0, step, observe, inv, n - 1);
      Trace(x0, step, observe, inv, n - 1) + [observe(Iterate(x0, step, n - 1))]
  }

  /** Entry k of the trace observes the state after k steps. */
  lemma {:induction false} TraceAt<S(!new)>(x0: S, step: S -> S, observe: S --> Observed, inv: S -> bool, n: nat, k: nat)
    requires inv(x0) && Closed(step, observe, inv) && k < n
    ensures observe.requires(Iterate(x0, step, k))
    ensures Trace(x0, step, observe, inv, n)[k] == observe(Iterate(x0, step, k))
  {
    IterateKeeps(x0, step, observe, inv, k);
    if k < n - 1 {
      TraceAt(x0, step, observe, inv, n - 1, k);
    }
  }

  /**
   * Whether the loop ends at step k, given the observations up to it
   * (solver.py:172-191): a failed solve; or a residual above the previous
   * one (the initial value for the first step) once more than a tenth of
   * the steps have run; or a residual below the threshold.
   */
  predicate StopsAt(trace: seq<Observed>, k: nat, numT: nat, thresh: real)
    requires k < |trace| && numT > 0
  {
    var prev := if k == 0 then InitialResidual else trace[k - 1].residual;
    || trace[k].failed
    || (trace[k].residual > prev && (k as real) / (numT as real) > 0.1)
    || trace[k].residual < thresh
  }

  /** Appending an observation does not change the verdicts on earlier steps. */
  lemma StopsAtExtend(trace: seq<Observed>, seen: Observed, numT: nat, thresh: real)
    requires numT > 0 && forall k :: 0 <= k < |trace| ==> !StopsAt(trace, k, numT, thresh)
    ensures forall k :: 0 <= k < |trace| ==> !StopsAt(trace + [seen], k, numT, thresh)
  {
    forall k | 0 <= k < |trace|
      ensures !StopsAt(trace + [seen], k, numT, thresh)
    {
      assert !StopsAt(trace, k, numT, thresh);
      assert (trace + [seen])[k] == trace[k];
      if k > 0 {
        assert (trace + [seen])[k - 1] == trace[k - 1];
      }
    }
  }

  /**
   * The loop: at most numT steps; every step before the last carries on,
   * and a loop that ends before numT steps ended on a stopping step. The
   * result is `None` exactly when the last step failed; otherwise it is the
   * last state (`zero` when no step ran).
   */
  method Drive<S(!new)>(x0: S, zero: S, step: S -> S, observe: S --> Observed, ghost inv: S -> bool,
                  numT: nat, thresh: real)
    returns (res: Option<S>, trace: seq<Observed>)
    requires inv(x0) && Closed(step, observe, inv)
    ensures |trace| <= numT && (numT > 0 ==> |trace| > 0)
    ensures trace == Trace(x0, step, observe, inv, |trace|)
    ensures forall k :: 0 <= k < |trace| - 1 ==> !StopsAt(trace, k, numT, thresh)
    ensures 0 < |trace| < numT ==> StopsAt(trace, |trace| - 1, numT, thresh)
    ensures res.None? <==> |trace| > 0 && trace[|trace| - 1].failed
    ensures res.Some? ==> res.value == if |trace| == 0 then zero else Iterate(x0, step, |trace|)
  {
    var cur := x0;
    var last := zero;
    var prev := InitialResidual;
    trace := [];
    var i := 0;
    ghost var stopped := false;
    while i < numT
      invariant 0 <= i <= numT && |trace| == i && !stopped
      invariant cur == Iterate(x0, step, i) && inv(cur)
      invariant last == if i == 0 then zero else cur
      invariant trace == Trace(x0, step, observe, inv, i)
      invariant forall k :: 0 <= k < i ==> !StopsAt(trace, k, numT, thresh)
      invariant prev == if i == 0 then InitialResidual else trace[i - 1].residual
    {
      var seen := observe(cur);
      last := step(cur);
      StopsAtExtend(trace, seen, numT, thresh);
      trace := trace + [seen];
      cur := last;
      if seen.failed {
        return None, trace;
      }
      if seen.residual > prev && (i as real) / (numT as real) > 0.1 {
        stopped := true;
        break;
      }
      prev := seen.residual;
      if seen.residual < thresh {
        stopped := true;
        break;
      }
      i := i + 1;
    }
    if !stopped && i > 0 {
      assert !StopsAt(trace, i - 1, numT, thresh);
    }
    res := Some(last);
  }
}
