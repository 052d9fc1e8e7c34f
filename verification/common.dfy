/**
 * Shared vocabulary of the model: an optional value, exact-real sums and
 * maxima, dot products and matrix-vector products. Densities, rates and
 * residuals of the original code are floating-point numbers; here they are
 * exact `real`s.
 */
module Common {

  /** A value that may be absent, for Python's `None` results. */
  datatype Option<T> = None | Some(value: T)

  /** A dense matrix stored row by row. */
  type Matrix = seq<seq<real>>

  /** A cell-by-state array, one row per spatial cell. */
  type Grid = seq<seq<real>>

  function Sum(s: seq<real>): real
  {
    if |s| == 0 then 0.0 else s[0] + Sum(s[1..])
  }

  lemma {:induction false} SumAppend(a: seq<real>, b: seq<real>)
    ensures Sum(a + b) == Sum(a) + Sum(b)
  {
    if |a| == 0 {
      assert a + b == b;
    } else {
      assert (a + b)[1..] == a[1..] + b;
      SumAppend(a[1..], b);
    }
  }

  lemma {:induction false} SumNonNegative(s: seq<real>)
    requires forall i :: 0 <= i < |s| ==> s[i] >= 0.0
    ensures Sum(s) >= 0.0
  {
    if |s| > 0 {
      SumNonNegative(s[1..]);
    }
  }

  /** Overwriting one entry changes the sum by the difference. */
  lemma {:induction false} SumUpdate(s: seq<real>, i: nat, v: real)
    requires i < |s|
    ensures Sum(s[i := v]) == Sum(s) - s[i] + v
  {
    if i == 0 {
      assert s[i := v][1..] == s[1..];
    } else {
      assert s[i := v][1..] == s[1..][i - 1 := v];
      SumUpdate(s[1..], i - 1, v);
    }
  }

  function Zeros(n: nat): (z: seq<real>)
    ensures |z| == n
    ensures forall i :: 0 <= i < n ==> z[i] == 0.0
  {
    seq(n, _ => 0.0)
  }

  lemma {:induction false} SumZeros(n: nat)
    ensures Sum(Zeros(n)) == 0.0
  {
    if n > 0 {
      assert Zeros(n)[1..] == Zeros(n - 1);
      SumZeros(n - 1);
    }
  }

  function Abs(x: real): real
  {
    if x < 0.0 then -x else x
  }

  /** The largest element of a non-empty sequence (numpy `max`). */
  function Max(s: seq<real>): real
    requires |s| > 0
  {
    if |s| == 1 then s[0]
    else
      var rest := Max(s[1..]);
      if s[0] >= rest then s[0] else rest
  }

  /** Max bounds every element and is one of them. */
  lemma {:induction false} MaxIsLargest(s: seq<real>)
    requires |s| > 0
    ensures forall i :: 0 <= i < |s| ==> s[i] <= Max(s)
    ensures exists i :: 0 <= i < |s| && s[i] == Max(s)
  {
    if |s| > 1 {
      var tail := s[1..];
      MaxIsLargest(tail);
      assert forall i :: 1 <= i < |s| ==> s[i] == tail[i - 1];
      var j :| 0 <= j < |tail| && tail[j] == Max(tail);
      if s[0] < Max(tail) {
        assert s[j + 1] == Max(s);
      } else {
        assert s[0] == Max(s);
      }
    } else {
      assert s[0] == Max(s);
    }
  }

  /** The entry-wise changes between two vectors. */
  function AbsDiffs(a: seq<real>, b: seq<real>): (diffs: seq<real>)
    requires |a| == |b|
    ensures |diffs| == |a| && forall i :: 0 <= i < |a| ==> diffs[i] == Abs(a[i] - b[i])
  {
    seq(|a|, i requires 0 <= i < |a| => Abs(a[i] - b[i]))
  }

  /** numpy `max(abs(a - b))`: the largest entry-wise change between two vectors. */
  function MaxAbsDiff(a: seq<real>, b: seq<real>): real
    requires |a| == |b| > 0
  {
    Max(AbsDiffs(a, b))
  }

  /** MaxAbsDiff is non-negative, bounds every change and is one of them. */
  lemma MaxAbsDiffIsLargest(a: seq<real>, b: seq<real>)
    requires |a| == |b| > 0
    ensures MaxAbsDiff(a, b) >= 0.0
    ensures forall i :: 0 <= i < |a| ==> Abs(a[i] - b[i]) <= MaxAbsDiff(a, b)
    ensures exists i :: 0 <= i < |a| && Abs(a[i] - b[i]) == MaxAbsDiff(a, b)
  {
    var diffs := AbsDiffs(a, b);
    MaxIsLargest(diffs);
    assert diffs[0] >= 0.0;
  }

  function Dot(a: seq<real>, b: seq<real>): real
    requires |a| == |b|
  {
    if |a| == 0 then 0.0 else a[0] * b[0] + Dot(a[1..], b[1..])
  }

  lemma {:induction false} DotAppend(a: seq<real>, a': seq<real>, b: seq<real>, b': seq<real>)
    requires |a| == |b| && |a'| == |b'|
    ensures Dot(a + a', b + b') == Dot(a, b) + Dot(a', b')
  {
    if |a| == 0 {
      assert a + a' == a' && b + b' == b';
    } else {
      assert (a + a')[1..] == a[1..] + a';
      assert (b + b')[1..] == b[1..] + b';
      DotAppend(a[1..], a', b[1..], b');
    }
  }

  /** A row of zeros contributes nothing to a dot product. */
  lemma {:induction false} DotZeros(a: seq<real>, b: seq<real>)
    requires |a| == |b|
    requires forall i :: 0 <= i < |a| ==> a[i] == 0.0
    ensures Dot(a, b) == 0.0
  {
    if |a| > 0 {
      DotZeros(a[1..], b[1..]);
    }
  }

  /** A row of ones picks out the plain sum. */
  lemma {:induction false} DotOnes(a: seq<real>, b: seq<real>)
    requires |a| == |b|
    requires forall i :: 0 <= i < |a| ==> a[i] == 1.0
    ensures Dot(a, b) == Sum(b)
  {
    if |a| > 0 {
      DotOnes(a[1..], b[1..]);
    }
  }

  predicate RowsOfWidth(m: seq<seq<real>>, w: nat)
  {
    forall r :: 0 <= r < |m| ==> |m[r]| == w
  }

  predicate IsSquare(m: Matrix, n: nat)
  {
    |m| == n && RowsOfWidth(m, n)
  }

  /** Column c of a matrix whose rows all reach past c. */
  function Column(m: Matrix, c: nat): (col: seq<real>)
    requires forall r :: 0 <= r < |m| ==> c < |m[r]|
    ensures |col| == |m|
    ensures forall r :: 0 <= r < |m| ==> col[r] == m[r][c]
  {
    seq(|m|, r requires 0 <= r < |m| => m[r][c])
  }

  function MatVec(m: Matrix, x: seq<real>): (y: seq<real>)
    requires RowsOfWidth(m, |x|)
    ensures |y| == |m|
    ensures forall r :: 0 <= r < |m| ==> y[r] == Dot(m[r], x)
  {
    seq(|m|, r requires 0 <= r < |m| => Dot(m[r], x))
  }
}
