/**
 * Block layout of the distributed solver: a rank's cell-by-state array is
 * flattened into one vector (cell j, state s at index j * ns + s) and
 * recovered from it, and a block-diagonal matrix has one ns-by-ns block
 * per local cell.
 */
module Layout {
  import opened Common

  /** Concatenate the cell rows (numpy `flatten` of a cell-by-state array). */
  function Flatten(g: Grid): seq<real>
  {
    if |g| == 0 then [] else g[0] + Flatten(g[1..])
  }

  /** Cell j of a flat vector, read as `v[i + j * ns]` for every state i. */
  function Unflatten(v: seq<real>, ns: nat, count: nat): (g: Grid)
    requires |v| == ns * count
    ensures |g| == count && RowsOfWidth(g, ns)
  {
    seq(count, j requires 0 <= j < count =>
      seq(ns, i requires 0 <= i < ns => SlotBound(i, j, ns, count); v[i + j * ns]))
  }

  /** Cell of flat index k. */
  function CellOf(k: nat, ns: nat): nat
    requires ns > 0
  {
    k / ns
  }

  /** State of flat index k within its cell. */
  function StateOf(k: nat, ns: nat): nat
    requires ns > 0
  {
    k % ns
  }

  lemma MulDistrib(a: int, b: int, ns: int)
    ensures a * ns - b * ns == (a - b) * ns
  {}

  lemma MulAtLeast(d: int, ns: int)
    requires d >= 1 && ns >= 0
    ensures d * ns >= ns
  {}

  lemma DivModBasics(p: nat, ns: nat)
    requires ns > 0
    ensures p == CellOf(p, ns) * ns + StateOf(p, ns)
    ensures 0 <= StateOf(p, ns) < ns
  {}

  lemma SlotBound(i: nat, j: nat, ns: nat, count: nat)
    requires i < ns && j < count
    ensures i + j * ns < ns * count
  {
    MulAtLeast(count - j, ns);
    MulDistrib(count, j, ns);
  }

  /** Euclidean division is determined by quotient and remainder. */
  lemma DivModUnique(p: nat, ns: nat, q: nat, r: nat)
    requires 0 <= r < ns
    requires p == q * ns + r
    ensures CellOf(p, ns) == q && StateOf(p, ns) == r
  {
    DivModBasics(p, ns);
    var q', r' := CellOf(p, ns), StateOf(p, ns);
    if q' > q {
      MulAtLeast(q' - q, ns);
      MulDistrib(q', q, ns);
      assert false;
    } else if q' < q {
      MulAtLeast(q - q', ns);
      MulDistrib(q, q', ns);
      assert false;
    }
  }

  lemma {:induction false} FlattenLength(g: Grid, ns: nat)
    requires RowsOfWidth(g, ns)
    ensures |Flatten(g)| == |g| * ns
  {
    if |g| > 0 {
      FlattenLength(g[1..], ns);
      MulDistrib(|g|, 1, ns);
    }
  }

  /** State i of cell j sits at flat index j * ns + i. */
  lemma {:induction false} FlattenAt(g: Grid, ns: nat, j: nat, i: nat)
    requires RowsOfWidth(g, ns)
    requires j < |g| && i < ns
    ensures j * ns + i < |Flatten(g)| && Flatten(g)[j * ns + i] == g[j][i]
  {
    FlattenLength(g, ns);
    SlotBound(i, j, ns, |g|);
    if j > 0 {
      var rest := g[1..];
      FlattenLength(rest, ns);
      FlattenAt(rest, ns, j - 1, i);
      MulDistrib(j, 1, ns);
      assert Flatten(g) == g[0] + Flatten(rest);
      assert rest[j - 1] == g[j];
    }
  }

  /** Unflattening a flattened array gives it back (solver.py:105 then 194-195). */
  lemma UnflattenFlatten(g: Grid, ns: nat)
    requires RowsOfWidth(g, ns)
    ensures |Flatten(g)| == ns * |g|
    ensures Unflatten(Flatten(g), ns, |g|) == g
  {
    FlattenLength(g, ns);
    assert |g| * ns == ns * |g|;
    var u := Unflatten(Flatten(g), ns, |g|);
    forall j | 0 <= j < |g|
      ensures u[j] == g[j]
    {
      forall i | 0 <= i < ns
        ensures u[j][i] == g[j][i]
      {
        FlattenAt(g, ns, j, i);
        assert i + j * ns == j * ns + i;
      }
    }
  }

  /** Flattening an unflattened vector gives it back. */
  lemma FlattenUnflatten(v: seq<real>, ns: nat, count: nat)
    requires |v| == ns * count
    ensures Flatten(Unflatten(v, ns, count)) == v
  {
    var u := Unflatten(v, ns, count);
    FlattenLength(u, ns);
    var f := Flatten(u);
    forall k | 0 <= k < |v|
      ensures f[k] == v[k]
    {
      DivModBasics(k, ns);
      var j, i := CellOf(k, ns), StateOf(k, ns);
      if j >= count {
        MulAtLeast(j - count + 1, ns);
        MulDistrib(j + 1, count, ns);
        MulDistrib(j + 1, j, ns);
        assert false;
      }
      FlattenAt(u, ns, j, i);
    }
  }
}
