/**
 * Why it matters that `iterativelyApply` assigns `values` only after the whole
 * new grid is built.
 *
 * `InPlaceApply` is the traversal that writes each computed cell back into the
 * grid before computing the next one, so that later calls of the operation see
 * earlier results. The map never does this. The lemmas below show that the two
 * traversals agree for operations that read only the cell being computed (as
 * `scale` does), and that they can differ for an operation that reads an
 * earlier cell, such as the left neighbour (`WriteOrderMatters`).
 */
module ApplyOrder {
  import opened Grids
  import opened Matrices

  /**
   * Row-major traversal from cell (`i`, `j`) that stores each result in
   * `current` at once; every later call of `op` is handed the updated grid.
   */
  function InPlaceApply(current: Grid, op: CellOp, i: nat, j: nat): (r: Grid)
    decreases |current| - i, if i < |current| then |current[i]| - j else 0
    ensures SameShape(r, current)
  {
    if i >= |current| then current
    else if j >= |current[i]| then InPlaceApply(current, op, i + 1, 0)
    else InPlaceApply(current[i := current[i][j := op(current, i, j)]], op, i, j + 1)
  }

  /** `op` reads nothing of the grid but the cell it is computing. */
  ghost predicate CellLocal(op: CellOp)
  {
    forall g: Grid, h: Grid, i: nat, j: nat ::
      i < |g| && j < |g[i]| && i < |h| && j < |h[i]| && g[i][j] == h[i][j] ==> op(g, i, j) == op(h, i, j)
  }

  /** Cell (`k`, `l`) comes before cell (`i`, `j`) in row-major order. */
  predicate Before(k: nat, l: nat, i: nat, j: nat)
  {
    k < i || (k == i && l < j)
  }

  /**
   * The in-place traversal is at cell (`i`, `j`) of `original`: `current` has
   * `original`'s shape, cells already visited hold `op`'s value on `original`,
   * and the others still hold their original value.
   */
  ghost predicate InPlaceProgress(current: Grid, original: Grid, op: CellOp, i: nat, j: nat)
  {
    && SameShape(current, original)
    && forall k, l :: 0 <= k < |current| && 0 <= l < |current[k]| ==>
         current[k][l] == (if Before(k, l, i, j) then op(original, k, l) else original[k][l])
  }

  /** From any point of the in-place traversal of a cell-local `op`, every cell ends up as `op`'s value on the original grid. */
  lemma {:induction false} InPlaceFromProgress(current: Grid, original: Grid, op: CellOp, i: nat, j: nat)
    requires CellLocal(op)
    requires InPlaceProgress(current, original, op, i, j)
    requires i < |current| ==> j <= |current[i]|
    decreases |current| - i, if i < |current| then |current[i]| - j else 0
    ensures forall k, l :: 0 <= k < |original| && 0 <= l < |original[k]| ==>
              InPlaceApply(current, op, i, j)[k][l] == op(original, k, l)
  {
    if i >= |current| {
    } else if j >= |current[i]| {
      forall k, l | 0 <= k < |current| && 0 <= l < |current[k]|
        ensures Before(k, l, i, j) <==> Before(k, l, i + 1, 0)
      {
      }
      InPlaceFromProgress(current, original, op, i + 1, 0);
    } else {
      var v := op(current, i, j);
      assert v == op(original, i, j);
      var next := current[i := current[i][j := v]];
      InPlaceFromProgress(next, original, op, i, j + 1);
    }
  }

  /**
   * For an operation that reads only its own cell, writing results back at
   * once gives the same grid as the deferred assignment of `IterativelyApply`.
   */
  lemma InPlaceAgreesForLocalOps(m: Matrix, op: CellOp)
    requires CellLocal(op)
    ensures InPlaceApply(m.values, op, 0, 0) == IterativelyApply(m, op).values
  {
    InPlaceFromProgress(m.values, m.values, op, 0, 0);
    Extensionality(InPlaceApply(m.values, op, 0, 0), IterativelyApply(m, op).values);
  }

  /** The operation of `scale` reads only the cell it is computing. */
  lemma ScaleOpIsLocal(scalar: int)
    ensures CellLocal(ScaleOp(scalar))
  {
  }

  /** Hence `scale` would give the same result under either traversal. */
  lemma ScaleIgnoresWriteOrder(m: Matrix, scalar: int)
    ensures InPlaceApply(m.values, ScaleOp(scalar), 0, 0) == Scale(m, scalar).values
  {
    ScaleOpIsLocal(scalar);
    InPlaceAgreesForLocalOps(m, ScaleOp(scalar));
  }

  /** Adds the cell to its left (if any) to the cell being computed. */
  function AddLeftOp(): (op: CellOp)
  {
    (g: Grid, i: nat, j: nat) =>
      if i < |g| && 0 < j < |g[i]| then g[i][j - 1] + g[i][j]
      else if i < |g| && j < |g[i]| then g[i][j]
      else 0
  }

  /**
   * On the row `[1, 1, 1]`, the map reads only old cells and yields
   * `[1, 2, 2]`; writing back at once would feed each result into the next
   * cell and yield `[1, 2, 3]`.
   */
  lemma WriteOrderMatters()
    ensures IterativelyApply(Matrix(1, 3, [[1, 1, 1]]), AddLeftOp()).values == [[1, 2, 2]]
    ensures InPlaceApply([[1, 1, 1]], AddLeftOp(), 0, 0) == [[1, 2, 3]]
  {
    var m := Matrix(1, 3, [[1, 1, 1]]);
    Extensionality(IterativelyApply(m, AddLeftOp()).values, [[1, 2, 2]]);
    var op := AddLeftOp();
    assert op([[1, 1, 1]], 0, 0) == 1;
    assert [1, 1, 1][0 := 1] == [1, 1, 1];
    assert [[1, 1, 1]][0 := [1, 1, 1]] == [[1, 1, 1]];
    assert op([[1, 1, 1]], 0, 1) == 2;
    assert [1, 1, 1][1 := 2] == [1, 2, 1];
    assert [[1, 1, 1]][0 := [1, 2, 1]] == [[1, 2, 1]];
    assert op([[1, 2, 1]], 0, 2) == 3;
    assert [1, 2, 1][2 := 3] == [1, 2, 3];
    assert [[1, 2, 1]][0 := [1, 2, 3]] == [[1, 2, 3]];
    calc {
      InPlaceApply([[1, 1, 1]], op, 0, 0);
      InPlaceApply([[1, 1, 1]], op, 0, 1);
      InPlaceApply([[1, 2, 1]], op, 0, 2);
      InPlaceApply([[1, 2, 3]], op, 0, 3);
      InPlaceApply([[1, 2, 3]], op, 1, 0);
      [[1, 2, 3]];
    }
  }
}
