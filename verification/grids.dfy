/**
 * Dense integer grids: the `values` field of a matrix, a sequence of rows,
 * each row a sequence of cells. The shape predicates here are the invariants
 * the matrix operations keep.
 */
module Grids {

  /** A grid of cells, row-major: `g[i][j]` is the cell in row `i`, column `j`. */
  type Grid = seq<seq<int>>

  /** `g` has exactly `rows` rows and every row has exactly `columns` cells. */
  predicate HasShape(g: Grid, rows: nat, columns: nat)
  {
    && |g| == rows
    && forall i :: 0 <= i < |g| ==> |g[i]| == columns
  }

  /** `g` and `h` have the same number of rows, and row `i` of each has the same length. */
  predicate SameShape(g: Grid, h: Grid)
  {
    && |g| == |h|
    && forall i :: 0 <= i < |g| ==> |g[i]| == |h[i]|
  }

  /** Every cell of `g` holds `v`. */
  predicate AllCells(g: Grid, v: int)
  {
    forall i, j :: 0 <= i < |g| && 0 <= j < |g[i]| ==> g[i][j] == v
  }

  /** The `rows` by `columns` grid whose every cell is `v`. */
  function Fill(rows: nat, columns: nat, v: int): (g: Grid)
    ensures HasShape(g, rows, columns)
    ensures AllCells(g, v)
  {
    seq(rows, _ => seq(columns, _ => v))
  }

  /** Two grids of the same shape that agree on every cell are equal. */
  lemma Extensionality(g: Grid, h: Grid)
    requires SameShape(g, h)
    requires forall i, j :: 0 <= i < |g| && 0 <= j < |g[i]| ==> g[i][j] == h[i][j]
    ensures g == h
  {
    forall i | 0 <= i < |g|
      ensures g[i] == h[i]
    {
      assert forall j :: 0 <= j < |g[i]| ==> g[i][j] == h[i][j];
    }
  }

  /** A grid of some shape is equal to the filled grid of that shape exactly when all its cells hold the fill value. */
  lemma FillCharacterization(g: Grid, rows: nat, columns: nat, v: int)
    requires HasShape(g, rows, columns)
    ensures g == Fill(rows, columns, v) <==> AllCells(g, v)
  {
    if AllCells(g, v) {
      Extensionality(g, Fill(rows, columns, v));
    }
  }
}
