/**
 * The `Matrix` value type: a shape (`rows`, `columns`) and a grid of integer
 * cells, with construction, the generic per-cell map `IterativelyApply`, and
 * `Scale`, which is written in terms of that map.
 *
 * In the source, `initialize` writes rows into `this.values` in place, and
 * `iterativelyApply` (and so `scale`) reassigns it; here each of them returns
 * the updated `Matrix` value instead.
 */
module Matrices {
  import opened Grids

  /** A property of the constructor's argument object: left undefined, or given a value. */
  datatype Maybe<T> = Absent | Given(value: T)

  /** The property's value if it was given, else `fallback` (a destructuring default). */
  function ValueOr<T>(p: Maybe<T>, fallback: T): T
  {
    if p.Given? then p.value else fallback
  }

  /** The constructor's argument object; an absent property takes its default. */
  datatype Config = Config(rows: Maybe<nat>, columns: Maybe<nat>, initialValue: Maybe<int>)

  const DefaultRows: nat := 1
  const DefaultColumns: nat := 1
  const DefaultInitialValue: int := 0

  datatype Matrix = Matrix(rows: nat, columns: nat, values: Grid)

  /** The shape invariant: `values` has `rows` rows of `columns` cells each. */
  predicate Valid(m: Matrix)
  {
    HasShape(m.values, m.rows, m.columns)
  }

  /**
   * An operation for `IterativelyApply`. It receives the grid that the matrix's
   * `values` holds at the moment of the call, and the row and column index of
   * the cell being computed, and returns that cell's new value.
   */
  type CellOp = (Grid, nat, nat) -> int

  /*** Construction ***/

  /**
   * The matrix the constructor builds: the given or default shape, every cell
   * the given or default initial value. A zero size is kept as it is.
   */
  function New(config: Config): (m: Matrix)
    ensures Valid(m)
    ensures m.rows == ValueOr(config.rows, DefaultRows)
    ensures m.columns == ValueOr(config.columns, DefaultColumns)
    ensures AllCells(m.values, ValueOr(config.initialValue, DefaultInitialValue))
  {
    var rows := ValueOr(config.rows, DefaultRows);
    var columns := ValueOr(config.columns, DefaultColumns);
    Matrix(rows, columns, Fill(rows, columns, ValueOr(config.initialValue, DefaultInitialValue)))
  }

  /**
   * The rows of `g` from index `n` on; empty when `g` has at most `n` rows.
   * These are the rows `initialize` leaves alone in a matrix of `n` rows.
   */
  function RowsFrom(g: Grid, n: nat): (r: Grid)
    ensures |r| == if |g| > n then |g| - n else 0
    ensures forall k :: 0 <= k < |r| ==> r[k] == g[n + k]
  {
    if |g| > n then g[n..] else []
  }

  /**
   * `initialize`: writes a fresh row of `m.columns` cells holding
   * `initialValue` at each index `0..m.rows-1` of `values`, row by row and
   * cell by cell. The array is updated in place and never shortened, so rows
   * past index `m.rows - 1`, if any, are kept as they were.
   */
  method Initialize(m: Matrix, initialValue: int) returns (r: Matrix)
    ensures r.rows == m.rows && r.columns == m.columns
    ensures |r.values| == if |m.values| > m.rows then |m.values| else m.rows
    ensures forall i :: 0 <= i < m.rows ==> |r.values[i]| == m.columns
    ensures forall i, j :: 0 <= i < m.rows && 0 <= j < |r.values[i]| ==> r.values[i][j] == initialValue
    ensures forall i :: m.rows <= i < |m.values| ==> r.values[i] == m.values[i]
    ensures |m.values| <= m.rows ==> Valid(r) && AllCells(r.values, initialValue)
    ensures r.values == Fill(m.rows, m.columns, initialValue) + RowsFrom(m.values, m.rows)
  {
    var values: Grid := m.values;
    var i := 0;
    while i < m.rows
      invariant i <= m.rows
      invariant |values| == if |m.values| > i then |m.values| else i
      invariant forall k :: 0 <= k < i ==> |values[k]| == m.columns
      invariant forall k, l :: 0 <= k < i && 0 <= l < |values[k]| ==> values[k][l] == initialValue
      invariant forall k :: i <= k < |values| ==> values[k] == m.values[k]
    {
      var row: seq<int> := [];
      var j := 0;
      while j < m.columns
        invariant j <= m.columns
        invariant |row| == j
        invariant forall k :: 0 <= k < j ==> row[k] == initialValue
      {
        row := row + [initialValue];
        j := j + 1;
      }
      if i < |values| {
        values := values[i := row];
      } else {
        values := values + [row];
      }
      i := i + 1;
    }
    var expected := Fill(m.rows, m.columns, initialValue) + RowsFrom(m.values, m.rows);
    forall k | 0 <= k < |values|
      ensures values[k] == expected[k]
    {
      if k < m.rows {
        assert forall l :: 0 <= l < |values[k]| ==> values[k][l] == expected[k][l];
      }
    }
    r := m.(values := values);
  }

  /**
   * The constructor: records the shape (defaults applied), allocates an
   * unfilled row array, and initialises it.
   */
  method Construct(config: Config) returns (m: Matrix)
    ensures m == New(config)
    ensures Valid(m)
  {
    var rows := ValueOr(config.rows, DefaultRows);
    var columns := ValueOr(config.columns, DefaultColumns);
    var shell := Matrix(rows, columns, []);
    m := Initialize(shell, ValueOr(config.initialValue, DefaultInitialValue));
  }

  /** With no properties given, the constructor builds the 1 by 1 matrix holding 0. */
  lemma NewDefaults()
    ensures New(Config(Absent, Absent, Absent)) == Matrix(1, 1, [[0]])
  {
    var m := New(Config(Absent, Absent, Absent));
    Extensionality(m.values, [[0]]);
  }

  /** A zero row count or a zero column count is accepted and yields an empty grid along that axis. */
  lemma NewEmptyAxis(config: Config)
    ensures config.rows == Given(0) ==> New(config).values == []
    ensures config.columns == Given(0) ==>
              forall i :: 0 <= i < |New(config).values| ==> New(config).values[i] == []
  {
  }

  /*** The per-cell map ***/

  /**
   * Cells `j..` of row `i` of the new grid, each computed by `op` from the
   * grid `current` (what `values` holds while the map runs) and its indices.
   */
  function MapRow(current: Grid, op: CellOp, i: nat, j: nat): (r: seq<int>)
    requires i < |current| && j <= |current[i]|
    decreases |current[i]| - j
    ensures |r| == |current[i]| - j
    ensures forall k :: 0 <= k < |r| ==> r[k] == op(current, i, j + k)
  {
    if j == |current[i]| then [] else [op(current, i, j)] + MapRow(current, op, i, j + 1)
  }

  /** Rows `i..` of the new grid; row `k` keeps the length of the row it replaces. */
  function MapRows(current: Grid, op: CellOp, i: nat): (r: Grid)
    requires i <= |current|
    decreases |current| - i
    ensures |r| == |current| - i
    ensures forall k :: 0 <= k < |r| ==> |r[k]| == |current[i + k]|
    ensures forall k, l :: 0 <= k < |r| && 0 <= l < |r[k]| ==> r[k][l] == op(current, i + k, l)
  {
    if i == |current| then [] else [MapRow(current, op, i, 0)] + MapRows(current, op, i + 1)
  }

  /**
   * `iterativelyApply`: builds a whole new grid of the old grid's shape, then
   * assigns it to `values`. Because the assignment comes after the traversal,
   * every call of `op` is handed the pre-call grid.
   */
  function IterativelyApply(m: Matrix, op: CellOp): (r: Matrix)
    ensures r.rows == m.rows && r.columns == m.columns
    ensures SameShape(r.values, m.values)
    ensures Valid(m) ==> Valid(r)
    ensures forall i, j :: 0 <= i < |m.values| && 0 <= j < |m.values[i]| ==>
              r.values[i][j] == op(m.values, i, j)
  {
    m.(values := MapRows(m.values, op, 0))
  }

  /** The map is determined by its cells: any grid of the old shape whose cells are `op`'s values is the result. */
  lemma IterativelyApplyUnique(m: Matrix, op: CellOp, g: Grid)
    requires SameShape(g, m.values)
    requires forall i, j :: 0 <= i < |g| && 0 <= j < |g[i]| ==> g[i][j] == op(m.values, i, j)
    ensures IterativelyApply(m, op).values == g
  {
    Extensionality(IterativelyApply(m, op).values, g);
  }

  /*** Scaling ***/

  /** The operation `scale` hands to the map: the cell's current value times `scalar`. */
  function ScaleOp(scalar: int): (op: CellOp)
  {
    (g: Grid, i: nat, j: nat) => if i < |g| && j < |g[i]| then g[i][j] * scalar else 0
  }

  /** `scale`: every cell becomes its old value times `scalar`; the shape is unchanged. */
  function Scale(m: Matrix, scalar: int): (r: Matrix)
    ensures r.rows == m.rows && r.columns == m.columns
    ensures SameShape(r.values, m.values)
    ensures Valid(m) ==> Valid(r)
    ensures forall i, j :: 0 <= i < |m.values| && 0 <= j < |m.values[i]| ==>
              r.values[i][j] == m.values[i][j] * scalar
  {
    IterativelyApply(m, ScaleOp(scalar))
  }

  /** Scaling by 1 leaves the matrix unchanged. */
  lemma ScaleOneIdentity(m: Matrix)
    ensures Scale(m, 1) == m
  {
    Extensionality(Scale(m, 1).values, m.values);
  }

  /** Scaling by 0 zeroes every cell; for a well-shaped matrix the result is the all-zero grid of its shape. */
  lemma ScaleZeroClears(m: Matrix)
    ensures AllCells(Scale(m, 0).values, 0)
    ensures Valid(m) ==> Scale(m, 0).values == Fill(m.rows, m.columns, 0)
  {
    if Valid(m) {
      FillCharacterization(Scale(m, 0).values, m.rows, m.columns, 0);
    }
  }

  /** Scaling twice is scaling once by the product of the scalars. */
  lemma ScaleCompose(m: Matrix, a: int, b: int)
    ensures Scale(Scale(m, a), b) == Scale(m, a * b)
  {
    var lhs := Scale(Scale(m, a), b).values;
    var rhs := Scale(m, a * b).values;
    forall i, j | 0 <= i < |lhs| && 0 <= j < |lhs[i]|
      ensures lhs[i][j] == rhs[i][j]
    {
      calc {
        lhs[i][j];
        (m.values[i][j] * a) * b;
        { MulAssociates(m.values[i][j], a, b); }
        m.values[i][j] * (a * b);
        rhs[i][j];
      }
    }
    Extensionality(lhs, rhs);
  }

  /** Regrouping a product of three integers; the nonlinear step of `ScaleCompose`. */
  lemma MulAssociates(x: int, a: int, b: int)
    ensures (x * a) * b == x * (a * b)
  {
  }

  /** Scaling a matrix filled with `v` gives the matrix of the same shape filled with `v * scalar`. */
  lemma ScaleFilled(rows: nat, columns: nat, v: int, scalar: int)
    ensures Scale(New(Config(Given(rows), Given(columns), Given(v))), scalar)
         == New(Config(Given(rows), Given(columns), Given(v * scalar)))
  {
    var m := New(Config(Given(rows), Given(columns), Given(v)));
    FillCharacterization(Scale(m, scalar).values, rows, columns, v * scalar);
  }

  /** A 3 by 3 matrix of 9s scaled by 3 is the 3 by 3 matrix of 27s. */
  lemma ScaleExample()
    ensures Scale(New(Config(Given(3), Given(3), Given(9))), 3).values == [[27, 27, 27], [27, 27, 27], [27, 27, 27]]
  {
    ScaleFilled(3, 3, 9, 3);
    var g := New(Config(Given(3), Given(3), Given(27))).values;
    Extensionality(g, [[27, 27, 27], [27, 27, 27], [27, 27, 27]]);
  }

  /** The operation that negates the cell it is computing, reading it from the grid it is handed. */
  function NegateOp(): (op: CellOp)
  {
    (g: Grid, i: nat, j: nat) => if i < |g| && j < |g[i]| then -g[i][j] else 0
  }

  /** Negating every cell of a 3 by 3 matrix of 1s gives all -1: each read sees the old cell. */
  lemma NegateExample()
    ensures AllCells(IterativelyApply(New(Config(Given(3), Given(3), Given(1))), NegateOp()).values, -1)
  {
  }
}
