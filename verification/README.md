# tinymatrix `Matrix` in Dafny

This project models the `Matrix` class of tinymatrix (`src/Matrix.js`). A matrix is a small dense grid of numbers. It has a shape (`rows`, `columns`) and a `values` array of `rows` rows, each holding `columns` cells. The class has four members:

- the constructor, which takes `{ rows = 1, columns = 1, initialValue = 0 }`, records the shape and calls `initialize`;
- `initialize`, which writes a fresh row holding the initial value at each index below `rows` of `values`, in place;
- `iterativelyApply(operation)`, which builds a new grid whose cell `(i, j)` is `operation([i, j])`, and only then assigns it to `values`;
- `scale(scalar)`, which is an `iterativelyApply` whose operation reads the cell's current value and multiplies it by `scalar`.

Layout:

- `grids.dfy` (module `Grids`): the grid type `seq<seq<int>>`, the shape predicates, the filled grid, and grid extensionality.
- `matrices.dfy` (module `Matrices`): the `Matrix` datatype and its shape invariant `Valid`, the constructor's argument object with optional properties, and `New`/`Construct`/`Initialize`, `IterativelyApply` and `Scale`, together with their lemmas.
- `apply_order.dfy` (module `ApplyOrder`): why the deferred assignment in `iterativelyApply` matters. `InPlaceApply` is a contrasting traversal that writes each result back at once. It is not in the source. Both traversals give the same grid for operations that read only their own cell, such as `scale`. They can differ for an operation that reads an earlier cell, such as the left neighbour (`WriteOrderMatters`).

`initialize` writes rows into `this.values` in place and never shortens it; `iterativelyApply` (and so `scale`) reassigns `this.values`. In the model each method instead returns the updated `Matrix` value. The operation passed to `iterativelyApply` is a closure that may read `this.values`. It is modelled as a pure function `CellOp = (Grid, nat, nat) -> int` that is handed the grid `values` holds at the moment of the call, plus the cell's row and column index. Because the source assigns `values` only after the whole `map` has finished, that grid is always the pre-call grid.

The constructor does not check that `initialValue` is numeric; here it is an `int`. `iterativelyApply` neither clones the matrix nor writes cells back as it goes: it maps the current rows into a fresh array and assigns that array at the end.

## Model

| member | source | states |
|---|---|---|
| Matrices.New | src/Matrix.js:2-16 | the constructed matrix has the given shape (1 row, 1 column when a size is absent; a given 0 is kept), `values` has exactly `rows` rows of `columns` cells, and every cell is the initial value (0 when absent) |
| Matrices.Initialize | src/Matrix.js:10-17 | the nested loops leave the shape fields alone, make each of the first `rows` rows a row of `columns` cells holding `initialValue`, and keep any rows past `rows` unchanged; the result is the filled `rows` by `columns` grid followed by those surplus rows, so it satisfies the shape invariant whenever `values` had at most `rows` rows |
| Matrices.Construct | src/Matrix.js:2-8 | recording the defaulted shape, then initialising, yields exactly the matrix `New` describes, which satisfies the shape invariant |
| Matrices.NewDefaults | src/Matrix.js:2 | with no properties given, the result is the 1 by 1 matrix `[[0]]` |
| Matrices.NewEmptyAxis | src/Matrix.js:2-13 | `rows: 0` is accepted and gives no rows; `columns: 0` gives rows with no cells |
| Matrices.IterativelyApply | src/Matrix.js:23-27 | `rows` and `columns` are untouched, the new grid has as many rows as the old and each row keeps its old length, and cell `(i, j)` is the operation's value at `(i, j)` when it is handed the pre-call grid |
| Matrices.IterativelyApplyUnique | src/Matrix.js:23-27 | any grid with the old shape whose cells are the operation's values on the pre-call grid is exactly the new `values` |
| Matrices.Scale | src/Matrix.js:19-21 | the shape is unchanged and every cell becomes its old value times the scalar |
| Matrices.ScaleOneIdentity | src/Matrix.js:19-21 | scaling by 1 gives back the same matrix |
| Matrices.ScaleZeroClears | src/Matrix.js:19-21 | scaling any matrix by 0 makes every cell 0 and keeps the shape; for a well-shaped matrix the result is exactly the all-zero `rows` by `columns` grid |
| Matrices.ScaleCompose | src/Matrix.js:19-21 | scaling by `a`, then by `b`, equals scaling once by `a * b` |
| Matrices.ScaleFilled | src/Matrix.js:2-21 | scaling a matrix constructed with initial value `v` gives the matrix of the same shape constructed with `v * scalar` |
| Matrices.ScaleExample | spec/Matrix.spec.js:112-115 | a 3 by 3 matrix of 9s scaled by 3 holds 27 in every cell |
| Matrices.NegateExample | spec/Matrix.spec.js:132-138 | applying "negate the cell read from the grid" to a 3 by 3 matrix of 1s gives -1 everywhere, because each read sees the old cell |
| ApplyOrder.ScaleOpIsLocal | src/Matrix.js:20 | the operation `scale` passes reads only the cell being computed |
| ApplyOrder.InPlaceAgreesForLocalOps | src/Matrix.js:24-26 | for any operation that reads only its own cell, writing each result back at once gives the same grid as the deferred assignment |
| ApplyOrder.ScaleIgnoresWriteOrder | src/Matrix.js:19-26 | hence `scale` gives the same grid whether results are written back at once or assigned at the end |
| ApplyOrder.WriteOrderMatters | src/Matrix.js:24-26 | on `[[1, 1, 1]]`, "add the left neighbour" gives `[[1, 2, 2]]` with the deferred assignment, but would give `[[1, 2, 3]]` if each result were written back at once |

## Left out

- `add`, `subtract`, `increment`, `decrement`, `entrywiseProduct`, `multiply`, `randomize`: the test file calls them, but `src/Matrix.js` does not define them, so there is no code to model.
- JavaScript number semantics (IEEE doubles, `NaN`, `Infinity`, rounding): cells are unbounded integers.
- Operations with side effects: the test's operation also writes `matrix.values[i][j]` into the old array. An operation here is a pure function of the grid it reads and the cell's indices.
- `new Array(rows)` throwing `RangeError` for negative or fractional sizes: sizes are `nat`.
- Calling the constructor with no argument object, which throws a `TypeError` while destructuring. `Config` is always present.
- The ES module `export`.
- Matrices.ScaleOp: it answers 0 when asked about a cell outside the grid. The traversal never asks for such a cell. In JavaScript, a column past the end of an existing row reads `undefined` and the product is `NaN`; a row index past the end makes `this.values[i]` `undefined`, and indexing it throws a `TypeError`.
