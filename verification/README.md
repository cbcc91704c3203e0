# Fixed-shape dense matrices

A Dafny model of the header-only C++ matrix library `math/matrix/matrix.h`.
It covers three parts:

- `MatrixRow<Len>`: a row literal of `Len` values, filled by a variadic
  constructor.
- `Matrix<Rows, Cols>`: a matrix whose dimensions are compile-time template
  parameters. Its elements sit in one inline row-major array `mem_`. It
  offers a zeroing default constructor and a row-literal constructor,
  element access through `Val` and `GetRowPtr`, dimension queries, `+`,
  `==` across shapes, and `Transpose`.
- The free function `Mul`: the triple-loop dense product, accumulated in
  increasing index order from zero.

Modules, in dependency order:

- `Layout` (`layout.dfy`): the row-major offset `r * Cols + c`. Proves that
  it lands inside the `Rows * Cols` buffer, that it decodes back by
  division and remainder, and that rows occupy disjoint ranges.
- `MatrixRows` (`matrix_row.dfy`): the row literal and its recursive `Init`.
- `Matrices` (`matrix.dfy`): the matrix type and its member operations.
  - A template instance becomes an immutable value `Matrix(rows, cols, mem)`
    with a `Valid` predicate: non-zero dimensions and `|mem| == rows * cols`.
  - `GetRows` and `GetCols` are the fields `rows` and `cols`. Every
    constructor and operation states the shape of its result in terms of
    them.
  - The source's loops (`operator+`, `operator==`, `Transpose`) are methods
    proved equal to functional definitions.
- `Multiply` (`mul.dfy`): the dot product as a reference definition, the
  product `Mul`, and the loop nest of the source proved equal to it.
- `Algebra` (`algebra.dfy`): laws that relate the operations to each other:
  - `==` is value equality;
  - transposing twice gives the original;
  - addition is commutative and associative, with zero as its identity;
  - the product is associative and has identities;
  - the product distributes over addition on both sides;
  - `(AB)^T = B^T A^T`.
- `Scenarios` (`scenarios.dfy`): the three unit tests of
  `math/matrix/matrix_unittest.cpp` (construction, empty matrix,
  transpose), a 2×2 product example and a shape-mismatch example, as
  lemmas. A literal such as `MatrixRow<3>(1, 2, 3)` is any row that holds
  exactly those values (`RowHolds`). `NewRowHolds` shows that the row
  constructor builds such a row.

Elements are mathematical integers, where the library uses `float`. The
contracts of the operations state what the library's code computes. The
laws in `Algebra` are not promised by the library itself. They follow from
its definitions of `+`, `Transpose` and `Mul` when arithmetic is exact.

## Model

| member | source | states |
|---|---|---|
| Layout.OffsetInBounds | math/matrix/matrix.h:158-168 | for a row below `Rows` and a column below `Cols`, the offset `row * Cols + col` indexes inside `mem_[Rows * Cols]` |
| Layout.RowInBounds | math/matrix/matrix.h:158-161 | the `Cols` elements starting at `GetRowPtr(row)` lie inside the buffer |
| Layout.OffsetDecode | math/matrix/matrix.h:158-161 | dividing an offset by `Cols` gives back its row, and the remainder gives its column |
| Layout.OffsetEncode | math/matrix/matrix.h:168 | every buffer index is the offset of the in-range position `(i / Cols, i % Cols)`, and of no other in-range position |
| Layout.OffsetInjective | math/matrix/matrix.h:158-168 | distinct in-range positions have distinct offsets |
| Layout.RowsDisjoint | math/matrix/matrix.h:153 | the memcpy into row `r` touches no element of any other row |
| MatrixRows.InitFrom | math/matrix/matrix.h:42-48 | the recursive `Init` puts argument `i` at position `pos + i`, leaves the other positions alone, and stops when no argument is left |
| MatrixRows.NewRow | math/matrix/matrix.h:17-27 | a row built from exactly `Len` arguments (`Len` non-zero) has length `Len`, and `Data` returns the arguments in order |
| Matrices.RowOf | math/matrix/matrix.h:158-166 | `GetRowPtr(r)` views `Cols` elements, and element `c` of that view is buffer element `r * Cols + c` |
| Matrices.Val | math/matrix/matrix.h:87-95 | under the asserted bounds, the element read lies inside the buffer |
| Matrices.ValThroughRow | math/matrix/matrix.h:87-95 | `Val(r, c)` is `GetRowPtr(r)[c]` |
| Matrices.SetVal | math/matrix/matrix.h:87-90 | assigning through the mutable `Val` reference changes element `(r, c)` to the new value, keeps the shape, and leaves every other element unchanged |
| Matrices.Extensionality | math/matrix/matrix.h:168 | a matrix is determined by its shape and its in-range elements |
| Matrices.Zero | math/matrix/matrix.h:66 | default construction gives a `Rows`×`Cols` matrix with every element 0 |
| Matrices.CopyRow | math/matrix/matrix.h:153 | after the memcpy, row `r` reads back the literal's values, and every other row is unchanged |
| Matrices.InitRows | math/matrix/matrix.h:147-156 | the recursive `Init` ends exactly when `row_index == Rows`; it keeps rows before `row_index` and makes each later row equal to its literal |
| Matrices.FromRows | math/matrix/matrix.h:56-64 | row-literal construction from exactly `Rows` literals of length `Cols` gives a `Rows`×`Cols` matrix whose element `(r, c)` is value `c` of literal `r` |
| Matrices.ToRows | math/matrix/matrix.h:158-166 | the row views of a matrix are `Rows` literals of length `Cols` that hold its elements |
| Matrices.FromRowsOfRows | math/matrix/matrix.h:56-64 | building a matrix from its own row views gives it back |
| Matrices.RowsOfFromRows | math/matrix/matrix.h:56-64 | the row views of a constructed matrix are the literals it was built from |
| Matrices.FlattenOffsets | math/matrix/matrix.h:153-160 | literals of length `Cols` laid end to end put value `c` of literal `r` at offset `r * Cols + c` |
| Matrices.FromRowsBuffer | math/matrix/matrix.h:147-168 | the buffer of a matrix built from row literals is the literals' values, one literal after another |
| Matrices.Add | math/matrix/matrix.h:97-108 | `a + b` has the shape of `a`, and each element is `a(r, c) + b(r, c)` |
| Matrices.AddLoops | math/matrix/matrix.h:97-108 | the nested loops over a default-constructed result compute `Add` |
| Matrices.Eq | math/matrix/matrix.h:110-125 | `==` is false when the row or column counts differ; otherwise it is true if and only if every element agrees |
| Matrices.EqLoops | math/matrix/matrix.h:110-125 | the shape check followed by the nested loops with early return computes `Eq` |
| Matrices.Transpose | math/matrix/matrix.h:127-137 | the transpose is `Cols`×`Rows`, and its element `(c, r)` is the original's `(r, c)` |
| Matrices.TransposeLoops | math/matrix/matrix.h:127-137 | the nested loops writing `result.Val(col, row)` compute `Transpose` |
| Multiply.Mul | math/matrix/matrix.h:171-195 | the product of an `a.rows`×`a.cols` matrix and an `a.cols`×`b.cols` matrix is `a.rows`×`b.cols`, and element `(i, j)` is the dot product of row `i` of `a` and column `j` of `b`, summed from index 0 upward |
| Multiply.AccumulateEntry | math/matrix/matrix.h:185-190 | the innermost loop resets the entry to 0 and leaves it equal to the full dot product; no other entry of the result changes |
| Multiply.MulLoops | math/matrix/matrix.h:181-194 | the two outer loops over a default-constructed result compute `Mul` |
| Algebra.EqReflexive | math/matrix/matrix.h:110-125 | `A == A` holds for every matrix |
| Algebra.EqIsValueEquality | math/matrix/matrix.h:110-125 | `==` holds exactly when the two matrices are the same value |
| Algebra.EqSymmetric | math/matrix/matrix.h:110-125 | `a == b` and `b == a` agree, across shapes too |
| Algebra.TransposeInvolutive | math/matrix/matrix.h:127-137 | transposing twice gives back the original |
| Algebra.AddCommutative | math/matrix/matrix.h:97-108 | `A + B == B + A` |
| Algebra.AddAssociative | math/matrix/matrix.h:97-108 | `(A + B) + C == A + (B + C)` |
| Algebra.AddZero | math/matrix/matrix.h:66 | adding the default-constructed matrix changes nothing |
| Algebra.TransposeAdd | math/matrix/matrix.h:97-137 | the transpose of a sum is the sum of the transposes |
| Algebra.MulAssociative | math/matrix/matrix.h:171-195 | `Mul(Mul(A, B), C) == Mul(A, Mul(B, C))` |
| Algebra.MulIdentity | math/matrix/matrix.h:171-195 | multiplying by the identity on either side gives back the matrix |
| Algebra.TransposeMul | math/matrix/matrix.h:127-195 | `Transpose(Mul(A, B)) == Mul(Transpose(B), Transpose(A))` |
| Algebra.MulDistributesOverAdd | math/matrix/matrix.h:97-195 | `Mul(A, B + C) == Mul(A, B) + Mul(A, C)` |
| Algebra.MulDistributesOverAddLeft | math/matrix/matrix.h:97-195 | `Mul(A + B, C) == Mul(A, C) + Mul(B, C)` |
| Scenarios.NewRowHolds | math/matrix/matrix.h:17-27 | the row constructor builds a row holding exactly its arguments, so each literal in the tests meets `RowHolds` |
| Scenarios.FlattenTwo | math/matrix/matrix.h:147-156 | two row literals laid end to end give the values of the first, then those of the second |
| Scenarios.FlattenThree | math/matrix/matrix.h:147-156 | three row literals laid end to end give their values in order |
| Scenarios.ConstructScenario | math/matrix/matrix_unittest.cpp:5-20 | the matrix built from rows holding `[9, 8, 7]`, `[6, 5, 4]` and `[3, 2, 1]` reads back each of its nine values at its position |
| Scenarios.EmptyScenario | math/matrix/matrix_unittest.cpp:22-36 | the default-constructed 3×3 matrix reads 0 at every position |
| Scenarios.ShapeMismatchScenario | math/matrix/matrix.h:110-114 | a default 2×2 matrix and a default 3×3 matrix do not compare equal |
| Scenarios.TransposeScenario | math/matrix/matrix_unittest.cpp:38-46 | the transpose of the matrix built from rows holding `[1, 2, 3]` and `[4, 5, 6]` compares equal to the matrix built from rows holding `[1, 4]`, `[2, 5]` and `[3, 6]` |
| Scenarios.InnerTwoEntry | math/matrix/matrix.h:187-190 | with inner dimension 2, a product entry is `a(i, 0) * b(0, j) + a(i, 1) * b(1, j)` |
| Scenarios.MulTwoByTwo | math/matrix/matrix.h:171-195 | the buffer of the product of two 2×2 matrices is the four row-by-column sums, in row-major order |
| Scenarios.TwoRows | math/matrix/matrix.h:56-64 | a two-row matrix built from two literals has as buffer the first literal's values followed by the second's |
| Scenarios.ProductExample | math/matrix/matrix.h:171-195 | `Mul([[1, 2], [3, 4]], [[5, 6], [7, 8]])` has buffer `[19, 22, 43, 50]` |
| Scenarios.MulScenario | math/matrix/matrix.h:171-195 | with all three matrices built from row literals, `Mul([[1, 2], [3, 4]], [[5, 6], [7, 8]])` compares equal to `[[19, 22], [43, 50]]` |

## Left out

- `ToString` of `MatrixRow` and of `Matrix`: text formatting through a string stream, outside the arithmetic core.
- Floating point: elements are unbounded integers. `float` rounding, NaN and infinities are not modelled. The laws in `Algebra` hold for exact arithmetic only; `float` addition is not associative.
- Byte-level `memset` and `memcpy`: they are modelled by their effect on elements (`Zero`, `CopyRow`).
- Templates and `static_assert`: compile-time dimensions are the `rows` and `cols` fields. The static checks (non-zero sizes, argument and row counts, `ColsA == RowsB`) are the `Valid`, `RowsOfLength` and `Conformable` preconditions.
- Debug-only `assert`s on indices are preconditions. The undefined behaviour of an out-of-range access in an optimized build is not modelled.
- `size_t` arithmetic: `Rows * Cols` and `row_idx * Cols` are taken as exact. The dimensions are small compile-time constants.
- The row-literal constructor leaves `mem_` uninitialised before `Init` overwrites every row. `FromRows` starts from zeros instead; `FromRows` proves that every element is overwritten, so the starting value does not matter.
- The mutable `Val` reference is modelled by value semantics: `SetVal` returns the updated matrix.
- The `friend` declaration that lets `Mul` reach `GetRowPtr`: access control only.
- The typedefs `Matrix3`, `Column3` and `Row3`: names for particular instances.
- The test harness of `matrix_unittest.cpp`: its three tests appear as lemmas in `Scenarios`.
- `Algebra.Identity`: the library has no identity helper. This is the usual identity matrix, defined here only so that `MulIdentity` can be stated.
