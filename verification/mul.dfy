/**
  The free function `Mul`: the triple-loop dense product of an
  `a.rows`×`a.cols` matrix and an `a.cols`×`b.cols` matrix.
 */
module Multiply {
  import opened Layout
  import opened Matrices

  /** The shapes `Mul` accepts: both matrices well formed, the columns of
      `a` matching the rows of `b`. */
  predicate Conformable(a: Matrix, b: Matrix) {
    Valid(a) && Valid(b) && a.cols == b.rows
  }

  /** The dot-product prefix for entry `(i, j)`: starting from 0, adds
      `a(i, idx) * b(idx, j)` for `idx` = 0, 1, ..., k - 1 in that order. */
  function Dot(a: Matrix, b: Matrix, i: nat, j: nat, k: nat): int
    requires Conformable(a, b) && i < a.rows && j < b.cols && k <= a.cols
  {
    if k == 0 then 0
    else Dot(a, b, i, j, k - 1) + Val(a, i, k - 1) * Val(b, k - 1, j)
  }

  /** The product: an `a.rows`×`b.cols` matrix whose entry `(i, j)` is the
      full dot product of row `i` of `a` and column `j` of `b`. */
  function Mul(a: Matrix, b: Matrix): (p: Matrix)
    requires Conformable(a, b)
    ensures Valid(p) && p.rows == a.rows && p.cols == b.cols
    ensures forall i: nat, j: nat :: i < a.rows && j < b.cols ==> Val(p, i, j) == Dot(a, b, i, j, a.cols)
  {
    OffsetDecodeAll(b.cols);
    Matrix(a.rows, b.cols, seq(a.rows * b.cols, x requires 0 <= x < a.rows * b.cols =>
      OffsetEncode(a.rows, b.cols, x);
      Dot(a, b, x / b.cols, x % b.cols, a.cols)))
  }

  /** The innermost loop of `Mul` for one entry `(i, j)` of the result
      buffer: the entry is reset to 0, then accumulates the products in
      increasing `idx` order; after `idx` steps it holds the dot-product
      prefix of length `idx`. No other entry of the buffer is touched. */
  method AccumulateEntry(a: Matrix, b: Matrix, mem: seq<int>, i: nat, j: nat) returns (mem': seq<int>)
    requires Conformable(a, b) && i < a.rows && j < b.cols
    requires |mem| == a.rows * b.cols
    ensures |mem'| == |mem|
    ensures Offset(b.cols, i, j) < |mem| && mem'[Offset(b.cols, i, j)] == Dot(a, b, i, j, a.cols)
    ensures forall x :: 0 <= x < |mem| && x != Offset(b.cols, i, j) ==> mem'[x] == mem[x]
  {
    OffsetInBounds(a.rows, b.cols, i, j);
    var off := Offset(b.cols, i, j);
    mem' := mem[off := 0];
    var idx := 0;
    while idx < a.cols
      invariant idx <= a.cols
      invariant |mem'| == |mem|
      invariant mem'[off] == Dot(a, b, i, j, idx)
      invariant forall x :: 0 <= x < |mem| && x != off ==> mem'[x] == mem[x]
    {
      mem' := mem'[off := mem'[off] + RowOf(a, i)[idx] * RowOf(b, idx)[j]];
      idx := idx + 1;
    }
  }

  /** The two outer loops of `Mul` over a default-constructed result,
      visiting entries in row-major order. */
  method MulLoops(a: Matrix, b: Matrix) returns (p: Matrix)
    requires Conformable(a, b)
    ensures p == Mul(a, b)
  {
    var mem := Zero(a.rows, b.cols).mem;
    OffsetInBoundsAll(a.rows, b.cols);
    OffsetDecodeAll(b.cols);
    var rowA := 0;
    while rowA < a.rows
      invariant rowA <= a.rows
      invariant |mem| == a.rows * b.cols
      invariant forall r: nat, c: nat :: r < rowA && c < b.cols ==> mem[Offset(b.cols, r, c)] == Dot(a, b, r, c, a.cols)
    {
      var colB := 0;
      while colB < b.cols
        invariant colB <= b.cols
        invariant |mem| == a.rows * b.cols
        invariant forall r: nat, c: nat :: r < rowA && c < b.cols ==> mem[Offset(b.cols, r, c)] == Dot(a, b, r, c, a.cols)
        invariant forall c: nat :: c < colB ==> mem[Offset(b.cols, rowA, c)] == Dot(a, b, rowA, c, a.cols)
      {
        mem := AccumulateEntry(a, b, mem, rowA, colB);
        colB := colB + 1;
      }
      rowA := rowA + 1;
    }
    p := Matrix(a.rows, b.cols, mem);
    Extensionality(p, Mul(a, b));
  }
}
