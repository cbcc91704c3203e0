/**
  The three unit tests of `matrix_unittest.cpp` (construction, empty
  matrix, transpose), a 2×2 product example and a shape-mismatch example,
  stated as lemmas about the model.

  A C++ literal `MatrixRow<n>(v0, ..., vn-1)` is any row for which
  `RowHolds(row, [v0, ..., vn-1])`; `NewRowHolds` shows that the row
  constructor produces one.
 */
module Scenarios {
  import MatrixRows
  import opened Matrices
  import opened Multiply

  /** `row` is a row literal holding exactly `vals`. */
  predicate RowHolds(row: MatrixRows.MatrixRow, vals: seq<int>) {
    MatrixRows.Valid(row) && row.len == |vals| && MatrixRows.Data(row) == vals
  }

  /** The row constructor builds a row holding its arguments. */
  lemma NewRowHolds(vals: seq<int>)
    requires |vals| != 0
    ensures RowHolds(MatrixRows.NewRow(|vals|, vals), vals)
  {
  }

  /** Two row literals laid end to end. */
  lemma FlattenTwo(r0: MatrixRows.MatrixRow, r1: MatrixRows.MatrixRow)
    ensures Flatten([r0, r1]) == MatrixRows.Data(r0) + MatrixRows.Data(r1)
  {
    assert [r0, r1][1..] == [r1];
    assert [r1][1..] == [];
    assert Flatten([r1]) == MatrixRows.Data(r1) + [];
    assert MatrixRows.Data(r1) + [] == MatrixRows.Data(r1);
  }

  /** Three row literals laid end to end. */
  lemma FlattenThree(r0: MatrixRows.MatrixRow, r1: MatrixRows.MatrixRow, r2: MatrixRows.MatrixRow)
    ensures Flatten([r0, r1, r2]) == MatrixRows.Data(r0) + MatrixRows.Data(r1) + MatrixRows.Data(r2)
  {
    assert [r0, r1, r2][1..] == [r1, r2];
    FlattenTwo(r1, r2);
  }

  /** The 3×3 matrix built from `[9, 8, 7]`, `[6, 5, 4]` and `[3, 2, 1]`
      reads back each of its nine values at its position. */
  lemma ConstructScenario(r0: MatrixRows.MatrixRow, r1: MatrixRows.MatrixRow, r2: MatrixRows.MatrixRow)
    requires RowHolds(r0, [9, 8, 7]) && RowHolds(r1, [6, 5, 4]) && RowHolds(r2, [3, 2, 1])
    ensures var m := FromRows(3, 3, [r0, r1, r2]);
      && Val(m, 0, 0) == 9 && Val(m, 0, 1) == 8 && Val(m, 0, 2) == 7
      && Val(m, 1, 0) == 6 && Val(m, 1, 1) == 5 && Val(m, 1, 2) == 4
      && Val(m, 2, 0) == 3 && Val(m, 2, 1) == 2 && Val(m, 2, 2) == 1
  {
    FromRowsBuffer(3, 3, [r0, r1, r2]);
    FlattenThree(r0, r1, r2);
  }

  /** The default-constructed 3×3 matrix reads 0 everywhere. */
  lemma EmptyScenario()
    ensures forall r: nat, c: nat :: r < 3 && c < 3 ==> Val(Zero(3, 3), r, c) == 0
  {
  }

  /** Matrices of different shapes never compare equal. */
  lemma ShapeMismatchScenario()
    ensures !Eq(Zero(2, 2), Zero(3, 3))
  {
  }

  /** The 2×3 matrix built from `[1, 2, 3]` and `[4, 5, 6]` transposes to
      one that compares equal to the 3×2 matrix built from `[1, 4]`,
      `[2, 5]` and `[3, 6]`. */
  lemma TransposeScenario(o0: MatrixRows.MatrixRow, o1: MatrixRows.MatrixRow,
                          t0: MatrixRows.MatrixRow, t1: MatrixRows.MatrixRow, t2: MatrixRows.MatrixRow)
    requires RowHolds(o0, [1, 2, 3]) && RowHolds(o1, [4, 5, 6])
    requires RowHolds(t0, [1, 4]) && RowHolds(t1, [2, 5]) && RowHolds(t2, [3, 6])
    ensures Eq(Transpose(FromRows(2, 3, [o0, o1])), FromRows(3, 2, [t0, t1, t2]))
  {
    var m := FromRows(2, 3, [o0, o1]);
    var e := FromRows(3, 2, [t0, t1, t2]);
    FromRowsBuffer(2, 3, [o0, o1]);
    FlattenTwo(o0, o1);
    FromRowsBuffer(3, 2, [t0, t1, t2]);
    FlattenThree(t0, t1, t2);
    assert m.mem == [1, 2, 3, 4, 5, 6];
    assert e.mem == [1, 4, 2, 5, 3, 6];
    var t := Transpose(m);
    forall r: nat, c: nat | r < 3 && c < 2
      ensures Val(t, r, c) == Val(e, r, c)
    {
      assert Val(t, r, c) == Val(m, c, r);
    }
  }

  /** An entry of a product with inner dimension 2 is a two-term sum. */
  lemma InnerTwoEntry(a: Matrix, b: Matrix, i: nat, j: nat)
    requires Conformable(a, b) && a.cols == 2 && i < a.rows && j < b.cols
    ensures Val(Mul(a, b), i, j) == Val(a, i, 0) * Val(b, 0, j) + Val(a, i, 1) * Val(b, 1, j)
  {
    assert Dot(a, b, i, j, 2) == Dot(a, b, i, j, 1) + Val(a, i, 1) * Val(b, 1, j);
    assert Dot(a, b, i, j, 1) == Val(a, i, 0) * Val(b, 0, j);
  }

  /** The product of two 2×2 matrices, entry by entry in row-major order. */
  lemma MulTwoByTwo(a: Matrix, b: Matrix)
    requires Conformable(a, b) && a.rows == 2 && a.cols == 2 && b.cols == 2
    ensures var p := Mul(a, b);
      && |p.mem| == 4
      && p.mem[0] == a.mem[0] * b.mem[0] + a.mem[1] * b.mem[2]
      && p.mem[1] == a.mem[0] * b.mem[1] + a.mem[1] * b.mem[3]
      && p.mem[2] == a.mem[2] * b.mem[0] + a.mem[3] * b.mem[2]
      && p.mem[3] == a.mem[2] * b.mem[1] + a.mem[3] * b.mem[3]
  {
    var p := Mul(a, b);
    assert |p.mem| == 4;
    assert p.mem[0] == a.mem[0] * b.mem[0] + a.mem[1] * b.mem[2] by {
      InnerTwoEntry(a, b, 0, 0);
      assert p.mem[0] == Val(p, 0, 0);
    }
    assert p.mem[1] == a.mem[0] * b.mem[1] + a.mem[1] * b.mem[3] by {
      InnerTwoEntry(a, b, 0, 1);
      assert p.mem[1] == Val(p, 0, 1);
    }
    assert p.mem[2] == a.mem[2] * b.mem[0] + a.mem[3] * b.mem[2] by {
      InnerTwoEntry(a, b, 1, 0);
      assert p.mem[2] == Val(p, 1, 0);
    }
    assert p.mem[3] == a.mem[2] * b.mem[1] + a.mem[3] * b.mem[3] by {
      InnerTwoEntry(a, b, 1, 1);
      assert p.mem[3] == Val(p, 1, 1);
    }
  }

  /** Two row literals of one length, as the rows of a matrix. */
  lemma TwoRows(cols: nat, r0: MatrixRows.MatrixRow, r1: MatrixRows.MatrixRow)
    requires cols != 0 && RowsOfLength([r0, r1], cols)
    ensures FromRows(2, cols, [r0, r1]) == Matrix(2, cols, MatrixRows.Data(r0) + MatrixRows.Data(r1))
  {
    FromRowsBuffer(2, cols, [r0, r1]);
    FlattenTwo(r0, r1);
  }

  /** Two buffers of four values agreeing entry by entry are equal. */
  lemma FourEntries(s: seq<int>, t: seq<int>)
    requires |s| == 4 && |t| == 4
    requires s[0] == t[0] && s[1] == t[1] && s[2] == t[2] && s[3] == t[3]
    ensures s == t
  {
    forall k | 0 <= k < 4
      ensures s[k] == t[k]
    {
      assert k == 0 || k == 1 || k == 2 || k == 3;
    }
  }

  /** `[[1, 2], [3, 4]] * [[5, 6], [7, 8]]` has buffer `[19, 22, 43, 50]`. */
  lemma ProductExample(a: Matrix, b: Matrix)
    requires a == Matrix(2, 2, [1, 2, 3, 4]) && b == Matrix(2, 2, [5, 6, 7, 8])
    ensures Mul(a, b).mem == [19, 22, 43, 50]
  {
    var p := Mul(a, b);
    MulTwoByTwo(a, b);
    assert a.mem[0] == 1 && a.mem[1] == 2 && a.mem[2] == 3 && a.mem[3] == 4;
    assert b.mem[0] == 5 && b.mem[1] == 6 && b.mem[2] == 7 && b.mem[3] == 8;
    assert p.mem[0] == 19 && p.mem[1] == 22 && p.mem[2] == 43 && p.mem[3] == 50;
    FourEntries(p.mem, [19, 22, 43, 50]);
  }

  /** `[[1, 2], [3, 4]] * [[5, 6], [7, 8]]` compares equal to
      `[[19, 22], [43, 50]]`, all three built from row literals. */
  lemma MulScenario(l0: MatrixRows.MatrixRow, l1: MatrixRows.MatrixRow,
                    r0: MatrixRows.MatrixRow, r1: MatrixRows.MatrixRow,
                    p0: MatrixRows.MatrixRow, p1: MatrixRows.MatrixRow)
    requires RowHolds(l0, [1, 2]) && RowHolds(l1, [3, 4])
    requires RowHolds(r0, [5, 6]) && RowHolds(r1, [7, 8])
    requires RowHolds(p0, [19, 22]) && RowHolds(p1, [43, 50])
    ensures Eq(Mul(FromRows(2, 2, [l0, l1]), FromRows(2, 2, [r0, r1])), FromRows(2, 2, [p0, p1]))
  {
    var a, b, e := FromRows(2, 2, [l0, l1]), FromRows(2, 2, [r0, r1]), FromRows(2, 2, [p0, p1]);
    assert a == Matrix(2, 2, [1, 2, 3, 4]) by {
      TwoRows(2, l0, l1);
    }
    assert b == Matrix(2, 2, [5, 6, 7, 8]) by {
      TwoRows(2, r0, r1);
    }
    assert e == Matrix(2, 2, [19, 22, 43, 50]) by {
      TwoRows(2, p0, p1);
    }
    ProductExample(a, b);
    assert Mul(a, b) == e;
  }
}
