/**
  The fixed-shape dense matrix `Matrix<Rows, Cols>`.

  The compile-time dimensions become the `rows` and `cols` fields of an
  immutable value, the inline array `mem_` becomes a flat row-major
  sequence, and the C++ `static_assert`s and debug `assert`s become the
  `Valid` predicate and preconditions. `GetRows` and `GetCols` are the
  fields `rows` and `cols`.
 */
module Matrices {
  import opened Layout
  import MatrixRows

  /** A `rows`×`cols` matrix; element `(r, c)` is `mem[r * cols + c]`. */
  datatype Matrix = Matrix(rows: nat, cols: nat, mem: seq<int>)

  /** Non-zero dimensions and a buffer of exactly `rows * cols` elements. */
  predicate Valid(m: Matrix) {
    m.rows != 0 && m.cols != 0 && |m.mem| == m.rows * m.cols
  }

  /** `GetRowPtr`: the `cols` elements of row `r`, in order. */
  function RowOf(m: Matrix, r: nat): (row: seq<int>)
    requires Valid(m) && r < m.rows
    ensures |row| == m.cols
    ensures forall c :: 0 <= c < m.cols ==> Offset(m.cols, r, c) < |m.mem| && row[c] == m.mem[Offset(m.cols, r, c)]
  {
    RowInBounds(m.rows, m.cols, r);
    m.mem[r * m.cols .. r * m.cols + m.cols]
  }

  /** `Val`: element `(r, c)`, at its row-major offset. The bounds are the
      ones the source asserts, and under them the offset is inside the
      buffer. */
  function Val(m: Matrix, r: nat, c: nat): int
    requires Valid(m) && r < m.rows && c < m.cols
    ensures Offset(m.cols, r, c) < |m.mem|
  {
    OffsetInBounds(m.rows, m.cols, r, c);
    m.mem[Offset(m.cols, r, c)]
  }

  /** Reading element `(r, c)` is reading entry `c` of the row pointer of
      row `r`. */
  lemma ValThroughRow(m: Matrix, r: nat, c: nat)
    requires Valid(m) && r < m.rows && c < m.cols
    ensures Val(m, r, c) == RowOf(m, r)[c]
  {
  }

  /** Assignment through the mutable `Val` reference: element `(r, c)`
      becomes `v` and no other element changes. */
  function SetVal(m: Matrix, r: nat, c: nat, v: int): (m': Matrix)
    requires Valid(m) && r < m.rows && c < m.cols
    ensures Valid(m') && m'.rows == m.rows && m'.cols == m.cols
    ensures Val(m', r, c) == v
    ensures forall r2: nat, c2: nat :: r2 < m.rows && c2 < m.cols && (r2 != r || c2 != c) ==> Val(m', r2, c2) == Val(m, r2, c2)
  {
    OffsetInBounds(m.rows, m.cols, r, c);
    OffsetDecodeAll(m.cols);
    m.(mem := m.mem[Offset(m.cols, r, c) := v])
  }

  /** Two matrices of one shape are equal as soon as they agree on every
      in-range element. */
  lemma Extensionality(a: Matrix, b: Matrix)
    requires Valid(a) && Valid(b) && a.rows == b.rows && a.cols == b.cols
    requires forall r: nat, c: nat :: r < a.rows && c < a.cols ==> Val(a, r, c) == Val(b, r, c)
    ensures a == b
  {
    forall i | 0 <= i < |a.mem|
      ensures a.mem[i] == b.mem[i]
    {
      OffsetEncode(a.rows, a.cols, i);
      assert Val(a, i / a.cols, i % a.cols) == Val(b, i / a.cols, i % a.cols);
    }
  }

  /** Default construction: every element is zero. */
  function Zero(rows: nat, cols: nat): (m: Matrix)
    requires rows != 0 && cols != 0
    ensures Valid(m) && m.rows == rows && m.cols == cols
    ensures forall r: nat, c: nat :: r < rows && c < cols ==> Val(m, r, c) == 0
  {
    Matrix(rows, cols, seq(rows * cols, _ => 0))
  }

  /** The `memcpy` of one literal into row `r`: afterwards row `r` reads
      back the literal and every other row is as before. */
  function CopyRow(m: Matrix, r: nat, row: MatrixRows.MatrixRow): (m': Matrix)
    requires Valid(m) && r < m.rows
    requires MatrixRows.Valid(row) && row.len == m.cols
    ensures Valid(m') && m'.rows == m.rows && m'.cols == m.cols
    ensures RowOf(m', r) == MatrixRows.Data(row)
    ensures forall r2: nat, c: nat :: r2 < m.rows && r2 != r && c < m.cols ==> Val(m', r2, c) == Val(m, r2, c)
  {
    RowInBounds(m.rows, m.cols, r);
    RowsDisjoint(m.rows, m.cols, r);
    m.(mem := m.mem[..r * m.cols] + MatrixRows.Data(row) + m.mem[r * m.cols + m.cols..])
  }

  /** True when `lits` are row literals of length `cols` each. */
  predicate RowsOfLength(lits: seq<MatrixRows.MatrixRow>, cols: nat) {
    forall i :: 0 <= i < |lits| ==> MatrixRows.Valid(lits[i]) && lits[i].len == cols
  }

  /** The recursive `Init(row_index, row, rest...)`: copies `lits[0]` into
      row `rowIndex` and recurses; the recursion stops exactly when
      `rowIndex` reaches the row count. Rows before `rowIndex` are kept,
      every later row is overwritten by its literal. */
  function InitRows(m: Matrix, rowIndex: nat, lits: seq<MatrixRows.MatrixRow>): (m': Matrix)
    requires Valid(m) && rowIndex + |lits| == m.rows
    requires RowsOfLength(lits, m.cols)
    ensures Valid(m') && m'.rows == m.rows && m'.cols == m.cols
    ensures forall r: nat, c: nat :: r < rowIndex && c < m.cols ==> Val(m', r, c) == Val(m, r, c)
    ensures forall r: nat, c: nat :: rowIndex <= r < m.rows && c < m.cols ==> Val(m', r, c) == lits[r - rowIndex].mem[c]
    decreases |lits|
  {
    if |lits| == 0 then
      assert rowIndex == m.rows;
      m
    else
      InitRows(CopyRow(m, rowIndex, lits[0]), rowIndex + 1, lits[1..])
  }

  /** Row-literal construction: exactly `rows` literals of `cols` values
      each; element `(r, c)` is value `c` of literal `r`. */
  function FromRows(rows: nat, cols: nat, lits: seq<MatrixRows.MatrixRow>): (m: Matrix)
    requires rows != 0 && cols != 0
    requires |lits| == rows && RowsOfLength(lits, cols)
    ensures Valid(m) && m.rows == rows && m.cols == cols
    ensures forall r: nat, c: nat :: r < rows && c < cols ==> Val(m, r, c) == MatrixRows.Data(lits[r])[c]
  {
    InitRows(Zero(rows, cols), 0, lits)
  }

  /** The rows of `m` as row literals: the inverse of `FromRows`. */
  function ToRows(m: Matrix): (lits: seq<MatrixRows.MatrixRow>)
    requires Valid(m)
    ensures |lits| == m.rows && RowsOfLength(lits, m.cols)
    ensures forall r: nat, c: nat :: r < m.rows && c < m.cols ==> MatrixRows.Data(lits[r])[c] == Val(m, r, c)
  {
    seq(m.rows, r requires 0 <= r < m.rows => MatrixRows.MatrixRow(m.cols, RowOf(m, r)))
  }

  /** Building a matrix from its own rows gives it back. */
  lemma FromRowsOfRows(m: Matrix)
    requires Valid(m)
    ensures FromRows(m.rows, m.cols, ToRows(m)) == m
  {
    Extensionality(FromRows(m.rows, m.cols, ToRows(m)), m);
  }

  /** Reading the rows back out of a constructed matrix gives the literals. */
  lemma RowsOfFromRows(rows: nat, cols: nat, lits: seq<MatrixRows.MatrixRow>)
    requires rows != 0 && cols != 0
    requires |lits| == rows && RowsOfLength(lits, cols)
    ensures ToRows(FromRows(rows, cols, lits)) == lits
  {
    var m := FromRows(rows, cols, lits);
    var back := ToRows(m);
    forall r | 0 <= r < rows
      ensures back[r] == lits[r]
    {
      assert MatrixRows.Valid(lits[r]) && lits[r].len == cols;
      assert back[r].len == cols;
      forall c | 0 <= c < cols
        ensures back[r].mem[c] == lits[r].mem[c]
      {
        assert MatrixRows.Data(back[r])[c] == Val(m, r, c);
      }
      assert back[r].mem == lits[r].mem;
    }
  }

  /** The values of `lits`, one literal after another. */
  function Flatten(lits: seq<MatrixRows.MatrixRow>): seq<int> {
    if |lits| == 0 then [] else MatrixRows.Data(lits[0]) + Flatten(lits[1..])
  }

  /** Dropping the first literal keeps every remaining one of length `cols`. */
  lemma RowsOfLengthTail(lits: seq<MatrixRows.MatrixRow>, cols: nat)
    requires |lits| > 0 && RowsOfLength(lits, cols)
    ensures RowsOfLength(lits[1..], cols)
  {
    forall i | 0 <= i < |lits| - 1
      ensures MatrixRows.Valid(lits[1..][i]) && lits[1..][i].len == cols
    {
      assert lits[1..][i] == lits[i + 1];
    }
  }

  /** Value `c` of the first literal opens the buffer at offset `c`. */
  lemma FlattenHead(lits: seq<MatrixRows.MatrixRow>, cols: nat, c: nat)
    requires |lits| > 0 && RowsOfLength(lits, cols) && c < cols
    ensures Offset(cols, 0, c) < |Flatten(lits)| && Flatten(lits)[Offset(cols, 0, c)] == lits[0].mem[c]
  {
    assert MatrixRows.Valid(lits[0]) && lits[0].len == cols;
    assert Flatten(lits) == MatrixRows.Data(lits[0]) + Flatten(lits[1..]);
  }

  /** A value found at offset `o` of the buffer of the later literals sits
      one row length further along the buffer of all of them. */
  lemma FlattenStep(lits: seq<MatrixRows.MatrixRow>, cols: nat, r: nat, c: nat)
    requires RowsOfLength(lits, cols) && 0 < r < |lits| && c < cols
    requires Offset(cols, r - 1, c) < |Flatten(lits[1..])|
    requires Flatten(lits[1..])[Offset(cols, r - 1, c)] == lits[r].mem[c]
    ensures Offset(cols, r, c) < |Flatten(lits)| && Flatten(lits)[Offset(cols, r, c)] == lits[r].mem[c]
  {
    OffsetNextRow(cols, r, c);
    assert MatrixRows.Valid(lits[0]) && lits[0].len == cols;
    assert Flatten(lits) == MatrixRows.Data(lits[0]) + Flatten(lits[1..]);
  }

  /** Literals of length `cols` laid end to end put value `c` of literal
      `r` at the row-major offset of `(r, c)`. */
  lemma {:induction false} FlattenOffsets(lits: seq<MatrixRows.MatrixRow>, cols: nat)
    requires RowsOfLength(lits, cols)
    ensures |Flatten(lits)| == |lits| * cols
    ensures forall r: nat, c: nat :: r < |lits| && c < cols ==>
      Offset(cols, r, c) < |Flatten(lits)| && Flatten(lits)[Offset(cols, r, c)] == lits[r].mem[c]
  {
    if |lits| > 0 {
      var rest := lits[1..];
      RowsOfLengthTail(lits, cols);
      FlattenOffsets(rest, cols);
      assert |Flatten(lits)| == |lits| * cols by {
        assert MatrixRows.Valid(lits[0]) && lits[0].len == cols;
        assert Flatten(lits) == MatrixRows.Data(lits[0]) + Flatten(rest);
        OffsetNextRow(cols, |lits|, 0);
      }
      forall r: nat, c: nat | r < |lits| && c < cols
        ensures Offset(cols, r, c) < |Flatten(lits)| && Flatten(lits)[Offset(cols, r, c)] == lits[r].mem[c]
      {
        if r == 0 {
          FlattenHead(lits, cols, c);
        } else {
          assert rest[r - 1] == lits[r];
          FlattenStep(lits, cols, r, c);
        }
      }
    }
  }

  /** Row-literal construction stores the literals one after another: the
      buffer of `FromRows` is the concatenation of their values. */
  lemma FromRowsBuffer(rows: nat, cols: nat, lits: seq<MatrixRows.MatrixRow>)
    requires rows != 0 && cols != 0
    requires |lits| == rows && RowsOfLength(lits, cols)
    ensures FromRows(rows, cols, lits) == Matrix(rows, cols, Flatten(lits))
  {
    FlattenOffsets(lits, cols);
    var e := Matrix(rows, cols, Flatten(lits));
    Extensionality(FromRows(rows, cols, lits), e);
  }

  /** `operator+`: element-wise sum of two matrices of one shape. */
  function Add(a: Matrix, b: Matrix): (s: Matrix)
    requires Valid(a) && Valid(b) && a.rows == b.rows && a.cols == b.cols
    ensures Valid(s) && s.rows == a.rows && s.cols == a.cols
    ensures forall r: nat, c: nat :: r < a.rows && c < a.cols ==> Val(s, r, c) == Val(a, r, c) + Val(b, r, c)
  {
    Matrix(a.rows, a.cols, seq(|a.mem|, i requires 0 <= i < |a.mem| => a.mem[i] + b.mem[i]))
  }

  /** The two nested loops of `operator+`, writing each sum through the
      row pointer of a default-constructed result. */
  method AddLoops(a: Matrix, b: Matrix) returns (s: Matrix)
    requires Valid(a) && Valid(b) && a.rows == b.rows && a.cols == b.cols
    ensures s == Add(a, b)
  {
    s := Zero(a.rows, a.cols);
    var row := 0;
    while row < a.rows
      invariant row <= a.rows
      invariant Valid(s) && s.rows == a.rows && s.cols == a.cols
      invariant forall r: nat, c: nat :: r < row && c < a.cols ==> Val(s, r, c) == Val(a, r, c) + Val(b, r, c)
    {
      var col := 0;
      while col < a.cols
        invariant col <= a.cols
        invariant Valid(s) && s.rows == a.rows && s.cols == a.cols
        invariant forall r: nat, c: nat :: r < row && c < a.cols ==> Val(s, r, c) == Val(a, r, c) + Val(b, r, c)
        invariant forall c: nat :: c < col ==> Val(s, row, c) == Val(a, row, c) + Val(b, row, c)
      {
        s := SetVal(s, row, col, RowOf(a, row)[col] + RowOf(b, row)[col]);
        col := col + 1;
      }
      row := row + 1;
    }
    Extensionality(s, Add(a, b));
  }

  /** Same shape and agreement on every in-range element. */
  predicate SameElements(a: Matrix, b: Matrix)
    requires Valid(a) && Valid(b)
  {
    && a.rows == b.rows && a.cols == b.cols
    && forall r: nat, c: nat :: r < a.rows && c < a.cols ==> Val(a, r, c) == Val(b, r, c)
  }

  /** `operator==` across shapes: false when the row or column counts
      differ, otherwise true exactly when every element agrees. */
  function Eq(a: Matrix, b: Matrix): (eq: bool)
    requires Valid(a) && Valid(b)
    ensures a.rows != b.rows || a.cols != b.cols ==> !eq
    ensures eq <==> SameElements(a, b)
  {
    if a.rows != b.rows || a.cols != b.cols then
      false
    else
      assert SameElements(a, b) ==> a == b by {
        if SameElements(a, b) {
          Extensionality(a, b);
        }
      }
      a.mem == b.mem
  }

  /** The two nested loops of `operator==` with their early return. */
  method EqLoops(a: Matrix, b: Matrix) returns (eq: bool)
    requires Valid(a) && Valid(b)
    ensures eq == Eq(a, b)
  {
    if a.rows != b.rows || a.cols != b.cols {
      return false;
    }
    var row := 0;
    while row < a.rows
      invariant row <= a.rows
      invariant forall r: nat, c: nat :: r < row && c < a.cols ==> Val(a, r, c) == Val(b, r, c)
    {
      var col := 0;
      while col < a.cols
        invariant col <= a.cols
        invariant forall r: nat, c: nat :: r < row && c < a.cols ==> Val(a, r, c) == Val(b, r, c)
        invariant forall c: nat :: c < col ==> Val(a, row, c) == Val(b, row, c)
      {
        if RowOf(a, row)[col] != Val(b, row, col) {
          return false;
        }
        col := col + 1;
      }
      row := row + 1;
    }
    return true;
  }

  /** `Transpose`: a `cols`×`rows` matrix whose `(c, r)` element is the
      source's `(r, c)`. */
  function Transpose(m: Matrix): (t: Matrix)
    requires Valid(m)
    ensures Valid(t) && t.rows == m.cols && t.cols == m.rows
    ensures forall r: nat, c: nat :: r < m.rows && c < m.cols ==> Val(t, c, r) == Val(m, r, c)
  {
    OffsetInBoundsAll(m.rows, m.cols);
    OffsetDecodeAll(m.rows);
    Matrix(m.cols, m.rows, seq(m.cols * m.rows, i requires 0 <= i < m.cols * m.rows =>
      OffsetEncode(m.cols, m.rows, i);
      m.mem[Offset(m.cols, i % m.rows, i / m.rows)]))
  }

  /** The two nested loops of `Transpose`, writing `result.Val(col, row)`
      into a default-constructed result. */
  method TransposeLoops(m: Matrix) returns (t: Matrix)
    requires Valid(m)
    ensures t == Transpose(m)
  {
    t := Zero(m.cols, m.rows);
    var row := 0;
    while row < m.rows
      invariant row <= m.rows
      invariant Valid(t) && t.rows == m.cols && t.cols == m.rows
      invariant forall r: nat, c: nat :: r < row && c < m.cols ==> Val(t, c, r) == Val(m, r, c)
    {
      var col := 0;
      while col < m.cols
        invariant col <= m.cols
        invariant Valid(t) && t.rows == m.cols && t.cols == m.rows
        invariant forall r: nat, c: nat :: r < row && c < m.cols ==> Val(t, c, r) == Val(m, r, c)
        invariant forall c: nat :: c < col ==> Val(t, c, row) == Val(m, row, c)
      {
        t := SetVal(t, col, row, RowOf(m, row)[col]);
        col := col + 1;
      }
      row := row + 1;
    }
    Extensionality(t, Transpose(m));
  }
}
