/**
  Row-major index arithmetic shared by every matrix operation.

  A `rows`×`cols` matrix keeps its elements in one flat buffer of
  `rows * cols` values; element `(r, c)` lives at flat index `r * cols + c`
  and row `r` occupies the half-open range `[r * cols, r * cols + cols)`.
 */
module Layout {

  /** Flat index of element `(r, c)` in a buffer with `cols` columns. */
  function Offset(cols: nat, r: nat, c: nat): nat {
    r * cols + c
  }

  /** `a <= b` scales: `a * k <= b * k`. */
  lemma {:induction false} MulMonotone(a: nat, b: nat, k: nat)
    requires a <= b
    ensures a * k <= b * k
  {
    if a < b {
      MulMonotone(a, b - 1, k);
      assert b * k == (b - 1) * k + k;
    }
  }

  /** Every in-range `(r, c)` maps inside the buffer: the bound that
      element access asserts before it indexes. */
  lemma OffsetInBounds(rows: nat, cols: nat, r: nat, c: nat)
    requires r < rows && c < cols
    ensures Offset(cols, r, c) < rows * cols
  {
    MulMonotone(r + 1, rows, cols);
    assert (r + 1) * cols == r * cols + cols;
  }

  /** Row `r` lies wholly inside the buffer. */
  lemma RowInBounds(rows: nat, cols: nat, r: nat)
    requires r < rows
    ensures r * cols + cols <= rows * cols
  {
    MulMonotone(r + 1, rows, cols);
    assert (r + 1) * cols == r * cols + cols;
  }

  /** Decoding a flat index gives back the row and column it was built from. */
  lemma OffsetDecode(cols: nat, r: nat, c: nat)
    requires c < cols
    ensures Offset(cols, r, c) / cols == r
    ensures Offset(cols, r, c) % cols == c
  {
    var i := Offset(cols, r, c);
    var q, m := i / cols, i % cols;
    assert i == q * cols + m;
    assert (q - r) * cols == c - m;
    if q > r {
      MulMonotone(1, q - r, cols);
      assert false;
    } else if q < r {
      MulMonotone(1, r - q, cols);
      assert false;
    }
  }

  /** Every flat index inside the buffer is the offset of exactly one
      in-range pair: the one obtained by dividing by `cols`. */
  lemma OffsetEncode(rows: nat, cols: nat, i: nat)
    requires i < rows * cols
    ensures cols > 0
    ensures i / cols < rows && i % cols < cols
    ensures Offset(cols, i / cols, i % cols) == i
    ensures forall r: nat, c: nat :: r < rows && c < cols && Offset(cols, r, c) == i ==> r == i / cols && c == i % cols
  {
    assert cols > 0 && i / cols < rows by {
      if cols == 0 {
        assert false;
      }
      if i / cols >= rows {
        MulMonotone(rows, i / cols, cols);
        assert false;
      }
    }
    var q, m := i / cols, i % cols;
    assert Offset(cols, q, m) == i;
    forall r: nat, c: nat | r < rows && c < cols && Offset(cols, r, c) == i
      ensures r == q && c == m
    {
      OffsetInjective(cols, r, c, q, m);
    }
  }

  /** Distinct in-range positions never share a flat index. */
  lemma OffsetInjective(cols: nat, r1: nat, c1: nat, r2: nat, c2: nat)
    requires c1 < cols && c2 < cols
    requires Offset(cols, r1, c1) == Offset(cols, r2, c2)
    ensures r1 == r2 && c1 == c2
  {
    OffsetDecode(cols, r1, c1);
    OffsetDecode(cols, r2, c2);
  }

  /** One row further down is one row length further along the buffer. */
  lemma OffsetNextRow(cols: nat, r: nat, c: nat)
    requires r > 0
    ensures Offset(cols, r, c) == cols + Offset(cols, r - 1, c)
  {
    assert r * cols == (r - 1) * cols + cols;
  }

  /** `OffsetInBounds` for every in-range pair at once. */
  lemma OffsetInBoundsAll(rows: nat, cols: nat)
    ensures forall r: nat, c: nat :: r < rows && c < cols ==> Offset(cols, r, c) < rows * cols
  {
    forall r: nat, c: nat | r < rows && c < cols
      ensures Offset(cols, r, c) < rows * cols
    {
      OffsetInBounds(rows, cols, r, c);
    }
  }

  /** `OffsetDecode` for every pair at once. */
  lemma OffsetDecodeAll(cols: nat)
    ensures forall r: nat, c: nat :: c < cols ==> Offset(cols, r, c) / cols == r && Offset(cols, r, c) % cols == c
  {
    forall r: nat, c: nat | c < cols
      ensures Offset(cols, r, c) / cols == r && Offset(cols, r, c) % cols == c
    {
      OffsetDecode(cols, r, c);
    }
  }

  /** The elements of every row other than `r` lie wholly before or wholly
      after row `r`'s range `[r * cols, r * cols + cols)`. */
  lemma RowsDisjoint(rows: nat, cols: nat, r: nat)
    requires r < rows
    ensures forall r2: nat, c: nat :: r2 < r && c < cols ==> Offset(cols, r2, c) < r * cols
    ensures forall r2: nat, c: nat :: r < r2 < rows && c < cols ==> r * cols + cols <= Offset(cols, r2, c) < rows * cols
  {
    forall r2: nat, c: nat | r2 < r && c < cols
      ensures Offset(cols, r2, c) < r * cols
    {
      OffsetInBounds(r, cols, r2, c);
    }
    forall r2: nat, c: nat | r < r2 < rows && c < cols
      ensures r * cols + cols <= Offset(cols, r2, c) < rows * cols
    {
      MulMonotone(r + 1, r2, cols);
      assert (r + 1) * cols == r * cols + cols;
      OffsetInBounds(rows, cols, r2, c);
    }
  }
}
