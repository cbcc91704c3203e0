/**
  Algebraic laws that relate the matrix operations to each other:
  equality is value equality, transpose is an involution, addition is a
  commutative monoid with the default-constructed matrix as identity, and
  the product is associative, has identities, distributes over addition
  on both sides and reverses under transposition.
 */
module Algebra {
  import opened Layout
  import opened Matrices
  import opened Multiply

  // ---------------------------------------------------------------------
  // Equality

  /** `A == A` holds for every well-formed matrix. */
  lemma EqReflexive(a: Matrix)
    requires Valid(a)
    ensures Eq(a, a)
  {
  }

  /** `operator==` coincides with equality of the modelled values. */
  lemma EqIsValueEquality(a: Matrix, b: Matrix)
    requires Valid(a) && Valid(b)
    ensures Eq(a, b) <==> a == b
  {
    if Eq(a, b) {
      Extensionality(a, b);
    }
  }

  /** `operator==` is symmetric, even across shapes. */
  lemma EqSymmetric(a: Matrix, b: Matrix)
    requires Valid(a) && Valid(b)
    ensures Eq(a, b) <==> Eq(b, a)
  {
    EqIsValueEquality(a, b);
    EqIsValueEquality(b, a);
  }

  // ---------------------------------------------------------------------
  // Transpose and addition

  /** Transposing twice gives back the original matrix. */
  lemma TransposeInvolutive(m: Matrix)
    requires Valid(m)
    ensures Transpose(Transpose(m)) == m
  {
    var t := Transpose(m);
    var tt := Transpose(t);
    forall r: nat, c: nat | r < m.rows && c < m.cols
      ensures Val(tt, r, c) == Val(m, r, c)
    {
      assert Val(tt, r, c) == Val(t, c, r);
    }
    Extensionality(tt, m);
  }

  /** `A + B == B + A`. */
  lemma AddCommutative(a: Matrix, b: Matrix)
    requires Valid(a) && Valid(b) && a.rows == b.rows && a.cols == b.cols
    ensures Add(a, b) == Add(b, a)
  {
    Extensionality(Add(a, b), Add(b, a));
  }

  /** `(A + B) + C == A + (B + C)`. */
  lemma AddAssociative(a: Matrix, b: Matrix, c: Matrix)
    requires Valid(a) && Valid(b) && Valid(c)
    requires a.rows == b.rows == c.rows && a.cols == b.cols == c.cols
    ensures Add(Add(a, b), c) == Add(a, Add(b, c))
  {
    Extensionality(Add(Add(a, b), c), Add(a, Add(b, c)));
  }

  /** The default-constructed matrix is the identity of addition. */
  lemma AddZero(a: Matrix)
    requires Valid(a)
    ensures Add(a, Zero(a.rows, a.cols)) == a
  {
    Extensionality(Add(a, Zero(a.rows, a.cols)), a);
  }

  /** Transposition distributes over addition. */
  lemma TransposeAdd(a: Matrix, b: Matrix)
    requires Valid(a) && Valid(b) && a.rows == b.rows && a.cols == b.cols
    ensures Transpose(Add(a, b)) == Add(Transpose(a), Transpose(b))
  {
    var lhs := Transpose(Add(a, b));
    var rhs := Add(Transpose(a), Transpose(b));
    forall r: nat, c: nat | r < a.cols && c < a.rows
      ensures Val(lhs, r, c) == Val(rhs, r, c)
    {
      assert Val(lhs, r, c) == Val(Add(a, b), c, r);
    }
    Extensionality(lhs, rhs);
  }

  // ---------------------------------------------------------------------
  // Double sums, used to reorder the terms of a triple product

  /** `x * (y + z) == x * y + x * z`. */
  lemma Distribute(x: int, y: int, z: int)
    ensures x * (y + z) == x * y + x * z
    ensures (y + z) * x == y * x + z * x
  {
  }

  /** `x * (y * z) == x * y * z`. */
  lemma MulAssociate(x: int, y: int, z: int)
    ensures x * (y * z) == x * y * z
  {
  }

  /** `g(0, j) + g(1, j) + ... + g(n - 1, j)`. */
  ghost function SumFirst(g: (nat, nat) -> int, j: nat, n: nat): int {
    if n == 0 then 0 else SumFirst(g, j, n - 1) + g(n - 1, j)
  }

  /** `g(k, 0) + g(k, 1) + ... + g(k, m - 1)`. */
  ghost function SumSecond(g: (nat, nat) -> int, k: nat, m: nat): int {
    if m == 0 then 0 else SumSecond(g, k, m - 1) + g(k, m - 1)
  }

  /** The sum of `g(k, j)` over `k < n` of the sum over `j < m`. */
  ghost function SumRowsFirst(g: (nat, nat) -> int, n: nat, m: nat): int {
    if n == 0 then 0 else SumRowsFirst(g, n - 1, m) + SumSecond(g, n - 1, m)
  }

  /** The sum of `g(k, j)` over `j < m` of the sum over `k < n`. */
  ghost function SumColsFirst(g: (nat, nat) -> int, n: nat, m: nat): int {
    if m == 0 then 0 else SumColsFirst(g, n, m - 1) + SumFirst(g, m - 1, n)
  }

  /** Peeling the last `k` off the column-first double sum. */
  lemma {:induction false} SumColsFirstPeel(g: (nat, nat) -> int, n: nat, m: nat)
    requires n > 0
    ensures SumColsFirst(g, n, m) == SumColsFirst(g, n - 1, m) + SumSecond(g, n - 1, m)
  {
    if m > 0 {
      SumColsFirstPeel(g, n, m - 1);
    }
  }

  /** The column-first double sum over no rows is 0. */
  lemma {:induction false} SumColsFirstEmpty(g: (nat, nat) -> int, m: nat)
    ensures SumColsFirst(g, 0, m) == 0
  {
    if m > 0 {
      SumColsFirstEmpty(g, m - 1);
    }
  }

  /** A finite double sum may be taken in either order. */
  lemma {:induction false} SumSwap(g: (nat, nat) -> int, n: nat, m: nat)
    ensures SumRowsFirst(g, n, m) == SumColsFirst(g, n, m)
  {
    if n > 0 {
      SumSwap(g, n - 1, m);
      SumColsFirstPeel(g, n, m);
      assert SumRowsFirst(g, n, m) == SumRowsFirst(g, n - 1, m) + SumSecond(g, n - 1, m);
    } else {
      SumColsFirstEmpty(g, m);
    }
  }

  /** Element access extended with 0 outside the matrix, so that entries
      can appear as the terms of a total function. */
  ghost function At(m: Matrix, r: nat, c: nat): int {
    if Valid(m) && r < m.rows && c < m.cols then Val(m, r, c) else 0
  }

  /** The terms `a(i, k) * b(k, j) * c(j, l)` of entry `(i, l)` of a
      triple product. */
  ghost predicate TripleTerms(g: (nat, nat) -> int, a: Matrix, b: Matrix, c: Matrix, i: nat, l: nat) {
    forall k: nat, j: nat :: g(k, j) == At(a, i, k) * At(b, k, j) * At(c, j, l)
  }

  /** A dot-product prefix of `a` and `b`, scaled by `c(j, l)`, sums the
      triple terms over `k`. */
  lemma {:induction false} DotScaledRight(g: (nat, nat) -> int, a: Matrix, b: Matrix, c: Matrix, i: nat, j: nat, l: nat, k: nat)
    requires Conformable(a, b) && i < a.rows && j < b.cols && k <= a.cols
    requires TripleTerms(g, a, b, c, i, l)
    ensures Dot(a, b, i, j, k) * At(c, j, l) == SumFirst(g, j, k)
  {
    if k > 0 {
      DotScaledRight(g, a, b, c, i, j, l, k - 1);
      Distribute(At(c, j, l), Dot(a, b, i, j, k - 1), Val(a, i, k - 1) * Val(b, k - 1, j));
      assert g(k - 1, j) == Val(a, i, k - 1) * Val(b, k - 1, j) * At(c, j, l);
    }
  }

  /** A dot-product prefix of `b` and `c`, scaled by `a(i, k)`, sums the
      triple terms over `j`. */
  lemma {:induction false} DotScaledLeft(g: (nat, nat) -> int, a: Matrix, b: Matrix, c: Matrix, i: nat, k: nat, l: nat, m: nat)
    requires Conformable(b, c) && k < b.rows && l < c.cols && m <= b.cols
    requires TripleTerms(g, a, b, c, i, l)
    ensures At(a, i, k) * Dot(b, c, k, l, m) == SumSecond(g, k, m)
  {
    if m > 0 {
      DotScaledLeft(g, a, b, c, i, k, l, m - 1);
      var x, y, z := At(a, i, k), Val(b, k, m - 1), Val(c, m - 1, l);
      Distribute(x, Dot(b, c, k, l, m - 1), y * z);
      assert At(b, k, m - 1) == y && At(c, m - 1, l) == z;
      assert g(k, m - 1) == x * y * z;
      MulAssociate(x, y, z);
    }
  }

  /** Row `i` of `ab` holds the dot products of row `i` of `a` with the
      columns of `b`, as row `i` of `Mul(a, b)` does. */
  ghost predicate RowOfProduct(ab: Matrix, a: Matrix, b: Matrix, i: nat)
    requires Conformable(a, b) && i < a.rows
  {
    && Valid(ab) && ab.rows == a.rows && ab.cols == b.cols
    && forall j: nat :: j < b.cols ==> Val(ab, i, j) == Dot(a, b, i, j, a.cols)
  }

  /** Entry `(i, l)` of `(A B) C`, summed over its first `m` products, is
      the column-first double sum of the triple terms. */
  lemma {:induction false} MulLeftNested(g: (nat, nat) -> int, a: Matrix, b: Matrix, ab: Matrix, c: Matrix, i: nat, l: nat, m: nat)
    requires Conformable(a, b) && Conformable(b, c) && i < a.rows && l < c.cols && m <= b.cols
    requires RowOfProduct(ab, a, b, i)
    requires TripleTerms(g, a, b, c, i, l)
    ensures Dot(ab, c, i, l, m) == SumColsFirst(g, a.cols, m)
  {
    if m > 0 {
      MulLeftNested(g, a, b, ab, c, i, l, m - 1);
      DotScaledRight(g, a, b, c, i, m - 1, l, a.cols);
      assert At(c, m - 1, l) == Val(c, m - 1, l);
    }
  }

  /** `bc` holds, at every `(k, l)`, the dot product of row `k` of `b`
      with column `l` of `c`, as `Mul(b, c)` does. */
  ghost predicate IsProductOf(bc: Matrix, b: Matrix, c: Matrix)
    requires Conformable(b, c)
  {
    && Valid(bc) && bc.rows == b.rows && bc.cols == c.cols
    && forall k: nat, l: nat :: k < b.rows && l < c.cols ==> Val(bc, k, l) == Dot(b, c, k, l, b.cols)
  }

  /** Entry `(i, l)` of `A (B C)`, summed over its first `n` products, is
      the row-first double sum of the triple terms. */
  lemma {:induction false} MulRightNested(g: (nat, nat) -> int, a: Matrix, b: Matrix, bc: Matrix, c: Matrix, i: nat, l: nat, n: nat)
    requires Conformable(a, b) && Conformable(b, c) && i < a.rows && l < c.cols && n <= a.cols
    requires IsProductOf(bc, b, c)
    requires TripleTerms(g, a, b, c, i, l)
    ensures Dot(a, bc, i, l, n) == SumRowsFirst(g, n, b.cols)
  {
    if n > 0 {
      MulRightNested(g, a, b, bc, c, i, l, n - 1);
      DotScaledLeft(g, a, b, c, i, n - 1, l, b.cols);
      assert At(a, i, n - 1) == Val(a, i, n - 1);
    }
  }

  // ---------------------------------------------------------------------
  // The product

  /** One entry of `(A B) C` equals the same entry of `A (B C)`. */
  lemma MulAssociativeEntry(a: Matrix, b: Matrix, c: Matrix, i: nat, l: nat)
    requires Conformable(a, b) && Conformable(b, c) && i < a.rows && l < c.cols
    ensures Val(Mul(Mul(a, b), c), i, l) == Val(Mul(a, Mul(b, c)), i, l)
  {
    var g := (k: nat, j: nat) => At(a, i, k) * At(b, k, j) * At(c, j, l);
    MulLeftNested(g, a, b, Mul(a, b), c, i, l, b.cols);
    MulRightNested(g, a, b, Mul(b, c), c, i, l, a.cols);
    SumSwap(g, a.cols, b.cols);
  }

  /** `Mul(Mul(A, B), C) == Mul(A, Mul(B, C))`. */
  lemma MulAssociative(a: Matrix, b: Matrix, c: Matrix)
    requires Conformable(a, b) && Conformable(b, c)
    ensures Mul(Mul(a, b), c) == Mul(a, Mul(b, c))
  {
    forall i: nat, l: nat | i < a.rows && l < c.cols
      ensures Val(Mul(Mul(a, b), c), i, l) == Val(Mul(a, Mul(b, c)), i, l)
    {
      MulAssociativeEntry(a, b, c, i, l);
    }
    Extensionality(Mul(Mul(a, b), c), Mul(a, Mul(b, c)));
  }

  /** The `n`×`n` identity matrix: 1 on the diagonal, 0 elsewhere. */
  function Identity(n: nat): (m: Matrix)
    requires n != 0
    ensures Valid(m) && m.rows == n && m.cols == n
    ensures forall r: nat, c: nat :: r < n && c < n ==> Val(m, r, c) == if r == c then 1 else 0
  {
    OffsetDecodeAll(n);
    Matrix(n, n, seq(n * n, (x: nat) => if x / n == x % n then 1 else 0))
  }

  /** Against the identity on the right, the dot-product prefix picks out
      `a(i, j)` once the prefix has passed column `j`. */
  lemma {:induction false} DotIdentityRight(a: Matrix, i: nat, j: nat, k: nat)
    requires Valid(a) && i < a.rows && j < a.cols && k <= a.cols
    ensures Dot(a, Identity(a.cols), i, j, k) == if j < k then Val(a, i, j) else 0
  {
    if k > 0 {
      DotIdentityRight(a, i, j, k - 1);
    }
  }

  /** Against the identity on the left, the dot-product prefix picks out
      `a(i, j)` once the prefix has passed row `i`. */
  lemma {:induction false} DotIdentityLeft(a: Matrix, i: nat, j: nat, k: nat)
    requires Valid(a) && i < a.rows && j < a.cols && k <= a.rows
    ensures Dot(Identity(a.rows), a, i, j, k) == if i < k then Val(a, i, j) else 0
  {
    if k > 0 {
      DotIdentityLeft(a, i, j, k - 1);
    }
  }

  /** `Mul(A, I) == A` and `Mul(I, A) == A`. */
  lemma MulIdentity(a: Matrix)
    requires Valid(a)
    ensures Mul(a, Identity(a.cols)) == a
    ensures Mul(Identity(a.rows), a) == a
  {
    forall i: nat, j: nat | i < a.rows && j < a.cols
      ensures Val(Mul(a, Identity(a.cols)), i, j) == Val(a, i, j)
      ensures Val(Mul(Identity(a.rows), a), i, j) == Val(a, i, j)
    {
      DotIdentityRight(a, i, j, a.cols);
      DotIdentityLeft(a, i, j, a.rows);
    }
    Extensionality(Mul(a, Identity(a.cols)), a);
    Extensionality(Mul(Identity(a.rows), a), a);
  }

  /** `t` is the transpose of `m`, element by element. */
  ghost predicate IsTransposeOf(t: Matrix, m: Matrix)
    requires Valid(m)
  {
    && Valid(t) && t.rows == m.cols && t.cols == m.rows
    && forall r: nat, c: nat :: r < m.rows && c < m.cols ==> Val(t, c, r) == Val(m, r, c)
  }

  /** The dot product of `B^T` and `A^T` runs over the same products as
      that of `A` and `B`. */
  lemma {:induction false} DotTranspose(a: Matrix, b: Matrix, at: Matrix, bt: Matrix, i: nat, j: nat, k: nat)
    requires Conformable(a, b) && i < a.rows && j < b.cols && k <= a.cols
    requires IsTransposeOf(at, a) && IsTransposeOf(bt, b)
    ensures Dot(bt, at, j, i, k) == Dot(a, b, i, j, k)
  {
    if k > 0 {
      DotTranspose(a, b, at, bt, i, j, k - 1);
      assert Val(bt, j, k - 1) == Val(b, k - 1, j);
      assert Val(at, k - 1, i) == Val(a, i, k - 1);
    }
  }

  /** `(A B)^T == B^T A^T`. */
  lemma TransposeMul(a: Matrix, b: Matrix)
    requires Conformable(a, b)
    ensures Transpose(Mul(a, b)) == Mul(Transpose(b), Transpose(a))
  {
    var lhs := Transpose(Mul(a, b));
    var rhs := Mul(Transpose(b), Transpose(a));
    forall j: nat, i: nat | j < b.cols && i < a.rows
      ensures Val(lhs, j, i) == Val(rhs, j, i)
    {
      assert Val(lhs, j, i) == Val(Mul(a, b), i, j);
      DotTranspose(a, b, Transpose(a), Transpose(b), i, j, a.cols);
    }
    Extensionality(lhs, rhs);
  }

  /** The dot-product prefix is additive in its right operand. */
  lemma {:induction false} DotAddRight(a: Matrix, b: Matrix, c: Matrix, i: nat, j: nat, k: nat)
    requires Conformable(a, b) && Valid(c) && c.rows == b.rows && c.cols == b.cols
    requires i < a.rows && j < b.cols && k <= a.cols
    ensures Dot(a, Add(b, c), i, j, k) == Dot(a, b, i, j, k) + Dot(a, c, i, j, k)
  {
    if k > 0 {
      DotAddRight(a, b, c, i, j, k - 1);
      var x, y, z := Val(a, i, k - 1), Val(b, k - 1, j), Val(c, k - 1, j);
      assert Val(Add(b, c), k - 1, j) == y + z;
      Distribute(x, y, z);
    }
  }

  /** `Mul(A, B + C) == Mul(A, B) + Mul(A, C)`. */
  lemma MulDistributesOverAdd(a: Matrix, b: Matrix, c: Matrix)
    requires Conformable(a, b) && Valid(c) && c.rows == b.rows && c.cols == b.cols
    ensures Mul(a, Add(b, c)) == Add(Mul(a, b), Mul(a, c))
  {
    forall i: nat, j: nat | i < a.rows && j < b.cols
      ensures Val(Mul(a, Add(b, c)), i, j) == Val(Add(Mul(a, b), Mul(a, c)), i, j)
    {
      DotAddRight(a, b, c, i, j, a.cols);
    }
    Extensionality(Mul(a, Add(b, c)), Add(Mul(a, b), Mul(a, c)));
  }

  /** Each dot-product prefix splits over a sum in the left operand. */
  lemma {:induction false} DotAddLeft(a: Matrix, b: Matrix, c: Matrix, i: nat, j: nat, k: nat)
    requires Conformable(a, c) && Valid(b) && b.rows == a.rows && b.cols == a.cols
    requires i < a.rows && j < c.cols && k <= a.cols
    ensures Dot(Add(a, b), c, i, j, k) == Dot(a, c, i, j, k) + Dot(b, c, i, j, k)
  {
    if k > 0 {
      DotAddLeft(a, b, c, i, j, k - 1);
      var x, y, z := Val(c, k - 1, j), Val(a, i, k - 1), Val(b, i, k - 1);
      assert Val(Add(a, b), i, k - 1) == y + z;
      Distribute(x, y, z);
    }
  }

  /** `Mul(A + B, C) == Mul(A, C) + Mul(B, C)`. */
  lemma MulDistributesOverAddLeft(a: Matrix, b: Matrix, c: Matrix)
    requires Conformable(a, c) && Valid(b) && b.rows == a.rows && b.cols == a.cols
    ensures Mul(Add(a, b), c) == Add(Mul(a, c), Mul(b, c))
  {
    forall i: nat, j: nat | i < a.rows && j < c.cols
      ensures Val(Mul(Add(a, b), c), i, j) == Val(Add(Mul(a, c), Mul(b, c)), i, j)
    {
      DotAddLeft(a, b, c, i, j, a.cols);
    }
    Extensionality(Mul(Add(a, b), c), Add(Mul(a, c), Mul(b, c)));
  }
}
