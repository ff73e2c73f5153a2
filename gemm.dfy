/**
 * What `Matrix * Matrix` computes.  The source multiplies a K-by-M matrix
 * `self` by an N-by-K matrix `other` (the shared extent K is the inner
 * dimension) and returns an N-by-M matrix, by a single call to the BLAS routine
 * `cblas_sgemm`.  This module gives
 *   - Product: the cell-wise reference definition, cell [j, i] of the result
 *     being the sum over l < K of self[[l, i]] * other[[j, l]];
 *   - SgemmRowMajor: the contract the BLAS documents for a row-major GEMM
 *     with explicit leading dimensions;
 * and proves that the arguments the source passes to the BLAS make the two
 * agree, together with the expected outputs of the source's unit tests.
 */
module Gemm {
  import opened Layout
  import opened Transposition

  /** Sum of the elements of s. */
  function Sum(s: seq<int>): int
  {
    if |s| == 0 then 0 else Sum(s[..|s| - 1]) + s[|s| - 1]
  }

  /** The k terms self[[l, i]] * other[[j, l]] whose sum is cell [j, i] of the product. */
  function ProductTerms(a: seq<int>, k: nat, m: nat, b: seq<int>, n: nat, j: nat, i: nat): seq<int>
    requires |a| == k * m && |b| == n * k && j < n && i < m
  {
    seq(k, l requires 0 <= l < k => Cell(a, k, m, l, i) * Cell(b, n, k, j, l))
  }

  /** Reference definition of `self * other` for a k-by-m `self` and an n-by-k `other`. */
  function Product(a: seq<int>, k: nat, m: nat, b: seq<int>, n: nat): (r: seq<int>)
    requires |a| == k * m && |b| == n * k
    ensures |r| == n * m
  {
    seq(n * m, p requires 0 <= p < n * m =>
      SplitInBounds(n, m, p);
      Sum(ProductTerms(a, k, m, b, n, Split(n, p).0, Split(n, p).1)))
  }

  /** Cell [j, i] of the product is the sum over l < k of a[[l, i]] * b[[j, l]]. */
  lemma ProductAt(a: seq<int>, k: nat, m: nat, b: seq<int>, n: nat, j: nat, i: nat)
    requires |a| == k * m && |b| == n * k && j < n && i < m
    ensures Cell(Product(a, k, m, b, n), n, m, j, i) == Sum(ProductTerms(a, k, m, b, n, j, i))
  {
    OffsetInBounds(n, m, j, i);
    SplitOffset(n, j, i);
  }

  /** The terms A[i*lda + l] * B[l*ldb + j] of entry (i, j) of a row-major A*B. */
  function RowColumnTerms(rows: nat, inner: nat, cols: nat, a: seq<int>, lda: nat,
                          b: seq<int>, ldb: nat, i: nat, j: nat): seq<int>
    requires inner <= lda && |a| == rows * lda
    requires cols <= ldb && |b| == inner * ldb
    requires i < rows && j < cols
  {
    seq(inner, l requires 0 <= l < inner =>
      OffsetInBounds(lda, rows, l, i);
      OffsetInBounds(ldb, inner, j, l);
      a[i * lda + l] * b[l * ldb + j])
  }

  /**
   * The row-major, non-transposed single-precision GEMM of the BLAS
   * (`cblas_sgemm` with CblasRowMajor, CblasNoTrans, CblasNoTrans):
   * C := alpha*A*B + beta*C, where A is rows-by-inner with row stride lda, B is
   * inner-by-cols with row stride ldb and C is rows-by-cols with row stride
   * ldc.  Entry (i, j) of a row-major operand with stride ld sits at i*ld + j;
   * the positions of a row of C past column cols are left alone.
   */
  function SgemmRowMajor(rows: nat, cols: nat, inner: nat, alpha: int, a: seq<int>, lda: nat,
                         b: seq<int>, ldb: nat, beta: int, c: seq<int>, ldc: nat): (r: seq<int>)
    requires inner <= lda && |a| == rows * lda
    requires cols <= ldb && |b| == inner * ldb
    requires cols <= ldc && |c| == rows * ldc
    ensures |r| == |c|
  {
    seq(|c|, p requires 0 <= p < |c| =>
      SplitInBounds(ldc, rows, p);
      var i, j := p / ldc, p % ldc;
      if j < cols then alpha * Sum(RowColumnTerms(rows, inner, cols, a, lda, b, ldb, i, j)) + beta * c[p]
      else c[p])
  }

  /**
   * The call in `Mul`: row-major GEMM with M rows, N columns, inner dimension
   * K, alpha 1, beta 0 and leading dimensions K, N, N, into a zeroed N*M
   * buffer, yields exactly the cell-wise product of `self` and `other`.
   */
  lemma SgemmComputesProduct(a: seq<int>, k: nat, m: nat, b: seq<int>, n: nat)
    requires |a| == k * m && |b| == n * k
    ensures SgemmRowMajor(m, n, k, 1, a, k, b, n, 0, ZeroBuffer(n * m), n) == Product(a, k, m, b, n)
  {
    var c := ZeroBuffer(n * m);
    var g := SgemmRowMajor(m, n, k, 1, a, k, b, n, 0, c, n);
    var r := Product(a, k, m, b, n);
    forall p | 0 <= p < n * m
      ensures g[p] == r[p]
    {
      SplitInBounds(n, m, p);
      var j, i := p % n, p / n;
      var u := RowColumnTerms(m, k, n, a, k, b, n, i, j);
      var v := ProductTerms(a, k, m, b, n, j, i);
      forall l | 0 <= l < k
        ensures u[l] == v[l]
      {
        OffsetInBounds(k, m, l, i);
        OffsetInBounds(n, k, j, l);
      }
      assert u == v;
    }
  }

  /** The k-by-k identity matrix. */
  function Identity(k: nat): (r: seq<int>)
    ensures |r| == k * k
  {
    seq(k * k, p requires 0 <= p < k * k =>
      SplitInBounds(k, k, p);
      if Split(k, p).0 == Split(k, p).1 then 1 else 0)
  }

  lemma IdentityCell(k: nat, x: nat, y: nat)
    requires x < k && y < k
    ensures Cell(Identity(k), k, k, x, y) == if x == y then 1 else 0
  {
    OffsetInBounds(k, k, x, y);
    SplitOffset(k, x, y);
  }

  lemma SumZero(s: seq<int>)
    requires forall l | 0 <= l < |s| :: s[l] == 0
    ensures Sum(s) == 0
  {
    if |s| != 0 {
      SumZero(s[..|s| - 1]);
    }
  }

  /** A sum with a single non-zero term is that term. */
  lemma {:induction false} SumSingle(s: seq<int>, t: nat)
    requires t < |s|
    requires forall l | 0 <= l < |s| && l != t :: s[l] == 0
    ensures Sum(s) == s[t]
  {
    var init := s[..|s| - 1];
    if t == |s| - 1 {
      SumZero(init);
    } else {
      SumSingle(init, t);
    }
  }

  /** Multiplying by the identity on the right gives back the left operand. */
  lemma ProductIdentityRight(a: seq<int>, k: nat, m: nat)
    requires |a| == k * m
    ensures Product(a, k, m, Identity(k), k) == a
  {
    var r := Product(a, k, m, Identity(k), k);
    forall p | 0 <= p < k * m
      ensures r[p] == a[p]
    {
      SplitInBounds(k, m, p);
      var j, i := p % k, p / k;
      var terms := ProductTerms(a, k, m, Identity(k), k, j, i);
      forall l | 0 <= l < k
        ensures terms[l] == if l == j then Cell(a, k, m, j, i) else 0
      {
        IdentityCell(k, j, l);
      }
      SumSingle(terms, j);
      ProductAt(a, k, m, Identity(k), k, j, i);
    }
  }

  /** Multiplying the identity by a matrix gives back that matrix. */
  lemma ProductIdentityLeft(b: seq<int>, n: nat, k: nat)
    requires |b| == n * k
    ensures Product(Identity(k), k, k, b, n) == b
  {
    var r := Product(Identity(k), k, k, b, n);
    forall p | 0 <= p < n * k
      ensures r[p] == b[p]
    {
      SplitInBounds(n, k, p);
      var j, i := p % n, p / n;
      var terms := ProductTerms(Identity(k), k, k, b, n, j, i);
      forall l | 0 <= l < k
        ensures terms[l] == if l == i then Cell(b, n, k, j, i) else 0
      {
        IdentityCell(k, l, i);
      }
      SumSingle(terms, i);
      ProductAt(Identity(k), k, k, b, n, j, i);
    }
  }

  /** Transposing a product multiplies the transposed factors in swapped order. */
  lemma TransposeProduct(a: seq<int>, k: nat, m: nat, b: seq<int>, n: nat)
    requires |a| == k * m && |b| == n * k
    ensures Transposed(Product(a, k, m, b, n), n, m)
            == Product(Transposed(b, n, k), k, n, Transposed(a, k, m), m)
  {
    var bt, at := Transposed(b, n, k), Transposed(a, k, m);
    var lhs := Transposed(Product(a, k, m, b, n), n, m);
    var rhs := Product(bt, k, n, at, m);
    forall p | 0 <= p < m * n
      ensures lhs[p] == rhs[p]
    {
      SplitInBounds(m, n, p);
      var i, j := p % m, p / m;
      TransposedCell(Product(a, k, m, b, n), n, m, j, i);
      ProductAt(a, k, m, b, n, j, i);
      ProductAt(bt, k, n, at, m, i, j);
      var u := ProductTerms(a, k, m, b, n, j, i);
      var v := ProductTerms(bt, k, n, at, m, i, j);
      forall l | 0 <= l < k
        ensures u[l] == v[l]
      {
        TransposedCell(b, n, k, j, l);
        TransposedCell(a, k, m, l, i);
      }
      assert u == v;
    }
  }

  lemma ListFour(r: seq<int>)
    requires |r| == 4
    ensures r == [r[0], r[1], r[2], r[3]]
  {
  }

  lemma ListEight(r: seq<int>)
    requires |r| == 8
    ensures r == [r[0], r[1], r[2], r[3], r[4], r[5], r[6], r[7]]
  {
  }

  /**
   * Position p = j + i*n of a product whose inner dimension is 3 holds
   * x0*y0 + x1*y1 + x2*y2 when row i of `self` (starting at q = 3*i) holds
   * x0, x1, x2 and column j of `other` holds y0, y1, y2.
   */
  lemma ProductAtInnerThree(a: seq<int>, m: nat, b: seq<int>, n: nat, j: nat, i: nat, p: nat, q: nat,
                            x0: int, x1: int, x2: int, y0: int, y1: int, y2: int)
    requires |a| == 3 * m && |b| == n * 3 && j < n && i < m
    requires p == j + i * n && q == 3 * i && q + 2 < |a| && j + 2 * n < |b|
    requires a[q] == x0 && a[q + 1] == x1 && a[q + 2] == x2
    requires b[j] == y0 && b[j + n] == y1 && b[j + 2 * n] == y2
    ensures p < n * m && Product(a, 3, m, b, n)[p] == x0 * y0 + x1 * y1 + x2 * y2
  {
    OffsetInBounds(n, m, j, i);
    ProductAt(a, 3, m, b, n, j, i);
    var s := ProductTerms(a, 3, m, b, n, j, i);
    SumOfThree(s);
    assert s[0] == x0 * y0 by { OffsetInBounds(3, m, 0, i); OffsetInBounds(n, 3, j, 0); }
    assert s[1] == x1 * y1 by { OffsetInBounds(3, m, 1, i); OffsetInBounds(n, 3, j, 1); }
    assert s[2] == x2 * y2 by { OffsetInBounds(3, m, 2, i); OffsetInBounds(n, 3, j, 2); }
  }

  lemma SumOfThree(s: seq<int>)
    requires |s| == 3
    ensures Sum(s) == s[0] + s[1] + s[2]
  {
    assert s[..2][..1] == s[..1];
    assert Sum(s) == Sum(s[..2]) + s[2];
    assert Sum(s[..2]) == Sum(s[..1]) + s[1];
  }

  /** Cell [0, 0] of the expected output of the source's `mul` unit test. */
  lemma MulTestVectorAt0(a: seq<int>, b: seq<int>)
    requires a == [1, 2, 3, 4, 5, 6] && b == [10, 11, 20, 21, 30, 31]
    ensures Product(a, 3, 2, b, 2)[0] == 140
  {
    ProductAtInnerThree(a, 2, b, 2, 0, 0, 0, 0, 1, 2, 3, 10, 20, 30);
  }

  /** Cell [1, 0] of the expected output of the source's `mul` unit test. */
  lemma MulTestVectorAt1(a: seq<int>, b: seq<int>)
    requires a == [1, 2, 3, 4, 5, 6] && b == [10, 11, 20, 21, 30, 31]
    ensures Product(a, 3, 2, b, 2)[1] == 146
  {
    ProductAtInnerThree(a, 2, b, 2, 1, 0, 1, 0, 1, 2, 3, 11, 21, 31);
  }

  /** Cell [0, 1] of the expected output of the source's `mul` unit test. */
  lemma MulTestVectorAt2(a: seq<int>, b: seq<int>)
    requires a == [1, 2, 3, 4, 5, 6] && b == [10, 11, 20, 21, 30, 31]
    ensures Product(a, 3, 2, b, 2)[2] == 320
  {
    ProductAtInnerThree(a, 2, b, 2, 0, 1, 2, 3, 4, 5, 6, 10, 20, 30);
  }

  /** Cell [1, 1] of the expected output of the source's `mul` unit test. */
  lemma MulTestVectorAt3(a: seq<int>, b: seq<int>)
    requires a == [1, 2, 3, 4, 5, 6] && b == [10, 11, 20, 21, 30, 31]
    ensures Product(a, 3, 2, b, 2)[3] == 335
  {
    ProductAtInnerThree(a, 2, b, 2, 1, 1, 3, 3, 4, 5, 6, 11, 21, 31);
  }

  /** The expected output of the source's `mul` unit test. */
  lemma MulTestVector(a: seq<int>, b: seq<int>)
    requires a == [1, 2, 3, 4, 5, 6] && b == [10, 11, 20, 21, 30, 31]
    ensures Product(a, 3, 2, b, 2) == [140, 146, 320, 335]
  {
    MulTestVectorAt0(a, b);
    MulTestVectorAt1(a, b);
    MulTestVectorAt2(a, b);
    MulTestVectorAt3(a, b);
    ListFour(Product(a, 3, 2, b, 2));
  }

  /** Cell [0, 0] of the expected output of the source's `mul2` unit test. */
  lemma Mul2TestVectorAt0(a: seq<int>, b: seq<int>)
    requires |a| == 12 && (forall t | 0 <= t < 12 :: a[t] == t + 1) && b == [3, 6, 8, 10, 9, 17]
    ensures Product(a, 3, 4, b, 2)[0] == 46
  {
    ProductAtInnerThree(a, 4, b, 2, 0, 0, 0, 0, 1, 2, 3, 3, 8, 9);
  }

  /** Cell [1, 0] of the expected output of the source's `mul2` unit test. */
  lemma Mul2TestVectorAt1(a: seq<int>, b: seq<int>)
    requires |a| == 12 && (forall t | 0 <= t < 12 :: a[t] == t + 1) && b == [3, 6, 8, 10, 9, 17]
    ensures Product(a, 3, 4, b, 2)[1] == 77
  {
    ProductAtInnerThree(a, 4, b, 2, 1, 0, 1, 0, 1, 2, 3, 6, 10, 17);
  }

  /** Cell [0, 1] of the expected output of the source's `mul2` unit test. */
  lemma Mul2TestVectorAt2(a: seq<int>, b: seq<int>)
    requires |a| == 12 && (forall t | 0 <= t < 12 :: a[t] == t + 1) && b == [3, 6, 8, 10, 9, 17]
    ensures Product(a, 3, 4, b, 2)[2] == 106
  {
    ProductAtInnerThree(a, 4, b, 2, 0, 1, 2, 3, 4, 5, 6, 3, 8, 9);
  }

  /** Cell [1, 1] of the expected output of the source's `mul2` unit test. */
  lemma Mul2TestVectorAt3(a: seq<int>, b: seq<int>)
    requires |a| == 12 && (forall t | 0 <= t < 12 :: a[t] == t + 1) && b == [3, 6, 8, 10, 9, 17]
    ensures Product(a, 3, 4, b, 2)[3] == 176
  {
    ProductAtInnerThree(a, 4, b, 2, 1, 1, 3, 3, 4, 5, 6, 6, 10, 17);
  }

  /** Cell [0, 2] of the expected output of the source's `mul2` unit test. */
  lemma Mul2TestVectorAt4(a: seq<int>, b: seq<int>)
    requires |a| == 12 && (forall t | 0 <= t < 12 :: a[t] == t + 1) && b == [3, 6, 8, 10, 9, 17]
    ensures Product(a, 3, 4, b, 2)[4] == 166
  {
    ProductAtInnerThree(a, 4, b, 2, 0, 2, 4, 6, 7, 8, 9, 3, 8, 9);
  }

  /** Cell [1, 2] of the expected output of the source's `mul2` unit test. */
  lemma Mul2TestVectorAt5(a: seq<int>, b: seq<int>)
    requires |a| == 12 && (forall t | 0 <= t < 12 :: a[t] == t + 1) && b == [3, 6, 8, 10, 9, 17]
    ensures Product(a, 3, 4, b, 2)[5] == 275
  {
    ProductAtInnerThree(a, 4, b, 2, 1, 2, 5, 6, 7, 8, 9, 6, 10, 17);
  }

  /** Cell [0, 3] of the expected output of the source's `mul2` unit test. */
  lemma Mul2TestVectorAt6(a: seq<int>, b: seq<int>)
    requires |a| == 12 && (forall t | 0 <= t < 12 :: a[t] == t + 1) && b == [3, 6, 8, 10, 9, 17]
    ensures Product(a, 3, 4, b, 2)[6] == 226
  {
    ProductAtInnerThree(a, 4, b, 2, 0, 3, 6, 9, 10, 11, 12, 3, 8, 9);
  }

  /** Cell [1, 3] of the expected output of the source's `mul2` unit test. */
  lemma Mul2TestVectorAt7(a: seq<int>, b: seq<int>)
    requires |a| == 12 && (forall t | 0 <= t < 12 :: a[t] == t + 1) && b == [3, 6, 8, 10, 9, 17]
    ensures Product(a, 3, 4, b, 2)[7] == 374
  {
    ProductAtInnerThree(a, 4, b, 2, 1, 3, 7, 9, 10, 11, 12, 6, 10, 17);
  }

  /** The expected output of the source's `mul2` unit test. */
  lemma Mul2TestVector(a: seq<int>, b: seq<int>)
    requires |a| == 12 && (forall t | 0 <= t < 12 :: a[t] == t + 1) && b == [3, 6, 8, 10, 9, 17]
    ensures Product(a, 3, 4, b, 2) == [46, 77, 106, 176, 166, 275, 226, 374]
  {
    Mul2TestVectorAt0(a, b);
    Mul2TestVectorAt1(a, b);
    Mul2TestVectorAt2(a, b);
    Mul2TestVectorAt3(a, b);
    Mul2TestVectorAt4(a, b);
    Mul2TestVectorAt5(a, b);
    Mul2TestVectorAt6(a, b);
    Mul2TestVectorAt7(a, b);
    ListEight(Product(a, 3, 4, b, 2));
  }
}
