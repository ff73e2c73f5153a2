/**
 * `Matrix<T, K, M>`: a K-by-M matrix stored in a flat buffer of K*M elements,
 * cell [n0, n1] at offset n0 + n1*K (see module Layout).  The buffer is an
 * array the operations read and write in place; the const generics K and M
 * become the fields k and m, and the type equalities the compiler demands
 * (the inner extents of a product agree) become preconditions.  A panic of
 * the source is an `OutOfBounds` result that leaves the matrix unchanged.
 */
module MatrixStable {
  import opened Layout
  import opened Transposition
  import opened Gemm

  /** The outcome of a bounds-checked access: a value, or the panic with its index and bounds. */
  datatype Checked<T> = Ok(value: T) | OutOfBounds(n0: nat, n1: nat, k: nat, m: nat)

  class Matrix {
    const k: nat
    const m: nat
    const data: array<int>

    /** The buffer holds exactly K*M elements. */
    ghost predicate Valid()
    {
      data.Length == k * m
    }

    /** The elements of the buffer, in storage order. */
    function Contents(): seq<int>
      reads data
    {
      data[..]
    }

    /** `zeros()`: a k-by-m matrix whose every cell is 0. */
    constructor Zeros(k: nat, m: nat)
      ensures this.k == k && this.m == m && Valid() && fresh(data)
      ensures Contents() == ZeroBuffer(k * m)
      ensures forall n0: nat, n1: nat | n0 < k && n1 < m :: Cell(Contents(), k, m, n0, n1) == 0
    {
      this.k, this.m := k, m;
      data := new int[k * m](_ => 0);
      new;
      forall n0: nat, n1: nat | n0 < k && n1 < m
        ensures Cell(Contents(), k, m, n0, n1) == 0
      {
        OffsetInBounds(k, m, n0, n1);
      }
    }

    /** The `From` conversions: a matrix whose buffer is v, unchanged. */
    constructor FromBuffer(k: nat, m: nat, v: seq<int>)
      requires |v| == k * m
      ensures this.k == k && this.m == m && Valid() && fresh(data)
      ensures Contents() == v
    {
      this.k, this.m := k, m;
      data := new int[k * m](p requires 0 <= p < k * m => v[p]);
    }

    /**
     * The derived `Clone` (and the implicit `Copy`): a matrix of the same
     * extents with a buffer of its own holding the same elements, so that a
     * later write to either one leaves the other as it was.
     */
    constructor Clone(a: Matrix)
      requires a.Valid()
      ensures k == a.k && m == a.m && Valid() && fresh(data)
      ensures Contents() == a.Contents()
    {
      k, m := a.k, a.m;
      data := new int[a.k * a.m](p requires 0 <= p < a.k * a.m reads a.data => a.data[p]);
    }

    /**
     * `get_unchecked`: the element at offset n0 + n1*K, with no bounds check of
     * its own; the caller guarantees that the offset is inside the buffer.
     * For an in-bounds index that element is cell [n0, n1].
     */
    method GetUnchecked(n0: nat, n1: nat) returns (x: int)
      requires Valid() && Offset(k, n0, n1) < k * m
      ensures x == Contents()[Offset(k, n0, n1)]
      ensures n0 < k && n1 < m ==> x == Cell(Contents(), k, m, n0, n1)
    {
      x := data[n0 + n1 * k];
    }

    /**
     * A write through `get_unchecked_mut`: the element at offset n0 + n1*K
     * becomes x and nothing else changes.  For an in-bounds index exactly cell
     * [n0, n1] changes.
     */
    method SetUnchecked(n0: nat, n1: nat, x: int)
      requires Valid() && Offset(k, n0, n1) < k * m
      modifies data
      ensures Contents() == old(Contents())[Offset(k, n0, n1) := x]
      ensures n0 < k && n1 < m ==>
        forall p0: nat, p1: nat | p0 < k && p1 < m ::
          Cell(Contents(), k, m, p0, p1) == if p0 == n0 && p1 == n1 then x else Cell(old(Contents()), k, m, p0, p1)
    {
      data[n0 + n1 * k] := x;
      if n0 < k && n1 < m {
        forall p0: nat, p1: nat | p0 < k && p1 < m
          ensures Cell(Contents(), k, m, p0, p1) == if p0 == n0 && p1 == n1 then x else Cell(old(Contents()), k, m, p0, p1)
        {
          UpdateCell(old(Contents()), k, m, n0, n1, x, p0, p1);
        }
      }
    }

    /**
     * `self[[n0, n1]]`: panics exactly when n0 >= K or n1 >= M, and otherwise
     * yields cell [n0, n1].
     */
    method Index(n0: nat, n1: nat) returns (r: Checked<int>)
      requires Valid()
      ensures r.OutOfBounds? <==> !(n0 < k && n1 < m)
      ensures r.OutOfBounds? ==> r == OutOfBounds(n0, n1, k, m)
      ensures r.Ok? ==> n0 < k && n1 < m && r.value == Cell(Contents(), k, m, n0, n1)
    {
      if !(n0 < k && n1 < m) {
        return OutOfBounds(n0, n1, k, m);
      }
      OffsetInBounds(k, m, n0, n1);
      var x := GetUnchecked(n0, n1);
      r := Ok(x);
    }

    /**
     * `self[[n0, n1]] = x`: panics, changing nothing, exactly when n0 >= K or
     * n1 >= M; otherwise cell [n0, n1] becomes x and every other cell keeps
     * its value.
     */
    method IndexMut(n0: nat, n1: nat, x: int) returns (r: Checked<()>)
      requires Valid()
      modifies data
      ensures r.OutOfBounds? <==> !(n0 < k && n1 < m)
      ensures r.OutOfBounds? ==> r == OutOfBounds(n0, n1, k, m) && Contents() == old(Contents())
      ensures r.Ok? ==>
        forall p0: nat, p1: nat | p0 < k && p1 < m ::
          Cell(Contents(), k, m, p0, p1) == if p0 == n0 && p1 == n1 then x else Cell(old(Contents()), k, m, p0, p1)
    {
      if !(n0 < k && n1 < m) {
        return OutOfBounds(n0, n1, k, m);
      }
      OffsetInBounds(k, m, n0, n1);
      SetUnchecked(n0, n1, x);
      r := Ok(());
    }

    /**
     * `transpose()`: a new M-by-K matrix whose cell [y, x] is cell [x, y] of
     * this one, which is left as it was.
     */
    method Transpose() returns (t: Matrix)
      requires Valid()
      ensures fresh(t) && fresh(t.data)
      ensures t.k == m && t.m == k && t.Valid()
      ensures t.Contents() == Transposed(Contents(), k, m)
      ensures forall x: nat, y: nat | x < k && y < m :: Cell(t.Contents(), m, k, y, x) == Cell(Contents(), k, m, x, y)
    {
      ghost var goal := Transposed(Contents(), k, m);
      t := new Matrix.Zeros(m, k);
      for x := 0 to k
        invariant t.k == m && t.m == k && t.Valid() && fresh(t.data)
        invariant x * m <= k * m
        invariant forall p | 0 <= p < x * m :: t.data[p] == goal[p]
      {
        MulMonotone(x + 1, k, m);
        assert x * m + m == (x + 1) * m;
        for y := 0 to m
          invariant x * m + y <= k * m
          invariant forall p | 0 <= p < x * m + y :: t.data[p] == goal[p]
        {
          OffsetInBounds(k, m, x, y);
          OffsetInBounds(m, k, y, x);
          var v := GetUnchecked(x, y);
          TransposedCell(Contents(), k, m, x, y);
          assert v == goal[x * m + y];
          t.SetUnchecked(y, x, v);
        }
      }
      assert t.Contents() == goal;
      forall x: nat, y: nat | x < k && y < m
        ensures Cell(t.Contents(), m, k, y, x) == Cell(Contents(), k, m, x, y)
      {
        TransposedCell(Contents(), k, m, x, y);
      }
    }

    /**
     * `self * other` for a K-by-M `self` and an N-by-K `other`: a new N-by-M
     * matrix, zeroed and then filled by one row-major GEMM call with alpha 1,
     * beta 0 and leading dimensions K, N and N.  Its buffer is the product,
     * cell [j, i] being the sum over l < K of self[[l, i]] * other[[j, l]].
     */
    method Mul(other: Matrix) returns (r: Matrix)
      requires Valid() && other.Valid() && other.m == k
      ensures fresh(r) && fresh(r.data)
      ensures r.k == other.k && r.m == m && r.Valid()
      ensures r.Contents() == Product(Contents(), k, m, other.Contents(), other.k)
    {
      var n := other.k;
      r := new Matrix.Zeros(n, m);
      r.Store(SgemmRowMajor(m, n, k, 1, Contents(), k, other.Contents(), n, 0, r.Contents(), n));
      SgemmComputesProduct(Contents(), k, m, other.Contents(), n);
    }

    /** The BLAS writing its output into the buffer: afterwards the buffer holds v. */
    method Store(v: seq<int>)
      requires |v| == data.Length
      modifies data
      ensures Contents() == v
    {
      forall p | 0 <= p < data.Length {
        data[p] := v[p];
      }
    }
  }

  /**
   * The source's `zero` test: cell [0, 0] of `zeros()` is 0, and `zeros()` has
   * the same buffer as the matrix converted from an all-zero array.
   */
  method ZeroTest() returns (first: Checked<int>, same: bool)
    ensures first == Ok(0) && same
  {
    var z := new Matrix.Zeros(2, 2);
    var n := new Matrix.FromBuffer(2, 2, [0, 0, 0, 0]);
    first := z.Index(0, 0);
    same := z.Contents() == n.Contents();
  }

  /** The source's `mul` test: a 3-by-2 matrix times a 2-by-3 matrix. */
  method MulTest() returns (out: seq<int>)
    ensures out == [140, 146, 320, 335]
  {
    var a := new Matrix.FromBuffer(3, 2, [1, 2, 3, 4, 5, 6]);
    var b := new Matrix.FromBuffer(2, 3, [10, 11, 20, 21, 30, 31]);
    var c := a.Mul(b);
    out := c.Contents();
    MulTestVector(a.Contents(), b.Contents());
  }

  /** The source's `mul2` test: a 3-by-4 matrix times a 2-by-3 matrix. */
  method Mul2Test() returns (out: seq<int>)
    ensures out == [46, 77, 106, 176, 166, 275, 226, 374]
  {
    var a := new Matrix.FromBuffer(3, 4, [1, 2, 3, 4, 5, 6, 7, 8, 9, 10, 11, 12]);
    var b := new Matrix.FromBuffer(2, 3, [3, 6, 8, 10, 9, 17]);
    var c := a.Mul(b);
    out := c.Contents();
    Mul2TestVector(a.Contents(), b.Contents());
  }

  /**
   * A matrix is a value: after `let mut b = a; b[[0, 0]] = 7.;` the matrix `a`
   * still holds its old element.  Here the copy is `Clone`.
   */
  method CopyIsIndependent() returns (original: Checked<int>, copy: Checked<int>)
    ensures original == Ok(1) && copy == Ok(7)
  {
    var a := new Matrix.FromBuffer(2, 1, [1, 2]);
    var b := new Matrix.Clone(a);
    var _ := b.IndexMut(0, 0, 7);
    original := a.Index(0, 0);
    copy := b.Index(0, 0);
  }
}
