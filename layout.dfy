/**
 * The storage layout of a `Matrix<T, K, M>`: a flat buffer of K*M elements in
 * which cell [n0, n1] (n0 < K, n1 < M) lives at offset n0 + n1*K, so that the
 * first index n0 is the contiguous one.  This module states the offset map, its
 * inverse, the facts that make checked indexing safe (every in-bounds cell has
 * its own buffer position, and every buffer position belongs to a cell), and
 * what a single-cell write does to the cells.
 */
module Layout {

  /** Flat offset of cell [n0, n1] in a matrix whose first extent is k. */
  function Offset(k: nat, n0: nat, n1: nat): nat
  {
    n0 + n1 * k
  }

  /** The cell a flat position p belongs to: the inverse of Offset. */
  function Split(k: nat, p: nat): (c: (nat, nat))
    requires k > 0
    ensures c.0 < k && Offset(k, c.0, c.1) == p
  {
    (p % k, p / k)
  }

  /** A buffer of len zero elements, what `zeros()` fills a matrix with. */
  function ZeroBuffer(len: nat): (r: seq<int>)
    ensures |r| == len && forall i | 0 <= i < len :: r[i] == 0
  {
    seq(len, _ => 0)
  }

  lemma MulMonotone(a: nat, b: nat, k: nat)
    requires a <= b
    ensures a * k <= b * k
  {
  }

  /** An in-bounds cell never leaves the buffer of k*m elements. */
  lemma OffsetInBounds(k: nat, m: nat, n0: nat, n1: nat)
    requires n0 < k && n1 < m
    ensures Offset(k, n0, n1) < k * m
  {
    MulMonotone(n1, m - 1, k);
    assert (m - 1) * k + k == m * k;
  }

  /** Split undoes Offset on every cell whose first index is below k. */
  lemma SplitOffset(k: nat, n0: nat, n1: nat)
    requires n0 < k
    ensures Split(k, Offset(k, n0, n1)) == (n0, n1)
  {
    var c := Split(k, Offset(k, n0, n1));
    if c.1 < n1 {
      MulMonotone(c.1 + 1, n1, k);
      assert false;
    } else if c.1 > n1 {
      MulMonotone(n1 + 1, c.1, k);
      assert false;
    }
  }

  /**
   * Every position of a k*m buffer belongs to an in-bounds cell: together with
   * Split's ensures and SplitOffset this makes Offset a bijection between the
   * cells [0..k) x [0..m) and the positions [0..k*m).
   */
  lemma SplitInBounds(k: nat, m: nat, p: nat)
    requires p < k * m
    ensures k > 0 && Split(k, p).1 < m
  {
    if k == 0 {
      assert false;
    }
    var c := Split(k, p);
    if c.1 >= m {
      MulMonotone(m, c.1, k);
      assert false;
    }
  }

  /** Two in-bounds cells share a buffer position exactly when they are the same cell. */
  lemma OffsetInjective(k: nat, n0: nat, n1: nat, p0: nat, p1: nat)
    requires n0 < k && p0 < k
    ensures Offset(k, n0, n1) == Offset(k, p0, p1) <==> n0 == p0 && n1 == p1
  {
    SplitOffset(k, n0, n1);
    SplitOffset(k, p0, p1);
  }

  /** The value of cell [n0, n1] of a k-by-m buffer s: the body of `get_unchecked`. */
  function Cell(s: seq<int>, k: nat, m: nat, n0: nat, n1: nat): int
    requires |s| == k * m && n0 < k && n1 < m
  {
    OffsetInBounds(k, m, n0, n1);
    s[Offset(k, n0, n1)]
  }

  /**
   * Writing x at the position of cell [n0, n1] changes that cell to x and
   * leaves every other cell as it was.
   */
  lemma UpdateCell(s: seq<int>, k: nat, m: nat, n0: nat, n1: nat, x: int, p0: nat, p1: nat)
    requires |s| == k * m && n0 < k && n1 < m && p0 < k && p1 < m
    ensures Offset(k, n0, n1) < |s|
    ensures Cell(s[Offset(k, n0, n1) := x], k, m, p0, p1)
            == if p0 == n0 && p1 == n1 then x else Cell(s, k, m, p0, p1)
  {
    OffsetInBounds(k, m, n0, n1);
    OffsetInBounds(k, m, p0, p1);
    var q, r := Offset(k, n0, n1), Offset(k, p0, p1);
    OffsetInjective(k, n0, n1, p0, p1);
    assert Cell(s[q := x], k, m, p0, p1) == s[q := x][r];
    assert Cell(s, k, m, p0, p1) == s[r];
  }
}
