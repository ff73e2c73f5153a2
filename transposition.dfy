/**
 * What `Matrix::transpose` computes, as a function on flat buffers: the
 * transpose of a K-by-M matrix is the M-by-K matrix whose cell [y, x] holds
 * cell [x, y] of the original.
 */
module Transposition {
  import opened Layout

  /** The flat buffer of the m-by-k transpose of the k-by-m buffer s. */
  function Transposed(s: seq<int>, k: nat, m: nat): (r: seq<int>)
    requires |s| == k * m
    ensures |r| == m * k
  {
    seq(m * k, p requires 0 <= p < m * k =>
      SplitInBounds(m, k, p);
      Cell(s, k, m, Split(m, p).1, Split(m, p).0))
  }

  /** Cell [y, x] of the transpose is cell [x, y] of the original. */
  lemma TransposedCell(s: seq<int>, k: nat, m: nat, x: nat, y: nat)
    requires |s| == k * m && x < k && y < m
    ensures Cell(Transposed(s, k, m), m, k, y, x) == Cell(s, k, m, x, y)
  {
    OffsetInBounds(m, k, y, x);
    SplitOffset(m, y, x);
  }

  /** Transposing twice gives back the original buffer. */
  lemma TransposeTwice(s: seq<int>, k: nat, m: nat)
    requires |s| == k * m
    ensures Transposed(Transposed(s, k, m), m, k) == s
  {
    var t := Transposed(s, k, m);
    var tt := Transposed(t, m, k);
    forall p | 0 <= p < k * m
      ensures tt[p] == s[p]
    {
      SplitInBounds(k, m, p);
      var c := Split(k, p);
      TransposedCell(t, m, k, c.1, c.0);
      TransposedCell(s, k, m, c.0, c.1);
      assert tt[p] == Cell(tt, k, m, c.0, c.1);
    }
  }
}
