# slas `Matrix`: a verified Dafny model

This project models the fixed-size matrix type of the `slas` linear-algebra
crate (`src/matrix_stable.rs`). A `Matrix<T, K, M>` wraps a flat buffer of
K*M elements. Cell `[n0, n1]`, with `n0 < K` and `n1 < M`, is stored at
offset `n0 + n1*K`, so the first index is the contiguous one. The type
provides:

- `zeros`, which gives an all-zero matrix;
- `get_unchecked` and `get_unchecked_mut`, which do no bounds check;
- `Index` and `IndexMut`, which are bounds-checked and panic on a bad index;
- the `From` conversions from a buffer or an array;
- `transpose`, which is a nested loop;
- `Mul` for `f32` matrices, which makes one call to the BLAS routine
  `cblas_sgemm`.

The model is split by concern:

- `layout.dfy` (module `Layout`) covers the offset map and its inverse.
  - `Split` inverts the offset map, so in-bounds cells and buffer positions
    are in one-to-one correspondence.
  - `Cell` is the value of a cell of a flat buffer.
  - There is also a lemma saying what a one-element write does to every cell.
- `transposition.dfy` (module `Transposition`) defines `Transposed`. This is
  the buffer that `transpose` produces, as a function of the input buffer.
  The module proves the cell property and that transposing twice is the
  identity.
- `gemm.dfy` (module `Gemm`) defines the matrix product two ways.
  - `Product` is a cell-wise reference definition: cell `[j, i]` of
    `self * other` is the sum over `l < K` of `self[[l, i]] * other[[j, l]]`.
  - `SgemmRowMajor` states the contract that the BLAS documents for a
    row-major, non-transposed GEMM with explicit leading dimensions.
  - A lemma proves that the arguments `Mul` passes (`M, N, K`, alpha 1,
    `lda = K`, `ldb = N`, beta 0, `ldc = N`, into a zeroed buffer) make
    `SgemmRowMajor` equal to `Product`.
  - The module also proves the identity laws, the transpose-of-a-product law,
    and the expected outputs of the crate's `mul` and `mul2` unit tests.
- `matrix.dfy` (module `MatrixStable`) holds class `Matrix`.
  - The class has the extents `k`, `m` and the buffer `data: array<int>`.
  - Its constructors and methods mirror the Rust operations and are proved
    against the functions above.
  - A panic of `Index`/`IndexMut` is the result `OutOfBounds(n0, n1, k, m)`,
    which carries what the panic message prints. It leaves the matrix
    unchanged.
  - A Rust matrix is a `Copy` value. Here a copy is the explicit `Clone`
    constructor, which gives the new matrix a buffer of its own.
  - `ZeroTest`, `MulTest` and `Mul2Test` replay the crate's unit tests on the
    class.

The const generics `K`, `M` and `N` become the fields `k` and `m` plus
preconditions. Where the Rust compiler unifies them (the inner extent of a
product), the model has a `requires`. Elements are mathematical integers.

## Model

| member | source | states |
|---|---|---|
| Layout.OffsetInBounds | src/matrix_stable.rs:29-34 | An in-bounds cell `[n0, n1]` has offset `n0 + n1*K` below K*M, so the unchecked access behind `index`/`index_mut` stays inside the buffer. |
| Layout.Split | src/matrix_stable.rs:29-34 | Every flat position p is the offset of the cell `(p mod K, p div K)`, whose first index is below K. |
| Layout.SplitOffset | src/matrix_stable.rs:29-34 | `Split` undoes the offset map on every cell with `n0 < K`, so the offset map is injective. |
| Layout.SplitInBounds | src/matrix_stable.rs:29-34 | Every position below K*M belongs to an in-bounds cell (K > 0 and second index below M), so the offset map covers the buffer. |
| Layout.OffsetInjective | src/matrix_stable.rs:29-34 | Two cells with first index below K share an offset if and only if they are the same cell. |
| Layout.UpdateCell | src/matrix_stable.rs:29-31 | Writing x at the offset of cell `[n0, n1]` makes that cell x and leaves every other in-bounds cell unchanged. |
| Transposition.TransposedCell | src/matrix_stable.rs:36-47 | Cell `[y, x]` of the M-by-K transpose is cell `[x, y]` of the K-by-M original. |
| Transposition.TransposeTwice | src/matrix_stable.rs:36-47 | Transposing a K-by-M buffer and then the M-by-K result gives back the original buffer. |
| Gemm.ProductAt | src/matrix_stable.rs:127-156 | Cell `[j, i]` of `self * other` is the sum over `l < K` of `self[[l, i]] * other[[j, l]]`. |
| Gemm.SgemmComputesProduct | src/matrix_stable.rs:136-155 | The row-major GEMM with the source's arguments (M, N, K, alpha 1, lda K, ldb N, beta 0, ldc N, into a zeroed N*M buffer) yields exactly the cell-wise product. |
| Gemm.ProductIdentityRight | src/matrix_stable.rs:127-156 | Multiplying a K-by-M matrix by the K-by-K identity gives back the matrix. |
| Gemm.ProductIdentityLeft | src/matrix_stable.rs:127-156 | Multiplying the K-by-K identity by an N-by-K matrix gives back the matrix. |
| Gemm.TransposeProduct | src/matrix_stable.rs:36-47 | The transpose of `self * other` is the product of the transposed factors in swapped order. |
| Gemm.MulTestVector | src/matrix_stable.rs:171-178 | `[1..6]` as a 3-by-2 matrix times `[10, 11, 20, 21, 30, 31]` as a 2-by-3 matrix is `[140, 146, 320, 335]`. |
| Gemm.Mul2TestVector | src/matrix_stable.rs:180-186 | `[1..12]` as a 3-by-4 matrix times `[3, 6, 8, 10, 9, 17]` as a 2-by-3 matrix is `[46, 77, 106, 176, 166, 275, 226, 374]`. |
| MatrixStable.Matrix.Zeros | src/matrix_stable.rs:17-19 | The new K-by-M matrix has a fresh buffer of K*M zeros, and every cell is 0. |
| MatrixStable.Matrix.FromBuffer | src/matrix_stable.rs:103-125 | The matrix converted from a K*M buffer or array holds that buffer unchanged. |
| MatrixStable.Matrix.Clone | src/matrix_stable.rs:6 | A copy has the same extents and elements in a fresh buffer of its own, so a later write to one matrix leaves the other unchanged. |
| MatrixStable.Matrix.GetUnchecked | src/matrix_stable.rs:32-34 | Given only that `n0 + n1*K` lies in the buffer, returns the element at that offset, which for an in-bounds index is cell `[n0, n1]`. |
| MatrixStable.Matrix.SetUnchecked | src/matrix_stable.rs:29-31 | A write through the unchecked mutable reference replaces exactly the element at `n0 + n1*K`; for an in-bounds index only cell `[n0, n1]` changes. |
| MatrixStable.Matrix.Index | src/matrix_stable.rs:76-84 | Panics with the index and the bounds exactly when `n0 >= K` or `n1 >= M`, and otherwise yields cell `[n0, n1]`. |
| MatrixStable.Matrix.IndexMut | src/matrix_stable.rs:92-100 | Panics exactly when out of bounds, changing nothing; otherwise cell `[n0, n1]` becomes the written value and every other cell keeps its value. |
| MatrixStable.Matrix.Transpose | src/matrix_stable.rs:36-47 | Returns a fresh M-by-K matrix whose buffer is the transpose of this one (cell `[y, x]` equals cell `[x, y]` of this matrix), proved through the nested loop's invariants; this matrix is not modified. |
| MatrixStable.Matrix.Mul | src/matrix_stable.rs:127-156 | Returns a fresh N-by-M matrix whose buffer is the cell-wise product of this K-by-M matrix and the N-by-K `other`. |
| MatrixStable.Matrix.Store | src/matrix_stable.rs:151 | The BLAS output written into the result buffer: afterwards the buffer holds exactly the computed elements. |
| MatrixStable.CopyIsIndependent | src/matrix_stable.rs:6 | After copying a matrix and writing 7 into cell `[0, 0]` of the copy, the original still yields 1 there and the copy yields 7. |
| MatrixStable.ZeroTest | src/matrix_stable.rs:163-169 | Cell `[0, 0]` of a 2-by-2 `zeros()` is `Ok(0)`, and its buffer equals that of the matrix converted from `[0; 4]`. |
| MatrixStable.MulTest | src/matrix_stable.rs:171-178 | Multiplying the two matrices of the `mul` test through `Mul` yields `[140, 146, 320, 335]`. |
| MatrixStable.Mul2Test | src/matrix_stable.rs:180-186 | Multiplying the two matrices of the `mul2` test through `Mul` yields `[46, 77, 106, 176, 166, 275, 226, 374]`. |

## Left out

- Elements are unbounded integers, not `f32`. Rounding, NaN and infinities are not modelled, so `Mul` is exact. The source's tests use small integer values, which `f32` represents exactly.
- The copy-on-write buffer behind a matrix is not modelled. This covers owned versus borrowed storage, `is_borrowed`/`is_owned` (src/matrix_stable.rs:21-27) and the borrowing `From<&[T; K*M]>` conversion (src/matrix_stable.rs:111-117). Every matrix owns its array here, and `FromBuffer` copies. A later write therefore never reaches the caller's array, which is the same outcome copy-on-write gives.
- `Deref`/`DerefMut` to the underlying buffer (src/matrix_stable.rs:50-68) are left out. Reading the buffer is `Contents()`, and writes go through `SetUnchecked`.
- `cblas_sgemm` is foreign code. `SgemmRowMajor` states its documented result, but the routine itself is not modelled. In particular, the parameter-error report that a BLAS gives for a leading dimension of 0 (an empty matrix) is not modelled.
- MatrixStable.Matrix.Mul: the `as i32` casts of M, N and K are not modelled, so extents of 2^31 or more are not truncated.
- The `'static` lifetime of the `Mul` result and the `matrix` re-export module carry no behaviour to model.
- MatrixStable.Matrix.Clone: in the source a matrix is a `Copy` value (src/matrix_stable.rs:6), so `let b = a;` makes an independent matrix. Here `Matrix` is a class, so `var b := a;` makes an alias, and a write through `b` is seen through `a`. An implicit copy is not modelled; the model's copy is the explicit `new Matrix.Clone(a)`.
- The commented-out `mul3` test (src/matrix_stable.rs:188-208) is not part of the build and is not modelled.
- MatrixStable.Matrix.GetUnchecked: the source computes `n[0] + n[1] * K` in `usize` (src/matrix_stable.rs:33). When that overflows, a debug build panics and a release build wraps, possibly to an offset inside the buffer (for a 2-by-1 matrix, `n = [0, 2^64 / 2]` wraps to offset 0). The model computes the offset exactly and requires it to lie in the buffer, so it models neither the overflow panic nor the wrapped access. An offset outside the buffer is undefined behaviour in the source, and the model requires it away instead of describing it.
- MatrixStable.Matrix.SetUnchecked: the same holds for the write through `get_unchecked_mut` (src/matrix_stable.rs:30). Neither the `usize` overflow panic of a debug build, nor the wrapped write of a release build, nor an out-of-buffer write is modelled; the requires excludes all three.
