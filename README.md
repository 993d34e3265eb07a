# Gauss-Jordan matrix inversion (Tp3) in Dafny

This project models the sequential matrix inversion of `Tp3/src/main.cpp`. Its function
`invertSequential` inverts a square matrix in place using Gauss-Jordan elimination with
partial pivoting:

- It builds the working matrix `[A | I]`.
- For each column `k` it picks as pivot the entry of largest magnitude in rows `k..n-1`.
- It throws "Matrix not invertible" when that pivot is zero.
- Otherwise it swaps the pivot row into place, divides it by the pivot, and subtracts
  multiples of it from every other row.
- At the end it copies the right half of the working matrix back.

The project also models `multiplyMatrix`, the row-by-column product used to check an
inverse.

Entries are exact `real` numbers, not `double`.

The project has five modules:

- `Matrices` (matrices.dfy): matrices as sequences of rows. It defines the dot product,
  columns, the product `Mul`, the identity, and the left and right blocks. It proves the
  algebra the proofs need: associativity, identity laws, and how products split into blocks.
- `RowOps` (row_ops.dfy): the three row operations of the elimination loop.
  - Swap two rows.
  - Divide a row by a value.
  - Subtract multiples of row `k` from every other row.

  It proves that each operation can be undone, and that it acts like multiplication on
  the left.
- `GaussJordan` (gauss_jordan.dfy): why the loop works. Two invariants survive every row
  operation on the working matrix W:
  - `S W == [A | I]` for a ghost matrix `S`;
  - `R A == L`, where `L` is the left block of W and `R` its right block.

  From these it proves two results:
  - When the left block is the identity, the right block is the two-sided inverse of A.
  - A zero pivot yields a nonzero vector that A sends to zero, so A has no inverse.
- `MatrixBuffer` (matrix_buffer.dfy): the operations of the `Matrix` class that the code
  calls, on `array2<real>`. Each is tied to the value model by `Contents`.
- `Inversion` (inversion.dfy): `invertSequential`, its loop and each step of the loop,
  `multiplyMatrix`, and the inverse-then-multiply check that `main` sketches. These are
  methods over arrays, each proved against the value model.

## Model

| member | source | states |
|---|---|---|
| Matrices.Abs | Tp3/src/main.cpp:32 | the magnitude `fabs` compares: nonnegative, and equal to x or -x |
| Matrices.Column | Tp3/src/main.cpp:276 | `getColumnCopy`: entry i of column j is entry j of row i |
| Matrices.Mul | Tp3/src/main.cpp:263-280 | the product has `rows(a)` rows and `cols(b)` columns; entry (i, j) is row i of a times column j of b |
| Matrices.Identity | Tp3/src/main.cpp:24 | `MatrixIdentity(n)` is n x n, with 1 on the diagonal and 0 elsewhere |
| Matrices.Right | Tp3/src/main.cpp:75 | the slice copied back: entry (i, j) of the right block is entry (i, c + j) of the whole |
| Matrices.ConcatSplit | Tp3/src/main.cpp:24 | `MatrixConcatCols(a, b)` has a as its left block and b as its right block |
| Matrices.DotSymmetric | Tp3/src/main.cpp:276 | `Dot`, the `.sum()` of the entrywise product of a row and a column, does not depend on the order of its two arguments |
| Matrices.DotAddScaled | Tp3/src/main.cpp:276 | `Dot` is linear in its first argument: adding c times w to u adds c times w . v |
| Matrices.DotOneHot | Tp3/src/main.cpp:276 | `Dot` with a unit vector picks out one entry of the other argument, and gives 0 for the zero vector |
| Matrices.DotAgree | Tp3/src/main.cpp:276 | `Dot(u, v)` depends only on the entries of v where u is nonzero |
| Matrices.VecMatVec | Tp3/src/main.cpp:276 | the double sum of row times matrix times column may be summed in either order |
| Matrices.MulAssoc | Tp3/src/main.cpp:263-280 | the product is associative |
| Matrices.MulIdentityLeft | Tp3/src/main.cpp:263-280 | I b == b |
| Matrices.MulIdentityRight | Tp3/src/main.cpp:263-280 | a I == a |
| Matrices.MulLeftBlock | Tp3/src/main.cpp:263-280 | the left block of s w is s times the left block of w |
| Matrices.MulRightBlock | Tp3/src/main.cpp:263-280 | the right block of s w is s times the right block of w |
| RowOps.Apply | Tp3/src/main.cpp:46-68 | a row operation keeps the matrix's shape |
| RowOps.ApplyRow | Tp3/src/main.cpp:46-68 | swap exchanges rows p and k only; divide changes row k only; eliminate keeps row k and sets every other row i to row i minus f[i] times row k |
| RowOps.DividedRow | Tp3/src/main.cpp:49-56 | every entry of the row is divided by the pivot value |
| RowOps.SubtractedRow | Tp3/src/main.cpp:66 | `row(i) -= row(k) * value`, entry by entry over the full width |
| RowOps.Inverse | Tp3/src/main.cpp:46-68 | the operation that undoes a row operation is itself a valid row operation |
| RowOps.ApplyInverse | Tp3/src/main.cpp:46-68 | applying an operation and then its inverse gives back the original matrix, so no information is lost |
| RowOps.ApplyMul | Tp3/src/main.cpp:46-68 | a row operation applied to x y equals the operation applied to x, times y |
| RowOps.ApplyLeft | Tp3/src/main.cpp:46-68 | a row operation on [L R] acts on L alone as it does on the whole |
| RowOps.ApplyRight | Tp3/src/main.cpp:46-68 | a row operation on [L R] acts on R alone as it does on the whole |
| RowOps.ApplyIsMul | Tp3/src/main.cpp:46-68 | a row operation is left multiplication by the operation applied to the identity |
| GaussJordan.Augment | Tp3/src/main.cpp:22-24 | the working matrix is n x 2n, with A as its left block and I as its right block |
| GaussJordan.TracksStart | Tp3/src/main.cpp:22-24 | `[A I]` satisfies both invariants, with S == I |
| GaussJordan.TracksStep | Tp3/src/main.cpp:46-68 | every row operation preserves both invariants, S W == [A I] and R A == L |
| GaussJordan.SwapKeepsUnitColumns | Tp3/src/main.cpp:46-47 | swapping row p >= k into row k keeps columns 0..k-1 unit columns; row k becomes the old row p |
| GaussJordan.NormalizeKeepsUnitColumns | Tp3/src/main.cpp:49-56 | dividing row k by its pivot makes the pivot 1, leaves other rows alone and keeps columns 0..k-1 unit columns |
| GaussJordan.EliminateMakesUnitColumn | Tp3/src/main.cpp:59-68 | with pivot 1, elimination zeroes column k outside row k, keeps row k, and makes columns 0..k unit columns |
| GaussJordan.ReduceStepTracks | Tp3/src/main.cpp:27-69 | one pass of the loop body over column k keeps both invariants and extends the unit columns to 0..k |
| GaussJordan.InverseFound | Tp3/src/main.cpp:71-76 | once the left block is the identity, the right block R gives A R == I and R A == I |
| GaussJordan.InverseUnique | Tp3/src/main.cpp:18-77 | a left inverse and a right inverse of A are equal, so the inverse is unique |
| GaussJordan.KernelColumn | Tp3/src/main.cpp:42-43 | the witness vector of a zero pivot is nonzero: its entry k is 1 |
| GaussJordan.KernelRow | Tp3/src/main.cpp:42-43 | with a zero pivot column, every row of the left block is orthogonal to the witness vector |
| GaussJordan.KernelRowAbove | Tp3/src/main.cpp:42-43 | the rows above k are orthogonal to the witness vector, because they are unit rows with a column-k entry |
| GaussJordan.NoLeftInverse | Tp3/src/main.cpp:42-43 | a zero pivot, meaning column k is zero in rows k..n-1, implies A has no left inverse |
| MatrixBuffer.Contents | Tp3/src/main.cpp:18-77 | the value of a buffer: `rows()` x `cols()`, with entry (i, j) equal to element (i, j) |
| MatrixBuffer.RowCopy | Tp3/src/main.cpp:66 | `getRowCopy(k)` is row k of the buffer's value |
| MatrixBuffer.ColumnCopy | Tp3/src/main.cpp:276 | `getColumnCopy(j)` is column j of the buffer's value |
| MatrixBuffer.NewIdentity | Tp3/src/main.cpp:24 | a fresh n x n buffer holding the identity |
| MatrixBuffer.NewCopy | Tp3/src/main.cpp:297 | a fresh buffer with the same shape and entries (the copy `Matrix lB(lA)`) |
| MatrixBuffer.NewConcatCols | Tp3/src/main.cpp:24 | a fresh buffer holding a and b side by side |
| MatrixBuffer.SwapRows | Tp3/src/main.cpp:47 | `swapRows(p, k)`: the new value is the old one with rows p and k exchanged |
| MatrixBuffer.SubtractScaledRow | Tp3/src/main.cpp:66 | only row i changes, to old row i minus c times old row k |
| Inversion.FindPivot | Tp3/src/main.cpp:31-40 | k <= p < n; the magnitude at p is the maximum over rows k..n-1; every row in k..p-1 has strictly smaller magnitude (the first maximum wins); the pivot is zero iff the whole column below the diagonal is zero |
| Inversion.NormalizeRow | Tp3/src/main.cpp:49-56 | the buffer becomes the old one with row k divided by the pivot read beforehand |
| Inversion.EliminateColumn | Tp3/src/main.cpp:59-68 | the buffer becomes the old one with every row i != k reduced by old entry (i, k) times row k |
| Inversion.CopyRightHalf | Tp3/src/main.cpp:73-76 | the target now holds the right half of the working matrix |
| Inversion.ReduceColumn | Tp3/src/main.cpp:45-68 | the buffer undergoes one column step: swap if p != k, then normalise, then eliminate |
| Inversion.ReduceColumns | Tp3/src/main.cpp:27-69 | either every column was reduced (left block is I and both invariants hold), or it stopped at a zero pivot and A has no left inverse |
| Inversion.InvertSequential | Tp3/src/main.cpp:18-77 | it succeeds iff A has a (left) inverse. On success the matrix written back is the two-sided inverse, and every left inverse equals it. On failure the status carries "Matrix not invertible" and the input is unchanged |
| Inversion.MultiplyMatrix | Tp3/src/main.cpp:263-280 | a fresh rows(m1) x cols(m2) result whose entry (i, j) is the sum over t of m1(i, t) m2(t, j); equal to `Mul` of the inputs |
| Inversion.CheckInverse | Tp3/src/main.cpp:297-306 | inverting a copy B of A succeeds iff A is invertible, and then the fresh product A B is exactly the identity; on a zero pivot the check stops before the product, as the thrown error would, and the status carries "Matrix not invertible" |

## Left out

- `invertParallel` (Tp3/src/main.cpp:100-260): MPI code, mostly commented out, with a broken pivot rule. It is not modelled.
- `main` (Tp3/src/main.cpp:282-309):
  - random matrix generation (`rand`, `time`), argument parsing and output are not modelled;
  - `CheckInverse` stands for the commented-out invert-then-multiply check. On a zero pivot the
    C++ error propagates out of `main`; `CheckInverse` instead returns the `NotInvertible`
    status together with an empty 0 x 0 result, and does not compute the product;
  - the printed error sum is not modelled.
- Floating point: entries are exact reals, so rounding, numerical stability and the
  behaviour of the `== 0` pivot test under rounding are not modelled. With exact
  arithmetic the zero test is exact.
- `Matrix.hpp` is not part of this model. The operations it provides are rebuilt in
  `MatrixBuffer` from how `main.cpp` calls them: `rows()`, `cols()`, element access,
  `swapRows`, `getRowCopy`, `getColumnCopy`, `getRowSlice(i) -= …`,
  `MatrixConcatCols` and `MatrixIdentity`. `MatrixConcatCols` is modelled as a copy.
- The square-input `assert` of line 22 and the size `assert` of line 267 become
  preconditions.
- The `runtime_error` of line 43 becomes the `NotInvertible` status. Its message is kept.
- The column loop of lines 27-69 is split into methods: `ReduceColumns` holds the loop,
  `ReduceColumn` the body after the singularity test. `ReduceColumns` reports the zero
  pivot by returning `false`.
- Inversion.MultiplyMatrix: the equality with `Mul` is stated only when m2 has at least
  one row. A matrix with no rows has no column count in the sequence model. The entrywise
  ensures covers every case.
- Tp1, Tp2 and Tp4 are thread, OpenMP and OpenCL plumbing around I/O and code that is not
  shown. They are not modelled.
