# Dense linear algebra kernel: Vector, Matrix and the linear-system solvers

This project models, in Dafny, the core of a small C++ linear-algebra kernel:

- **`Vector`** is an owned buffer of `mSize` doubles. It has:
  - zero-filled and copy construction, and `operator=`;
  - unary `+` and `-`, binary `+` and `-`, the dot product and scalar `*`;
  - the bounds-checked 0-based `[]` and 1-based `()` accessors.
- **`Matrix`** is an owned `mNumRows x mNumCols` buffer. It has:
  - zero-filled and copy construction, and `operator=`;
  - unary and binary `+` and `-`;
  - matrix, scalar and matrix-vector `*`;
  - bounds-checked row access `A[i]` / `A(i)`;
  - `swapRows`, `transpose`, `getMinor`, the recursive cofactor `det`, and the adjugate `inverse`.
- **The linear-system family**:
  - `LinearSystem` checks its construction. Its `Solve` is Gaussian elimination with partial pivoting followed by back-substitution.
  - `PosSymLinSystem` also demands symmetry, and its `Solve` is conjugate gradient.
  - `GeneralLinSystem` checks only that A's row count matches b's size.

Entries are Dafny `real`, a stand-in for `double`. The model follows the source's own form:

- `Vector` and `Matrix` are classes over `array<real>` and `array2<real>`. Their methods have loops with invariants.
- Each method is proved against a specification function over `seq<real>` / `seq<seq<real>>`. These live in the modules `VectorMath`, `MatrixMath`, `Determinants`, `Elimination` and `ConjugateGradient`.
- The algebra the source relies on is proved about those functions. This includes:
  - `(u + v) - v == u`;
  - transposing twice gives back the original;
  - a row swap is its own inverse;
  - `A * inverse(A) == I` for 1x1 and 2x2 matrices;
  - every elimination step keeps the solution set, and the reduced matrix is upper triangular with a nonzero diagonal;
  - back-substitution solves that triangular system, so the Gaussian answer `x` satisfies `A x = b`;
  - conjugate gradient keeps `r = b - A x` and the `rᵗp = rs > 0` invariant on every iteration it performs, and it stops only once `r·r < tol²`.

An operation that throws returns `Result<T>` (`Ok(value)` or `Err(error)`), or `Outcome` for one that returns nothing. The error kinds name the source's distinct failures:

| error kind | source failure |
|---|---|
| `SizeMismatch` | vector and matrix `+`/`-`, the dot product |
| `DimensionMismatch` | matrix `*`, matrix-vector `*` |
| `NotSquare` | `det`, `inverse`, `LinearSystem` |
| `IndexOutOfRange` | `[]`, `()`, `swapRows` |
| `IncompatibleSystem` | the system constructors |
| `NotSymmetric` | `PosSymLinSystem` |

Other modelling choices:

- A throwing C++ constructor is modelled as a static factory method, `New` / `NewPosSym`, that returns a `Result`. On success it calls the class's constructor.
- Dafny classes here do not inherit. The virtual `Solve` of `LinearSystem` and `PosSymLinSystem` is therefore one class with a `SolverKind` tag, fixed by the factory that built it.
- A system refers to the caller's matrix and vector, not copies, as the source's `Matrix& mpA` and `Vector& mpb` do. The Dafny fields are `const`, meaning never rebound, like a C++ reference.

Two behaviours of the code are kept as written:

- The guard of matrix `+` and `-` (src/Matrix.cpp:71, src/Matrix.cpp:82) uses `&&`, so the operands are rejected only when both dimensions differ. `Matrices.Matrix.Add` and `Sub` succeed exactly when at least one dimension agrees.
- `inverse` (src/Matrix.cpp:212-232) has no failure for a singular matrix. Here a nonzero determinant is a precondition.

## Model

| member | source | states |
|---|---|---|
| Vectors.Vector.constructor | src/Vector.cpp:7-11 | a new vector of size n has n entries, all 0.0 (n = 0 is the default of include/Vector.h:22) |
| Vectors.Vector.Copy | src/Vector.cpp:13-17 | the copy has the same size and entries, in a freshly allocated buffer |
| Vectors.Vector.Assign | src/Vector.cpp:20-31 | after `operator=` this vector has the other's entries; the other is unchanged; a distinct source gives a fresh buffer, self-assignment changes nothing |
| Vectors.WriteToCopy | src/Vector.cpp:13-17 | a write through `[]` to a copy changes the copy only: the original keeps its entries |
| Vectors.Vector.Size | src/Vector.cpp:115-117 | `size()` is the number of entries |
| Vectors.Vector.Plus | src/Vector.cpp:34-36 | unary `+` is a new vector equal to this one |
| Vectors.Vector.Negate | src/Vector.cpp:38-44 | unary `-` is a new vector whose every entry is negated |
| Vectors.Vector.Add | src/Vector.cpp:48-56 | `+` fails with SizeMismatch exactly when the sizes differ; otherwise entry i is u[i] + v[i] |
| Vectors.Vector.Sub | src/Vector.cpp:58-66 | `-` fails with SizeMismatch exactly when the sizes differ; otherwise entry i is u[i] - v[i] |
| Vectors.Vector.Dot | src/Vector.cpp:69-77 | the dot product fails with SizeMismatch exactly when the sizes differ; otherwise it is the sum of u[i] * v[i] |
| Vectors.Vector.Scale | src/Vector.cpp:80-86 | scalar `*` never fails, keeps the size and multiplies every entry by s |
| Vectors.Vector.Get | src/Vector.cpp:91-100 | `v[i]` succeeds iff 0 <= i < size and yields entry i; otherwise IndexOutOfRange |
| Vectors.Vector.GetOne | src/Vector.cpp:103-112 | `v(i)` succeeds iff 1 <= i <= size and yields entry i - 1, the same slot as `v[i - 1]` |
| Vectors.Vector.Set | src/Vector.cpp:91-95 | a write through `v[i]` succeeds iff 0 <= i < size and then changes slot i only; the size and buffer never change |
| Vectors.Vector.SetOne | src/Vector.cpp:103-107 | a write through `v(i)` succeeds iff 1 <= i <= size and then changes slot i - 1 only |
| VectorMath.AddSubCancel | src/Vector.cpp:48-66 | over the reals `(u + v) - v == u` |
| VectorMath.NegNeg | src/Vector.cpp:38-44 | negating twice gives back the vector |
| VectorMath.DotSymmetric | src/Vector.cpp:69-77 | the dot product is symmetric in its operands |
| VectorMath.DotScale | src/Vector.cpp:80-86 | scaling a vector by s scales its dot product with any vector by s |
| VectorMath.DotSelf | src/Vector.cpp:69-77 | u · u is never negative, and is zero exactly for the zero vector |
| Matrices.Matrix.constructor | src/Matrix.cpp:9-14 | a new r x c matrix has r rows of c zero entries (0 x 0 is the default of include/Matrix.h:35) |
| Matrices.Matrix.Copy | src/Matrix.cpp:16-24 | the copy has the same shape and entries, in a freshly allocated buffer |
| Matrices.Matrix.Assign | src/Matrix.cpp:34-52 | after `operator=` this matrix has the other's shape and entries; the other is unchanged; self-assignment changes nothing |
| Matrices.Matrix.NRows | include/Matrix.h:66 | `nRows()` is the number of rows of the entries |
| Matrices.Matrix.NCols | include/Matrix.h:67 | `nCols()` is the stored column count, for every shape, and the length of every row of the entries |
| Matrices.Matrix.Plus | src/Matrix.cpp:55-57 | unary `+` is a new matrix equal to this one |
| Matrices.Matrix.Negate | src/Matrix.cpp:59-67 | unary `-` is a new matrix of the same shape with every entry negated |
| Matrices.Matrix.Add | src/Matrix.cpp:70-80 | `+` fails with SizeMismatch exactly when both the row and the column counts differ; otherwise the result has this shape and is the entrywise sum |
| Matrices.Matrix.Sub | src/Matrix.cpp:81-91 | `-` fails with SizeMismatch exactly when both counts differ; otherwise the result has this shape and is the entrywise difference |
| Matrices.Matrix.ScaleBy | src/Matrix.cpp:107-115 | scalar `*` never fails, keeps the shape and multiplies every entry by s |
| Matrices.Matrix.Transpose | src/Matrix.cpp:234-242 | the result is cols x rows with entry (j, i) equal to entry (i, j) |
| Matrices.Matrix.Mul | src/Matrix.cpp:92-104 | `*` fails with DimensionMismatch exactly when the left cols differ from the right rows; otherwise the result is leftRows x rightCols with entry (i, j) the sum over k of L[i][k] * R[k][j] |
| Matrices.Matrix.MulVec | src/Matrix.cpp:118-134 | matrix-vector `*` fails with DimensionMismatch exactly when cols differ from the vector's size; otherwise entry i is the sum over j of A[i][j] * v[j] |
| Matrices.Matrix.Row | src/Matrix.cpp:137-146 | `A[i]` succeeds iff 0 <= i < rows and yields row i; otherwise IndexOutOfRange |
| Matrices.Matrix.RowOne | src/Matrix.cpp:148-157 | `A(i)` succeeds iff 1 <= i <= rows and yields row i - 1, the same row as `A[i - 1]` |
| Matrices.Matrix.SetEntry | src/Matrix.cpp:137-141 | a write `A[i][j] = x` succeeds iff 0 <= i < rows and then changes entry (i, j) only |
| Matrices.Matrix.SetEntryOne | src/Matrix.cpp:148-152 | a write `A(i)[j] = x` succeeds iff 1 <= i <= rows and then changes entry (i - 1, j) only |
| Matrices.Matrix.SwapRows | src/Matrix.cpp:171-179 | `swapRows` fails with IndexOutOfRange unless both indices are rows; otherwise exactly those two rows are exchanged |
| Matrices.Matrix.GetMinor | src/Matrix.cpp:197-210 | the minor is (rows - 1) x (cols - 1); for in-range indices it is the matrix without that row and column, order preserved; for the out-of-range indices that write nothing it has no entries |
| Matrices.Matrix.Det | src/Matrix.cpp:182-195 | `det` fails with NotSquare exactly on a non-square matrix; otherwise it is the determinant by first-row cofactor expansion |
| Matrices.Matrix.ExpandFirstRow | src/Matrix.cpp:189-194 | the loop sums the alternating-sign terms entry (0, i) times the determinant of minor (0, i) |
| Matrices.Matrix.Inverse | src/Matrix.cpp:212-232 | `inverse` fails with NotSquare exactly on a non-square matrix; otherwise it is the transposed cofactor matrix scaled by 1 / det |
| Matrices.Matrix.CofactorMatrix | src/Matrix.cpp:222-226 | entry (i, j) of the first loop's result is (-1)^(i+j) times the determinant of minor (i, j) |
| Matrices.Matrix.CofactorEntry | src/Matrix.cpp:224 | one cofactor: the signed determinant of the minor without row i and column j |
| MatrixMath.TransposeTwice | src/Matrix.cpp:234-242 | transposing twice gives back the original matrix |
| MatrixMath.SwapRowsTwice | src/Matrix.cpp:171-179 | a row swap exchanges exactly rows i and j, leaves every other row alone and is its own inverse |
| MatrixMath.AddSubCancel | src/Matrix.cpp:70-91 | for same-shape matrices `(A + B) - B == A` |
| Determinants.DetOneByOne | src/Matrix.cpp:186 | the determinant of a 1x1 matrix is its entry |
| Determinants.DetTwoByTwo | src/Matrix.cpp:187 | the determinant of a 2x2 matrix is ad - bc |
| Determinants.DetMatchesAsWritten | src/Matrix.cpp:182-195 | on every non-empty square matrix the expansion with its 1x1 and 2x2 shortcuts equals the plain cofactor expansion |
| Determinants.AdjugateTwoByTwo | src/Matrix.cpp:222-228 | the adjugate of [[a, b], [c, d]] is [[d, -b], [-c, a]] |
| Determinants.InverseOneByOne | src/Matrix.cpp:212-232 | with the empty determinant taken as 1, a 1x1 matrix [[a]] with a != 0 has inverse [[1 / a]] and A * inverse(A) is the identity |
| Determinants.InverseTwoByTwo | src/Matrix.cpp:212-232 | a 2x2 matrix with ad - bc != 0 has A * inverse(A) equal to the identity |
| Determinants.InverseAsWrittenOneByOne | src/Matrix.cpp:182-195 | with the source's empty determinant of 0, the inverse of [[a]] is [[0]] for every a != 0, so A * inverse(A) is not the identity |
| Elimination.PivotRow | src/LinearSystem.cpp:31-36 | the pivot row has the largest magnitude in column i among rows i..n-1 and every earlier row is strictly smaller, so the first maximum wins |
| Elimination.PivotPreservesSolutions | src/LinearSystem.cpp:38-41 | swapping rows i and maxRow of both A and b keeps exactly the same solutions |
| Elimination.EliminateRowPreservesSolutions | src/LinearSystem.cpp:43-49 | subtracting factor times row i from row k, in A and b alike, keeps exactly the same solutions |
| Elimination.StepClearsColumn | src/LinearSystem.cpp:31-49 | after pivoting and eliminating column i, every entry below the diagonal in columns up to i is zero |
| Elimination.ForwardEchelon | src/LinearSystem.cpp:29-50 | after the forward phase the matrix is upper triangular |
| Elimination.ForwardPreservesSolutions | src/LinearSystem.cpp:29-50 | the forward phase keeps exactly the solutions of the original system |
| Elimination.ForwardDiagonal | src/LinearSystem.cpp:29-50 | when every pivot is nonzero, the reduced matrix has a nonzero diagonal |
| Elimination.BackSubEntry | src/LinearSystem.cpp:53-60 | x[i] is (b[i] - sum over j > i of A[i][j] * x[j]) / A[i][i] |
| Elimination.BackSubSolves | src/LinearSystem.cpp:53-62 | for an upper triangular A with nonzero diagonal, back-substitution gives x with A x = b |
| Elimination.GaussianSolves | src/LinearSystem.cpp:25-63 | the Gaussian answer solves the original system: A x = b |
| ConjugateGradient.StartInvariant | src/LinearSystem.cpp:94-103 | the start x = 0, r = b - A x, p = r, rs = r · r satisfies the iteration invariant |
| ConjugateGradient.CurvaturePositive | src/LinearSystem.cpp:107 | for a positive definite A the divisor p · Ap of alpha is positive while the loop runs |
| ConjugateGradient.StepInvariant | src/LinearSystem.cpp:106-120 | one iteration keeps r = b - A x and rᵗp = rs > 0, or stops with r · r below tol² |
| ConjugateGradient.StepOrthogonal | src/LinearSystem.cpp:107-110 | the updated residual is orthogonal to the direction just used |
| ConjugateGradient.IterateInvariant | src/LinearSystem.cpp:105-121 | every state the loop reaches within 2 * size iterations satisfies the invariant |
| ConjugateGradient.DoneStable | src/LinearSystem.cpp:114-115 | once the loop has stopped, later iteration counts give the same state |
| ConjugateGradient.SolutionAt | src/LinearSystem.cpp:105-123 | the returned x is the state at the first stop or at the iteration cap |
| ConjugateGradient.SolutionResidual | src/LinearSystem.cpp:105-123 | the returned x has residual r · r below tol², or the cap was reached with no stop |
| LinearSystems.SymmetricIffTransposed | src/LinearSystem.cpp:77-87 | a square matrix is symmetric exactly when it equals its transpose |
| LinearSystems.IsSymmetric | src/LinearSystem.cpp:77-87 | `isSymmetric` is true iff A[i][j] == A[j][i] for all i, j below the row count |
| LinearSystems.LinearSystem.constructor | include/LinearSystem.h:37 | a system holds references to the given A and b, with size the row count of A |
| LinearSystems.LinearSystem.New | src/LinearSystem.cpp:11-19 | construction fails with NotSquare on a non-square A, otherwise with IncompatibleSystem when rows differ from b's size; otherwise size = rows and the solver is Gaussian |
| LinearSystems.LinearSystem.NewPosSym | src/LinearSystem.cpp:67-71 | the base checks first, then NotSymmetric exactly when A is not symmetric; on success the solver is conjugate gradient |
| LinearSystems.LinearSystem.Solve | include/LinearSystem.h:39 | the virtual `Solve` runs Gaussian elimination, whose answer solves A x = b, or conjugate gradient, according to the class that built the system |
| LinearSystems.GeneralLinSystem.constructor | src/LinearSystem.cpp:128-133 | a general system holds references to A and b with size the row count of A |
| LinearSystems.GeneralLinSystem.New | src/LinearSystem.cpp:128-133 | construction fails with IncompatibleSystem exactly when A's rows differ from b's size; A need not be square |
| LinearSystems.GaussianSolve | src/LinearSystem.cpp:25-63 | on copies of A and b (the caller's are unchanged), returns x of length size equal to the specification's answer, and A x = b |
| LinearSystems.ForwardPhase | src/LinearSystem.cpp:29-50 | the in-place forward phase leaves the working A and b equal to the specification's reduced system |
| LinearSystems.PivotInPlace | src/LinearSystem.cpp:31-41 | finds the pivot row and swaps it with row i in both A and b, as the specification's pivot step |
| LinearSystems.FindPivot | src/LinearSystem.cpp:31-36 | the scan returns the first row at or below i with maximal magnitude in column i |
| LinearSystems.SwapEntries | src/LinearSystem.cpp:40 | `std::swap` of two entries of b exchanges exactly those entries |
| LinearSystems.EliminateBelowInPlace | src/LinearSystem.cpp:43-49 | every row below i is eliminated against row i, as the specification's elimination |
| LinearSystems.EliminateRowInPlace | src/LinearSystem.cpp:44-48 | row k of A loses factor times row i from column i on, and b[k] loses factor times b[i] |
| LinearSystems.SubtractRowMultiple | src/LinearSystem.cpp:45-47 | the inner loop changes row k from column i on, and nothing else |
| LinearSystems.BackSubstitute | src/LinearSystem.cpp:53-60 | the descending loop produces the specification's back-substitution vector |
| LinearSystems.BackSubstituteRow | src/LinearSystem.cpp:55-59 | one row: x[i] becomes (b[i] - sum over j > i of A[i][j] * x[j]) / A[i][i] |
| LinearSystems.SubtractLaterTerms | src/LinearSystem.cpp:56-58 | the inner loop subtracts A[i][j] * x[j] for every j after i and changes no other entry |
| LinearSystems.ConjugateGradientSolve | src/LinearSystem.cpp:90-124 | on copies of A and b, returns x of length size equal to the specification's iterate at the first stop or the cap of 2 * size |
| LinearSystems.ConjugateGradientStart | src/LinearSystem.cpp:94-103 | x = 0, r = b - A x, p = r and rs = r · r, as the specification's start state |
| LinearSystems.ConjugateGradientLoop | src/LinearSystem.cpp:105-121 | at most 2 * size passes, leaving at the first one whose residual is small; the result is the specification's answer |
| LinearSystems.ConjugateGradientPass | src/LinearSystem.cpp:105-121 | one pass either stops with the answer or reaches the specification's next iterate |
| LinearSystems.ConjugateGradientStep | src/LinearSystem.cpp:106-120 | one iteration is the specification's step: the early exit on r · r < tol², else the new direction r + beta p |
| LinearSystems.MoveAlongDirection | src/LinearSystem.cpp:106-112 | alpha = rs / (p · Ap), x + alpha p, r - alpha Ap and the new squared residual |

## Left out

- `Matrix::pseudo_inverse` and `GeneralLinSystem::SolveMoorePenrose` are not modelled. They delegate to Eigen's SVD, a foreign library.
- `Vector::print`, `Matrix::print` and `Matrix::size` are not modelled. They only write to the console.
- Destructors and `delete[]` have no counterpart under garbage collection. This includes the leak in `Vector::operator=`, whose `delete[]` is commented out.
- Floating point is not modelled: entries are `real`, so rounding, NaN and infinities do not arise. Where the source divides by a value that may be zero, the model requires the divisor to be nonzero. These are the pivot, the determinant, and p · Ap together with rs in conjugate gradient.
- Sizes and indices are unbounded integers. The `int` width of the source is not modelled. Negative sizes are excluded by the `nat` type. In the source, `Vector(n)` and `Matrix(r, c)` with r < 0 throw `bad_array_new_length`, and `Matrix(r, c)` with c < 0 throws once r > 0. `Matrix(0, c)` with c < 0 throws nothing and records a negative column count, which the model cannot represent.
- Row access `A[i]` returns a raw row pointer that aliases the matrix. The model splits it into a read (`Row`) and an entry write (`SetEntry`).
- Inside conjugate gradient, `Ap = A * p`, `x = x + p * alpha`, `r = r - Ap * alpha` and `p = r + p * beta` assign through `Vector::operator=`. The model rebinds the working vectors to fresh results instead. The effect on the entries is the same.
- Conjugate-gradient convergence and accuracy are not proved. The model proves the invariants the iteration keeps and what the returned iterate satisfies.
- The demo driver and its expected outputs (the file tinyProject.cpp) are not part of this model.
- Matrices.Matrix.GetMinor: requires rows > 0, cols > 0 and each index in range, except where nothing is written. An out-of-range row is allowed when cols = 1 and col = 0, and an out-of-range column when rows = 1 and row = 0. The source checks neither index, and any other out-of-range index writes past the minor's buffer, which is undefined behaviour. A matrix with a zero dimension is also excluded. There `getMinor` either throws `bad_array_new_length` (zero rows, or zero columns with two or more rows) or returns a 0 x -1 matrix (one row, zero columns).
- Matrices.Matrix.Add: when the guard passes and this matrix has at least one row and one column, requires the other operand to be at least as large in both dimensions. The source reads `other` at every entry of this matrix, so a smaller operand that shares one dimension is an out-of-bounds read. When this matrix has no entries (for example 3x0 + 2x0) nothing is read, and the model accepts it as the source does.
- Matrices.Matrix.Sub: the same obligation as `Add`, for the same reason.
- Matrices.Matrix.SetEntry: requires the column index to be below cols. The row pointer of the source carries no column check.
- Matrices.Matrix.SetEntryOne: the same column obligation as `SetEntry`.
- LinearSystems.IsSymmetric: requires at least as many columns as rows. The source reads A[i][j] for every j below the row count. It is only ever called on a square matrix.
- Matrices.Matrix.Inverse: requires a nonzero determinant on a square matrix. The source divides by it and would produce non-finite entries. On a 1x1 matrix [[a]] it returns [[1/a]] where the source returns [[0]], because the cofactor uses the corrected determinant 1 of the 0 x 0 minor (see Findings).
- Matrices.Matrix.Det: returns 1 for a 0 x 0 matrix, the corrected value (see Findings). The source returns 0.
- LinearSystems.LinearSystem.Solve: the Gaussian case requires every pivot to be nonzero. The conjugate-gradient case requires A to be positive definite and b to be nonzero.
- LinearSystems.GaussianSolve: requires every pivot of the elimination to be nonzero. With a zero pivot the source divides by zero.
- LinearSystems.ConjugateGradientSolve: requires A to be positive definite, which the source never checks, and b to be nonzero, since b = 0 makes alpha 0/0. The test `sqrt(rs_new) < tol` is stated as `rs_new < tol * tol`, which is equivalent over the non-negative reals.

## Findings

| source | as written | input that shows it | evidently intended | confidence | as-written member | corrected member |
|---|---|---|---|---|---|---|
| src/Matrix.cpp:182-195 | `det` has no 0 x 0 case, so the cofactor loop runs zero times and returns 0. `inverse` of a 1x1 matrix uses `getMinor(0, 0).det()`, a 0 x 0 determinant, so every cofactor is 0 and the inverse is [[0]] | [[2]]: det is 2, inverse is [[0]], and A * inverse(A) is [[0]], not the identity | the empty determinant is 1, so inverse([[a]]) = [[1 / a]] and A * inverse(A) = I | not executed | Determinants.InverseAsWrittenOneByOne | Determinants.InverseOneByOne |
