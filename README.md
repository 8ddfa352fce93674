# Dense linear solvers and polynomial interpolation, modelled in Dafny

This project models two parts of a small C++ numerical library.

**The dense direct solver of `A·x = b`** (`src/linear_algebra.cpp`) has two solvers:

- `gaussElimination`: Gaussian elimination with partial pivoting, then back substitution;
- `luDecomposition`: LU decomposition with partial pivoting, then forward substitution through the unit lower factor and back substitution through the upper one.

Each solver rewrites its own copies of `A` and `b`, and in LU also `L`, row by row. The model does the same with local sequences that the methods reassign:

- the pivot search, elimination and substitution loops are `while` loops (`linear_algebra.dfy`); the row exchange is a single update of the row sequences (`Matrices.SwapRows`);
- the loops are proved against a specification of the reduction that both solvers share (`elimination.dfy`);
- the specification is `Reduce(A, b)`: the pivot rule, one pivot step, one elimination step, and the run of steps `0..n-2`. It stops at the first pivot that is too small.

Both solver methods promise the same result, `IsOutcome(A, b, r)`:

- `InvalidDimensions` when `A` is empty, its first row is not `n` long, or `|b| != n`;
- `SingularPivot(k)` when the pivot of step `k < n-1` is below `1e-12` after the exchange;
- otherwise the outcome of back substitution: `SingularDiagonal(i)` for the first row met from the bottom whose diagonal is below `1e-12`, or a solution.

About that specification, the project proves:

- the pivot rule;
- the row exchange;
- the invariant of every step, the factorization `P·A = L·U` with `U` upper triangular and `L` unit lower triangular (`factorization.dfy`);
- that the right-hand side LU's forward substitution computes is the one Gaussian elimination computes;
- that a returned solution solves `A·x = b` and is its only solution;
- that a system with two identical rows is rejected with a singular error, never solved;
- that both solvers return the same result on every input.

The elimination loop stops before the last column. The last diagonal entry is therefore checked only by the guard in back substitution, at `src/linear_algebra.cpp:56-59` and `130-132`. The comment at line 57 calls that guard redundant, but the model keeps it as an error path of its own: `SingularDiagonal`. It is the guard that rejects both singular 2×2 systems of the test suite (`scenarios.dfy`).

**Polynomial interpolation** (`src/interpolation.cpp`) has three operations, modelled as methods with the loops of the source (`interpolation.dfy`):

- the divided-difference table, filled column by column in place;
- Lagrange interpolation;
- Newton interpolation.

Each is proved against a specification function: `DividedDifference`, `LagrangeValue` and `NewtonValue`. The project proves these properties of them:

- both interpolators reject exactly the same inputs;
- the Lagrange form passes through every node;
- the Newton form passes through the first two nodes and reproduces lines;
- both forms agree for one node and for two;
- both give the value of the test suite's worked example.

The arithmetic is over exact reals. The threshold `1e-12` is the real constant `Matrices.Eps`, and every comparison against it is kept.

## Model

| member | source | states |
|---|---|---|
| Matrices.SwapRows | src/linear_algebra.cpp:30-33 | an exchange swaps exactly rows `i` and `j`; every other row stays in place |
| Matrices.ZeroMatrix | src/linear_algebra.cpp:73 | the `n×n` matrix `L` starts as all zeros |
| Elimination.PivotAmong | src/linear_algebra.cpp:23-28 | the scan of rows `k..hi-1` returns a row of largest `|U[i][k]|` that is strictly larger than every row before it, so ties go to the lowest row |
| Elimination.PivotRow | src/linear_algebra.cpp:79-84 | the pivot of step `k` satisfies the pivot rule over rows `k..n-1` |
| Elimination.PivotUnique | src/linear_algebra.cpp:23-28 | the pivot rule leaves no choice: two rows satisfying it are the same row |
| Elimination.RowOp | src/linear_algebra.cpp:43-45 | columns `k..` of the row lose `factor` times the pivot row, columns left of `k` are unchanged, and a factor equal to the ratio of the two column-`k` entries leaves a zero in column `k` |
| Elimination.EliminatedU | src/linear_algebra.cpp:41-45 | elimination step `k` leaves rows `0..k` of the matrix unchanged and a zero in column `k` of every row below |
| Elimination.EliminatedL | src/linear_algebra.cpp:99-101 | rows `0..k` of `L` are unchanged; every row `i > k` receives the multiplier `U[i][k] / U[k][k]` in column `k` and keeps its other entries |
| Elimination.EliminatedG | src/linear_algebra.cpp:41-46 | elimination step `k` leaves entries `0..k` of the right-hand side unchanged |
| Elimination.Eliminated | src/linear_algebra.cpp:99-105 | the elimination step of LU keeps the permuted right-hand side and the row record, and clears column `k` below the diagonal |
| Elimination.SwapFactors | src/linear_algebra.cpp:87-91 | rows `k` and `p` change places in `U`, `L`, both right-hand sides and the row record; every other row stays in place |
| Elimination.PivotedState | src/linear_algebra.cpp:79-91 | after the pivot step, row `k` is the pivot row, holds the largest magnitude of column `k` among rows `k..n-1`, rows above `k` are untouched, and nothing moves when the pivot is already at `k` |
| Elimination.Start | src/linear_algebra.cpp:73-74 | the reduction starts from `U = A`, an all-zero `L`, both right-hand sides equal to `b`, and the identity row record |
| Elimination.RunFrom | src/linear_algebra.cpp:22 | a run that stops at a small pivot stops at a step `k..n-2`; the last column is never checked there |
| Elimination.Reduce | src/linear_algebra.cpp:77 | the reduction of `A·x = b` is either `Singular(k)` with `k < n-1` or a state of the right shape |
| Elimination.Advance | src/linear_algebra.cpp:94-96 | step `k` fails exactly at step `k` or yields a state of the right shape |
| Elimination.StartInvariant | src/linear_algebra.cpp:73 | the starting state (`U = A`, `L = 0`, both right-hand sides `b`, identity permutation) satisfies the invariant of step 0 |
| Elimination.SwapKeepsPermutation | src/linear_algebra.cpp:87-91 | exchanging two rows keeps the row record a permutation |
| Elimination.SwapKeepsRowFactored | src/linear_algebra.cpp:88 | one row of `P·A = L·U` survives the exchange of rows `k` and `p >= k` |
| Elimination.SwapKeepsRhsRowFactored | src/linear_algebra.cpp:89 | one row of `P·b = L·g` survives the exchange |
| Elimination.SwapKeepsRowsFactored | src/linear_algebra.cpp:87-91 | every row of `P·A = L·U` survives the exchange, `L` exchanged along with `U` |
| Elimination.SwapKeepsRhsFactored | src/linear_algebra.cpp:30-33 | every row of the right-hand side relation survives the exchange of `b` and `L` |
| Elimination.SwapKeepsZeros | src/linear_algebra.cpp:31 | the exchange keeps the cleared columns `0..k-1` zero below the diagonal |
| Elimination.SwapKeepsMultipliers | src/linear_algebra.cpp:90 | exchanging rows of `L` keeps its multipliers strictly below the diagonal, in columns `0..k-1` |
| Elimination.SwapKeepsRhsPermuted | src/linear_algebra.cpp:89 | the exchanged right-hand side is still `b` permuted by the row record |
| Elimination.SwapKeepsInvariant | src/linear_algebra.cpp:87-91 | exchanging rows `k` and `p >= k` of `U`, `b` and `L` keeps the invariant of step `k` |
| Elimination.MultiplierClears | src/linear_algebra.cpp:42-44 | the factor `A[i][k] / A[k][k]` clears `A[i][k]` exactly |
| Elimination.EliminationKeepsZeros | src/linear_algebra.cpp:41-47 | elimination step `k` clears column `k` below the diagonal and keeps columns `0..k-1` cleared |
| Elimination.RowRelationStep | src/linear_algebra.cpp:101-104 | one entry of `P·A = L·U` carries across one elimination step, with the new multiplier in `L[r][k]` |
| Elimination.RhsRelationStep | src/linear_algebra.cpp:46 | one entry of `P·b = L·g` carries across one elimination step |
| Elimination.EliminationKeepsRowFactored | src/linear_algebra.cpp:99-105 | one row of `P·A = L·U` survives elimination step `k` |
| Elimination.PendingRowFactored | src/linear_algebra.cpp:100-104 | rows below `k` absorb the multiple of row `k` they lose |
| Elimination.FinishedRowFactored | src/linear_algebra.cpp:99 | rows `0..k` keep their relation across step `k` |
| Elimination.EliminationKeepsRhsRowFactored | src/linear_algebra.cpp:46 | one row of the right-hand side relation survives elimination step `k` |
| Elimination.EliminationKeepsMultipliers | src/linear_algebra.cpp:101 | the multipliers recorded in column `k` sit strictly below the diagonal |
| Elimination.EliminationKeepsRowsFactored | src/linear_algebra.cpp:99-105 | every row of `P·A = L·U` survives elimination step `k` |
| Elimination.EliminationKeepsRhsFactored | src/linear_algebra.cpp:41-47 | every row of the right-hand side relation survives elimination step `k` |
| Elimination.EliminationKeepsInvariant | src/linear_algebra.cpp:41-47 | elimination step `k` after a non-zero pivot moves the invariant from step `k` to step `k + 1` |
| Elimination.AdvanceKeepsInvariant | src/linear_algebra.cpp:77-105 | a full step (pivot search, exchange, check, elimination) keeps the invariant |
| Elimination.RunStep | src/linear_algebra.cpp:77 | a run that reduces passes through a reduced step `k` and reaches the same final state from its result |
| Elimination.StepInvariant | src/linear_algebra.cpp:77-105 | a step of a run that reduces keeps the invariant and leads to the same final state |
| Elimination.ReduceInvariant | src/linear_algebra.cpp:77-106 | every state the loop over `k` passes through satisfies the invariant, so a completed reduction satisfies the invariant of its last step |
| Substitution.LastSmall | src/linear_algebra.cpp:51-59 | the first row met from the bottom whose diagonal is below `1e-12`, or `-1`; every row below it has a usable diagonal |
| Substitution.ForwardUnique | src/linear_algebra.cpp:114-121 | a unit lower-triangular system has at most one solution: any two solutions agree |
| Substitution.ForwardUpToSolves | src/linear_algebra.cpp:114-121 | each entry computed top row first solves its row, and later entries never disturb it |
| Substitution.ForwardSolvable | src/linear_algebra.cpp:114-121 | a unit lower-triangular system has exactly one solution: the one computed top row first solves it, and every solution equals it |
| Substitution.BackUnique | src/linear_algebra.cpp:124-134 | an upper-triangular system with a non-zero diagonal has at most one solution: any two solutions agree |
| Substitution.BackSolvedIsProduct | src/linear_algebra.cpp:60 | for upper-triangular `U`, solving row by row from the diagonal is solving `U·x = g` |
| Substitution.LowerSolvedIsProduct | src/linear_algebra.cpp:120 | for unit lower-triangular `L`, `z[i] = c[i] - Σ_{j<i} L[i][j]·z[j]` is solving `L·z = c` |
| Factorization.WithUnitDiagonal | src/linear_algebra.cpp:109-111 | the lower factor has each row of the multipliers with a one on the diagonal |
| Factorization.ProductRow | src/linear_algebra.cpp:110 | with the one on the diagonal, row `r` of `L·U` is the combination of the multipliers plus row `r` of `U` |
| Factorization.FinalTriangular | src/linear_algebra.cpp:76-111 | after the last step `U` is upper triangular and `L` unit lower triangular |
| Factorization.FinalProduct | src/linear_algebra.cpp:76-111 | after the last step every row of `P·A` is the same row of `L·U` |
| Factorization.LuFactorization | src/linear_algebra.cpp:73-111 | whenever no pivot is too small: `P·A = L·U` with `P` a permutation, `U` upper triangular, `L` unit lower triangular, and the permuted `b` is `P·b` |
| Factorization.EliminatedRhsSolvesLower | src/linear_algebra.cpp:114-121 | the right-hand side Gaussian elimination computes solves `L·z = P·b` |
| Factorization.ForwardReproducesRhs | src/linear_algebra.cpp:113-121 | forward substitution in LU produces exactly the right-hand side Gaussian elimination computes |
| Factorization.FactoredRow | src/linear_algebra.cpp:99-105 | row `r` of the permuted `A` read off the final invariant |
| Factorization.FactoredRhs | src/linear_algebra.cpp:46 | row `r` of the permuted `b` read off the final invariant |
| Factorization.RowAgrees | src/linear_algebra.cpp:41-47 | once the rows above agree, one row of the permuted system holds exactly when the same row of the reduced one does |
| Factorization.FinalRowAgrees | src/linear_algebra.cpp:41-47 | row `r` of `A·x = b` in pivoted order holds exactly when row `r` of `U·x = g` does, given the rows above |
| Factorization.SolvesReducedRows | src/linear_algebra.cpp:22-48 | a solution of `A·x = b` solves every row of the reduced system |
| Factorization.EqualProductRows | src/linear_algebra.cpp:99-105 | if `L` is unit lower triangular, `U` upper triangular and rows `r1 < r2` of `L·U` are equal, some diagonal entry of `U` is zero |
| Factorization.PermutedEqualRows | src/linear_algebra.cpp:86-91 | when `P·A = L·U`, two equal rows of `A` sit at two rows of `P·A`, so `U` has a zero on its diagonal |
| Factorization.EqualRowsSingular | src/linear_algebra.cpp:130-132 | a reduction of a system with two equal rows that passes every pivot check leaves a diagonal entry of `U` below `1e-12`, which back substitution rejects |
| Factorization.PermutedRowsSolved | src/linear_algebra.cpp:41-47 | a solution of the permuted system solves rows `0..m-1` of the reduced one, each row following from the rows above it |
| Factorization.ReducedSystemEquivalent | src/linear_algebra.cpp:17-48 | the reduced triangular system has exactly the solutions of `A·x = b` |
| LinearAlgebra.FindPivot | src/linear_algebra.cpp:23-28 | the loop returns the row the pivot rule names: largest `|U[i][k]|` in rows `k..n-1`, lowest row on ties |
| LinearAlgebra.SubtractScaledRow | src/linear_algebra.cpp:43-45 | columns `k..n-1` of the row lose `factor` times the pivot row; columns left of `k` are unchanged |
| LinearAlgebra.EliminateBelow | src/linear_algebra.cpp:41-47 | the nested loops compute elimination step `k` of the specification, on `A` and on `b` |
| LinearAlgebra.EliminateBelowRecording | src/linear_algebra.cpp:99-105 | the nested loops compute elimination step `k` on `U` and store each multiplier in `L[i][k]` |
| LinearAlgebra.RowSum | src/linear_algebra.cpp:52-55 | the accumulated sum is the dot product over the given stretch of the row |
| LinearAlgebra.SetUnitDiagonal | src/linear_algebra.cpp:109-111 | the loop puts ones on the diagonal of `L` and changes nothing else |
| LinearAlgebra.ForwardSubstitute | src/linear_algebra.cpp:114-121 | the loop solves `L·z = c` row by row, top row first, without dividing |
| LinearAlgebra.BackSubstitute | src/linear_algebra.cpp:50-61 | the loop returns `SingularDiagonal(i)` for the first row from the bottom with a diagonal below `1e-12`, and otherwise a solution of `U·x = g` |
| LinearAlgebra.BackSolvable | src/linear_algebra.cpp:50-61 | an upper-triangular system without zeros on its diagonal has exactly one solution: the one computed bottom row first by `x[i] = (g[i] - sum)/U[i][i]` solves it, and every solution equals it |
| LinearAlgebra.GaussElimination | src/linear_algebra.cpp:17-63 | the dimension error, the singular pivot of the first failing step, or the outcome of back substitution on the reduced system |
| LinearAlgebra.LuDecomposition | src/linear_algebra.cpp:65-137 | the same outcome as Gaussian elimination, through `L·z = P·b` and `U·x = z` |
| LinearAlgebra.OutcomeUnique | src/linear_algebra.cpp:77-96 | the outcome is determined by `A` and `b`: both solvers, with the same pivot rule and threshold, return the same result on every input |
| LinearAlgebra.SolutionCorrect | src/linear_algebra.cpp:50-62 | a returned `x` solves `A·x = b` and is its only solution |
| LinearAlgebra.IdenticalRowsRejected | tests/test_linear_algebra.cpp:29-40 | a square system with two identical rows fails in both solvers with a singular error (`SingularPivot` or `SingularDiagonal`), never with a solution |
| Interpolation.ApartDistinct | src/interpolation.cpp:24-26 | nodes pairwise at least `1e-12` apart are pairwise different |
| Interpolation.CheckedDistinct | src/interpolation.cpp:23-24 | the pairs the table loop has checked make every window it divides over distinct |
| Interpolation.CheckOne | src/interpolation.cpp:24-26 | a pair `(i, i+j)` that passes the check extends the checked pairs by one |
| Interpolation.FillStep | src/interpolation.cpp:27 | the table's update `(below - left) / (x[i+j] - x[i])` computes the divided difference of order `j` |
| Interpolation.FilledEntry | src/interpolation.cpp:27 | an entry already filled holds its divided difference |
| Interpolation.TableExtend | src/interpolation.cpp:27 | writing entry `[i][j]` extends the filled part by that entry and changes nothing else |
| Interpolation.FillColumnDone | src/interpolation.cpp:23 | column `j` is complete once rows `0..n-j-1` are filled |
| Interpolation.FillEntry | src/interpolation.cpp:27 | entry `[i][j]` is set from the entry to its left and the one diagonally below, and the table stays filled |
| Interpolation.FillColumn | src/interpolation.cpp:23-28 | column `j` fails only on two nodes closer than `1e-12`, and otherwise holds the divided differences of order `j` |
| Interpolation.DividedDifferences | src/interpolation.cpp:12-31 | fails exactly when two nodes are closer than `1e-12`; otherwise entry `[i][j]` is the divided difference for `i + j < n` and zero beyond |
| Interpolation.TableComplete | src/interpolation.cpp:22-29 | the complete table holds every divided difference of the triangle and zeros elsewhere |
| Interpolation.TableRecurrence | src/interpolation.cpp:27 | each entry of the returned table is the entry to its left and the one diagonally below, combined by the recurrence, divided by a non-zero difference of nodes |
| Interpolation.NodeProductStep | src/interpolation.cpp:76 | one more factor `(xp - x[i-1])` extends the node product |
| Interpolation.NewtonSumStep | src/interpolation.cpp:77 | one more term extends the Newton form |
| Interpolation.EvaluateNewton | src/interpolation.cpp:71-78 | the loop over the top row of the table computes the Newton form at `xp` |
| Interpolation.NewtonInterpolation | src/interpolation.cpp:62-81 | invalid argument for different or empty sizes, duplicate nodes when two nodes are closer than `1e-12`, and otherwise the value of the Newton form |
| Interpolation.BasisStep | src/interpolation.cpp:52 | one more factor `(xp - x[j]) / (x[i] - x[j])` extends the basis polynomial |
| Interpolation.BasisAt | src/interpolation.cpp:46-54 | the inner loop fails on the first node too close to node `i`; otherwise node `i` is apart from all others and the result is its basis polynomial at `xp` |
| Interpolation.ApartFromStep | src/interpolation.cpp:47-51 | node `i`, found apart from every other node, extends the checked nodes by one |
| Interpolation.LagrangeStep | src/interpolation.cpp:55 | adding `y[i]` times the basis polynomial of node `i` extends the Lagrange form |
| Interpolation.AddTerm | src/interpolation.cpp:46-55 | one pass of the outer loop fails on a duplicate node or adds the term of node `i` |
| Interpolation.LagrangeTerms | src/interpolation.cpp:42-58 | the nested loops fail exactly when two nodes are closer than `1e-12`, and otherwise compute the Lagrange form at `xp` |
| Interpolation.LagrangeInterpolation | src/interpolation.cpp:37-59 | invalid argument for different or empty sizes, duplicate nodes when two nodes are closer than `1e-12`, and otherwise the value of the Lagrange form |
| Interpolation.ApartAllDistinct | src/interpolation.cpp:49-51 | nodes that pass the duplicate check are pairwise different |
| Interpolation.BasisAtOtherNode | src/interpolation.cpp:52 | the basis polynomial of node `i` is zero at every other node |
| Interpolation.BasisAtOwnNode | src/interpolation.cpp:52 | the basis polynomial of node `i` is one at node `i` |
| Interpolation.LagrangeSumAtNode | src/interpolation.cpp:45-56 | at node `x[k]` the first `m` terms of the Lagrange form sum to `y[k]` if `k < m` and to zero otherwise |
| Interpolation.LagrangeAtNode | src/interpolation.cpp:37-59 | Lagrange interpolation passes through every node: its value at `x[k]` is `y[k]` |
| Interpolation.NodeProductAtNode | src/interpolation.cpp:76 | a node product that includes the factor for node `k` vanishes at `x[k]` |
| Interpolation.NewtonSumAtNode | src/interpolation.cpp:75-78 | at node `x[k]` only the first `k + 1` terms of the Newton form count |
| Interpolation.NewtonSumAtSecondNode | src/interpolation.cpp:72-77 | the first two terms of the Newton form give `y[1]` at `x[1]` |
| Interpolation.NewtonAtFirstNodes | src/interpolation.cpp:62-81 | Newton interpolation gives `y[0]` at `x[0]` and, with two nodes or more, `y[1]` at `x[1]` |
| Interpolation.DividedDifferenceOfLine | src/interpolation.cpp:27 | for values on a line, divided differences of order one are the slope and those of higher order are zero |
| Interpolation.NewtonSumOfLine | src/interpolation.cpp:75-78 | for values on a line, the Newton form is that line |
| Interpolation.NewtonReproducesLine | src/interpolation.cpp:62-81 | with two nodes or more, Newton interpolation of values on a line returns the line's value at every `xp` |
| Interpolation.SingleNode | src/interpolation.cpp:45-55 | with one node, both forms are the constant `y[0]` |
| Interpolation.TwoNodeForms | src/interpolation.cpp:45-58 | the Lagrange and Newton forms with two nodes written out |
| Interpolation.TwoNodeLine | src/interpolation.cpp:72-78 | the two-node Lagrange and Newton expressions are the same line |
| Interpolation.TwoNodes | src/interpolation.cpp:37-81 | with two nodes, Lagrange and Newton interpolation return the same value everywhere |
| Interpolation.ParabolaTerms | tests/test_interpolation.cpp:14-20 | the nodes `0, 1, 2` with values `1, 2, 5` give `3.25` at `1.5` in both forms |
| Interpolation.ParabolaExample | tests/test_interpolation.cpp:33-39 | the nodes `0, 1, 2` are apart, and Lagrange and Newton interpolation both return `3.25` at `1.5` |
| Scenarios.SolvedOutcome | src/linear_algebra.cpp:50-62 | a system whose reduced form has a usable diagonal and is solved by `x` has the outcome `x` |
| Scenarios.BackSolution | src/linear_algebra.cpp:124-136 | back substitution through a usable diagonal returns the one solution of `U·x = g` |
| Scenarios.GaussElimination0 | tests/test_linear_algebra.cpp:19-26 | elimination step 0 of the Gaussian test system, entry by entry |
| Scenarios.GaussElimination1 | tests/test_linear_algebra.cpp:19-26 | elimination step 1 of the Gaussian test system |
| Scenarios.GaussFirstStep | tests/test_linear_algebra.cpp:21-22 | step 0 of the Gaussian test system exchanges rows 0 and 1 and eliminates |
| Scenarios.GaussReduction | tests/test_linear_algebra.cpp:21-22 | the reduction of the Gaussian test system ends in a known triangular system |
| Scenarios.GaussBackSolved | tests/test_linear_algebra.cpp:23 | `(2, 3, -1)` solves that triangular system, whose diagonal is usable |
| Scenarios.GaussExample | tests/test_linear_algebra.cpp:19-26 | Gaussian elimination on the test system returns `(2, 3, -1)` |
| Scenarios.LuElimination0 | tests/test_linear_algebra.cpp:42-49 | elimination step 0 of the LU test system, entry by entry |
| Scenarios.LuElimination1 | tests/test_linear_algebra.cpp:42-49 | elimination step 1 of the LU test system |
| Scenarios.LuFirstStep | tests/test_linear_algebra.cpp:44-45 | step 0 of the LU test system exchanges rows 0 and 2 and eliminates |
| Scenarios.LuReduction | tests/test_linear_algebra.cpp:44-45 | the reduction of the LU test system exchanges nothing at step 1 and ends in a known triangular system |
| Scenarios.LuBackSolved | tests/test_linear_algebra.cpp:46 | `(5, 1, -2)` solves that triangular system, whose diagonal is usable |
| Scenarios.LuExample | tests/test_linear_algebra.cpp:42-49 | LU decomposition on the test system returns `(5, 1, -2)` |
| Scenarios.EqualRowsExample | tests/test_linear_algebra.cpp:29-40 | `[[1,1],[1,1]]` passes the pivot check and is rejected by back substitution at row 1 |
| Scenarios.DoubledRowExample | tests/test_linear_algebra.cpp:52-62 | `[[1,2],[2,4]]` exchanges its rows, passes the pivot check, and is rejected by back substitution at row 1 |

## Left out

- `printMatrix` (`src/linear_algebra.cpp:7-15`): console output only.
- Floating point: entries are exact reals, so there is no rounding, no overflow and no claim about numerical stability. The comparisons against `1e-12` are kept exactly as written.
- Exception types and message texts: each solver's three throws become the error kinds `InvalidDimensions`, `SingularPivot(k)` and `SingularDiagonal(i)`, and the interpolators' throws become `InvalidArgument` and `DuplicateNodes`.
- LinearAlgebra.GaussElimination, LinearAlgebra.LuDecomposition: require that, when the dimension check passes, every row of `A` is as long as row 0 (`DimensionsOk(A, b) ==> RowsUniform(A)`). Inputs that fail the dimension check are not restricted: `A = [[1,2,3],[4]]` with `b = [1,2]` gets the dimension error, as in the source. Two kinds of input that pass the check are excluded:
  - a later row shorter than `n`, which C++ would read out of bounds, with no defined result to model;
  - a later row longer than `n`, such as `A = [[1,0],[0,1,7]]`, which the source solves normally, reading only the first `n` columns. The model does not cover it.
- Interpolation.DividedDifferences: requires `|y| == |x|`, which its only caller, `newtonInterpolation`, has already checked at `src/interpolation.cpp:63-65`.
- Interpolation.NewtonAtFirstNodes: proves that Newton interpolation passes through the first two nodes, not every node. It also proves exact reproduction of lines. The general statement needs the symmetric form of divided differences, which is not part of this model.
- Interpolation.TwoNodes: the agreement of the Lagrange and Newton forms is proved for one node and for two, not in general.
- Helper methods: the source writes these inline in the function they belong to. Each is its own method here, with the same iterations in the same order.
  - Loops: `FillColumn`, `EvaluateNewton`, `BasisAt`, `LagrangeTerms`, `EliminateBelow`, `EliminateBelowRecording`, `SubtractScaledRow`, `RowSum` and `SetUnitDiagonal`.
  - `FillEntry` is the single assignment at `src/interpolation.cpp:27`.
  - `AddTerm` is one pass of the body of the outer loop of Lagrange interpolation, `src/interpolation.cpp:46-55`.
  - `SolveFor` is the division at `src/linear_algebra.cpp:60` and `133`.
- Elimination.EliminatedG: its contract states only that entries `0..k` are unchanged. The entries below, `g[i] - (U[i][k] / U[k][k])·g[k]`, are stated by the lemma `Elimination.EliminatedEntry`, because the same clause on the function slows every proof that mentions a reduction step.
- The row record `perm` of the reduction is specification state only. The source never builds `P`; it exchanges rows in place.
- `src/approximation.cpp`, `src/integration.cpp`, `src/differential_equations.cpp` and `src/nonlinear_equations.cpp` are not part of this model. They are approximation formulas over callbacks, whose promises are accuracy bounds in floating point.
