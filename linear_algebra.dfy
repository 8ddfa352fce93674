/** The two solvers of `A·x = b`: Gaussian elimination with partial pivoting
    followed by back substitution, and LU decomposition with partial
    pivoting followed by forward and back substitution. Each works on its
    own copies of `A` and `b`, exchanging and rewriting their rows in place;
    here those copies are local sequences the methods reassign. */
module LinearAlgebra {
  import opened Matrices
  import opened Elimination
  import opened Substitution
  import opened Factorization

  /** The three ways a solver gives up: the argument check, a pivot that is
      too small during elimination, and a diagonal entry that is too small
      during back substitution. */
  datatype SolveError = InvalidDimensions | SingularPivot(step: nat) | SingularDiagonal(row: nat)

  datatype Outcome = Solution(x: Vector) | Failure(error: SolveError)

  /** The argument check: a non-empty `A` whose first row is as long as `A`
      has rows, and a right-hand side of the same length. */
  predicate DimensionsOk(A: Matrix, b: Vector)
  {
    |A| > 0 && |A[0]| == |A| && |b| == |A|
  }

  /** What back substitution through `U·x = g` returns: the lowest row whose
      diagonal is too small, or the solution row by row. */
  predicate BackOutcome(U: Matrix, g: Vector, n: nat, r: Outcome)
    requires IsSquare(U, n) && |g| == n
  {
    var s := LastSmall(U, n);
    if s >= 0 then r == Failure(SingularDiagonal(s))
    else r.Solution? && |r.x| == n && BackSolved(U, r.x, g, n)
  }

  /** The result both solvers promise for `A·x = b`. */
  predicate IsOutcome(A: Matrix, b: Vector, r: Outcome)
    requires DimensionsOk(A, b) ==> RowsUniform(A)
  {
    if !DimensionsOk(A, b) then r == Failure(InvalidDimensions)
    else match Reduce(A, b)
      case Singular(k) => r == Failure(SingularPivot(k))
      case Reduced(f) => BackOutcome(f.u, f.g, |A|, r)
  }

  // ---------------------------------------------------------------------
  // The loops the solvers are made of

  /** The pivot search of step `k`. */
  method FindPivot(U: Matrix, k: nat) returns (p: nat)
    requires IsSquare(U, |U|) && k < |U|
    ensures IsPivot(U, k, p) && p == PivotRow(U, k)
  {
    p := k;
    var i := k + 1;
    while i < |U|
      invariant k + 1 <= i <= |U| && p == PivotAmong(U, k, i)
    {
      if Abs(U[i][k]) > Abs(U[p][k]) {
        p := i;
      }
      i := i + 1;
    }
  }

  /** `row` minus `factor` times `pivotRow`, from column `k` on. */
  method SubtractScaledRow(row: Vector, pivotRow: Vector, factor: real, k: nat) returns (r: Vector)
    requires |pivotRow| == |row| && k <= |row|
    ensures r == RowOp(row, pivotRow, factor, k)
  {
    r := row;
    var j := k;
    while j < |row|
      invariant k <= j <= |row| && |r| == |row|
      invariant forall t | 0 <= t < |row| :: r[t] == if t < j then RowOp(row, pivotRow, factor, k)[t] else row[t]
    {
      r := r[j := r[j] - factor * pivotRow[j]];
      j := j + 1;
    }
  }

  /** The elimination of step `k` in Gaussian elimination: rows below `k`
      lose their multiple of row `k`, in the matrix and the right-hand side. */
  method EliminateBelow(U: Matrix, g: Vector, k: nat) returns (U': Matrix, g': Vector)
    requires IsSquare(U, |U|) && |g| == |U| && k < |U| && U[k][k] != 0.0
    ensures U' == EliminatedU(U, k) && g' == EliminatedG(g, U, k)
  {
    var n := |U|;
    U', g' := U, g;
    var i := k + 1;
    while i < n
      invariant k + 1 <= i <= n && |U'| == n && |g'| == n
      invariant forall t | 0 <= t < n :: U'[t] == if t < i then EliminatedU(U, k)[t] else U[t]
      invariant forall t | 0 <= t < n :: g'[t] == if t < i then EliminatedG(g, U, k)[t] else g[t]
    {
      var factor := U'[i][k] / U'[k][k];
      var row := SubtractScaledRow(U'[i], U'[k], factor, k);
      U' := U'[i := row];
      g' := g'[i := g'[i] - factor * g'[k]];
      i := i + 1;
    }
  }

  /** The elimination of step `k` in LU decomposition: the same update of
      the working matrix, with each multiplier stored in column `k` of `L`. */
  method EliminateBelowRecording(U: Matrix, L: Matrix, k: nat) returns (U': Matrix, L': Matrix)
    requires IsSquare(U, |U|) && IsSquare(L, |U|) && k < |U| && U[k][k] != 0.0
    ensures U' == EliminatedU(U, k) && L' == EliminatedL(L, U, k)
  {
    var n := |U|;
    U', L' := U, L;
    var i := k + 1;
    while i < n
      invariant k + 1 <= i <= n && |U'| == n && |L'| == n
      invariant forall t | 0 <= t < n :: U'[t] == if t < i then EliminatedU(U, k)[t] else U[t]
      invariant forall t | 0 <= t < n :: L'[t] == if t < i then EliminatedL(L, U, k)[t] else L[t]
    {
      var factor := U'[i][k] / U'[k][k];
      L' := L'[i := L'[i][k := factor]];
      var row := SubtractScaledRow(U'[i], U'[k], factor, k);
      U' := U'[i := row];
      i := i + 1;
    }
  }

  /** The running sum both substitutions accumulate over a stretch of a row. */
  method RowSum(u: Vector, v: Vector, lo: nat, hi: nat) returns (sum: real)
    requires lo <= hi <= |u| && hi <= |v|
    ensures sum == Dot(u, v, lo, hi)
  {
    sum := 0.0;
    var j := lo;
    while j < hi
      invariant lo <= j <= hi && sum == Dot(u, v, lo, j)
    {
      sum := sum + u[j] * v[j];
      j := j + 1;
    }
  }

  /** Ones on the diagonal of `L`. */
  method SetUnitDiagonal(L: Matrix) returns (L': Matrix)
    requires IsSquare(L, |L|)
    ensures L' == WithUnitDiagonal(L, |L|)
  {
    var n := |L|;
    L' := L;
    var i := 0;
    while i < n
      invariant 0 <= i <= n && |L'| == n
      invariant forall t | 0 <= t < n :: L'[t] == if t < i then L[t][t := 1.0] else L[t]
    {
      L' := L'[i := L'[i][i := 1.0]];
      i := i + 1;
    }
  }

  /** Forward substitution: solves `L·z = c` for unit lower-triangular `L`,
      top row first, without dividing (the diagonal is one). */
  method ForwardSubstitute(L: Matrix, c: Vector) returns (z: Vector)
    requires IsSquare(L, |L|) && |c| == |L|
    ensures |z| == |L| && LowerSolved(L, z, c, |L|)
  {
    var n := |L|;
    z := Zeros(n);
    var i := 0;
    while i < n
      invariant 0 <= i <= n && |z| == n
      invariant forall t | 0 <= t < i :: Dot(L[t], z, 0, t) + z[t] == c[t]
    {
      var sum := RowSum(L[i], z, 0, i);
      var z' := z[i := c[i] - sum];
      forall t | 0 <= t <= i ensures Dot(L[t], z', 0, t) == Dot(L[t], z, 0, t) {
        DotFrame(L[t], z', L[t], z, 0, t);
      }
      z := z';
      i := i + 1;
    }
  }

  /** The unknown of one row of back substitution: `(v - s) / d`. */
  method SolveFor(d: real, s: real, v: real) returns (x: real)
    requires d != 0.0
    ensures d * x + s == v
  {
    x := (v - s) / d;
  }

  /** Rows `lo..n-1` of `U·x = g` hold. */
  predicate SolvedBelow(U: Matrix, x: Vector, g: Vector, lo: nat)
    requires IsSquare(U, |U|) && |g| == |U| && |x| == |U|
  {
    forall t | lo <= t < |U| :: U[t][t] * x[t] + Dot(U[t], x, t + 1, |U|) == g[t]
  }

  /** Solving row `i` for `x[i] := v` keeps the rows below it solved. */
  lemma BackStep(U: Matrix, g: Vector, x: Vector, i: nat, sum: real, v: real)
    requires IsSquare(U, |U|) && |g| == |U| && |x| == |U| && i < |U|
    requires sum == Dot(U[i], x, i + 1, |U|) && U[i][i] * v + sum == g[i]
    requires SolvedBelow(U, x, g, i + 1)
    ensures SolvedBelow(U, x[i := v], g, i)
  {
    forall t | i <= t < |U| ensures U[t][t] * x[i := v][t] + Dot(U[t], x[i := v], t + 1, |U|) == g[t] {
      RowStays(U, g, x, i, sum, v, t);
    }
  }

  /** Row `t` of the system after `x[i] := v`. */
  lemma RowStays(U: Matrix, g: Vector, x: Vector, i: nat, sum: real, v: real, t: nat)
    requires IsSquare(U, |U|) && |g| == |U| && |x| == |U| && i <= t < |U|
    requires sum == Dot(U[i], x, i + 1, |U|) && U[i][i] * v + sum == g[i]
    requires t > i ==> U[t][t] * x[t] + Dot(U[t], x, t + 1, |U|) == g[t]
    ensures U[t][t] * x[i := v][t] + Dot(U[t], x[i := v], t + 1, |U|) == g[t]
  {
    var x' := x[i := v];
    DotFrame(U[t], x', U[t], x, t + 1, |U|);
    if t == i {
      RowEquation(U[i][i], v, x'[t], sum, Dot(U[t], x', t + 1, |U|), g[i]);
    } else {
      RowEquation(U[t][t], x[t], x'[t], Dot(U[t], x, t + 1, |U|), Dot(U[t], x', t + 1, |U|), g[t]);
    }
  }

  /** One row's equation `d·a + s == v` survives replacing `a` and `s` by equal values. */
  lemma RowEquation(d: real, a: real, a': real, s: real, s': real, v: real)
    requires a == a' && s == s' && d * a + s == v
    ensures d * a' + s' == v
  {
  }

  /** `d·((v - s)/d) + s == v`: the division of `SolveFor`, as a fact. */
  lemma SolvedRow(d: real, s: real, v: real)
    requires d != 0.0
    ensures d * ((v - s) / d) + s == v
  {
  }

  /** An upper-triangular system without zeros on its diagonal has exactly
      one solution: solving it bottom row first yields a solution `x`, and
      every solution equals `x`. */
  lemma BackSolvable(U: Matrix, g: Vector) returns (x: Vector)
    requires IsSquare(U, |U|) && |g| == |U|
    requires forall i | 0 <= i < |U| :: U[i][i] != 0.0
    ensures |x| == |U| && BackSolved(U, x, g, |U|)
    ensures forall y | |y| == |U| && BackSolved(U, y, g, |U|) :: y == x
  {
    x := Zeros(|U|);
    var i: nat := |U|;
    while i > 0
      invariant i <= |U| && |x| == |U| && SolvedBelow(U, x, g, i)
    {
      i := i - 1;
      var sum := Dot(U[i], x, i + 1, |U|);
      SolvedRow(U[i][i], sum, g[i]);
      BackStep(U, g, x, i, sum, (g[i] - sum) / U[i][i]);
      x := x[i := (g[i] - sum) / U[i][i]];
    }
    forall y | |y| == |U| && BackSolved(U, y, g, |U|) ensures y == x {
      BackUnique(U, y, x, g, |U|, 0);
    }
  }

  /** Back substitution: solves `U·x = g` bottom row first, and stops at the
      first row (from the bottom) whose diagonal is too small. */
  method BackSubstitute(U: Matrix, g: Vector) returns (r: Outcome)
    requires IsSquare(U, |U|) && |g| == |U|
    ensures BackOutcome(U, g, |U|, r)
  {
    var n := |U|;
    var x := Zeros(n);
    var i: int := n - 1;
    while i >= 0
      invariant -1 <= i < n && |x| == n
      invariant forall t | i < t < n :: !Small(U[t][t])
      invariant SolvedBelow(U, x, g, i + 1)
    {
      var sum := RowSum(U[i], x, i + 1, n);
      if Abs(U[i][i]) < Eps {
        assert LastSmall(U, n) == i;
        return Failure(SingularDiagonal(i));
      }
      var v := SolveFor(U[i][i], sum, g[i]);
      BackStep(U, g, x, i, sum, v);
      x := x[i := v];
      i := i - 1;
    }
    assert LastSmall(U, n) == -1;
    assert SolvedBelow(U, x, g, 0);
    r := Solution(x);
  }

  // ---------------------------------------------------------------------
  // The two solvers

  /** Gaussian elimination with partial pivoting and back substitution. */
  method GaussElimination(A: Matrix, b: Vector) returns (r: Outcome)
    requires DimensionsOk(A, b) ==> RowsUniform(A)
    ensures IsOutcome(A, b, r)
  {
    var n := |A|;
    if n == 0 || |A[0]| != n || |b| != n {
      return Failure(InvalidDimensions);
    }
    var U, g := A, b;
    ghost var st := Start(A, b);
    var k := 0;
    while k < n - 1
      invariant 0 <= k <= n - 1 && Shaped(st, n) && st.u == U && st.g == g
      invariant RunFrom(st, k) == Reduce(A, b)
    {
      var p := FindPivot(U, k);
      if p != k {
        U := SwapRows(U, k, p);
        g := SwapRows(g, k, p);
      }
      ghost var pivoted := Pivoted(st, k);
      assert pivoted.u == U && pivoted.g == g;
      StepOutcome(st, k);
      if Abs(U[k][k]) < Eps {
        return Failure(SingularPivot(k));
      }
      U, g := EliminateBelow(U, g, k);
      st := Eliminated(pivoted, k);
      k := k + 1;
    }
    r := BackSubstitute(U, g);
  }

  /** LU decomposition with partial pivoting, then `L·z = P·b` by forward
      substitution and `U·x = z` by back substitution. */
  method LuDecomposition(A: Matrix, b: Vector) returns (r: Outcome)
    requires DimensionsOk(A, b) ==> RowsUniform(A)
    ensures IsOutcome(A, b, r)
  {
    var n := |A|;
    if n == 0 || |A[0]| != n || |b| != n {
      return Failure(InvalidDimensions);
    }
    var L := ZeroMatrix(n);
    var U, c := A, b;
    ghost var st := Start(A, b);
    var k := 0;
    while k < n - 1
      invariant 0 <= k <= n - 1 && Shaped(st, n) && st.u == U && st.l == L && st.c == c
      invariant RunFrom(st, k) == Reduce(A, b)
    {
      var p := FindPivot(U, k);
      if p != k {
        U := SwapRows(U, k, p);
        c := SwapRows(c, k, p);
        L := SwapRows(L, k, p);
      }
      ghost var pivoted := Pivoted(st, k);
      assert pivoted.u == U && pivoted.l == L && pivoted.c == c;
      StepOutcome(st, k);
      if Abs(U[k][k]) < Eps {
        return Failure(SingularPivot(k));
      }
      U, L := EliminateBelowRecording(U, L, k);
      st := Eliminated(pivoted, k);
      k := k + 1;
    }
    L := SetUnitDiagonal(L);
    var z := ForwardSubstitute(L, c);
    assert Reduce(A, b) == Reduced(st);
    ForwardReproducesRhs(A, b, st, z);
    r := BackSubstitute(U, z);
  }

  // ---------------------------------------------------------------------
  // What the result means

  /** The result is determined by `A` and `b` alone; as both solvers promise
      `IsOutcome`, they return the same result on every input. */
  lemma OutcomeUnique(A: Matrix, b: Vector, r1: Outcome, r2: Outcome)
    requires (DimensionsOk(A, b) ==> RowsUniform(A)) && IsOutcome(A, b, r1) && IsOutcome(A, b, r2)
    ensures r1 == r2
  {
    if DimensionsOk(A, b) && Reduce(A, b).Reduced? {
      var f, n := Reduce(A, b).f, |A|;
      if LastSmall(f.u, n) < 0 {
        BackUnique(f.u, r1.x, r2.x, f.g, n, 0);
      }
    }
  }

  /** A returned solution solves `A·x = b`, and is its only solution. */
  lemma SolutionCorrect(A: Matrix, b: Vector, x: Vector)
    requires (DimensionsOk(A, b) ==> RowsUniform(A)) && IsOutcome(A, b, Solution(x))
    ensures Solves(A, x, b)
    ensures forall y | |y| == |A| :: Solves(A, y, b) <==> y == x
  {
    var f, n := Reduce(A, b).f, |A|;
    ReduceInvariant(A, b);
    FinalTriangular(f, n);
    BackSolvedIsProduct(f.u, x, f.g, n);
    ReducedSystemEquivalent(A, b, f, x);
    forall y | |y| == n ensures Solves(A, y, b) <==> y == x {
      ReducedSystemEquivalent(A, b, f, y);
      BackSolvedIsProduct(f.u, y, f.g, n);
      if Solves(A, y, b) {
        BackUnique(f.u, x, y, f.g, n, 0);
      }
    }
  }

  /** Two identical rows make the system singular: the solvers then fail,
      and not with the dimension error. */
  lemma IdenticalRowsRejected(A: Matrix, b: Vector, r: Outcome, i: nat, j: nat)
    requires DimensionsOk(A, b) && RowsUniform(A) && IsOutcome(A, b, r)
    requires i < |A| && j < |A| && i != j && A[i] == A[j]
    ensures r.Failure? && r.error != InvalidDimensions
  {
    if Reduce(A, b).Reduced? {
      EqualRowsSingular(A, b, i, j);
    }
  }
}
