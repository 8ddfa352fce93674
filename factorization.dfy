/** What a completed reduction delivers: the factorization `P·A = L·U`, and a
    triangular system with exactly the solutions of the original one. */
module Factorization {
  import opened Matrices
  import opened Elimination
  import opened Substitution

  /** The lower factor: the multipliers with ones placed on the diagonal. */
  function WithUnitDiagonal(l: Matrix, n: nat): (L: Matrix)
    requires IsSquare(l, n)
    ensures IsSquare(L, n) && forall i | 0 <= i < n :: L[i] == l[i][i := 1.0]
  {
    seq(n, i requires 0 <= i < n => l[i][i := 1.0])
  }

  /** Row `r` of `L·U` with the unit diagonal made explicit. */
  lemma ProductRow(l: Vector, L: Vector, U: Matrix, n: nat, r: nat, c: nat)
    requires IsSquare(U, n) && |l| == n && r < n && c < n && L == l[r := 1.0]
    requires forall j | r <= j < n :: l[j] == 0.0
    ensures ColDot(L, U, c, n) == ColDot(l, U, c, r) + U[r][c]
  {
    ColDotZeroTail(L, U, c, r + 1, n);
    ColDotFrame(L, U, l, U, c, r);
  }

  /** After the last step `U` is upper triangular and `L` unit lower
      triangular. */
  lemma FinalTriangular(f: Factors, n: nat)
    requires n > 0 && Shaped(f, n) && ZerosBelow(f.u, n, n - 1) && MultipliersPlaced(f.l, n, n - 1)
    ensures UpperTriangular(f.u, n)
    ensures UnitLowerTriangular(WithUnitDiagonal(f.l, n), n)
  {
  }

  /** After the last step row `r` of the permuted `A` is row `r` of `L·U`. */
  lemma FinalProduct(A: Matrix, f: Factors)
    requires IsSquare(A, |A|) && |A| > 0 && Shaped(f, |A|) && IsPermutation(f.perm, |A|)
    requires MultipliersPlaced(f.l, |A|, |A| - 1) && RowsFactored(A, f, |A| - 1)
    ensures forall r, c | 0 <= r < |A| && 0 <= c < |A| ::
      A[f.perm[r]][c] == ColDot(WithUnitDiagonal(f.l, |A|)[r], f.u, c, |A|)
  {
    var n := |A|;
    var L := WithUnitDiagonal(f.l, n);
    forall r, c | 0 <= r < n && 0 <= c < n ensures A[f.perm[r]][c] == ColDot(L[r], f.u, c, n) {
      assert Min(r, n - 1) == r;
      ProductRow(f.l[r], L[r], f.u, n, r, c);
    }
  }

  /** The LU factorization with partial pivoting: whenever no pivot is too
      small, `P·A = L·U` where `P` is the row permutation `perm`, `U` upper
      triangular and `L` unit lower triangular, and `c` is `P·b`. */
  lemma LuFactorization(A: Matrix, b: Vector)
    requires IsSquare(A, |A|) && |b| == |A| && |A| > 0 && Reduce(A, b).Reduced?
    ensures var f := Reduce(A, b).f; var L := WithUnitDiagonal(f.l, |A|);
      IsPermutation(f.perm, |A|) && UpperTriangular(f.u, |A|) && UnitLowerTriangular(L, |A|) &&
      (forall r, c | 0 <= r < |A| && 0 <= c < |A| :: A[f.perm[r]][c] == ColDot(L[r], f.u, c, |A|)) &&
      (forall r | 0 <= r < |A| :: f.c[r] == b[f.perm[r]])
  {
    ReduceInvariant(A, b);
    FinalTriangular(Reduce(A, b).f, |A|);
    FinalProduct(A, Reduce(A, b).f);
  }

  /** The eliminated right-hand side `g` is the solution of `L·z = P·b`:
      the forward substitution of the LU solver reproduces the right-hand
      side of Gaussian elimination. */
  lemma EliminatedRhsSolvesLower(A: Matrix, b: Vector, f: Factors)
    requires IsSquare(A, |A|) && |b| == |A| && |A| > 0 && Invariant(A, b, f, |A| - 1)
    ensures LowerSolved(WithUnitDiagonal(f.l, |A|), f.g, f.c, |A|)
  {
    var n := |A|;
    var L := WithUnitDiagonal(f.l, n);
    forall i | 0 <= i < n ensures Dot(L[i], f.g, 0, i) + f.g[i] == f.c[i] {
      assert Min(i, n - 1) == i;
      DotFrame(L[i], f.g, f.l[i], f.g, 0, i);
    }
  }

  /** Forward substitution through the lower factor gives back exactly the
      right-hand side Gaussian elimination computes. */
  lemma ForwardReproducesRhs(A: Matrix, b: Vector, f: Factors, z: Vector)
    requires IsSquare(A, |A|) && |b| == |A| && |A| > 0 && Reduce(A, b) == Reduced(f)
    requires |z| == |A| && LowerSolved(WithUnitDiagonal(f.l, |A|), z, f.c, |A|)
    ensures z == f.g
  {
    var n := |A|;
    ReduceInvariant(A, b);
    EliminatedRhsSolvesLower(A, b, f);
    ForwardUnique(WithUnitDiagonal(f.l, n), z, f.g, f.c, n, n);
  }

  /** Row `r` of the permuted `A` after the last step, read off the invariant. */
  lemma FactoredRow(A: Matrix, f: Factors, r: nat)
    requires IsSquare(A, |A|) && |A| > 0 && Shaped(f, |A|) && IsPermutation(f.perm, |A|)
    requires RowsFactored(A, f, |A| - 1) && r < |A|
    ensures forall c | 0 <= c < |A| :: A[f.perm[r]][c] == ColDot(f.l[r], f.u, c, r) + f.u[r][c]
  {
    assert Min(r, |A| - 1) == r;
  }

  /** One row of the permuted system against the same row of the reduced
      one, once the rows above it agree. */
  lemma RowAgrees(a: Vector, l: Vector, U: Matrix, g: Vector, x: Vector, r: nat, n: nat, rhs: real)
    requires IsSquare(U, n) && |a| == n && |l| == n && |g| == n && |x| == n && r < n
    requires forall c | 0 <= c < n :: a[c] == ColDot(l, U, c, r) + U[r][c]
    requires rhs == Dot(l, g, 0, r) + g[r]
    requires forall j | 0 <= j < r :: Dot(U[j], x, 0, n) == g[j]
    ensures Dot(a, x, 0, n) - rhs == Dot(U[r], x, 0, n) - g[r]
  {
    RowExpand(a, l, U, r, x, r, n);
    RowsTimesFrame(l, U, x, g, r, n);
  }

  /** Row `r` of the permuted right-hand side after the last step. */
  lemma FactoredRhs(b: Vector, f: Factors, r: nat)
    requires |b| > 0 && Shaped(f, |b|) && IsPermutation(f.perm, |b|)
    requires RhsFactored(b, f, |b| - 1) && r < |b|
    ensures b[f.perm[r]] == Dot(f.l[r], f.g, 0, r) + f.g[r]
  {
    assert Min(r, |b| - 1) == r;
  }

  /** Row `r` of `A·x = b` taken in the pivoted order, against row `r` of
      `U·x = g`. */
  lemma FinalRowAgrees(A: Matrix, b: Vector, f: Factors, x: Vector, r: nat)
    requires IsSquare(A, |A|) && |b| == |A| && |A| > 0 && Shaped(f, |A|) && IsPermutation(f.perm, |A|)
    requires RowsFactored(A, f, |A| - 1) && RhsFactored(b, f, |A| - 1) && |x| == |A| && r < |A|
    requires forall j | 0 <= j < r :: Dot(f.u[j], x, 0, |A|) == f.g[j]
    ensures Dot(A[f.perm[r]], x, 0, |A|) == b[f.perm[r]] <==> Dot(f.u[r], x, 0, |A|) == f.g[r]
  {
    FactoredRow(A, f, r);
    FactoredRhs(b, f, r);
    RowAgrees(A[f.perm[r]], f.l[r], f.u, f.g, x, r, |A|, b[f.perm[r]]);
  }

  /** If `x` solves the original system, it solves every row of the reduced
      one. */
  lemma SolvesReducedRows(A: Matrix, b: Vector, f: Factors, x: Vector)
    requires IsSquare(A, |A|) && |b| == |A| && |A| > 0 && Shaped(f, |A|) && IsPermutation(f.perm, |A|)
    requires RowsFactored(A, f, |A| - 1) && RhsFactored(b, f, |A| - 1)
    requires |x| == |A| && forall i | 0 <= i < |A| :: Dot(A[i], x, 0, |A|) == b[i]
    ensures forall j | 0 <= j < |A| :: Dot(f.u[j], x, 0, |A|) == f.g[j]
  {
    FactoredRows(A, b, f);
    PermutedRowsSolved(A, b, f.perm, f.l, f.u, f.g, x, |A|);
  }

  /** After the last step, every row of the permuted `A` and `b` read off
      the invariant. */
  lemma FactoredRows(A: Matrix, b: Vector, f: Factors)
    requires IsSquare(A, |A|) && |b| == |A| && |A| > 0 && Shaped(f, |A|) && IsPermutation(f.perm, |A|)
    requires RowsFactored(A, f, |A| - 1) && RhsFactored(b, f, |A| - 1)
    ensures forall r, c | 0 <= r < |A| && 0 <= c < |A| :: A[f.perm[r]][c] == ColDot(f.l[r], f.u, c, r) + f.u[r][c]
    ensures forall r | 0 <= r < |A| :: b[f.perm[r]] == Dot(f.l[r], f.g, 0, r) + f.g[r]
  {
    forall r, c | 0 <= r < |A| && 0 <= c < |A|
      ensures A[f.perm[r]][c] == ColDot(f.l[r], f.u, c, r) + f.u[r][c]
    {
      FactoredRow(A, f, r);
    }
    forall r | 0 <= r < |A| ensures b[f.perm[r]] == Dot(f.l[r], f.g, 0, r) + f.g[r] {
      FactoredRhs(b, f, r);
    }
  }

  /** Each row of the reduced system follows from the same row of the
      permuted one and the rows above it, so rows `0..m-1` all hold. */
  lemma {:induction false} PermutedRowsSolved(A: Matrix, b: Vector, perm: seq<nat>, L: Matrix, U: Matrix, g: Vector, x: Vector, m: nat)
    requires IsSquare(A, |A|) && |b| == |A| && IsPermutation(perm, |A|) && |x| == |A| && m <= |A|
    requires IsSquare(L, |A|) && IsSquare(U, |A|) && |g| == |A|
    requires forall r, c | 0 <= r < |A| && 0 <= c < |A| :: A[perm[r]][c] == ColDot(L[r], U, c, r) + U[r][c]
    requires forall r | 0 <= r < |A| :: b[perm[r]] == Dot(L[r], g, 0, r) + g[r]
    requires forall i | 0 <= i < |A| :: Dot(A[i], x, 0, |A|) == b[i]
    ensures forall j | 0 <= j < m :: Dot(U[j], x, 0, |A|) == g[j]
  {
    if m > 0 {
      var r := m - 1;
      PermutedRowsSolved(A, b, perm, L, U, g, x, r);
      RowAgrees(A[perm[r]], L[r], U, g, x, r, |A|, b[perm[r]]);
    }
  }

  /** The reduced triangular system has exactly the solutions of `A·x = b`. */
  lemma ReducedSystemEquivalent(A: Matrix, b: Vector, f: Factors, x: Vector)
    requires IsSquare(A, |A|) && |b| == |A| && |A| > 0 && Shaped(f, |A|) && IsPermutation(f.perm, |A|)
    requires RowsFactored(A, f, |A| - 1) && RhsFactored(b, f, |A| - 1) && |x| == |A|
    ensures Solves(A, x, b) <==> forall i | 0 <= i < |A| :: Dot(f.u[i], x, 0, |A|) == f.g[i]
  {
    var n := |A|;
    if forall i | 0 <= i < n :: Dot(f.u[i], x, 0, n) == f.g[i] {
      forall i | 0 <= i < n ensures Dot(A[i], x, 0, n) == b[i] {
        assert i in f.perm;
        var r :| 0 <= r < n && f.perm[r] == i;
        FinalRowAgrees(A, b, f, x, r);
      }
    }
    if Solves(A, x, b) {
      SolvesReducedRows(A, b, f, x);
    }
  }

  /** Two equal rows of `A` leave a small (zero) diagonal entry in `U`. */
  lemma EqualRowsSingular(A: Matrix, b: Vector, i: nat, j: nat)
    requires IsSquare(A, |A|) && |b| == |A| && |A| > 0 && Reduce(A, b).Reduced?
    requires i < |A| && j < |A| && i != j && A[i] == A[j]
    ensures LastSmall(Reduce(A, b).f.u, |A|) >= 0
  {
    var f := Reduce(A, b).f;
    LuFactorization(A, b);
    var m := PermutedEqualRows(A, f.perm, WithUnitDiagonal(f.l, |A|), f.u, i, j);
    assert Small(f.u[m][m]);
  }

  /** If `P·A = L·U` and `A` has two equal rows, the rows of `P·A` holding
      them are two equal rows of `L·U`. */
  lemma PermutedEqualRows(A: Matrix, perm: seq<nat>, L: Matrix, U: Matrix, i: nat, j: nat) returns (m: nat)
    requires IsSquare(A, |A|) && IsPermutation(perm, |A|) && IsSquare(L, |A|) && IsSquare(U, |A|)
    requires UnitLowerTriangular(L, |A|) && UpperTriangular(U, |A|)
    requires forall r, c | 0 <= r < |A| && 0 <= c < |A| :: A[perm[r]][c] == ColDot(L[r], U, c, |A|)
    requires i < |A| && j < |A| && i != j && A[i] == A[j]
    ensures m < |A| && U[m][m] == 0.0
  {
    var n := |A|;
    assert i in perm && j in perm;
    var ri :| 0 <= ri < n && perm[ri] == i;
    var rj :| 0 <= rj < n && perm[rj] == j;
    var r1, r2 := Min(ri, rj), if ri < rj then rj else ri;
    forall c | 0 <= c < n ensures ColDot(L[r1], U, c, n) == ColDot(L[r2], U, c, n) {
      assert A[perm[r1]][c] == A[perm[r2]][c];
    }
    m := EqualProductRows(L, U, n, r1, r2);
  }

  /** A product `L·U` of a unit lower-triangular and an upper-triangular
      matrix with two equal rows `r1 < r2` has a zero on the diagonal of `U`.
      The difference `d` of rows `r2` and `r1` of `L` has `d[r2] == 1` and
      combines the rows of `U` to zero, so at its first non-zero entry `m`,
      column `m` gives `d[m]·U[m][m] == 0`. */
  lemma EqualProductRows(L: Matrix, U: Matrix, n: nat, r1: nat, r2: nat) returns (m: nat)
    requires IsSquare(L, n) && IsSquare(U, n) && UnitLowerTriangular(L, n) && UpperTriangular(U, n)
    requires r1 < r2 < n
    requires forall c | 0 <= c < n :: ColDot(L[r1], U, c, n) == ColDot(L[r2], U, c, n)
    ensures m < n && U[m][m] == 0.0
  {
    var d := seq(n, t requires 0 <= t < n => L[r2][t] - L[r1][t]);
    assert d[r2] == 1.0;
    m := FirstNonzero(d, r2);
    ColDotDifference(L[r1], L[r2], d, U, m, n);
    ColDotLeading(d, U, m, n);
    NonzeroFactor(d[m], U[m][m]);
  }

  lemma NonzeroFactor(a: real, u: real)
    requires a != 0.0 && a * u == 0.0
    ensures u == 0.0
  {
  }
}
