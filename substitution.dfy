/** The triangular systems the two solvers finish with: forward substitution
    through a unit lower-triangular matrix and back substitution through an
    upper-triangular one, specified by the equations their results satisfy. */
module Substitution {
  import opened Matrices

  /** `z` solves `L·z = c` for a unit lower-triangular `L`: row `i` is the
      combination of the earlier entries plus `z[i]` itself. */
  predicate LowerSolved(L: Matrix, z: Vector, c: Vector, n: nat)
    requires IsSquare(L, n) && |z| == n && |c| == n
  {
    forall i | 0 <= i < n :: Dot(L[i], z, 0, i) + z[i] == c[i]
  }

  /** `x` solves `U·x = g` row by row from the diagonal to the right, the way
      back substitution computes it. */
  predicate BackSolved(U: Matrix, x: Vector, g: Vector, n: nat)
    requires IsSquare(U, n) && |x| == n && |g| == n
  {
    forall i | 0 <= i < n :: U[i][i] * x[i] + Dot(U[i], x, i + 1, n) == g[i]
  }

  /** The last of the rows `0..hi-1` whose diagonal entry is too small to
      divide by, or `-1` when there is none: back substitution runs from the
      bottom row up and stops at the first such row it meets. */
  function LastSmall(U: Matrix, hi: nat): (r: int)
    requires hi <= |U| && forall i | 0 <= i < hi :: i < |U[i]|
    ensures -1 <= r < hi
    ensures r >= 0 ==> Small(U[r][r])
    ensures forall j | r < j < hi :: !Small(U[j][j])
  {
    if hi == 0 then -1
    else if Small(U[hi - 1][hi - 1]) then hi - 1
    else LastSmall(U, hi - 1)
  }

  lemma CancelFactor(a: real, x: real, y: real)
    requires a != 0.0 && a * x == a * y
    ensures x == y
  {
    calc {
      x;
      (a * x) / a;
      (a * y) / a;
      y;
    }
  }

  /** A unit lower-triangular system has at most one solution: any two
      solutions agree. */
  lemma {:induction false} ForwardUnique(L: Matrix, z: Vector, z': Vector, c: Vector, n: nat, m: nat)
    requires IsSquare(L, n) && |z| == n && |z'| == n && |c| == n && m <= n
    requires LowerSolved(L, z, c, n) && LowerSolved(L, z', c, n)
    ensures forall i | 0 <= i < m :: z[i] == z'[i]
  {
    if m > 0 {
      var i := m - 1;
      ForwardUnique(L, z, z', c, n, i);
      DotFrame(L[i], z, L[i], z', 0, i);
    }
  }

  /** An upper-triangular system without zeros on its diagonal has at most
      one solution: any two solutions agree from row `m` down. */
  lemma {:induction false} BackUnique(U: Matrix, x: Vector, x': Vector, g: Vector, n: nat, m: nat)
    requires IsSquare(U, n) && |x| == n && |x'| == n && |g| == n && m <= n
    requires forall i | 0 <= i < n :: U[i][i] != 0.0
    requires BackSolved(U, x, g, n) && BackSolved(U, x', g, n)
    ensures forall i | m <= i < n :: x[i] == x'[i]
    decreases n - m
  {
    if m < n {
      BackUnique(U, x, x', g, n, m + 1);
      DotFrame(U[m], x, U[m], x', m + 1, n);
      var d := Dot(U[m], x, m + 1, n);
      assert U[m][m] * x[m] == g[m] - d;
      assert U[m][m] * x'[m] == g[m] - d;
      CancelFactor(U[m][m], x[m], x'[m]);
    }
  }

  /** The entries `0..m-1` of the solution of `L·z = c`, each computed from
      the ones above it; the entries from `m` on are still zero. */
  function ForwardUpTo(L: Matrix, c: Vector, n: nat, m: nat): (z: Vector)
    requires IsSquare(L, n) && |c| == n && m <= n
    ensures |z| == n && forall i | m <= i < n :: z[i] == 0.0
  {
    if m == 0 then Zeros(n)
    else
      var z := ForwardUpTo(L, c, n, m - 1);
      z[m - 1 := c[m - 1] - Dot(L[m - 1], z, 0, m - 1)]
  }

  /** Row `i` of `L·z = c` holds for `ForwardUpTo(L, c, n, m)` once
      `i < m`: the entry computed for row `i` is never changed by the rows
      below. */
  lemma {:induction false} ForwardUpToSolves(L: Matrix, c: Vector, n: nat, m: nat, i: nat)
    requires IsSquare(L, n) && |c| == n && i < m <= n
    ensures var z := ForwardUpTo(L, c, n, m);
      Dot(L[i], z, 0, i) + z[i] == c[i]
    decreases m - i
  {
    var z := ForwardUpTo(L, c, n, m - 1);
    var z' := ForwardUpTo(L, c, n, m);
    DotFrame(L[i], z', L[i], z, 0, i);
    if i < m - 1 {
      ForwardUpToSolves(L, c, n, m - 1, i);
    }
  }

  /** A unit lower-triangular system has exactly one solution: forward
      substitution's result solves it, and every solution equals it. */
  lemma ForwardSolvable(L: Matrix, c: Vector, n: nat)
    requires IsSquare(L, n) && |c| == n
    ensures LowerSolved(L, ForwardUpTo(L, c, n, n), c, n)
    ensures forall z | |z| == n && LowerSolved(L, z, c, n) :: z == ForwardUpTo(L, c, n, n)
  {
    var s := ForwardUpTo(L, c, n, n);
    forall i | 0 <= i < n ensures Dot(L[i], s, 0, i) + s[i] == c[i] {
      ForwardUpToSolves(L, c, n, n, i);
    }
    forall z | |z| == n && LowerSolved(L, z, c, n) ensures z == s {
      ForwardUnique(L, z, s, c, n, n);
    }
  }

  /** For an upper-triangular `U`, solving row by row is solving `U·x = g`. */
  lemma BackSolvedIsProduct(U: Matrix, x: Vector, g: Vector, n: nat)
    requires IsSquare(U, n) && |x| == n && |g| == n && UpperTriangular(U, n)
    ensures BackSolved(U, x, g, n) <==> forall i | 0 <= i < n :: Dot(U[i], x, 0, n) == g[i]
  {
    forall i | 0 <= i < n ensures Dot(U[i], x, 0, n) == U[i][i] * x[i] + Dot(U[i], x, i + 1, n) {
      UpperRowDot(U[i], x, i, n);
    }
  }

  /** For a unit lower-triangular `L`, `LowerSolved` is solving `L·z = c`. */
  lemma LowerSolvedIsProduct(L: Matrix, z: Vector, c: Vector, n: nat)
    requires IsSquare(L, n) && |z| == n && |c| == n && UnitLowerTriangular(L, n)
    ensures LowerSolved(L, z, c, n) <==> forall i | 0 <= i < n :: Dot(L[i], z, 0, n) == c[i]
  {
    forall i | 0 <= i < n ensures Dot(L[i], z, 0, n) == Dot(L[i], z, 0, i) + z[i] {
      LowerRowDot(L[i], z, i, n);
    }
  }
}
