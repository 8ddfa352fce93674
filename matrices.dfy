/** Dense vectors and matrices over exact reals, and the finite sums the
    solvers accumulate (dot products, column combinations). */
module Matrices {

  type Vector = seq<real>
  type Matrix = seq<seq<real>>

  /** The near-zero threshold both solvers compare pivots against. */
  const Eps: real := 1.0e-12

  function Abs(r: real): (a: real)
    ensures a >= 0.0 && (a == r || a == -r)
  {
    if r < 0.0 then -r else r
  }

  /** A pivot or diagonal entry the solvers reject. */
  predicate Small(r: real) { Abs(r) < Eps }

  function Min(a: nat, b: nat): nat { if a < b then a else b }

  /** `n` rows, each of length `n`. */
  predicate IsSquare(A: Matrix, n: nat)
  {
    |A| == n && forall i | 0 <= i < n :: |A[i]| == n
  }

  /** Every row is as long as the first one. */
  predicate RowsUniform(A: Matrix)
  {
    forall i | 0 <= i < |A| :: |A[i]| == |A[0]|
  }

  function Zeros(n: nat): (v: Vector)
    ensures |v| == n && forall i | 0 <= i < n :: v[i] == 0.0
  {
    seq(n, _ => 0.0)
  }

  function ZeroMatrix(n: nat): (Z: Matrix)
    ensures IsSquare(Z, n) && forall i, j | 0 <= i < n && 0 <= j < n :: Z[i][j] == 0.0
  {
    seq(n, _ => Zeros(n))
  }

  /** `r` is `s` with rows `i` and `j` exchanged and everything else in place. */
  ghost predicate Exchanged<T>(s: seq<T>, r: seq<T>, i: nat, j: nat)
    requires i < |s| && j < |s|
  {
    |r| == |s| && r[i] == s[j] && r[j] == s[i] &&
    forall t | 0 <= t < |s| && t != i && t != j :: r[t] == s[t]
  }

  function SwapRows<T>(s: seq<T>, i: nat, j: nat): (r: seq<T>)
    requires i < |s| && j < |s|
    ensures Exchanged(s, r, i, j)
  {
    s[i := s[j]][j := s[i]]
  }

  /** `u[lo]*v[lo] + ... + u[hi-1]*v[hi-1]`, accumulated left to right. */
  function Dot(u: Vector, v: Vector, lo: nat, hi: nat): real
    requires lo <= hi <= |u| && hi <= |v|
    decreases hi - lo
  {
    if lo == hi then 0.0 else Dot(u, v, lo, hi - 1) + u[hi - 1] * v[hi - 1]
  }

  /** `l[0]*U[0][c] + ... + l[m-1]*U[m-1][c]`: entry `c` of the combination of
      the first `m` rows of `U` with weights `l`. */
  function ColDot(l: Vector, U: Matrix, c: nat, m: nat): real
    requires m <= |l| && m <= |U|
    requires forall j | 0 <= j < m :: c < |U[j]|
  {
    if m == 0 then 0.0 else ColDot(l, U, c, m - 1) + l[m - 1] * U[m - 1][c]
  }

  /** `A·x == b` for a square `A`. */
  predicate Solves(A: Matrix, x: Vector, b: Vector)
  {
    IsSquare(A, |A|) && |x| == |A| && |b| == |A| &&
    forall i | 0 <= i < |A| :: Dot(A[i], x, 0, |A|) == b[i]
  }

  /** `U` has only zeros below its diagonal. */
  predicate UpperTriangular(U: Matrix, n: nat)
    requires IsSquare(U, n)
  {
    forall i, j | 0 <= j < i < n :: U[i][j] == 0.0
  }

  /** `L` has ones on its diagonal and zeros above it. */
  predicate UnitLowerTriangular(L: Matrix, n: nat)
    requires IsSquare(L, n)
  {
    (forall i | 0 <= i < n :: L[i][i] == 1.0) &&
    (forall i, j | 0 <= i < j < n :: L[i][j] == 0.0)
  }

  /** `perm` is a bijection of `0..n-1`. */
  predicate IsPermutation(perm: seq<nat>, n: nat)
  {
    |perm| == n &&
    (forall r | 0 <= r < n :: perm[r] < n) &&
    (forall r, s | 0 <= r < s < n :: perm[r] != perm[s]) &&
    (forall q: nat | q < n :: q in perm)
  }

  // ---------------------------------------------------------------------
  // Lemmas about the sums

  /** A dot product reads only the entries in its range. */
  lemma {:induction false} DotFrame(u: Vector, v: Vector, u': Vector, v': Vector, lo: nat, hi: nat)
    requires lo <= hi <= |u| && hi <= |v| && hi <= |u'| && hi <= |v'|
    requires forall j | lo <= j < hi :: u[j] == u'[j] && v[j] == v'[j]
    ensures Dot(u, v, lo, hi) == Dot(u', v', lo, hi)
    decreases hi - lo
  {
    if lo < hi {
      DotFrame(u, v, u', v', lo, hi - 1);
    }
  }

  /** Splitting a dot product at `mid`. */
  lemma {:induction false} DotSplit(u: Vector, v: Vector, lo: nat, mid: nat, hi: nat)
    requires lo <= mid <= hi <= |u| && hi <= |v|
    ensures Dot(u, v, lo, hi) == Dot(u, v, lo, mid) + Dot(u, v, mid, hi)
    decreases hi - mid
  {
    if mid < hi {
      DotSplit(u, v, lo, mid, hi - 1);
    }
  }

  /** A dot product over a range where `u` is zero vanishes. */
  lemma {:induction false} DotZero(u: Vector, v: Vector, lo: nat, hi: nat)
    requires lo <= hi <= |u| && hi <= |v|
    requires forall j | lo <= j < hi :: u[j] == 0.0
    ensures Dot(u, v, lo, hi) == 0.0
    decreases hi - lo
  {
    if lo < hi {
      DotZero(u, v, lo, hi - 1);
    }
  }

  /** A column combination reads only the weights and rows it combines. */
  lemma {:induction false} ColDotFrame(l: Vector, U: Matrix, l': Vector, U': Matrix, c: nat, m: nat)
    requires m <= |l| && m <= |U| && m <= |l'| && m <= |U'|
    requires forall j | 0 <= j < m :: c < |U[j]| && c < |U'[j]|
    requires forall j | 0 <= j < m :: l[j] == l'[j] && U[j][c] == U'[j][c]
    ensures ColDot(l, U, c, m) == ColDot(l', U', c, m)
  {
    if m > 0 {
      ColDotFrame(l, U, l', U', c, m - 1);
    }
  }

  /** Row `i` of an upper-triangular matrix times `x`: the diagonal term plus
      the terms to its right. */
  lemma UpperRowDot(u: Vector, x: Vector, i: nat, n: nat)
    requires i < n && |u| == n && |x| == n
    requires forall j | 0 <= j < i :: u[j] == 0.0
    ensures Dot(u, x, 0, n) == u[i] * x[i] + Dot(u, x, i + 1, n)
  {
    DotSplit(u, x, 0, i, n);
    DotZero(u, x, 0, i);
    DotSplit(u, x, i, i + 1, n);
  }

  /** Row `i` of a unit-lower-triangular matrix times `z`: the terms to the
      left of the diagonal plus `z[i]`. */
  lemma LowerRowDot(l: Vector, z: Vector, i: nat, n: nat)
    requires i < n && |l| == n && |z| == n
    requires l[i] == 1.0 && forall j | i < j < n :: l[j] == 0.0
    ensures Dot(l, z, 0, n) == Dot(l, z, 0, i) + z[i]
  {
    DotSplit(l, z, 0, i + 1, n);
    DotZero(l, z, i + 1, n);
  }

  /** Weights that vanish past `m` add nothing to a column combination. */
  lemma {:induction false} ColDotZeroTail(l: Vector, U: Matrix, c: nat, m: nat, m': nat)
    requires m <= m' <= |l| && m' <= |U|
    requires forall j | 0 <= j < m' :: c < |U[j]|
    requires forall j | m <= j < m' :: l[j] == 0.0
    ensures ColDot(l, U, c, m') == ColDot(l, U, c, m)
  {
    if m < m' {
      ColDotZeroTail(l, U, c, m, m' - 1);
    }
  }

  /** Extending a column combination by row `k`, when the earlier weights and
      rows agree. */
  lemma ColDotStep(l: Vector, U: Matrix, l': Vector, U': Matrix, c: nat, k: nat)
    requires k < |l| && k < |U| && |l'| == |l| && |U'| == |U|
    requires forall j | 0 <= j <= k :: c < |U[j]| && U'[j] == U[j]
    requires forall j | 0 <= j < k :: l'[j] == l[j]
    ensures ColDot(l', U', c, k + 1) == ColDot(l, U, c, k) + l'[k] * U[k][c]
  {
    ColDotFrame(l, U, l', U', c, k);
  }

  /** The same for a dot product. */
  lemma DotStep(l: Vector, g: Vector, l': Vector, g': Vector, k: nat)
    requires k < |l| && k < |g| && |l'| == |l| && |g'| == |g|
    requires forall j | 0 <= j <= k :: g'[j] == g[j]
    requires forall j | 0 <= j < k :: l'[j] == l[j]
    ensures Dot(l', g', 0, k + 1) == Dot(l, g, 0, k) + l'[k] * g[k]
  {
    DotFrame(l, g, l', g', 0, k);
  }

  /** `l[0]*(U[0]·x) + ... + l[m-1]*(U[m-1]·x)`, each product over the
      columns `0..hi-1`: the combination of rows applied to `x`. */
  function RowsTimes(l: Vector, U: Matrix, x: Vector, m: nat, hi: nat): real
    requires m <= |l| && m <= |U| && hi <= |x|
    requires forall j | 0 <= j < m :: hi <= |U[j]|
  {
    if m == 0 then 0.0 else RowsTimes(l, U, x, m - 1, hi) + l[m - 1] * Dot(U[m - 1], x, 0, hi)
  }

  /** One more column of `x` adds the column combination times that entry. */
  lemma {:induction false} RowsTimesStep(l: Vector, U: Matrix, x: Vector, m: nat, hi: nat)
    requires 0 < hi <= |x| && m <= |l| && m <= |U|
    requires forall j | 0 <= j < m :: hi <= |U[j]|
    ensures RowsTimes(l, U, x, m, hi) == RowsTimes(l, U, x, m, hi - 1) + ColDot(l, U, hi - 1, m) * x[hi - 1]
  {
    if m > 0 {
      RowsTimesStep(l, U, x, m - 1, hi);
      var w, p, e := l[m - 1], U[m - 1][hi - 1], x[hi - 1];
      assert w * Dot(U[m - 1], x, 0, hi) == w * Dot(U[m - 1], x, 0, hi - 1) + w * p * e;
      assert ColDot(l, U, hi - 1, m) * e == ColDot(l, U, hi - 1, m - 1) * e + w * p * e;
    }
  }

  /** Exchanging the order of summation: a row that is a combination of the
      rows of `U` plus row `r`, applied to `x`, is the same combination of
      the products `U[j]·x` plus `U[r]·x`. */
  lemma {:induction false} RowExpand(a: Vector, l: Vector, U: Matrix, r: nat, x: Vector, m: nat, hi: nat)
    requires hi <= |a| && hi <= |x| && r < |U| && hi <= |U[r]| && m <= |l| && m <= |U|
    requires forall j | 0 <= j < m :: hi <= |U[j]|
    requires forall c | 0 <= c < hi :: a[c] == ColDot(l, U, c, m) + U[r][c]
    ensures Dot(a, x, 0, hi) == RowsTimes(l, U, x, m, hi) + Dot(U[r], x, 0, hi)
  {
    if hi > 0 {
      RowExpand(a, l, U, r, x, m, hi - 1);
      RowsTimesStep(l, U, x, m, hi);
      var e := x[hi - 1];
      assert a[hi - 1] * e == ColDot(l, U, hi - 1, m) * e + U[r][hi - 1] * e;
    } else {
      RowsTimesEmpty(l, U, x, m);
    }
  }

  lemma {:induction false} RowsTimesEmpty(l: Vector, U: Matrix, x: Vector, m: nat)
    requires m <= |l| && m <= |U|
    ensures RowsTimes(l, U, x, m, 0) == 0.0
  {
    if m > 0 {
      RowsTimesEmpty(l, U, x, m - 1);
    }
  }

  /** When every `U[j]·x` is `y[j]`, the combination is `l·y`. */
  lemma {:induction false} RowsTimesFrame(l: Vector, U: Matrix, x: Vector, y: Vector, m: nat, hi: nat)
    requires m <= |l| && m <= |U| && m <= |y| && hi <= |x|
    requires forall j | 0 <= j < m :: hi <= |U[j]|
    requires forall j | 0 <= j < m :: Dot(U[j], x, 0, hi) == y[j]
    ensures RowsTimes(l, U, x, m, hi) == Dot(l, y, 0, m)
  {
    if m > 0 {
      RowsTimesFrame(l, U, x, y, m - 1, hi);
    }
  }

  /** Column combinations are linear in the weights: weights `l2 - l1` give
      the difference of the two combinations. */
  lemma {:induction false} ColDotDifference(l1: Vector, l2: Vector, d: Vector, U: Matrix, c: nat, m: nat)
    requires m <= |l1| && m <= |l2| && m <= |d| && m <= |U|
    requires forall j | 0 <= j < m :: c < |U[j]| && d[j] == l2[j] - l1[j]
    ensures ColDot(d, U, c, m) == ColDot(l2, U, c, m) - ColDot(l1, U, c, m)
  {
    if m > 0 {
      ColDotDifference(l1, l2, d, U, c, m - 1);
      assert d[m - 1] * U[m - 1][c] == l2[m - 1] * U[m - 1][c] - l1[m - 1] * U[m - 1][c];
    }
  }

  /** When the weights before `m` vanish and column `m` of `U` is zero below
      row `m`, entry `m` of the combination is the single term `d[m]·U[m][m]`. */
  lemma {:induction false} ColDotLeading(d: Vector, U: Matrix, m: nat, hi: nat)
    requires m < hi <= |d| && hi <= |U| && forall j | 0 <= j < hi :: m < |U[j]|
    requires forall j | 0 <= j < m :: d[j] == 0.0
    requires forall j | m < j < hi :: U[j][m] == 0.0
    ensures ColDot(d, U, m, hi) == d[m] * U[m][m]
  {
    if hi == m + 1 {
      ColDotZeroTail(d, U, m, 0, m);
    } else {
      ColDotLeading(d, U, m, hi - 1);
      assert d[hi - 1] * U[hi - 1][m] == 0.0;
    }
  }

  /** The first non-zero entry of a vector that has one at or before `hi`. */
  lemma FirstNonzero(d: Vector, hi: nat) returns (m: nat)
    requires hi < |d| && d[hi] != 0.0
    ensures m <= hi && d[m] != 0.0 && forall j | 0 <= j < m :: d[j] == 0.0
  {
    m := 0;
    while d[m] == 0.0
      invariant m <= hi && forall j | 0 <= j < m :: d[j] == 0.0
      decreases hi - m
    {
      m := m + 1;
    }
  }
}
