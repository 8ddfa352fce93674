/** Row reduction with partial pivoting, as a specification shared by both
    solvers: the pivot rule, one pivot step (row exchange), one elimination
    step, and `Reduce`, the state after the first `k` steps. The invariant
    proved about `Reduce` is the factorization `P·A = L·U` together with the
    matching transformation of the right-hand side. */
module Elimination {
  import opened Matrices

  // ---------------------------------------------------------------------
  // Pivot selection

  /** `p` is the row in `k..hi-1` with the strictly largest `|U[p][k]|`, the
      lowest such row on ties. */
  predicate IsPivotAmong(U: Matrix, k: nat, hi: nat, p: nat)
    requires IsSquare(U, |U|) && k < hi <= |U|
  {
    k <= p < hi &&
    (forall i | k <= i < hi :: Abs(U[i][k]) <= Abs(U[p][k])) &&
    (forall i | k <= i < p :: Abs(U[i][k]) < Abs(U[p][k]))
  }

  /** The pivot of step `k`, chosen among all rows `k..n-1`. */
  predicate IsPivot(U: Matrix, k: nat, p: nat)
    requires IsSquare(U, |U|) && k < |U|
  {
    IsPivotAmong(U, k, |U|, p)
  }

  /** The pivot among rows `k..hi-1`, scanning downwards and moving only on a
      strictly larger magnitude. */
  function PivotAmong(U: Matrix, k: nat, hi: nat): (p: nat)
    requires IsSquare(U, |U|) && k < hi <= |U|
    ensures IsPivotAmong(U, k, hi, p)
  {
    if hi == k + 1 then k
    else
      var p := PivotAmong(U, k, hi - 1);
      if Abs(U[hi - 1][k]) > Abs(U[p][k]) then hi - 1 else p
  }

  function PivotRow(U: Matrix, k: nat): (p: nat)
    requires IsSquare(U, |U|) && k < |U|
    ensures IsPivot(U, k, p)
  {
    PivotAmong(U, k, |U|)
  }

  /** The pivot rule leaves no choice. */
  lemma PivotUnique(U: Matrix, k: nat, p: nat, q: nat)
    requires IsSquare(U, |U|) && k < |U|
    requires IsPivot(U, k, p) && IsPivot(U, k, q)
    ensures p == q
  {
    assert Abs(U[p][k]) <= Abs(U[q][k]) && Abs(U[q][k]) <= Abs(U[p][k]);
  }

  // ---------------------------------------------------------------------
  // One elimination step

  /** Row `row` minus `factor` times `pivotRow`, on the columns `k..` only;
      the columns left of `k` are not touched. */
  function RowOp(row: Vector, pivotRow: Vector, factor: real, k: nat): (r: Vector)
    requires |pivotRow| == |row|
    ensures |r| == |row|
    ensures forall j | 0 <= j < |row| && j < k :: r[j] == row[j]
    ensures forall j | k <= j < |row| :: r[j] + factor * pivotRow[j] == row[j]
    ensures k < |row| && factor * pivotRow[k] == row[k] ==> r[k] == 0.0
  {
    seq(|row|, j requires 0 <= j < |row| => if j < k then row[j] else row[j] - factor * pivotRow[j])
  }

  /** The multiplier that clears `U[i][k]` using the pivot `U[k][k]`. */
  function Multiplier(U: Matrix, i: nat, k: nat): real
    requires IsSquare(U, |U|) && i < |U| && k < |U| && U[k][k] != 0.0
  {
    U[i][k] / U[k][k]
  }

  function EliminatedU(U: Matrix, k: nat): (U': Matrix)
    requires IsSquare(U, |U|) && k < |U| && U[k][k] != 0.0
    ensures IsSquare(U', |U|)
    ensures forall i | 0 <= i <= k :: U'[i] == U[i]
    ensures forall i | k < i < |U| :: U'[i][k] == 0.0
  {
    seq(|U|, i requires 0 <= i < |U| =>
      if i <= k then U[i] else RowOp(U[i], U[k], Multiplier(U, i, k), k))
  }

  function EliminatedL(L: Matrix, U: Matrix, k: nat): (L': Matrix)
    requires IsSquare(U, |U|) && IsSquare(L, |U|) && k < |U| && U[k][k] != 0.0
    ensures IsSquare(L', |U|)
    ensures forall i | 0 <= i <= k :: L'[i] == L[i]
    ensures forall i, j | k < i < |U| && 0 <= j < |U| && j != k :: L'[i][j] == L[i][j]
    ensures forall i | k < i < |U| :: L'[i][k] == Multiplier(U, i, k)
  {
    seq(|U|, i requires 0 <= i < |U| =>
      if i <= k then L[i] else L[i][k := Multiplier(U, i, k)])
  }

  function EliminatedG(g: Vector, U: Matrix, k: nat): (g': Vector)
    requires IsSquare(U, |U|) && |g| == |U| && k < |U| && U[k][k] != 0.0
    ensures |g'| == |U|
    ensures forall i | 0 <= i <= k :: g'[i] == g[i]
  {
    seq(|U|, i requires 0 <= i < |U| =>
      if i <= k then g[i] else g[i] - Multiplier(U, i, k) * g[k])
  }

  // ---------------------------------------------------------------------
  // The state of the reduction

  /** The working matrix `u` (the upper factor), the multipliers `l` (the
      strict lower part of the lower factor), the right-hand side as
      eliminated by Gaussian elimination `g`, the right-hand side as only
      permuted by LU decomposition `c`, and the original row now at each
      position `perm`. */
  datatype Factors = Factors(u: Matrix, l: Matrix, g: Vector, c: Vector, perm: seq<nat>)

  /** A singular pivot was met at step `step`, or all steps went through. */
  datatype Reduction = Singular(step: nat) | Reduced(f: Factors)

  predicate Shaped(f: Factors, n: nat)
  {
    IsSquare(f.u, n) && IsSquare(f.l, n) && |f.g| == n && |f.c| == n && |f.perm| == n
  }

  function Identity(n: nat): (p: seq<nat>)
    ensures |p| == n && forall i | 0 <= i < n :: p[i] == i
  {
    if n == 0 then [] else Identity(n - 1) + [n - 1]
  }

  /** Exchange rows `k` and `p` of every component. */
  function SwapFactors(f: Factors, k: nat, p: nat): (f': Factors)
    requires Shaped(f, |f.u|) && k < |f.u| && p < |f.u|
    ensures Shaped(f', |f.u|)
    ensures Exchanged(f.u, f'.u, k, p) && Exchanged(f.l, f'.l, k, p) && Exchanged(f.g, f'.g, k, p)
    ensures Exchanged(f.c, f'.c, k, p) && Exchanged(f.perm, f'.perm, k, p)
  {
    Factors(SwapRows(f.u, k, p), SwapRows(f.l, k, p), SwapRows(f.g, k, p),
            SwapRows(f.c, k, p), SwapRows(f.perm, k, p))
  }

  /** The pivot step of step `k`: bring the pivot row up to row `k`. */
  function Pivoted(f: Factors, k: nat): (f': Factors)
    requires Shaped(f, |f.u|) && k < |f.u|
    ensures Shaped(f', |f.u|)
  {
    var p := PivotRow(f.u, k);
    if p == k then f else SwapFactors(f, k, p)
  }

  /** After the pivot step, row `k` is the pivot row and holds the largest
      magnitude of column `k` among rows `k..`; the finished rows above `k`
      are untouched, and nothing moves when the pivot is already in place. */
  lemma PivotedState(f: Factors, k: nat)
    requires Shaped(f, |f.u|) && k < |f.u|
    ensures var f' := Pivoted(f, k);
      f'.u[k] == f.u[PivotRow(f.u, k)] &&
      (forall i | k <= i < |f.u| :: Abs(f'.u[i][k]) <= Abs(f'.u[k][k])) &&
      (forall i | 0 <= i < k :: f'.u[i] == f.u[i] && f'.l[i] == f.l[i] && f'.g[i] == f.g[i] && f'.perm[i] == f.perm[i]) &&
      (PivotRow(f.u, k) == k ==> f' == f)
  {
    var p := PivotRow(f.u, k);
    var f' := Pivoted(f, k);
    forall i | k <= i < |f.u| ensures Abs(f'.u[i][k]) <= Abs(f'.u[k][k]) {
      if i == p {
        assert f'.u[i] == f.u[k];
      } else if i != k {
        assert f'.u[i] == f.u[i];
      }
    }
  }

  /** The elimination of step `k`: clear column `k` below the pivot. */
  function Eliminated(f: Factors, k: nat): (f': Factors)
    requires Shaped(f, |f.u|) && k < |f.u| && f.u[k][k] != 0.0
    ensures Shaped(f', |f.u|)
    ensures f'.c == f.c && f'.perm == f.perm
    ensures forall i | k < i < |f.u| :: f'.u[i][k] == 0.0
  {
    Factors(EliminatedU(f.u, k), EliminatedL(f.l, f.u, k), EliminatedG(f.g, f.u, k), f.c, f.perm)
  }

  function Start(A: Matrix, b: Vector): (f: Factors)
    requires IsSquare(A, |A|) && |b| == |A|
    ensures Shaped(f, |A|)
    ensures f.u == A && f.g == b && f.c == b
    ensures forall i, j | 0 <= i < |A| && 0 <= j < |A| :: f.l[i][j] == 0.0
    ensures forall i | 0 <= i < |A| :: f.perm[i] == i
  {
    Factors(A, ZeroMatrix(|A|), b, b, Identity(|A|))
  }

  /** Steps `k..n-2` run from state `f`: the final state, or the first step
      whose pivot was too small. */
  function RunFrom(f: Factors, k: nat): (r: Reduction)
    requires Shaped(f, |f.u|) && k < |f.u|
    ensures r.Reduced? ==> Shaped(r.f, |f.u|)
    ensures r.Singular? ==> k <= r.step < |f.u| - 1
    decreases |f.u| - k
  {
    if k == |f.u| - 1 then Reduced(f)
    else
      match Advance(f, k)
      case Singular(s) => Singular(s)
      case Reduced(f') => RunFrom(f', k + 1)
  }

  /** The whole reduction of the system `A·x = b`: steps `0..n-2`. */
  function Reduce(A: Matrix, b: Vector): (r: Reduction)
    requires IsSquare(A, |A|) && |b| == |A| && |A| > 0
    ensures r.Reduced? ==> Shaped(r.f, |A|)
    ensures r.Singular? ==> r.step < |A| - 1
  {
    RunFrom(Start(A, b), 0)
  }

  /** Step `k`: pivot, reject a small pivot, eliminate. */
  function Advance(f: Factors, k: nat): (r: Reduction)
    requires Shaped(f, |f.u|) && k < |f.u|
    ensures r.Reduced? ==> Shaped(r.f, |f.u|)
    ensures r.Singular? ==> r.step == k
  {
    var f' := Pivoted(f, k);
    if Small(f'.u[k][k]) then Singular(k) else Reduced(Eliminated(f', k))
  }

  // ---------------------------------------------------------------------
  // The invariant of the reduction

  /** Columns `0..k-1` are cleared below the diagonal. */
  ghost predicate ZerosBelow(U: Matrix, n: nat, k: nat)
    requires IsSquare(U, n)
  {
    forall i, j | 0 <= j < i < n && j < k :: U[i][j] == 0.0
  }

  /** Multipliers only sit strictly below the diagonal, in columns `0..k-1`. */
  ghost predicate MultipliersPlaced(L: Matrix, n: nat, k: nat)
    requires IsSquare(L, n)
  {
    forall i, j | 0 <= i < n && 0 <= j < n && (i <= j || k <= j) :: L[i][j] == 0.0
  }

  /** `c` is `b` with its rows permuted by `perm`. */
  ghost predicate RhsPermuted(b: Vector, f: Factors, n: nat)
    requires |b| == n && Shaped(f, n) && IsPermutation(f.perm, n)
  {
    forall r | 0 <= r < n :: f.c[r] == b[f.perm[r]]
  }

  /** Row `r` of the permuted original matrix is the combination of the
      finished rows with the multipliers of row `r`, plus working row `r`. */
  ghost predicate RowsFactored(A: Matrix, f: Factors, k: nat)
    requires IsSquare(A, |A|) && Shaped(f, |A|) && IsPermutation(f.perm, |A|)
  {
    forall r, c | 0 <= r < |A| && 0 <= c < |A| ::
      A[f.perm[r]][c] == ColDot(f.l[r], f.u, c, Min(r, k)) + f.u[r][c]
  }

  /** The same relation between the permuted original right-hand side and
      the eliminated one. */
  ghost predicate RhsFactored(b: Vector, f: Factors, k: nat)
    requires Shaped(f, |b|) && IsPermutation(f.perm, |b|)
  {
    forall r | 0 <= r < |b| :: b[f.perm[r]] == Dot(f.l[r], f.g, 0, Min(r, k)) + f.g[r]
  }

  ghost predicate Invariant(A: Matrix, b: Vector, f: Factors, k: nat)
    requires IsSquare(A, |A|) && |b| == |A|
  {
    var n := |A|;
    Shaped(f, n) && k <= n && IsPermutation(f.perm, n) &&
    ZerosBelow(f.u, n, k) && MultipliersPlaced(f.l, n, k) && RhsPermuted(b, f, n) &&
    RowsFactored(A, f, k) && RhsFactored(b, f, k)
  }

  lemma StartInvariant(A: Matrix, b: Vector)
    requires IsSquare(A, |A|) && |b| == |A|
    ensures Invariant(A, b, Start(A, b), 0)
  {
    var f := Start(A, b);
    forall q: nat | q < |A| ensures q in f.perm {
      assert f.perm[q] == q;
    }
  }

  /** The position an exchange of rows `k` and `p` moves row `r` from. */
  function SwappedFrom(r: nat, k: nat, p: nat): nat
  {
    if r == k then p else if r == p then k else r
  }

  lemma SwapKeepsPermutation(perm: seq<nat>, n: nat, k: nat, p: nat)
    requires IsPermutation(perm, n) && k < n && p < n
    ensures IsPermutation(SwapRows(perm, k, p), n)
  {
    var perm' := SwapRows(perm, k, p);
    forall q: nat | q < n ensures q in perm' {
      assert q in perm;
      var r :| 0 <= r < n && perm[r] == q;
      assert perm'[SwappedFrom(r, k, p)] == q;
    }
  }

  /** Row `r` after the exchange is row `SwappedFrom(r, k, p)` before it,
      and the columns its combination reads are left in place. */
  lemma SwapKeepsRowFactored(A: Matrix, f: Factors, k: nat, p: nat, r: nat, c: nat)
    requires IsSquare(A, |A|) && Shaped(f, |A|)
    requires k <= p < |A| && r < |A| && c < |A|
    requires var s := SwappedFrom(r, k, p);
      f.perm[s] < |A| && A[f.perm[s]][c] == ColDot(f.l[s], f.u, c, Min(s, k)) + f.u[s][c]
    ensures var f' := SwapFactors(f, k, p);
      f'.perm[r] < |A| && A[f'.perm[r]][c] == ColDot(f'.l[r], f'.u, c, Min(r, k)) + f'.u[r][c]
  {
    var f' := SwapFactors(f, k, p);
    var s := SwappedFrom(r, k, p);
    assert f'.perm[r] == f.perm[s] && f'.l[r] == f.l[s] && f'.u[r] == f.u[s];
    assert Min(s, k) == Min(r, k);
    assert forall j | 0 <= j < Min(s, k) :: f'.u[j] == f.u[j];
    ColDotFrame(f.l[s], f.u, f'.l[r], f'.u, c, Min(s, k));
  }

  lemma SwapKeepsRhsRowFactored(b: Vector, f: Factors, k: nat, p: nat, r: nat)
    requires Shaped(f, |b|) && k <= p < |b| && r < |b|
    requires var s := SwappedFrom(r, k, p);
      f.perm[s] < |b| && b[f.perm[s]] == Dot(f.l[s], f.g, 0, Min(s, k)) + f.g[s]
    ensures var f' := SwapFactors(f, k, p);
      f'.perm[r] < |b| && b[f'.perm[r]] == Dot(f'.l[r], f'.g, 0, Min(r, k)) + f'.g[r]
  {
    var f' := SwapFactors(f, k, p);
    var s := SwappedFrom(r, k, p);
    assert f'.perm[r] == f.perm[s] && f'.l[r] == f.l[s] && f'.g[r] == f.g[s];
    assert Min(s, k) == Min(r, k);
    assert forall j | 0 <= j < Min(s, k) :: f'.g[j] == f.g[j];
    DotFrame(f.l[s], f.g, f'.l[r], f'.g, 0, Min(s, k));
  }

  /** Exchanging rows `k` and `p >= k` keeps the invariant of step `k`. */
  lemma SwapKeepsInvariant(A: Matrix, b: Vector, f: Factors, k: nat, p: nat)
    requires IsSquare(A, |A|) && |b| == |A|
    requires Invariant(A, b, f, k) && k <= p < |A|
    ensures Invariant(A, b, SwapFactors(f, k, p), k)
  {
    var n := |A|;
    var f' := SwapFactors(f, k, p);
    SwapKeepsPermutation(f.perm, n, k, p);
    SwapKeepsRowsFactored(A, f, k, p);
    SwapKeepsRhsFactored(b, f, k, p);
    SwapKeepsZeros(f, n, k, p);
    SwapKeepsMultipliers(f, n, k, p);
    SwapKeepsRhsPermuted(b, f, n, k, p);
  }

  lemma SwapKeepsRowsFactored(A: Matrix, f: Factors, k: nat, p: nat)
    requires IsSquare(A, |A|) && Shaped(f, |A|) && IsPermutation(f.perm, |A|) && k <= p < |A|
    requires IsPermutation(SwapFactors(f, k, p).perm, |A|) && RowsFactored(A, f, k)
    ensures RowsFactored(A, SwapFactors(f, k, p), k)
  {
    var n := |A|;
    var f' := SwapFactors(f, k, p);
    forall r, c | 0 <= r < n && 0 <= c < n
      ensures A[f'.perm[r]][c] == ColDot(f'.l[r], f'.u, c, Min(r, k)) + f'.u[r][c]
    {
      var s := SwappedFrom(r, k, p);
      assert A[f.perm[s]][c] == ColDot(f.l[s], f.u, c, Min(s, k)) + f.u[s][c];
      SwapKeepsRowFactored(A, f, k, p, r, c);
    }
  }

  lemma SwapKeepsRhsFactored(b: Vector, f: Factors, k: nat, p: nat)
    requires Shaped(f, |b|) && IsPermutation(f.perm, |b|) && k <= p < |b|
    requires IsPermutation(SwapFactors(f, k, p).perm, |b|) && RhsFactored(b, f, k)
    ensures RhsFactored(b, SwapFactors(f, k, p), k)
  {
    var f' := SwapFactors(f, k, p);
    forall r | 0 <= r < |b| ensures b[f'.perm[r]] == Dot(f'.l[r], f'.g, 0, Min(r, k)) + f'.g[r] {
      var s := SwappedFrom(r, k, p);
      assert b[f.perm[s]] == Dot(f.l[s], f.g, 0, Min(s, k)) + f.g[s];
      SwapKeepsRhsRowFactored(b, f, k, p, r);
    }
  }

  lemma SwapKeepsZeros(f: Factors, n: nat, k: nat, p: nat)
    requires Shaped(f, n) && k <= p < n && ZerosBelow(f.u, n, k)
    ensures ZerosBelow(SwapFactors(f, k, p).u, n, k)
  {
    var u' := SwapFactors(f, k, p).u;
    forall i, j | 0 <= j < i < n && j < k ensures u'[i][j] == 0.0 {
      assert u'[i] == f.u[SwappedFrom(i, k, p)];
    }
  }

  lemma SwapKeepsMultipliers(f: Factors, n: nat, k: nat, p: nat)
    requires Shaped(f, n) && k <= p < n && MultipliersPlaced(f.l, n, k)
    ensures MultipliersPlaced(SwapFactors(f, k, p).l, n, k)
  {
    var l' := SwapFactors(f, k, p).l;
    forall i, j | 0 <= i < n && 0 <= j < n && (i <= j || k <= j) ensures l'[i][j] == 0.0 {
      assert l'[i] == f.l[SwappedFrom(i, k, p)];
    }
  }

  lemma SwapKeepsRhsPermuted(b: Vector, f: Factors, n: nat, k: nat, p: nat)
    requires |b| == n && Shaped(f, n) && IsPermutation(f.perm, n) && k <= p < n
    requires RhsPermuted(b, f, n) && IsPermutation(SwapFactors(f, k, p).perm, n)
    ensures RhsPermuted(b, SwapFactors(f, k, p), n)
  {
    var f' := SwapFactors(f, k, p);
    forall r | 0 <= r < n ensures f'.c[r] == b[f'.perm[r]] {
      assert f'.c[r] == f.c[SwappedFrom(r, k, p)] && f'.perm[r] == f.perm[SwappedFrom(r, k, p)];
    }
  }

  /** The pivot entry clears the entry below it exactly. */
  lemma MultiplierClears(U: Matrix, i: nat, k: nat)
    requires IsSquare(U, |U|) && i < |U| && k < |U| && U[k][k] != 0.0
    ensures U[i][k] - Multiplier(U, i, k) * U[k][k] == 0.0
  {
  }

  lemma EliminationKeepsZeros(f: Factors, n: nat, k: nat)
    requires Shaped(f, n) && k < n && f.u[k][k] != 0.0 && ZerosBelow(f.u, n, k)
    ensures ZerosBelow(Eliminated(f, k).u, n, k + 1)
  {
    var u' := Eliminated(f, k).u;
    forall i, j | 0 <= j < i < n && j < k + 1 ensures u'[i][j] == 0.0 {
      if k < i && j == k {
        MultiplierClears(f.u, i, k);
      }
    }
  }

  /** What elimination step `k` leaves alone: rows `0..k` of the working
      matrix and right-hand side, and the multipliers of columns `0..k-1`. */
  lemma EliminatedKeepsPrefix(f: Factors, k: nat, r: nat)
    requires Shaped(f, |f.u|) && k < |f.u| && f.u[k][k] != 0.0 && r < |f.u|
    ensures forall j | 0 <= j <= k :: Eliminated(f, k).u[j] == f.u[j] && Eliminated(f, k).g[j] == f.g[j]
    ensures forall j | 0 <= j < k :: Eliminated(f, k).l[r][j] == f.l[r][j]
    ensures r <= k ==> Eliminated(f, k).l[r] == f.l[r]
  {
  }

  lemma EliminatedEntry(f: Factors, k: nat, r: nat, c: nat)
    requires Shaped(f, |f.u|) && k < r < |f.u| && c < |f.u| && f.u[k][k] != 0.0
    ensures Eliminated(f, k).u[r] == RowOp(f.u[r], f.u[k], Eliminated(f, k).l[r][k], k)
    ensures Eliminated(f, k).g[r] == f.g[r] - Eliminated(f, k).l[r][k] * f.g[k]
  {
  }

  /** One row of `P·A = L·U` carried across an elimination step, stated on
      plain values: subtracting `l'[k]` times row `k` from the working row is
      undone by adding the same multiple to the combination. */
  lemma RowRelationStep(a: real, l: Vector, U: Matrix, l': Vector, U': Matrix, n: nat, r: nat, c: nat, k: nat)
    requires IsSquare(U, n) && IsSquare(U', n) && |l| == n && |l'| == n && k < r < n && c < n
    requires forall j | 0 <= j <= k :: U'[j] == U[j]
    requires forall j | 0 <= j < k :: l'[j] == l[j]
    requires U'[r] == RowOp(U[r], U[k], l'[k], k)
    requires c < k ==> U[k][c] == 0.0
    requires a == ColDot(l, U, c, k) + U[r][c]
    ensures a == ColDot(l', U', c, k + 1) + U'[r][c]
  {
    ColDotStep(l, U, l', U', c, k);
  }

  /** The same for the right-hand side. */
  lemma RhsRelationStep(a: real, l: Vector, g: Vector, l': Vector, g': Vector, n: nat, r: nat, k: nat)
    requires |g| == n && |g'| == n && |l| == n && |l'| == n && k < r < n
    requires forall j | 0 <= j <= k :: g'[j] == g[j]
    requires forall j | 0 <= j < k :: l'[j] == l[j]
    requires g'[r] == g[r] - l'[k] * g[k]
    requires a == Dot(l, g, 0, k) + g[r]
    ensures a == Dot(l', g', 0, k + 1) + g'[r]
  {
    DotStep(l, g, l', g', k);
  }

  lemma EliminationKeepsRowFactored(A: Matrix, f: Factors, k: nat, r: nat, c: nat)
    requires IsSquare(A, |A|) && Shaped(f, |A|) && IsPermutation(f.perm, |A|)
    requires k < |A| && f.u[k][k] != 0.0 && r < |A| && c < |A|
    requires k < r && c < k ==> f.u[k][c] == 0.0
    requires A[f.perm[r]][c] == ColDot(f.l[r], f.u, c, Min(r, k)) + f.u[r][c]
    ensures var f' := Eliminated(f, k);
      A[f'.perm[r]][c] == ColDot(f'.l[r], f'.u, c, Min(r, k + 1)) + f'.u[r][c]
  {
    if r <= k {
      FinishedRowFactored(A, f, k, r, c);
    } else {
      PendingRowFactored(A, f, k, r, c);
    }
  }

  /** Rows below `k` absorb the multiple of row `k` they lose. */
  lemma PendingRowFactored(A: Matrix, f: Factors, k: nat, r: nat, c: nat)
    requires IsSquare(A, |A|) && Shaped(f, |A|)
    requires k < r < |A| && f.u[k][k] != 0.0 && c < |A| && f.perm[r] < |A|
    requires c < k ==> f.u[k][c] == 0.0
    requires A[f.perm[r]][c] == ColDot(f.l[r], f.u, c, k) + f.u[r][c]
    ensures var f' := Eliminated(f, k);
      A[f'.perm[r]][c] == ColDot(f'.l[r], f'.u, c, k + 1) + f'.u[r][c]
  {
    var f' := Eliminated(f, k);
    EliminatedKeepsPrefix(f, k, r);
    EliminatedEntry(f, k, r, c);
    RowRelationStep(A[f.perm[r]][c], f.l[r], f.u, f'.l[r], f'.u, |A|, r, c, k);
  }

  /** Rows `0..k` are final once step `k` runs. */
  lemma FinishedRowFactored(A: Matrix, f: Factors, k: nat, r: nat, c: nat)
    requires IsSquare(A, |A|) && Shaped(f, |A|)
    requires k < |A| && f.u[k][k] != 0.0 && r <= k && c < |A| && f.perm[r] < |A|
    requires A[f.perm[r]][c] == ColDot(f.l[r], f.u, c, r) + f.u[r][c]
    ensures var f' := Eliminated(f, k);
      A[f'.perm[r]][c] == ColDot(f'.l[r], f'.u, c, r) + f'.u[r][c]
  {
    var f' := Eliminated(f, k);
    EliminatedKeepsPrefix(f, k, r);
    ColDotFrame(f.l[r], f.u, f'.l[r], f'.u, c, r);
  }

  lemma EliminationKeepsRhsRowFactored(b: Vector, f: Factors, k: nat, r: nat)
    requires Shaped(f, |b|) && IsPermutation(f.perm, |b|)
    requires k < |b| && f.u[k][k] != 0.0 && r < |b|
    requires b[f.perm[r]] == Dot(f.l[r], f.g, 0, Min(r, k)) + f.g[r]
    ensures var f' := Eliminated(f, k);
      b[f'.perm[r]] == Dot(f'.l[r], f'.g, 0, Min(r, k + 1)) + f'.g[r]
  {
    var f' := Eliminated(f, k);
    EliminatedKeepsPrefix(f, k, r);
    if r <= k {
      DotFrame(f.l[r], f.g, f'.l[r], f'.g, 0, r);
    } else {
      EliminatedEntry(f, k, r, 0);
      RhsRelationStep(b[f.perm[r]], f.l[r], f.g, f'.l[r], f'.g, |b|, r, k);
    }
  }

  /** The elimination of step `k` clears column `k` and records the
      multipliers so that the invariant holds for `k + 1` steps. */
  lemma EliminationKeepsInvariant(A: Matrix, b: Vector, f: Factors, k: nat)
    requires IsSquare(A, |A|) && |b| == |A|
    requires Invariant(A, b, f, k) && k < |A| && f.u[k][k] != 0.0
    ensures Invariant(A, b, Eliminated(f, k), k + 1)
  {
    var n := |A|;
    EliminationKeepsZeros(f, n, k);
    EliminationKeepsMultipliers(f, n, k);
    EliminationKeepsRowsFactored(A, f, k);
    EliminationKeepsRhsFactored(b, f, k);
  }

  lemma EliminationKeepsMultipliers(f: Factors, n: nat, k: nat)
    requires Shaped(f, n) && k < n && f.u[k][k] != 0.0 && MultipliersPlaced(f.l, n, k)
    ensures MultipliersPlaced(Eliminated(f, k).l, n, k + 1)
  {
    var l' := Eliminated(f, k).l;
    forall i, j | 0 <= i < n && 0 <= j < n && (i <= j || k + 1 <= j) ensures l'[i][j] == 0.0 {
      assert l'[i] == if i <= k then f.l[i] else f.l[i][k := Multiplier(f.u, i, k)];
    }
  }

  lemma EliminationKeepsRowsFactored(A: Matrix, f: Factors, k: nat)
    requires IsSquare(A, |A|) && Shaped(f, |A|) && IsPermutation(f.perm, |A|)
    requires k < |A| && f.u[k][k] != 0.0 && ZerosBelow(f.u, |A|, k) && RowsFactored(A, f, k)
    ensures RowsFactored(A, Eliminated(f, k), k + 1)
  {
    var f' := Eliminated(f, k);
    forall r, c | 0 <= r < |A| && 0 <= c < |A|
      ensures A[f'.perm[r]][c] == ColDot(f'.l[r], f'.u, c, Min(r, k + 1)) + f'.u[r][c]
    {
      EliminationKeepsRowFactored(A, f, k, r, c);
    }
  }

  lemma EliminationKeepsRhsFactored(b: Vector, f: Factors, k: nat)
    requires Shaped(f, |b|) && IsPermutation(f.perm, |b|)
    requires k < |b| && f.u[k][k] != 0.0 && RhsFactored(b, f, k)
    ensures RhsFactored(b, Eliminated(f, k), k + 1)
  {
    var f' := Eliminated(f, k);
    forall r | 0 <= r < |b| ensures b[f'.perm[r]] == Dot(f'.l[r], f'.g, 0, Min(r, k + 1)) + f'.g[r] {
      EliminationKeepsRhsRowFactored(b, f, k, r);
    }
  }

  /** A run that reduces passes through a reduced step `k`, which keeps the
      invariant, and goes on from its result to the same final state. */
  lemma StepInvariant(A: Matrix, b: Vector, f: Factors, k: nat, last: Factors) returns (next: Factors)
    requires IsSquare(A, |A|) && |b| == |A| && k < |A| - 1 && Invariant(A, b, f, k)
    requires RunFrom(f, k) == Reduced(last)
    ensures Invariant(A, b, next, k + 1) && RunFrom(next, k + 1) == Reduced(last)
  {
    next := RunStep(f, k, last);
    AdvanceKeepsInvariant(A, b, f, k, next);
  }

  /** A run that reduces passes through a reduced step `k`. */
  lemma RunStep(f: Factors, k: nat, last: Factors) returns (next: Factors)
    requires Shaped(f, |f.u|) && k < |f.u| - 1 && RunFrom(f, k) == Reduced(last)
    ensures Advance(f, k) == Reduced(next) && Shaped(next, |f.u|)
    ensures RunFrom(next, k + 1) == Reduced(last)
  {
    next := Advance(f, k).f;
  }

  /** After the last step the run has nothing left to do. */
  lemma RunDone(f: Factors, k: nat, last: Factors)
    requires Shaped(f, |f.u|) && k == |f.u| - 1 && RunFrom(f, k) == Reduced(last)
    ensures last == f
  {
  }

  /** What step `k` does to the rest of the run: a small pivot ends it, any
      other pivot leads on to step `k + 1` from the eliminated state. */
  lemma StepOutcome(f: Factors, k: nat)
    requires Shaped(f, |f.u|) && k < |f.u| - 1
    ensures Small(Pivoted(f, k).u[k][k]) ==> RunFrom(f, k) == Singular(k)
    ensures !Small(Pivoted(f, k).u[k][k]) ==>
      RunFrom(f, k) == RunFrom(Eliminated(Pivoted(f, k), k), k + 1)
  {
  }

  /** Every state the reduction passes through satisfies the invariant, the
      final one included. */
  lemma ReduceInvariant(A: Matrix, b: Vector)
    requires IsSquare(A, |A|) && |b| == |A| && |A| > 0
    ensures Reduce(A, b).Reduced? ==> Invariant(A, b, Reduce(A, b).f, |A| - 1)
  {
    if Reduce(A, b).Reduced? {
      var last := Reduce(A, b).f;
      var f, k := Start(A, b), 0;
      StartInvariant(A, b);
      while k < |A| - 1
        invariant k < |A| && Invariant(A, b, f, k) && RunFrom(f, k) == Reduced(last)
        decreases |A| - k
      {
        f := StepInvariant(A, b, f, k, last);
        k := k + 1;
      }
      RunDone(f, k, last);
    }
  }

  /** One full step keeps the invariant. */
  lemma AdvanceKeepsInvariant(A: Matrix, b: Vector, f: Factors, k: nat, next: Factors)
    requires IsSquare(A, |A|) && |b| == |A| && k < |A| && Invariant(A, b, f, k)
    requires Advance(f, k) == Reduced(next)
    ensures Invariant(A, b, next, k + 1)
  {
    var p := PivotRow(f.u, k);
    if p != k {
      SwapKeepsInvariant(A, b, f, k, p);
    }
    var f' := Pivoted(f, k);
    if !Small(f'.u[k][k]) {
      EliminationKeepsInvariant(A, b, f', k);
    }
  }
}
