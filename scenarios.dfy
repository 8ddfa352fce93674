/** The example systems of the solver's own test cases, reduced step by step:
    what the outcome both solvers promise is for each of them. */
module Scenarios {
  import opened Matrices
  import opened Elimination
  import opened Substitution
  import opened LinearAlgebra

  /** The pivot rule names `p` whenever `p` satisfies it. */
  lemma PivotIs(U: Matrix, k: nat, p: nat)
    requires IsSquare(U, |U|) && k < |U| && IsPivot(U, k, p)
    ensures PivotRow(U, k) == p
  {
    PivotUnique(U, k, PivotRow(U, k), p);
  }

  /** A system whose reduction ends in `U·x = g` with `x` solving it and no
      small diagonal entry has `x` as its only outcome. */
  lemma SolvedOutcome(A: Matrix, b: Vector, f: Factors, x: Vector, r: Outcome)
    requires RowsUniform(A) && DimensionsOk(A, b) && Reduce(A, b) == Reduced(f)
    requires |x| == |A| && LastSmall(f.u, |A|) == -1 && BackSolved(f.u, x, f.g, |A|)
    requires IsOutcome(A, b, r)
    ensures r == Solution(x)
  {
    assert BackOutcome(f.u, f.g, |A|, r);
    BackSolution(f.u, f.g, |A|, x, r);
  }

  /** Back substitution through a diagonal without small entries has the
      solution of the triangular system as its only outcome. */
  lemma BackSolution(U: Matrix, g: Vector, n: nat, x: Vector, r: Outcome)
    requires IsSquare(U, n) && |g| == n && |x| == n
    requires LastSmall(U, n) == -1 && BackSolved(U, x, g, n) && BackOutcome(U, g, n, r)
    ensures r == Solution(x)
  {
    BackUnique(U, r.x, x, g, n, 0);
  }

  // ---------------------------------------------------------------------
  // A regular 3×3 system solved by Gaussian elimination

  const GaussA: Matrix := [[2.0, 1.0, -1.0], [-3.0, -1.0, 2.0], [-2.0, 1.0, 2.0]]
  const GaussB: Vector := [8.0, -11.0, -3.0]
  /** After the exchange of step 0. */
  const GaussP0: Matrix := [[-3.0, -1.0, 2.0], [2.0, 1.0, -1.0], [-2.0, 1.0, 2.0]]
  const GaussG0: Vector := [-11.0, 8.0, -3.0]
  /** After the elimination of step 0. */
  const GaussU1: Matrix := [[-3.0, -1.0, 2.0], [0.0, 1.0 / 3.0, 1.0 / 3.0], [0.0, 5.0 / 3.0, 2.0 / 3.0]]
  const GaussG1: Vector := [-11.0, 2.0 / 3.0, 13.0 / 3.0]
  /** After the exchange of step 1. */
  const GaussP1: Matrix := [[-3.0, -1.0, 2.0], [0.0, 5.0 / 3.0, 2.0 / 3.0], [0.0, 1.0 / 3.0, 1.0 / 3.0]]
  const GaussG1P: Vector := [-11.0, 13.0 / 3.0, 2.0 / 3.0]
  /** The reduced system. */
  const GaussU: Matrix := [[-3.0, -1.0, 2.0], [0.0, 5.0 / 3.0, 2.0 / 3.0], [0.0, 0.0, 1.0 / 5.0]]
  const GaussG: Vector := [-11.0, 13.0 / 3.0, -1.0 / 5.0]

  lemma GaussElimination0()
    ensures EliminatedU(GaussP0, 0) == GaussU1 && EliminatedG(GaussG0, GaussP0, 0) == GaussG1
  {
    assert EliminatedU(GaussP0, 0)[1] == GaussU1[1];
    assert EliminatedU(GaussP0, 0)[2] == GaussU1[2];
  }

  lemma GaussElimination1()
    ensures EliminatedU(GaussP1, 1) == GaussU && EliminatedG(GaussG1P, GaussP1, 1) == GaussG
  {
    assert EliminatedU(GaussP1, 1)[2] == GaussU[2];
  }

  lemma GaussFirstStep() returns (f1: Factors)
    ensures Shaped(f1, 3) && Reduce(GaussA, GaussB) == RunFrom(f1, 1)
    ensures f1.u == GaussU1 && f1.g == GaussG1
  {
    var f0 := Start(GaussA, GaussB);
    PivotIs(f0.u, 0, 1);
    var p0 := Pivoted(f0, 0);
    assert p0.u == GaussP0 && p0.g == GaussG0;
    StepOutcome(f0, 0);
    GaussElimination0();
    f1 := Eliminated(p0, 0);
  }

  lemma GaussReduction() returns (f: Factors)
    ensures Reduce(GaussA, GaussB) == Reduced(f) && f.u == GaussU && f.g == GaussG
  {
    var f1 := GaussFirstStep();
    PivotIs(f1.u, 1, 2);
    var p1 := Pivoted(f1, 1);
    assert p1.u == GaussP1 && p1.g == GaussG1P;
    StepOutcome(f1, 1);
    GaussElimination1();
    f := Eliminated(p1, 1);
  }

  lemma GaussBackSolved()
    ensures LastSmall(GaussU, 3) == -1 && BackSolved(GaussU, [2.0, 3.0, -1.0], GaussG, 3)
  {
    var x := [2.0, 3.0, -1.0];
    assert Dot(GaussU[0], x, 1, 3) == -5.0;
    assert Dot(GaussU[1], x, 2, 3) == -2.0 / 3.0;
    assert Dot(GaussU[2], x, 3, 3) == 0.0;
  }

  /** Gaussian elimination on the 3×3 example gives `x = (2, 3, -1)`. */
  lemma GaussExample(r: Outcome)
    requires IsOutcome(GaussA, GaussB, r)
    ensures r == Solution([2.0, 3.0, -1.0])
  {
    var f := GaussReduction();
    GaussBackSolved();
    SolvedOutcome(GaussA, GaussB, f, [2.0, 3.0, -1.0], r);
  }

  // ---------------------------------------------------------------------
  // A regular 3×3 system solved by LU decomposition

  const LuA: Matrix := [[1.0, 4.0, 1.0], [1.0, 6.0, -1.0], [2.0, -1.0, 2.0]]
  const LuB: Vector := [7.0, 13.0, 5.0]
  /** After the exchange of step 0. */
  const LuP0: Matrix := [[2.0, -1.0, 2.0], [1.0, 6.0, -1.0], [1.0, 4.0, 1.0]]
  const LuG0: Vector := [5.0, 13.0, 7.0]
  /** After the elimination of step 0; step 1 exchanges nothing. */
  const LuU1: Matrix := [[2.0, -1.0, 2.0], [0.0, 6.5, -2.0], [0.0, 4.5, 0.0]]
  const LuG1: Vector := [5.0, 10.5, 4.5]
  /** The reduced system. */
  const LuU: Matrix := [[2.0, -1.0, 2.0], [0.0, 6.5, -2.0], [0.0, 0.0, 18.0 / 13.0]]
  const LuG: Vector := [5.0, 10.5, -36.0 / 13.0]

  lemma LuElimination0()
    ensures EliminatedU(LuP0, 0) == LuU1 && EliminatedG(LuG0, LuP0, 0) == LuG1
  {
    assert EliminatedU(LuP0, 0)[1] == LuU1[1];
    assert EliminatedU(LuP0, 0)[2] == LuU1[2];
  }

  lemma LuElimination1()
    ensures EliminatedU(LuU1, 1) == LuU && EliminatedG(LuG1, LuU1, 1) == LuG
  {
    assert EliminatedU(LuU1, 1)[2] == LuU[2];
  }

  lemma LuFirstStep() returns (f1: Factors)
    ensures Shaped(f1, 3) && Reduce(LuA, LuB) == RunFrom(f1, 1)
    ensures f1.u == LuU1 && f1.g == LuG1
  {
    var f0 := Start(LuA, LuB);
    PivotIs(f0.u, 0, 2);
    var p0 := Pivoted(f0, 0);
    assert p0.u == LuP0 && p0.g == LuG0;
    StepOutcome(f0, 0);
    LuElimination0();
    f1 := Eliminated(p0, 0);
  }

  lemma LuReduction() returns (f: Factors)
    ensures Reduce(LuA, LuB) == Reduced(f) && f.u == LuU && f.g == LuG
  {
    var f1 := LuFirstStep();
    PivotIs(f1.u, 1, 1);
    assert Pivoted(f1, 1) == f1;
    StepOutcome(f1, 1);
    LuElimination1();
    f := Eliminated(f1, 1);
  }

  lemma LuBackSolved()
    ensures LastSmall(LuU, 3) == -1 && BackSolved(LuU, [5.0, 1.0, -2.0], LuG, 3)
  {
    var x := [5.0, 1.0, -2.0];
    assert Dot(LuU[0], x, 1, 3) == -5.0;
    assert Dot(LuU[1], x, 2, 3) == 4.0;
    assert Dot(LuU[2], x, 3, 3) == 0.0;
  }

  /** LU decomposition on the 3×3 example gives `x = (5, 1, -2)`. */
  lemma LuExample(r: Outcome)
    requires IsOutcome(LuA, LuB, r)
    ensures r == Solution([5.0, 1.0, -2.0])
  {
    var f := LuReduction();
    LuBackSolved();
    SolvedOutcome(LuA, LuB, f, [5.0, 1.0, -2.0], r);
  }

  // ---------------------------------------------------------------------
  // Two singular 2×2 systems: the pivot passes, the last diagonal entry is
  // zero, and back substitution reports row 1

  const EqualRowsA: Matrix := [[1.0, 1.0], [1.0, 1.0]]
  const EqualRowsB: Vector := [1.0, 2.0]

  /** Two equal rows: no pivot exchange, then a zero in `U[1][1]`. */
  lemma EqualRowsExample(r: Outcome)
    requires IsOutcome(EqualRowsA, EqualRowsB, r)
    ensures r == Failure(SingularDiagonal(1))
  {
    var f0 := Start(EqualRowsA, EqualRowsB);
    PivotIs(f0.u, 0, 0);
    assert Pivoted(f0, 0) == f0;
    StepOutcome(f0, 0);
    var f1 := Eliminated(f0, 0);
    assert f1.u[1] == [0.0, 0.0];
    assert Reduce(EqualRowsA, EqualRowsB) == Reduced(f1);
    assert LastSmall(f1.u, 2) == 1;
  }

  const DoubledRowA: Matrix := [[1.0, 2.0], [2.0, 4.0]]
  const DoubledRowB: Vector := [1.0, 2.0]

  /** A row and its double: the rows are exchanged, then a zero in
      `U[1][1]`. */
  lemma DoubledRowExample(r: Outcome)
    requires IsOutcome(DoubledRowA, DoubledRowB, r)
    ensures r == Failure(SingularDiagonal(1))
  {
    var f0 := Start(DoubledRowA, DoubledRowB);
    PivotIs(f0.u, 0, 1);
    var p0 := Pivoted(f0, 0);
    assert p0.u == [[2.0, 4.0], [1.0, 2.0]];
    StepOutcome(f0, 0);
    var f1 := Eliminated(p0, 0);
    assert f1.u[1] == [0.0, 0.0];
    assert Reduce(DoubledRowA, DoubledRowB) == Reduced(f1);
    assert LastSmall(f1.u, 2) == 1;
  }
}
