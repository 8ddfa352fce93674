/** Polynomial interpolation through the points `(x[i], y[i])`: the table of
    divided differences, and the value at `xp` of the interpolating
    polynomial in Lagrange form and in Newton form. */
module Interpolation {
  import opened Matrices

  /** Mismatched or empty inputs, and two nodes closer than the threshold. */
  datatype InterpolationError = InvalidArgument | DuplicateNodes

  datatype Result<T> = Ok(value: T) | Err(error: InterpolationError)

  /** The argument check of both interpolations. */
  predicate SizesOk(x: Vector, y: Vector)
  {
    |x| == |y| && |x| > 0
  }

  /** No two nodes are closer than the threshold both interpolations use. */
  predicate NodesApart(x: Vector)
  {
    ApartFrom(x, |x|)
  }

  /** Nodes `lo..hi` are pairwise different, so that every division below is
      defined. */
  predicate DistinctIn(x: Vector, lo: nat, hi: nat)
    requires hi < |x|
  {
    forall a, b | lo <= a < b <= hi :: x[a] != x[b]
  }

  lemma ApartDistinct(x: Vector, lo: nat, hi: nat)
    requires hi < |x| && NodesApart(x)
    ensures DistinctIn(x, lo, hi)
  {
    forall a, b | lo <= a < b <= hi ensures x[a] != x[b] {
      assert !Small(x[a] - x[b]);
    }
  }

  // ---------------------------------------------------------------------
  // Divided differences

  /** The divided difference `f[x_i, ..., x_{i+j}]`. */
  function DividedDifference(x: Vector, y: Vector, i: nat, j: nat): (d: real)
    requires |y| == |x| && i + j < |x| && DistinctIn(x, i, i + j)
    ensures j == 0 ==> d == y[i]
    decreases j
  {
    if j == 0 then y[i]
    else
      (DividedDifference(x, y, i + 1, j - 1) - DividedDifference(x, y, i, j - 1)) / (x[i + j] - x[i])
  }

  /** Every pair of nodes less than `j` positions apart, and the pairs exactly
      `j` apart that start before `i`, has been found far enough apart. */
  predicate PairsChecked(x: Vector, j: nat, i: nat)
  {
    forall a, b | 0 <= b < a < |x| && (a - b < j || (a - b == j && b < i)) :: !Small(x[a] - x[b])
  }

  lemma CheckedDistinct(x: Vector, j: nat, i: nat, t: nat, c: nat)
    requires PairsChecked(x, j, i) && t + c < |x| && (c < j || (c == j && t < i))
    ensures DistinctIn(x, t, t + c)
  {
    forall a, b | t <= a < b <= t + c ensures x[a] != x[b] {
      assert !Small(x[b] - x[a]);
    }
  }

  /** Entry `[t][c]` belongs to the columns before `j` or to the first `i`
      rows of column `j`, within the triangle `t + c < n`. */
  predicate Filled(n: nat, j: nat, i: nat, t: nat, c: nat)
  {
    t + c < n && (c < j || (c == j && t < i))
  }

  /** The divided difference a filled entry holds; only ever read where
      the nodes it divides by have been checked. */
  function TableEntry(x: Vector, y: Vector, t: nat, c: nat): real
    requires |y| == |x| && t + c < |x|
  {
    if DistinctIn(x, t, t + c) then DividedDifference(x, y, t, c) else 0.0
  }

  /** The table holds the divided differences of the filled entries; every
      other entry is still zero. */
  predicate TableFilled(x: Vector, y: Vector, table: Matrix, j: nat, i: nat)
    requires |y| == |x|
  {
    IsSquare(table, |x|) &&
    forall t, c | 0 <= t < |x| && 0 <= c < |x| ::
      table[t][c] == if Filled(|x|, j, i, t, c) then TableEntry(x, y, t, c) else 0.0
  }

  /** Column `j` of the table, top down; fails at the first pair of nodes too
      close to divide by. */
  method FillColumn(x: Vector, y: Vector, table: Matrix, j: nat) returns (r: Result<Matrix>)
    requires |y| == |x| && 1 <= j < |x| && PairsChecked(x, j, 0) && TableFilled(x, y, table, j, 0)
    ensures r.Err? ==> !NodesApart(x) && r.error == DuplicateNodes
    ensures r.Ok? ==> PairsChecked(x, j + 1, 0) && TableFilled(x, y, r.value, j + 1, 0)
  {
    var n := |x|;
    var t := table;
    var i := 0;
    while i < n - j
      invariant 0 <= i <= n - j && IsSquare(t, n)
      invariant PairsChecked(x, j, i) && TableFilled(x, y, t, j, i)
    {
      if Abs(x[i + j] - x[i]) < Eps {
        assert !NodesApart(x) by {
          assert Small(x[i + j] - x[i]);
        }
        return Err(DuplicateNodes);
      }
      CheckOne(x, j, i);
      CheckedDistinct(x, j, i + 1, i, j);
      t := FillEntry(x, y, t, j, i);
      i := i + 1;
    }
    FillColumnDone(x, y, t, j);
    r := Ok(t);
  }

  /** Entry `[i][j]` from the entries to its left and diagonally below. */
  method FillEntry(x: Vector, y: Vector, t: Matrix, j: nat, i: nat) returns (t': Matrix)
    requires |y| == |x| && 1 <= j && i + j < |x| && DistinctIn(x, i, i + j) && TableFilled(x, y, t, j, i)
    ensures t' == t[i := t[i][j := (t[i + 1][j - 1] - t[i][j - 1]) / (x[i + j] - x[i])]]
    ensures TableFilled(x, y, t', j, i + 1)
  {
    FilledEntry(x, y, t, j, i, i + 1, j - 1);
    FilledEntry(x, y, t, j, i, i, j - 1);
    FillStep(x, y, j, i, t[i + 1][j - 1], t[i][j - 1]);
    var v := (t[i + 1][j - 1] - t[i][j - 1]) / (x[i + j] - x[i]);
    TableExtend(x, y, t, j, i, v);
    t' := t[i := t[i][j := v]];
  }

  /** The recurrence of divided differences, one entry at a time. */
  lemma FillStep(x: Vector, y: Vector, j: nat, i: nat, below: real, left: real)
    requires |y| == |x| && 1 <= j && i + j < |x| && DistinctIn(x, i, i + j)
    requires below == DividedDifference(x, y, i + 1, j - 1) && left == DividedDifference(x, y, i, j - 1)
    ensures (below - left) / (x[i + j] - x[i]) == DividedDifference(x, y, i, j)
  {
  }

  /** One filled entry of the table. */
  lemma FilledEntry(x: Vector, y: Vector, t: Matrix, j: nat, i: nat, r: nat, c: nat)
    requires |y| == |x| && TableFilled(x, y, t, j, i) && r < |x| && c < |x| && Filled(|x|, j, i, r, c)
    requires DistinctIn(x, r, r + c)
    ensures t[r][c] == DividedDifference(x, y, r, c)
  {
  }

  lemma CheckOne(x: Vector, j: nat, i: nat)
    requires i + j < |x| && PairsChecked(x, j, i) && !Small(x[i + j] - x[i])
    ensures PairsChecked(x, j, i + 1)
  {
    forall a, b | 0 <= b < a < |x| && (a - b < j || (a - b == j && b < i + 1)) ensures !Small(x[a] - x[b]) {
      if a - b == j && b == i {
        assert a == i + j;
      }
    }
  }

  /** Writing the divided difference at `[i][j]` extends the filled part by
      one entry. */
  lemma TableExtend(x: Vector, y: Vector, t: Matrix, j: nat, i: nat, v: real)
    requires |y| == |x| && i + j < |x| && TableFilled(x, y, t, j, i)
    requires DistinctIn(x, i, i + j) && v == DividedDifference(x, y, i, j)
    ensures TableFilled(x, y, t[i := t[i][j := v]], j, i + 1)
  {
    var n := |x|;
    var t' := t[i := t[i][j := v]];
    assert IsSquare(t', n);
    assert v == TableEntry(x, y, i, j);
    forall r, c | 0 <= r < n && 0 <= c < n
      ensures t'[r][c] == if Filled(n, j, i + 1, r, c) then TableEntry(x, y, r, c) else 0.0
    {
      if r != i || c != j {
        assert Filled(n, j, i + 1, r, c) == Filled(n, j, i, r, c) && t'[r][c] == t[r][c];
      }
    }
  }

  lemma FillColumnDone(x: Vector, y: Vector, t: Matrix, j: nat)
    requires |y| == |x| && j < |x| && PairsChecked(x, j, |x| - j) && TableFilled(x, y, t, j, |x| - j)
    ensures PairsChecked(x, j + 1, 0) && TableFilled(x, y, t, j + 1, 0)
  {
  }

  /** The table of divided differences: entry `[i][j]` is `f[x_i..x_{i+j}]`
      where `i + j < n`, and the entries beyond stay zero. Fails as soon as
      two nodes it divides by are too close; it divides by every pair. */
  method DividedDifferences(x: Vector, y: Vector) returns (r: Result<Matrix>)
    requires |y| == |x|
    ensures r.Err? <==> !NodesApart(x)
    ensures r.Err? ==> r.error == DuplicateNodes
    ensures r.Ok? ==> IsSquare(r.value, |x|)
    ensures r.Ok? ==> forall i, j | 0 <= i < |x| && 0 <= j < |x| ::
      r.value[i][j] == if i + j < |x| then DividedDifference(x, y, i, j) else 0.0
  {
    var n := |x|;
    var table := ZeroMatrix(n);
    var i := 0;
    while i < n
      invariant 0 <= i <= n && IsSquare(table, n)
      invariant forall t, c | 0 <= t < n && 0 <= c < n ::
        table[t][c] == if c == 0 && t < i then y[t] else 0.0
    {
      table := table[i := table[i][0 := y[i]]];
      i := i + 1;
    }
    assert PairsChecked(x, 1, 0) && TableFilled(x, y, table, 1, 0);
    var j := 1;
    while j < n
      invariant 1 <= j && (j <= n || n == 0) && PairsChecked(x, j, 0) && TableFilled(x, y, table, j, 0)
    {
      var column := FillColumn(x, y, table, j);
      if column.Err? {
        return column;
      }
      table := column.value;
      j := j + 1;
    }
    assert NodesApart(x) by {
      forall a, b | 0 <= a < n && 0 <= b < n && a != b ensures !Small(x[a] - x[b]) {
        if a < b {
          assert !Small(x[b] - x[a]);
        }
      }
    }
    TableComplete(x, y, table);
    r := Ok(table);
  }

  /** Once every column is filled and the nodes are apart, every entry of
      the triangle is its divided difference. */
  lemma TableComplete(x: Vector, y: Vector, table: Matrix)
    requires |y| == |x| && NodesApart(x) && (|x| == 0 || TableFilled(x, y, table, |x|, 0))
    requires |x| == 0 ==> table == []
    ensures IsSquare(table, |x|)
    ensures forall i, j | 0 <= i < |x| && 0 <= j < |x| ::
      table[i][j] == if i + j < |x| then DividedDifference(x, y, i, j) else 0.0
  {
    var n := |x|;
    forall i, j | 0 <= i < n && 0 <= j < n
      ensures table[i][j] == if i + j < n then DividedDifference(x, y, i, j) else 0.0
    {
      if i + j < n {
        ApartDistinct(x, i, i + j);
      }
    }
  }

  /** The table `DividedDifferences` returns satisfies, entry by entry, the
      recurrence it is filled by: the entry `[i][j]` of the triangle comes
      from the entry to its left and the one diagonally below, divided by a
      difference of nodes that is not zero. */
  lemma TableRecurrence(x: Vector, y: Vector, table: Matrix, i: nat, j: nat)
    requires |y| == |x| && Distinct(x) && IsSquare(table, |x|)
    requires forall a, c | 0 <= a < |x| && 0 <= c < |x| ::
      table[a][c] == if a + c < |x| then DividedDifference(x, y, a, c) else 0.0
    requires 1 <= j && i + j < |x|
    ensures x[i + j] != x[i]
    ensures table[i][j] == (table[i + 1][j - 1] - table[i][j - 1]) / (x[i + j] - x[i])
  {
    assert DistinctIn(x, i, i + j);
    FillStep(x, y, j, i, table[i + 1][j - 1], table[i][j - 1]);
  }

  // ---------------------------------------------------------------------
  // Newton form

  /** The product `(t - x_0)·…·(t - x_{m-1})`. */
  function NodeProduct(x: Vector, t: real, m: nat): (p: real)
    requires m <= |x|
    ensures m == 0 ==> p == 1.0
  {
    if m == 0 then 1.0 else NodeProduct(x, t, m - 1) * (t - x[m - 1])
  }

  /** The first `m` terms of the Newton form: the sum of
      `f[x_0..x_k]·(t - x_0)·…·(t - x_{k-1})` for `k < m`. */
  function NewtonSum(x: Vector, y: Vector, t: real, m: nat): (s: real)
    requires |y| == |x| && 0 < m <= |x| && DistinctIn(x, 0, m - 1)
  {
    if m == 1 then y[0]
    else NewtonSum(x, y, t, m - 1) + DividedDifference(x, y, 0, m - 1) * NodeProduct(x, t, m - 1)
  }

  /** The Newton form of the interpolating polynomial, evaluated at `t`. */
  function NewtonValue(x: Vector, y: Vector, t: real): (v: real)
    requires SizesOk(x, y) && NodesApart(x)
  {
    ApartDistinct(x, 0, |x| - 1);
    NewtonSum(x, y, t, |x|)
  }

  /** One more factor of the node product. */
  lemma NodeProductStep(x: Vector, t: real, i: nat, p: real)
    requires 1 <= i <= |x| && p == NodeProduct(x, t, i - 1)
    ensures p * (t - x[i - 1]) == NodeProduct(x, t, i)
  {
  }

  /** One more term of the Newton form. */
  lemma NewtonSumStep(x: Vector, y: Vector, t: real, i: nat, s: real, q: real, d: real)
    requires |y| == |x| && 1 <= i < |x| && DistinctIn(x, 0, i)
    requires s == NewtonSum(x, y, t, i) && q == NodeProduct(x, t, i) && d == DividedDifference(x, y, 0, i)
    ensures s + d * q == NewtonSum(x, y, t, i + 1)
  {
  }

  /** The Newton form at `xp` from the top row of the table, accumulating
      the node product term by term. */
  method EvaluateNewton(x: Vector, y: Vector, top: Vector, xp: real) returns (result: real)
    requires |y| == |x| && 0 < |x| && |top| == |x| && DistinctIn(x, 0, |x| - 1)
    requires forall i | 0 <= i < |x| :: top[i] == DividedDifference(x, y, 0, i)
    ensures result == NewtonSum(x, y, xp, |x|)
  {
    var n := |x|;
    result := top[0];
    var product := 1.0;
    var i := 1;
    while i < n
      invariant 1 <= i <= n
      invariant result == NewtonSum(x, y, xp, i) && product == NodeProduct(x, xp, i - 1)
    {
      NodeProductStep(x, xp, i, product);
      product := product * (xp - x[i - 1]);
      NewtonSumStep(x, y, xp, i, result, product, top[i]);
      result := result + top[i] * product;
      i := i + 1;
    }
  }

  /** Newton interpolation: the argument check, then the divided differences
      (which fail on nodes too close together), then the Newton form
      evaluated by accumulating the node product term by term. */
  method NewtonInterpolation(x: Vector, y: Vector, xp: real) returns (r: Result<real>)
    ensures !SizesOk(x, y) ==> r == Err(InvalidArgument)
    ensures SizesOk(x, y) && !NodesApart(x) ==> r == Err(DuplicateNodes)
    ensures SizesOk(x, y) && NodesApart(x) ==> r == Ok(NewtonValue(x, y, xp))
  {
    if |x| != |y| || |x| == 0 {
      return Err(InvalidArgument);
    }
    var n := |x|;
    var table := DividedDifferences(x, y);
    if table.Err? {
      return Err(DuplicateNodes);
    }
    ApartDistinct(x, 0, n - 1);
    var result := EvaluateNewton(x, y, table.value[0], xp);
    r := Ok(result);
  }

  // ---------------------------------------------------------------------
  // Lagrange form

  /** The factors `(t - x_k) / (x_i - x_k)` for `k < m`, `k != i`, multiplied
      in order: the `i`-th Lagrange basis polynomial once `m = n`. */
  function Basis(x: Vector, t: real, i: nat, m: nat): (p: real)
    requires i < |x| && m <= |x| && forall k | 0 <= k < m && k != i :: x[k] != x[i]
    ensures m == 0 ==> p == 1.0
  {
    if m == 0 then 1.0
    else if m - 1 == i then Basis(x, t, i, m - 1)
    else Basis(x, t, i, m - 1) * ((t - x[m - 1]) / (x[i] - x[m - 1]))
  }

  /** The first `m` terms `y_i·ℓ_i(t)` of the Lagrange form. */
  function LagrangeSum(x: Vector, y: Vector, t: real, m: nat): (s: real)
    requires |y| == |x| && m <= |x| && DistinctFrom(x, m)
  {
    if m == 0 then 0.0 else LagrangeSum(x, y, t, m - 1) + y[m - 1] * Basis(x, t, m - 1, |x|)
  }

  /** The Lagrange form of the interpolating polynomial, evaluated at `t`. */
  function LagrangeValue(x: Vector, y: Vector, t: real): (v: real)
    requires |y| == |x| && NodesApart(x)
  {
    LagrangeSum(x, y, t, |x|)
  }

  /** One more factor of the basis polynomial. */
  lemma BasisStep(x: Vector, t: real, i: nat, j: nat, p: real)
    requires i < |x| && j < |x| && j != i && !Small(x[i] - x[j])
    requires forall k | 0 <= k < j && k != i :: !Small(x[i] - x[k])
    ensures forall k | 0 <= k < j + 1 && k != i :: x[k] != x[i]
    ensures p == Basis(x, t, i, j) ==> p * ((t - x[j]) / (x[i] - x[j])) == Basis(x, t, i, j + 1)
  {
    forall k | 0 <= k < j + 1 && k != i ensures x[k] != x[i] {
      assert !Small(x[i] - x[k]);
    }
  }

  /** Each of the first `m` nodes differs from every other node. */
  predicate DistinctFrom(x: Vector, m: nat)
    requires m <= |x|
  {
    forall a, b | 0 <= a < m && 0 <= b < |x| && a != b :: x[a] != x[b]
  }

  /** Each of the first `m` nodes is apart from every other node. */
  predicate ApartFrom(x: Vector, m: nat)
    requires m <= |x|
  {
    forall a, b | 0 <= a < m && 0 <= b < |x| && a != b :: !Small(x[a] - x[b])
  }

  /** Node `i` found apart from all others extends the checked prefix. */
  lemma ApartFromStep(x: Vector, i: nat)
    requires i < |x| && ApartFrom(x, i)
    requires forall b | 0 <= b < |x| && b != i :: !Small(x[i] - x[b])
    ensures ApartFrom(x, i + 1) && DistinctFrom(x, i + 1)
  {
    forall a, b | 0 <= a < i + 1 && 0 <= b < |x| && a != b ensures x[a] != x[b] {
      assert !Small(x[a] - x[b]);
    }
  }

  /** One more term of the Lagrange form, once the basis polynomial of node
      `i` has been formed. */
  lemma LagrangeStep(x: Vector, y: Vector, t: real, i: nat, s: real, p: real)
    requires |y| == |x| && i < |x| && DistinctFrom(x, i + 1)
    requires s == LagrangeSum(x, y, t, i) && p == Basis(x, t, i, |x|)
    ensures s + y[i] * p == LagrangeSum(x, y, t, i + 1)
  {
  }

  /** The basis polynomial of node `i` at `xp`, its factors multiplied in
      node order; fails at the first other node too close to node `i`. */
  method BasisAt(x: Vector, xp: real, i: nat) returns (r: Result<real>)
    requires i < |x|
    ensures r.Err? ==> r.error == DuplicateNodes && !NodesApart(x)
    ensures r.Ok? ==> forall b | 0 <= b < |x| && b != i :: !Small(x[i] - x[b])
    ensures r.Ok? ==> (forall k | 0 <= k < |x| && k != i :: x[k] != x[i]) && r.value == Basis(x, xp, i, |x|)
  {
    var n := |x|;
    var basis := 1.0;
    var j := 0;
    while j < n
      invariant 0 <= j <= n
      invariant forall b | 0 <= b < j && b != i :: !Small(x[i] - x[b])
      invariant forall k | 0 <= k < j && k != i :: x[k] != x[i]
      invariant basis == Basis(x, xp, i, j)
    {
      if i != j {
        if Abs(x[i] - x[j]) < Eps {
          assert !NodesApart(x) by {
            assert Small(x[i] - x[j]);
          }
          return Err(DuplicateNodes);
        }
        BasisStep(x, xp, i, j, basis);
        basis := basis * ((xp - x[j]) / (x[i] - x[j]));
      }
      j := j + 1;
    }
    r := Ok(basis);
  }

  /** Lagrange interpolation: the argument check, then for each node its
      basis polynomial at `xp`, failing at the first pair of nodes too close
      together that the nested loops meet. */
  method LagrangeInterpolation(x: Vector, y: Vector, xp: real) returns (r: Result<real>)
    ensures !SizesOk(x, y) ==> r == Err(InvalidArgument)
    ensures SizesOk(x, y) && !NodesApart(x) ==> r == Err(DuplicateNodes)
    ensures SizesOk(x, y) && NodesApart(x) ==> r == Ok(LagrangeValue(x, y, xp))
  {
    if |x| != |y| || |x| == 0 {
      return Err(InvalidArgument);
    }
    r := LagrangeTerms(x, y, xp);
  }

  /** The sum of the terms `y_i·ℓ_i(xp)`, node by node. */
  method LagrangeTerms(x: Vector, y: Vector, xp: real) returns (r: Result<real>)
    requires |y| == |x|
    ensures r.Err? ==> r.error == DuplicateNodes && !NodesApart(x)
    ensures r.Ok? ==> NodesApart(x) && r.value == LagrangeValue(x, y, xp)
  {
    var n := |x|;
    var result := 0.0;
    var i := 0;
    while i < n
      invariant 0 <= i <= n && ApartFrom(x, i) && DistinctFrom(x, i)
      invariant result == LagrangeSum(x, y, xp, i)
    {
      var sum := AddTerm(x, y, xp, i, result);
      if sum.Err? {
        return sum;
      }
      result := sum.value;
      i := i + 1;
    }
    r := Ok(result);
  }

  /** The partial sum with the term of node `i` added. */
  method AddTerm(x: Vector, y: Vector, xp: real, i: nat, s: real) returns (r: Result<real>)
    requires |y| == |x| && i < |x| && ApartFrom(x, i) && DistinctFrom(x, i) && s == LagrangeSum(x, y, xp, i)
    ensures r.Err? ==> r.error == DuplicateNodes && !NodesApart(x)
    ensures r.Ok? ==> ApartFrom(x, i + 1) && DistinctFrom(x, i + 1) && r.value == LagrangeSum(x, y, xp, i + 1)
  {
    var basis := BasisAt(x, xp, i);
    if basis.Err? {
      return basis;
    }
    ApartFromStep(x, i);
    LagrangeStep(x, y, xp, i, s, basis.value);
    r := Ok(s + y[i] * basis.value);
  }

  // ---------------------------------------------------------------------
  // Properties of the two forms

  /** All nodes pairwise different. */
  predicate Distinct(x: Vector)
  {
    DistinctFrom(x, |x|)
  }

  lemma ApartAllDistinct(x: Vector)
    requires NodesApart(x)
    ensures Distinct(x) && (|x| > 0 ==> DistinctIn(x, 0, |x| - 1))
  {
    forall a, b | 0 <= a < |x| && 0 <= b < |x| && a != b ensures x[a] != x[b] {
      assert !Small(x[a] - x[b]);
    }
  }

  lemma DivideSelf(d: real)
    requires d != 0.0
    ensures d / d == 1.0
  {
  }

  lemma DivideZero(d: real)
    requires d != 0.0
    ensures 0.0 / d == 0.0
  {
  }

  lemma DivideTimes(a: real, d: real)
    requires d != 0.0
    ensures (a / d) * d == a && (a * d) / d == a
  {
  }

  lemma DivideDifference(d: real, u: real)
    requires d != 0.0
    ensures (d - u) / d == 1.0 - u / d
  {
    var w := 1.0 - u / d;
    DivideTimes(u, d);
    DivideTimes(w, d);
    assert w * d == d - u;
  }

  /** The slope of a line from two of its points. */
  lemma SlopeOfLine(a0: real, a1: real, b0: real, b1: real, slope: real, offset: real)
    requires a1 - a0 != 0.0 && b0 == slope * a0 + offset && b1 == slope * a1 + offset
    ensures (b1 - b0) / (a1 - a0) == slope
  {
    assert b1 - b0 == slope * (a1 - a0);
    DivideTimes(slope, a1 - a0);
  }

  /** The basis polynomial of node `i` vanishes at every other node. */
  lemma {:induction false} BasisAtOtherNode(x: Vector, i: nat, k: nat, m: nat)
    requires Distinct(x) && i < |x| && k < m <= |x| && k != i
    ensures Basis(x, x[k], i, m) == 0.0
  {
    if m - 1 == k {
      DivideZero(x[i] - x[k]);
    } else {
      BasisAtOtherNode(x, i, k, m - 1);
    }
  }

  /** The basis polynomial of node `i` is one at node `i`. */
  lemma {:induction false} BasisAtOwnNode(x: Vector, i: nat, m: nat)
    requires Distinct(x) && i < |x| && m <= |x|
    ensures Basis(x, x[i], i, m) == 1.0
  {
    if m > 0 {
      BasisAtOwnNode(x, i, m - 1);
      if m - 1 != i {
        DivideSelf(x[i] - x[m - 1]);
      }
    }
  }

  lemma {:induction false} LagrangeSumAtNode(x: Vector, y: Vector, k: nat, m: nat)
    requires |y| == |x| && Distinct(x) && k < |x| && m <= |x|
    ensures LagrangeSum(x, y, x[k], m) == if k < m then y[k] else 0.0
  {
    if m > 0 {
      LagrangeSumAtNode(x, y, k, m - 1);
      if m - 1 == k {
        BasisAtOwnNode(x, k, |x|);
      } else {
        BasisAtOtherNode(x, m - 1, k, |x|);
      }
    }
  }

  /** The Lagrange form interpolates: at node `x_k` it takes the value `y_k`. */
  lemma LagrangeAtNode(x: Vector, y: Vector, k: nat)
    requires SizesOk(x, y) && NodesApart(x) && k < |x|
    ensures LagrangeValue(x, y, x[k]) == y[k]
  {
    ApartAllDistinct(x);
    LagrangeSumAtNode(x, y, k, |x|);
  }

  /** The node product through `x_k` vanishes at `x_k`. */
  lemma {:induction false} NodeProductAtNode(x: Vector, k: nat, m: nat)
    requires k < m <= |x|
    ensures NodeProduct(x, x[k], m) == 0.0
  {
    if m - 1 != k {
      NodeProductAtNode(x, k, m - 1);
    }
  }

  /** At node `x_k` only the first `k + 1` terms of the Newton form count. */
  lemma {:induction false} NewtonSumAtNode(x: Vector, y: Vector, k: nat, m: nat)
    requires |y| == |x| && k < m <= |x| && DistinctIn(x, 0, m - 1)
    ensures NewtonSum(x, y, x[k], m) == NewtonSum(x, y, x[k], k + 1)
  {
    if m > k + 1 {
      NewtonSumAtNode(x, y, k, m - 1);
      NodeProductAtNode(x, k, m - 1);
    }
  }

  lemma NewtonSumAtSecondNode(x: Vector, y: Vector)
    requires |y| == |x| && 2 <= |x| && DistinctIn(x, 0, 1)
    ensures NewtonSum(x, y, x[1], 2) == y[1]
  {
    var d := x[1] - x[0];
    assert NodeProduct(x, x[1], 1) == d;
    assert DividedDifference(x, y, 0, 1) == (y[1] - y[0]) / d;
    DivideTimes(y[1] - y[0], d);
  }

  /** The Newton form takes the value `y_0` at `x_0` and, when there is a
      second node, `y_1` at `x_1`. */
  lemma NewtonAtFirstNodes(x: Vector, y: Vector)
    requires SizesOk(x, y) && NodesApart(x)
    ensures NewtonValue(x, y, x[0]) == y[0]
    ensures |x| >= 2 ==> NewtonValue(x, y, x[1]) == y[1]
  {
    var n := |x|;
    ApartAllDistinct(x);
    NewtonSumAtNode(x, y, 0, n);
    if n >= 2 {
      NewtonSumAtNode(x, y, 1, n);
      NewtonSumAtSecondNode(x, y);
    }
  }

  /** Divided differences of values on a line `α·x + β`: the slope at order
      one, zero beyond. */
  lemma {:induction false} DividedDifferenceOfLine(x: Vector, y: Vector, slope: real, offset: real, i: nat, j: nat)
    requires |y| == |x| && i + j < |x| && DistinctIn(x, i, i + j)
    requires forall k | 0 <= k < |x| :: y[k] == slope * x[k] + offset
    ensures j == 1 ==> DividedDifference(x, y, i, j) == slope
    ensures j >= 2 ==> DividedDifference(x, y, i, j) == 0.0
    decreases j
  {
    var d := x[i + j] - x[i];
    if j == 1 {
      SlopeOfLine(x[i], x[i + 1], y[i], y[i + 1], slope, offset);
    } else if j >= 2 {
      DividedDifferenceOfLine(x, y, slope, offset, i + 1, j - 1);
      DividedDifferenceOfLine(x, y, slope, offset, i, j - 1);
      assert DividedDifference(x, y, i + 1, j - 1) - DividedDifference(x, y, i, j - 1) == 0.0;
      DivideZero(d);
    }
  }

  lemma {:induction false} NewtonSumOfLine(x: Vector, y: Vector, slope: real, offset: real, t: real, m: nat)
    requires |y| == |x| && 2 <= m <= |x| && DistinctIn(x, 0, m - 1)
    requires forall k | 0 <= k < |x| :: y[k] == slope * x[k] + offset
    ensures NewtonSum(x, y, t, m) == slope * t + offset
  {
    DividedDifferenceOfLine(x, y, slope, offset, 0, m - 1);
    if m == 2 {
      assert NodeProduct(x, t, 1) == t - x[0];
      assert NewtonSum(x, y, t, 2) == y[0] + slope * (t - x[0]);
      assert y[0] == slope * x[0] + offset;
    } else {
      NewtonSumOfLine(x, y, slope, offset, t, m - 1);
    }
  }

  /** With two nodes or more the Newton form reproduces values taken on a
      line exactly, everywhere. */
  lemma NewtonReproducesLine(x: Vector, y: Vector, slope: real, offset: real, t: real)
    requires SizesOk(x, y) && |x| >= 2 && NodesApart(x)
    requires forall k | 0 <= k < |x| :: y[k] == slope * x[k] + offset
    ensures NewtonValue(x, y, t) == slope * t + offset
  {
    ApartAllDistinct(x);
    NewtonSumOfLine(x, y, slope, offset, t, |x|);
  }

  /** With one node both forms are the constant `y_0`. */
  lemma SingleNode(x: Vector, y: Vector, t: real)
    requires SizesOk(x, y) && |x| == 1
    ensures NodesApart(x)
    ensures LagrangeValue(x, y, t) == y[0] && NewtonValue(x, y, t) == y[0]
  {
    assert Basis(x, t, 0, 1) == 1.0;
    assert LagrangeSum(x, y, t, 1) == 0.0 + y[0] * 1.0;
    assert NewtonSum(x, y, t, 1) == y[0];
  }

  /** The two-node forms written out. */
  lemma TwoNodeForms(x: Vector, y: Vector, t: real)
    requires |y| == |x| && |x| == 2 && Distinct(x) && DistinctIn(x, 0, 1)
    ensures LagrangeSum(x, y, t, 2) == y[0] * ((t - x[1]) / (x[0] - x[1])) + y[1] * ((t - x[0]) / (x[1] - x[0]))
    ensures NewtonSum(x, y, t, 2) == y[0] + ((y[1] - y[0]) / (x[1] - x[0])) * (t - x[0])
  {
    assert Basis(x, t, 0, 1) == 1.0;
    assert Basis(x, t, 0, 2) == 1.0 * ((t - x[1]) / (x[0] - x[1]));
    assert Basis(x, t, 1, 1) == 1.0 * ((t - x[0]) / (x[1] - x[0]));
    assert Basis(x, t, 1, 2) == Basis(x, t, 1, 1);
    assert LagrangeSum(x, y, t, 1) == 0.0 + y[0] * Basis(x, t, 0, 2);
    assert NodeProduct(x, t, 1) == 1.0 * (t - x[0]);
  }

  /** Linear interpolation between two nodes, in both forms, on the same
      line through `(x_0, y_0)` with slope `(y_1 - y_0) / (x_1 - x_0)`. */
  lemma TwoNodeLine(y0: real, y1: real, x0: real, x1: real, t: real)
    requires x1 - x0 != 0.0
    ensures y0 * ((t - x1) / (x0 - x1)) + y1 * ((t - x0) / (x1 - x0)) == y0 + ((y1 - y0) / (x1 - x0)) * (t - x0)
  {
    var d := x1 - x0;
    var u := t - x0;
    assert (t - x1) / (x0 - x1) == (d - u) / d;
    DivideDifference(d, u);
    assert ((y1 - y0) / d) * u == (y1 - y0) * (u / d);
  }

  /** With two nodes the Lagrange and the Newton form are the same line. */
  lemma TwoNodes(x: Vector, y: Vector, t: real)
    requires SizesOk(x, y) && |x| == 2 && NodesApart(x)
    ensures LagrangeValue(x, y, t) == NewtonValue(x, y, t)
  {
    ApartAllDistinct(x);
    TwoNodeForms(x, y, t);
    TwoNodeLine(y[0], y[1], x[0], x[1], t);
  }

  /** The points `(0, 1)`, `(1, 2)`, `(2, 5)` of `1 + x²` at `1.5`, term by
      term. */
  lemma ParabolaTerms()
    ensures Distinct([0.0, 1.0, 2.0]) && DistinctIn([0.0, 1.0, 2.0], 0, 2)
    ensures LagrangeSum([0.0, 1.0, 2.0], [1.0, 2.0, 5.0], 1.5, 3) == 3.25
    ensures NewtonSum([0.0, 1.0, 2.0], [1.0, 2.0, 5.0], 1.5, 3) == 3.25
  {
    var x := [0.0, 1.0, 2.0];
    var y := [1.0, 2.0, 5.0];
    assert Basis(x, 1.5, 0, 1) == 1.0;
    assert Basis(x, 1.5, 0, 2) == -0.5;
    assert Basis(x, 1.5, 0, 3) == -0.125;
    assert Basis(x, 1.5, 1, 1) == 1.5;
    assert Basis(x, 1.5, 1, 2) == 1.5;
    assert Basis(x, 1.5, 1, 3) == 0.75;
    assert Basis(x, 1.5, 2, 1) == 0.75;
    assert Basis(x, 1.5, 2, 2) == 0.375;
    assert Basis(x, 1.5, 2, 3) == 0.375;
    assert LagrangeSum(x, y, 1.5, 1) == -0.125;
    assert LagrangeSum(x, y, 1.5, 2) == 1.375;
    assert DividedDifference(x, y, 0, 1) == 1.0;
    assert DividedDifference(x, y, 1, 1) == 3.0;
    assert DividedDifference(x, y, 0, 2) == 1.0;
    assert NodeProduct(x, 1.5, 1) == 1.5;
    assert NodeProduct(x, 1.5, 2) == 0.75;
    assert NewtonSum(x, y, 1.5, 2) == 2.5;
  }

  /** The worked example of both forms: `3.25` at `1.5`. */
  lemma ParabolaExample()
    ensures NodesApart([0.0, 1.0, 2.0])
    ensures LagrangeValue([0.0, 1.0, 2.0], [1.0, 2.0, 5.0], 1.5) == 3.25
    ensures NewtonValue([0.0, 1.0, 2.0], [1.0, 2.0, 5.0], 1.5) == 3.25
  {
    var x := [0.0, 1.0, 2.0];
    forall a, b | 0 <= a < 3 && 0 <= b < 3 && a != b ensures !Small(x[a] - x[b]) {
      assert Abs(x[a] - x[b]) >= 1.0;
    }
    ParabolaTerms();
  }
}
