/** The price vector of lp_pricePSE.c: restartPricer computes the steepest edge norms from
    the basis inverse, updatePricer keeps them up to date over a change of basis, and
    Pivot is the part of an iteration that calls it and then exchanges the variables.
    Rows count from zero; element 0 of the price vector holds the kind of simplex. */
module Pricing {
  import opened LinearAlgebra
  import opened SteepestEdge

  // ----- the norms that belong to a basis -----

  /** The flags mark exactly the listed variables, and no variable is listed twice. */
  ghost predicate BasisOK(basic: seq<nat>, flags: seq<bool>) {
    && (forall i :: 0 <= i < |basic| ==> 1 <= basic[i] < |flags| && flags[basic[i]])
    && (forall i, k :: 0 <= i < k < |basic| ==> basic[i] != basic[k])
    && (forall j :: 1 <= j < |flags| && flags[j] ==> exists i :: 0 <= i < |basic| && basic[i] == j)
  }

  function BasisColumns(columns: seq<Vector>, basic: seq<nat>): (cols: seq<Vector>)
    requires forall i :: 0 <= i < |basic| ==> basic[i] < |columns|
    ensures |cols| == |basic| && forall i :: 0 <= i < |basic| ==> cols[i] == columns[basic[i]]
  {
    seq(|basic|, i requires 0 <= i < |basic| => columns[basic[i]])
  }

  /** Each basic variable has the squared norm of its row of the inverse. */
  ghost predicate DualExact(edge: Vector, basic: seq<nat>, inv: seq<Vector>) {
    |basic| == |inv| && forall i :: 0 <= i < |basic| ==> basic[i] < |edge| && edge[basic[i]] == Norm2(inv[i])
  }

  /** Each non-basic variable has one plus the squared norm of its transformed column. */
  ghost predicate PrimalExact(edge: Vector, flags: seq<bool>, columns: seq<Vector>, inv: seq<Vector>) {
    && |edge| == |flags| == |columns|
    && (forall j, i :: 0 <= j < |columns| && 0 <= i < |inv| ==> |inv[i]| == |columns[j]|)
    && forall j :: 1 <= j < |edge| && !flags[j] ==> edge[j] == 1.0 + Norm2(Solve(inv, columns[j]))
  }

  // ----- the result of an update -----

  function Max(x: real, y: real): (z: real)
    ensures z >= x && z >= y && (z == x || z == y)
  {
    if x > y then x else y
  }

  function Abs(x: real): (y: real)
    ensures y >= 0.0 && (y == x || y == -x)
  {
    if x < 0.0 then -x else x
  }

  ghost predicate DualShape(edge: Vector, basic: seq<nat>, r: nat, w: Vector, tau: Vector) {
    |basic| == |w| == |tau| && r < |w| && w[r] != 0.0
    && forall i :: 0 <= i < |basic| ==> basic[i] < |edge|
  }

  function DualFormula(edge: Vector, basic: seq<nat>, r: nat, w: Vector, tau: Vector, i: nat): real
    requires DualShape(edge, basic, r, w, tau) && i < |basic|
  {
    ShiftedNorm(edge[basic[i]], w[i] / w[r], tau[i], edge[basic[r]])
  }

  /** Rows below n other than r have been updated, the entering variable q has its norm,
      and nothing else has changed. */
  ghost predicate DualUpdated(was: Vector, edge: Vector, basic: seq<nat>, r: nat, q: nat, w: Vector, tau: Vector,
                              n: nat) {
    && DualShape(was, basic, r, w, tau) && |edge| == |was| && q < |edge| && n <= |basic|
    && edge[q] == Mul(1.0 / w[r], Mul(1.0 / w[r], was[basic[r]]))
    && (forall i :: 0 <= i < n && i != r ==> edge[basic[i]] == DualFormula(was, basic, r, w, tau, i))
    && forall j :: 0 <= j < |edge| && j != q && (forall i :: 0 <= i < n && i != r ==> basic[i] != j) ==>
       edge[j] == was[j]
  }

  ghost predicate PrimalShape(was: Vector, flags: seq<bool>, q: nat, alpha: Vector, cross: Vector) {
    |was| == |flags| == |alpha| == |cross| && 1 <= q < |was| && alpha[q] != 0.0
  }

  function PrimalFormula(was: Vector, flags: seq<bool>, q: nat, alpha: Vector, cross: Vector, j: nat): real
    requires PrimalShape(was, flags, q, alpha, cross) && j < |was|
  {
    ShiftedNorm(was[j], alpha[j] / alpha[q], cross[j], was[q])
  }

  function PrimalFloor(q: nat, alpha: Vector, j: nat): real
    requires q < |alpha| && j < |alpha| && alpha[q] != 0.0
  {
    Mul(alpha[j] / alpha[q], alpha[j] / alpha[q]) + 1.0
  }

  /** Non-basic variables below n other than q have been updated, with the floor applied
      to those that change; the leaving variable has its norm, and nothing else has
      changed. */
  ghost predicate PrimalUpdated(was: Vector, edge: Vector, flags: seq<bool>, leaving: nat, q: nat, alpha: Vector,
                                cross: Vector, n: nat)
  {
    && PrimalShape(was, flags, q, alpha, cross) && |edge| == |was| && 1 <= n <= |edge| && leaving < |edge|
    && edge[leaving] == Mul(1.0 / alpha[q], Mul(1.0 / alpha[q], was[q]))
    && (forall j :: 1 <= j < n && !flags[j] && j != q && alpha[j] != 0.0 ==>
         edge[j] == Max(PrimalFormula(was, flags, q, alpha, cross, j), PrimalFloor(q, alpha, j)))
    && forall j :: 0 <= j < |edge| && j != leaving && (flags[j] || j == q || j >= n || j == 0 || alpha[j] == 0.0) ==>
       edge[j] == was[j]
  }

  // ----- an update of exact norms gives exact norms -----

  /** Every norm the dual update forms is positive, so the refresh for an invalid norm is
      never asked for. */
  lemma DualFormulaExact(m: nat, cols: seq<Vector>, inv: seq<Vector>, a: Vector, w: Vector, tau: Vector,
                         edge: Vector, basic: seq<nat>, r: nat, i: nat)
    requires Inverse(m, cols, inv) && Coordinates(m, inv, a, w)
    requires |basic| == m && DualShape(edge, basic, r, w, tau) && DualExact(edge, basic, inv)
    requires i < m && i != r && tau[i] == Dot(inv[i], inv[r], m)
    ensures Square(m, inv)
    ensures DualFormula(edge, basic, r, w, tau, i) == Norm2(Pivoted(inv, w, r)[i]) > 0.0
  {
    InverseSquare(m, cols, inv);
    CoordinatesLength(m, inv, a, w);
    PivotedPositive(m, cols, inv, a, w, r, i);
    DualEntries(edge, basic, inv, r, w, tau, i);
    hide *;
    DualNorm(m, inv, w, r, i);
  }

  lemma DualEntries(edge: Vector, basic: seq<nat>, inv: seq<Vector>, r: nat, w: Vector, tau: Vector, i: nat)
    requires DualShape(edge, basic, r, w, tau) && DualExact(edge, basic, inv) && i < |basic|
    ensures edge[basic[r]] == Norm2(inv[r])
    ensures DualFormula(edge, basic, r, w, tau, i) == ShiftedNorm(Norm2(inv[i]), w[i] / w[r], tau[i], Norm2(inv[r]))
  {
    hide ShiftedNorm, Norm2;
  }

  lemma DualEntryExact(m: nat, cols: seq<Vector>, inv: seq<Vector>, a: Vector, w: Vector, tau: Vector,
                       was: Vector, edge: Vector, basic: seq<nat>, r: nat, q: nat, i: nat)
    requires Square(m, cols) && Square(m, inv) && |a| == |w| == |basic| == |tau| == m && |was| == |edge| && q < |edge|
    requires Inverse(m, cols, inv) && Coordinates(m, inv, a, w)
    requires DualShape(was, basic, r, w, tau) && DualExact(was, basic, inv)
    requires DualUpdated(was, edge, basic, r, q, w, tau, m)
    requires i < m && tau[i] == Dot(inv[i], inv[r], m)
    ensures basic[i] < |edge| && |Pivoted(inv, w, r)| == m
    ensures edge[basic[r := q][i]] == Norm2(Pivoted(inv, w, r)[i])
  {
    if i != r {
      UpdatedRow(was, edge, basic, r, q, w, tau, i);
      hide *;
      DualFormulaExact(m, cols, inv, a, w, tau, was, basic, r, i);
    } else {
      DualEntries(was, basic, inv, r, w, tau, i);
      UpdatedEntering(was, edge, basic, r, q, w, tau);
      hide *;
      DualNorm(m, inv, w, r, i);
    }
  }

  lemma UpdatedRow(was: Vector, edge: Vector, basic: seq<nat>, r: nat, q: nat, w: Vector, tau: Vector, i: nat)
    requires DualUpdated(was, edge, basic, r, q, w, tau, |basic|) && i < |basic| && i != r
    ensures DualShape(was, basic, r, w, tau) && basic[i] < |edge|
    ensures edge[basic[i]] == DualFormula(was, basic, r, w, tau, i)
  {
  }

  lemma UpdatedEntering(was: Vector, edge: Vector, basic: seq<nat>, r: nat, q: nat, w: Vector, tau: Vector)
    requires DualUpdated(was, edge, basic, r, q, w, tau, |basic|)
    ensures DualShape(was, basic, r, w, tau) && q < |edge|
    ensures edge[q] == Mul(1.0 / w[r], Mul(1.0 / w[r], was[basic[r]]))
  {
    hide Mul;
  }

  /** An update of exact dual norms is exact for the new basis. */
  lemma DualStaysExact(m: nat, cols: seq<Vector>, inv: seq<Vector>, a: Vector, w: Vector, tau: Vector,
                       was: Vector, edge: Vector, basic: seq<nat>, r: nat, q: nat)
    requires Square(m, cols) && Square(m, inv) && |a| == |w| == |basic| == |tau| == m && |was| == |edge| && q < |edge|
    requires Inverse(m, cols, inv) && Coordinates(m, inv, a, w)
    requires DualShape(was, basic, r, w, tau) && DualExact(was, basic, inv)
    requires DualUpdated(was, edge, basic, r, q, w, tau, m)
    requires forall i :: 0 <= i < m ==> tau[i] == Dot(inv[i], inv[r], m)
    ensures DualExact(edge, basic[r := q], Pivoted(inv, w, r))
  {
    var next := Pivoted(inv, w, r);
    hide Inverse, Coordinates, DualUpdated, DualShape, Dot, Norm2, Pivoted, Square;
    forall i | 0 <= i < m
      ensures basic[r := q][i] < |edge| && |next| == m && edge[basic[r := q][i]] == Norm2(next[i])
    {
      hide *;
      DualEntryExact(m, cols, inv, a, w, tau, was, edge, basic, r, q, i);
    }
  }

  lemma PrimalEntry(was: Vector, edge: Vector, flags: seq<bool>, leaving: nat, q: nat, alpha: Vector, cross: Vector,
                    j: nat)
    requires PrimalUpdated(was, edge, flags, leaving, q, alpha, cross, |was|)
    requires 1 <= j < |was| && j != q && j != leaving && !flags[j]
    ensures PrimalShape(was, flags, q, alpha, cross)
    ensures alpha[j] == 0.0 ==> edge[j] == was[j]
    ensures alpha[j] != 0.0 ==> edge[j] == Max(PrimalFormula(was, flags, q, alpha, cross, j), PrimalFloor(q, alpha, j))
  {
    hide Max, PrimalFormula, PrimalFloor;
  }

  lemma NoShift(xx: real, xy: real, yy: real)
    ensures ShiftedNorm(xx, 0.0, xy, yy) == xx
  {
  }

  lemma PrimalUnfold(was: Vector, flags: seq<bool>, q: nat, alpha: Vector, cross: Vector, j: nat)
    requires PrimalShape(was, flags, q, alpha, cross) && j < |was|
    ensures PrimalFormula(was, flags, q, alpha, cross, j) == ShiftedNorm(was[j], alpha[j] / alpha[q], cross[j], was[q])
    ensures PrimalFloor(q, alpha, j) == Mul(alpha[j] / alpha[q], alpha[j] / alpha[q]) + 1.0
  {
    hide ShiftedNorm, Mul;
  }

  lemma MaxFirst(x: real, y: real)
    requires x >= y
    ensures Max(x, y) == x
  {
  }

  /** A column that stays non-basic: with the exact norm above the floor, the floor
      changes nothing. */
  lemma PrimalEntryIs(was: Vector, edge: Vector, flags: seq<bool>, leaving: nat, q: nat, alpha: Vector, cross: Vector,
                      j: nat, h: real, norm: real)
    requires PrimalUpdated(was, edge, flags, leaving, q, alpha, cross, |was|)
    requires |was| == |edge| == |flags| == |alpha| == |cross| && 1 <= j < |was| && 1 <= q < |was| && alpha[q] != 0.0
    requires j != q && j != leaving && !flags[j] && h == alpha[j] / alpha[q]
    requires norm == ShiftedNorm(was[j], h, cross[j], was[q]) && norm >= Mul(h, h) + 1.0
    ensures edge[j] == norm
  {
    PrimalEntry(was, edge, flags, leaving, q, alpha, cross, j);
    assert alpha[j] == 0.0 ==> h == 0.0;
    hide *;
    PrimalUnfold(was, flags, q, alpha, cross, j);
    NoShift(was[j], cross[j], was[q]);
    if alpha[j] != 0.0 {
      MaxFirst(PrimalFormula(was, flags, q, alpha, cross, j), PrimalFloor(q, alpha, j));
    }
  }

  /** What prod_xA returns for the pivot row and for the cross products, both only for
      non-basic columns. */
  ghost predicate Scanned(m: nat, columns: seq<Vector>, flags: seq<bool>, inv: seq<Vector>, r: nat, w: Vector,
                          alpha: Vector, cross: Vector) {
    && Square(m, inv) && |w| == m && r < m && |columns| == |flags| == |alpha| == |cross|
    && forall j :: 1 <= j < |columns| && !flags[j] ==>
         && |columns[j]| == m
         && alpha[j] == Dot(inv[r], columns[j], m)
         && cross[j] == Dot(BackSolve(inv, w, m), columns[j], m)
  }

  lemma ScannedAt(m: nat, columns: seq<Vector>, flags: seq<bool>, inv: seq<Vector>, r: nat, w: Vector, alpha: Vector,
                  cross: Vector, j: nat)
    requires Scanned(m, columns, flags, inv, r, w, alpha, cross) && 1 <= j < |columns| && !flags[j]
    ensures |columns[j]| == m && Square(m, inv) && |w| == m && r < m && |columns| == |flags| == |alpha| == |cross|
    ensures alpha[j] == Dot(inv[r], columns[j], m)
    ensures cross[j] == Dot(BackSolve(inv, w, m), columns[j], m)
  {
    hide Dot, BackSolve;
  }

  lemma PrimalExactAt(edge: Vector, flags: seq<bool>, columns: seq<Vector>, inv: seq<Vector>, j: nat)
    requires PrimalExact(edge, flags, columns, inv) && 1 <= j < |edge| && !flags[j]
    ensures |edge| == |flags| == |columns| && forall i :: 0 <= i < |inv| ==> |inv[i]| == |columns[j]|
    ensures edge[j] == 1.0 + Norm2(Solve(inv, columns[j]))
  {
    hide Norm2, Solve;
  }

  /** The assumptions under which the norms of a primal iteration are updated: the basis
      and its inverse before, the column q that enters at row r, and exact norms. */
  ghost predicate PrimalPivot(m: nat, cols: seq<Vector>, inv: seq<Vector>, columns: seq<Vector>, flags: seq<bool>,
                              was: Vector, leaving: nat, r: nat, q: nat, w: Vector)
  {
    && Square(m, cols) && Square(m, inv) && LeftInverse(m, cols, inv) && |w| == m && r < m && w[r] != 0.0
    && Square(m, Pivoted(inv, w, r))
    && (forall j :: 0 <= j < |columns| ==> |columns[j]| == m)
    && |columns| == |flags| == |was| && 1 <= q < |columns| && !flags[q] && w == Solve(inv, columns[q])
    && 1 <= leaving < |columns| && flags[leaving] && columns[leaving] == cols[r]
    && PrimalExact(was, flags, columns, inv)
  }

  lemma PrimalStays(m: nat, cols: seq<Vector>, inv: seq<Vector>, columns: seq<Vector>, flags: seq<bool>, was: Vector,
                    edge: Vector, leaving: nat, r: nat, q: nat, w: Vector, alpha: Vector, cross: Vector, j: nat)
    requires PrimalPivot(m, cols, inv, columns, flags, was, leaving, r, q, w)
    requires Scanned(m, columns, flags, inv, r, w, alpha, cross)
    requires PrimalUpdated(was, edge, flags, leaving, q, alpha, cross, |was|)
    requires |edge| == |was| && 1 <= j < |edge| && j != q && (j == leaving || !flags[j])
    ensures |columns| == |edge| && |columns[j]| == m && Square(m, inv) && |w| == m && r < m && w[r] != 0.0
    ensures Square(m, Pivoted(inv, w, r))
    ensures edge[j] == 1.0 + Norm2(Solve(Pivoted(inv, w, r), columns[j]))
  {
    PrimalExactAt(was, flags, columns, inv, q);
    ScannedAt(m, columns, flags, inv, r, w, alpha, cross, q);
    hide Norm2, Solve, Pivoted, Dot, BackSolve, PrimalExact, Scanned, Mul, LeftInverse;
    assert alpha[q] == w[r];
    if j == leaving {
      PrimalLeavingIs(was, edge, flags, leaving, q, alpha, cross);
      hide PrimalUpdated;
      PrimalNormLeaving(m, cols, inv, w, r);
    } else {
      hide PrimalUpdated, ShiftedNorm;
      PrimalExactAt(was, flags, columns, inv, j);
      ScannedAt(m, columns, flags, inv, r, w, alpha, cross, j);
      PrimalNormKept(m, inv, w, r, columns[j]);
      PrimalEntryIs(was, edge, flags, leaving, q, alpha, cross, j,
                    Dot(inv[r], columns[j], m) / w[r], 1.0 + Norm2(Solve(Pivoted(inv, w, r), columns[j])));
    }
  }

  lemma PrimalLeavingIs(was: Vector, edge: Vector, flags: seq<bool>, leaving: nat, q: nat, alpha: Vector, cross: Vector)
    requires PrimalUpdated(was, edge, flags, leaving, q, alpha, cross, |was|)
    ensures PrimalShape(was, flags, q, alpha, cross) && leaving < |edge|
    ensures edge[leaving] == Mul(1.0 / alpha[q], Mul(1.0 / alpha[q], was[q]))
  {
    hide Mul;
  }

  /** An update of exact primal norms is exact for the new basis. */
  lemma PrimalStaysExact(m: nat, cols: seq<Vector>, inv: seq<Vector>, columns: seq<Vector>, flags: seq<bool>,
                         was: Vector, edge: Vector, leaving: nat, r: nat, q: nat, w: Vector, alpha: Vector,
                         cross: Vector)
    requires PrimalPivot(m, cols, inv, columns, flags, was, leaving, r, q, w)
    requires Scanned(m, columns, flags, inv, r, w, alpha, cross)
    requires PrimalUpdated(was, edge, flags, leaving, q, alpha, cross, |was|)
    requires |edge| == |was| == |flags| && q < |flags| && leaving < |flags| && |inv| == |w| && r < |w| && w[r] != 0.0
    requires Square(m, inv)
    ensures PrimalExact(edge, flags[leaving := false][q := true], columns, Pivoted(inv, w, r))
  {
    var after, next := flags[leaving := false][q := true], Pivoted(inv, w, r);
    assert |columns| == |edge| && Square(m, next) && forall j :: 0 <= j < |columns| ==> |columns[j]| == m;
    hide Norm2, Solve, Pivoted, Scanned, PrimalUpdated, PrimalPivot;
    forall j | 1 <= j < |edge| && !after[j]
      ensures edge[j] == 1.0 + Norm2(Solve(next, columns[j]))
    {
      PrimalStays(m, cols, inv, columns, flags, was, edge, leaving, r, q, w, alpha, cross, j);
    }
  }

  // ----- the loops -----

  /** The accumulation both branches of restartPricer share. */
  method SquaredNorm(base: real, v: Vector) returns (norm: real)
    ensures norm == base + Norm2(v)
  {
    norm := base;
    for j := 0 to |v|
      invariant norm == base + Dot(v, v, j)
    {
      var hold := v[j];
      assert Mul(hold, hold) == hold * hold;
      norm := norm + hold * hold;
    }
  }

  /** One step of the update loops. */
  method UpdateNorm(norm: real, hold: real, cross: real, edge: real) returns (next: real)
    ensures next == ShiftedNorm(norm, hold, cross, edge)
  {
    next := norm + hold * hold * edge;
    next := next - 2.0 * hold * cross;
  }

  lemma DualStart(was: Vector, basic: seq<nat>, r: nat, q: nat, w: Vector, tau: Vector)
    requires DualShape(was, basic, r, w, tau) && q < |was| && q !in basic
    ensures DualUpdated(was, was[q := Mul(1.0 / w[r], Mul(1.0 / w[r], was[basic[r]]))], basic, r, q, w, tau, 0)
  {
    hide Mul, DualFormula;
  }

  lemma DualSkip(was: Vector, edge: Vector, basic: seq<nat>, r: nat, q: nat, w: Vector, tau: Vector, n: nat)
    requires DualUpdated(was, edge, basic, r, q, w, tau, n) && n < |basic| && (n == r || w[n] == 0.0)
    requires forall i, k :: 0 <= i < k < |basic| ==> basic[i] != basic[k]
    requires q !in basic
    ensures DualUpdated(was, edge, basic, r, q, w, tau, n + 1)
  {
    if n != r {
      assert w[n] / w[r] == 0.0;
      NoShift(was[basic[n]], tau[n], was[basic[r]]);
      assert edge[basic[n]] == was[basic[n]];
    }
    hide Mul, ShiftedNorm;
  }

  lemma DualStep(was: Vector, edge: Vector, basic: seq<nat>, r: nat, q: nat, w: Vector, tau: Vector, n: nat)
    requires DualUpdated(was, edge, basic, r, q, w, tau, n) && n < |basic| && n != r
    requires forall i, k :: 0 <= i < k < |basic| ==> basic[i] != basic[k]
    requires q !in basic
    ensures edge[basic[n]] == was[basic[n]]
    ensures DualUpdated(was, edge[basic[n] := DualFormula(was, basic, r, w, tau, n)], basic, r, q, w, tau, n + 1)
  {
    hide Mul, DualFormula;
  }

  lemma PrimalStart(was: Vector, flags: seq<bool>, leaving: nat, q: nat, alpha: Vector, cross: Vector)
    requires PrimalShape(was, flags, q, alpha, cross) && leaving < |was|
    ensures PrimalUpdated(was, was[leaving := Mul(1.0 / alpha[q], Mul(1.0 / alpha[q], was[q]))], flags, leaving, q,
              alpha, cross, 1)
  {
    hide Mul, PrimalFormula, PrimalFloor;
  }

  lemma PrimalSkip(was: Vector, edge: Vector, flags: seq<bool>, leaving: nat, q: nat, alpha: Vector, cross: Vector,
                   n: nat)
    requires PrimalUpdated(was, edge, flags, leaving, q, alpha, cross, n) && n < |flags|
    requires (flags[n] || n == q || alpha[n] == 0.0)
    ensures PrimalUpdated(was, edge, flags, leaving, q, alpha, cross, n + 1)
  {
    hide Mul, PrimalFormula, PrimalFloor;
  }

  lemma PrimalStep(was: Vector, edge: Vector, flags: seq<bool>, leaving: nat, q: nat, alpha: Vector, cross: Vector,
                   n: nat)
    requires PrimalUpdated(was, edge, flags, leaving, q, alpha, cross, n) && n < |flags|
    requires !flags[n] && n != q && n != leaving && alpha[n] != 0.0
    ensures edge[n] == was[n]
    ensures PrimalUpdated(was, edge[n := Max(PrimalFormula(was, flags, q, alpha, cross, n), PrimalFloor(q, alpha, n))],
                          flags, leaving, q, alpha, cross, n + 1)
  {
    hide Mul, PrimalFormula, PrimalFloor, Max;
  }

  /** Whether the dual update meets a norm that is not positive. */
  ghost predicate InvalidDual(was: Vector, basic: seq<nat>, r: nat, w: Vector, tau: Vector, n: nat) {
    DualShape(was, basic, r, w, tau) && n <= |basic|
    && exists i :: 0 <= i < n && i != r && w[i] != 0.0 && DualFormula(was, basic, r, w, tau, i) <= 0.0
  }

  /** The formulas in numbers, for any norms: with h the quotient of an element and the
      pivot. */
  lemma DualFormulaIs(was: Vector, basic: seq<nat>, r: nat, w: Vector, tau: Vector, i: nat)
    requires DualShape(was, basic, r, w, tau) && i < |basic|
    ensures var h := w[i] / w[r];
            DualFormula(was, basic, r, w, tau, i) == was[basic[i]] + h * h * was[basic[r]] - 2.0 * h * tau[i]
  {
  }

  lemma PrimalFormulaIs(was: Vector, flags: seq<bool>, q: nat, alpha: Vector, cross: Vector, j: nat)
    requires PrimalShape(was, flags, q, alpha, cross) && j < |was|
    ensures var h := alpha[j] / alpha[q];
            && PrimalFormula(was, flags, q, alpha, cross, j) == was[j] + h * h * was[q] - 2.0 * h * cross[j]
            && PrimalFloor(q, alpha, j) == h * h + 1.0
  {
  }

  lemma NormOfPivot(pivot: real, norm: real)
    requires pivot != 0.0
    ensures Mul(1.0 / pivot, Mul(1.0 / pivot, norm)) == (1.0 / pivot) * ((1.0 / pivot) * norm)
  {
  }

  /** What the dual update leaves, for any norms, and when it asks for a refresh. */
  lemma DualUpdateIs(was: Vector, edge: Vector, basic: seq<nat>, r: nat, q: nat, w: Vector, tau: Vector)
    requires DualUpdated(was, edge, basic, r, q, w, tau, |basic|)
    ensures DualShape(was, basic, r, w, tau) && q < |edge| == |was| && |basic| == |w| && r < |w| && basic[r] < |was|
    ensures edge[q] == Mul(1.0 / w[r], Mul(1.0 / w[r], was[basic[r]]))
    ensures forall i :: 0 <= i < |basic| && i != r ==>
              basic[i] < |edge| && edge[basic[i]] == DualFormula(was, basic, r, w, tau, i)
    ensures forall j :: 0 <= j < |edge| && j != q && j !in basic ==> edge[j] == was[j]
    ensures InvalidDual(was, basic, r, w, tau, |basic|) <==>
              exists i :: 0 <= i < |basic| && i != r && w[i] != 0.0 && DualFormula(was, basic, r, w, tau, i) <= 0.0
  {
    hide DualFormula, Mul;
  }

  /** What the primal update leaves, for any norms. */
  lemma PrimalUpdateIs(was: Vector, edge: Vector, flags: seq<bool>, leaving: nat, q: nat, alpha: Vector, cross: Vector)
    requires PrimalUpdated(was, edge, flags, leaving, q, alpha, cross, |edge|)
    ensures PrimalShape(was, flags, q, alpha, cross) && |was| == |edge| && leaving < |edge|
    ensures edge[leaving] == Mul(1.0 / alpha[q], Mul(1.0 / alpha[q], was[q]))
    ensures forall j :: 1 <= j < |edge| && !flags[j] && j != q && alpha[j] != 0.0 ==>
              var norm, least := PrimalFormula(was, flags, q, alpha, cross, j), PrimalFloor(q, alpha, j);
              edge[j] == if norm > least then norm else least
    ensures forall j :: 1 <= j < |edge| && j != leaving && (flags[j] || j == q || alpha[j] == 0.0) ==> edge[j] == was[j]
  {
    hide PrimalFormula, PrimalFloor, Mul;
  }

  lemma BasisExchange(basic: seq<nat>, flags: seq<bool>, r: nat, q: nat)
    requires BasisOK(basic, flags) && r < |basic| && 1 <= q < |flags| && !flags[q]
    ensures basic[r] < |flags| && flags[basic[r]] && q !in basic
    ensures BasisOK(basic[r := q], flags[basic[r] := false][q := true])
  {
    var after, marks := basic[r := q], flags[basic[r] := false][q := true];
    forall j | 1 <= j < |marks| && marks[j]
      ensures exists i :: 0 <= i < |after| && after[i] == j
    {
      if j == q {
        assert after[r] == j;
      } else {
        var i :| 0 <= i < |basic| && basic[i] == j;
        assert after[i] == j;
      }
    }
  }

  /** The price vector holds the norms of the basis with this inverse, for its kind of
      simplex. */
  ghost predicate Exact(edge: Vector, basic: seq<nat>, flags: seq<bool>, columns: seq<Vector>, inv: seq<Vector>) {
    |edge| > 0 && edge[0] >= 0.0
    && if edge[0] > 0.0 then DualExact(edge, basic, inv) else PrimalExact(edge, flags, columns, inv)
  }

  /** A basis, its inverse, and a pivot on a non-zero element of column q. */
  ghost predicate PivotData(m: nat, basic: seq<nat>, flags: seq<bool>, columns: seq<Vector>, inv: seq<Vector>,
                            w: Vector, r: nat, q: nat) {
    && BasisOK(basic, flags) && |basic| == m && |flags| == |columns|
       && (forall j :: 0 <= j < |columns| ==> |columns[j]| == m)
    && Square(m, inv) && r < m && 1 <= q < |columns| && !flags[q]
    && w == Solve(inv, columns[q]) && w[r] != 0.0
    && Inverse(m, BasisColumns(columns, basic), inv)
  }

  lemma PivotDataParts(m: nat, basic: seq<nat>, flags: seq<bool>, columns: seq<Vector>, inv: seq<Vector>, w: Vector,
                       r: nat, q: nat)
    requires PivotData(m, basic, flags, columns, inv, w, r, q)
    ensures Square(m, inv) && |columns[q]| == |w| == |basic| == m && r < m && q < |columns| && w[r] != 0.0
    ensures (forall i :: 0 <= i < m ==> basic[i] < |columns|) && Square(m, BasisColumns(columns, basic))
    ensures Inverse(m, BasisColumns(columns, basic), inv) && Coordinates(m, inv, columns[q], w)
    ensures BasisColumns(columns, basic)[r := columns[q]] == BasisColumns(columns, basic[r := q])
  {
    hide Inverse, Dot;
    assert |BasisColumns(columns, basic)| == m;
  }

  /** The pivoted rows are the one inverse of the new basis. */
  lemma NextInverse(m: nat, basic: seq<nat>, flags: seq<bool>, columns: seq<Vector>, inv: seq<Vector>, w: Vector,
                    r: nat, q: nat, next: seq<Vector>)
    requires PivotData(m, basic, flags, columns, inv, w, r, q) && Square(m, inv) && |w| == m && r < m && w[r] != 0.0
    requires q < |columns| && |basic| == m && forall i :: 0 <= i < m ==> basic[i] < |columns|
    ensures Inverse(m, BasisColumns(columns, basic[r := q]), Pivoted(inv, w, r))
    ensures Inverse(m, BasisColumns(columns, basic[r := q]), next) ==> next == Pivoted(inv, w, r)
  {
    PivotDataParts(m, basic, flags, columns, inv, w, r, q);
    hide PivotData, Inverse, Coordinates, Pivoted;
    PivotedInverse(m, BasisColumns(columns, basic), inv, columns[q], w, r);
    if Inverse(m, BasisColumns(columns, basic[r := q]), next) {
      OneInverse(m, BasisColumns(columns, basic[r := q]), Pivoted(inv, w, r), next);
    }
  }

  lemma OneInverse(m: nat, cols: seq<Vector>, inv: seq<Vector>, other: seq<Vector>)
    requires Inverse(m, cols, inv) && Inverse(m, cols, other)
    ensures inv == other
  {
    InverseUnique(m, cols, inv, other);
  }

  /** Exact dual norms never ask for a refresh and stay exact. */
  lemma DualPivotExact(m: nat, basic: seq<nat>, flags: seq<bool>, columns: seq<Vector>, inv: seq<Vector>, w: Vector,
                       r: nat, q: nat, was: Vector, tau: Vector)
    requires PivotData(m, basic, flags, columns, inv, w, r, q) && Square(m, inv) && r < m
    requires |w| == |tau| == |basic| == m && w[r] != 0.0
    requires DualExact(was, basic, inv) && q < |was| && tau == Solve(inv, inv[r])
    ensures !InvalidDual(was, basic, r, w, tau, m)
  {
    PivotDataParts(m, basic, flags, columns, inv, w, r, q);
    assert DualShape(was, basic, r, w, tau);
    assert forall i :: 0 <= i < m ==> tau[i] == Dot(inv[i], inv[r], m);
    hide PivotData, Inverse, Coordinates, DualFormula, Pivoted, DualExact, Square, DualShape, BasisColumns;
    forall i | 0 <= i < m && i != r
      ensures DualFormula(was, basic, r, w, tau, i) > 0.0
    {
      DualFormulaExact(m, BasisColumns(columns, basic), inv, columns[q], w, tau, was, basic, r, i);
    }
  }

  /** What the dual branch leaves behind: it asks for a refresh exactly when the pivot is
      tiny or a norm comes out non-positive. */
  ghost predicate DualResult(was: Vector, edge: Vector, basic: seq<nat>, columns: seq<Vector>, inv: seq<Vector>,
                             r: nat, q: nat, epspivot: real, refresh: bool)
    requires |basic| == |inv| && Square(|inv|, inv) && r < |inv| && q < |columns| && |columns[q]| == |inv|
  {
    var w, tau := Solve(inv, columns[q]), Solve(inv, inv[r]);
    && (refresh <==> Abs(w[r]) < epspivot || InvalidDual(was, basic, r, w, tau, |inv|))
    && (!refresh ==> DualUpdated(was, edge, basic, r, q, w, tau, |inv|))
  }

  /** What the primal branch leaves behind: only a tiny pivot asks for a refresh. */
  ghost predicate PrimalResult(was: Vector, edge: Vector, flags: seq<bool>, leaving: nat, columns: seq<Vector>,
                               inv: seq<Vector>, r: nat, q: nat, epspivot: real, refresh: bool)
    requires |columns| == |flags| && Square(|inv|, inv) && r < |inv| && q < |columns|
    requires forall j :: 0 <= j < |columns| ==> |columns[j]| == |inv|
  {
    var w := Solve(inv, columns[q]);
    var alpha, cross := ProdXA(columns, flags, inv[r]), ProdXA(columns, flags, BackSolve(inv, w, |inv|));
    && (refresh <==> Abs(alpha[q]) < epspivot)
    && (!refresh ==> PrimalUpdated(was, edge, flags, leaving, q, alpha, cross, |columns|))
  }

  /** An update of an exact price vector asks for no refresh and is exact for the new
      basis. */
  lemma DualUpdateExact(m: nat, basic: seq<nat>, flags: seq<bool>, columns: seq<Vector>, inv: seq<Vector>, w: Vector,
                        r: nat, q: nat, was: Vector, edge: Vector, epspivot: real, refresh: bool)
    requires PivotData(m, basic, flags, columns, inv, w, r, q) && Square(m, inv) && r < m && |w| == |basic| == m
    requires w[r] != 0.0
    requires 0.0 < epspivot <= Abs(w[r]) && q < |columns| == |was| == |edge| && |columns[q]| == m
    requires DualExact(was, basic, inv) && DualResult(was, edge, basic, columns, inv, r, q, epspivot, refresh)
    ensures !refresh && DualExact(edge, basic[r := q], Pivoted(inv, w, r))
  {
    var tau := Solve(inv, inv[r]);
    PivotDataParts(m, basic, flags, columns, inv, w, r, q);
    assert w == Solve(inv, columns[q]);
    DualPivotExact(m, basic, flags, columns, inv, w, r, q, was, tau);
    assert !refresh && DualUpdated(was, edge, basic, r, q, w, tau, m);
    assert DualShape(was, basic, r, w, tau);
    hide Inverse, Coordinates, PivotData, DualUpdated, DualExact, Dot, Pivoted, BasisColumns;
    DualStaysExact(m, BasisColumns(columns, basic), inv, columns[q], w, tau, was, edge, basic, r, q);
  }

  lemma PrimalUpdateExact(m: nat, basic: seq<nat>, flags: seq<bool>, columns: seq<Vector>, inv: seq<Vector>, w: Vector,
                          r: nat, q: nat, was: Vector, edge: Vector, epspivot: real, refresh: bool)
    requires PivotData(m, basic, flags, columns, inv, w, r, q) && Square(m, inv) && r < m && |w| == |basic| == m
    requires w[r] != 0.0
    requires 0.0 < epspivot <= Abs(w[r]) && q < |columns| == |was| == |edge| == |flags| && basic[r] < |columns|
    requires forall j :: 0 <= j < |columns| ==> |columns[j]| == m
    requires PrimalExact(was, flags, columns, inv)
    requires PrimalResult(was, edge, flags, basic[r], columns, inv, r, q, epspivot, refresh)
    ensures !refresh && PrimalExact(edge, flags[basic[r] := false][q := true], columns, Pivoted(inv, w, r))
  {
    var alpha, cross := ProdXA(columns, flags, inv[r]), ProdXA(columns, flags, BackSolve(inv, w, m));
    PivotDataParts(m, basic, flags, columns, inv, w, r, q);
    PrimalPivotExact(m, basic, flags, columns, inv, w, r, q, was);
    assert w == Solve(inv, columns[q]) && !flags[q] && q > 0;
    hide Inverse, Coordinates, PivotData, PrimalUpdated, PrimalExact, Dot, Pivoted, BasisColumns, PrimalPivot;
    assert Scanned(m, columns, flags, inv, r, w, alpha, cross);
    assert alpha[q] == w[r];
    PrimalStaysExact(m, BasisColumns(columns, basic), inv, columns, flags, was, edge, basic[r], r, q, w, alpha, cross);
  }

  lemma PrimalPivotExact(m: nat, basic: seq<nat>, flags: seq<bool>, columns: seq<Vector>, inv: seq<Vector>, w: Vector,
                         r: nat, q: nat, was: Vector)
    requires PivotData(m, basic, flags, columns, inv, w, r, q) && Square(m, inv) && r < m && |w| == |basic| == m
    requires w[r] != 0.0
    requires PrimalExact(was, flags, columns, inv) && forall i :: 0 <= i < m ==> basic[i] < |columns|
    ensures PrimalPivot(m, BasisColumns(columns, basic), inv, columns, flags, was, basic[r], r, q, w)
  {
    PivotDataParts(m, basic, flags, columns, inv, w, r, q);
    assert flags[basic[r]] && 1 <= basic[r];
    hide Inverse, Coordinates, Dot, Norm2, PrimalExact;
    InverseIsLeft(m, BasisColumns(columns, basic), inv);
    PivotedSquare(m, BasisColumns(columns, basic), inv, columns[q], w, r);
    hide Pivoted, LeftInverse;
  }

  /** The price vector after a pivot is the one the new basis calls for, whatever way its
      inverse is computed. */
  ghost predicate ExactForBasis(m: nat, edge: Vector, basic: seq<nat>, flags: seq<bool>, columns: seq<Vector>)
    requires forall i :: 0 <= i < |basic| ==> basic[i] < |columns|
  {
    forall next :: Inverse(m, BasisColumns(columns, basic), next) ==> Exact(edge, basic, flags, columns, next)
  }

  lemma UpdateExact(m: nat, basic: seq<nat>, flags: seq<bool>, columns: seq<Vector>, inv: seq<Vector>, w: Vector,
                    r: nat, q: nat, was: Vector, edge: Vector, epspivot: real, refresh: bool)
    requires PivotData(m, basic, flags, columns, inv, w, r, q) && Square(m, inv) && r < m && |w| == |basic| == m
    requires w[r] != 0.0
    requires 0.0 < epspivot <= Abs(w[r]) && q < |columns| == |was| == |edge| == |flags| && basic[r] < |columns|
    requires (forall j :: 0 <= j < |columns| ==> |columns[j]| == m) && forall i :: 0 <= i < m ==> basic[i] < |columns|
    requires Exact(was, basic, flags, columns, inv)
    requires edge[0] == was[0] || (refresh && was[0] > 0.0)
    requires was[0] > 0.0 ==> DualResult(was, edge, basic, columns, inv, r, q, epspivot, refresh)
    requires was[0] == 0.0 ==> PrimalResult(was, edge, flags, basic[r], columns, inv, r, q, epspivot, refresh)
    ensures !refresh && edge[0] == was[0]
    ensures Inverse(m, BasisColumns(columns, basic[r := q]), Pivoted(inv, w, r))
    ensures ExactForBasis(m, edge, basic[r := q], flags[basic[r] := false][q := true], columns)
  {
    hide DualResult, PrimalResult, PivotData, DualExact, PrimalExact, Inverse, BasisColumns, Pivoted, Solve;
    if was[0] > 0.0 {
      DualUpdateExact(m, basic, flags, columns, inv, w, r, q, was, edge, epspivot, refresh);
    } else {
      PrimalUpdateExact(m, basic, flags, columns, inv, w, r, q, was, edge, epspivot, refresh);
    }
    var after, marks := basic[r := q], flags[basic[r] := false][q := true];
    var cols := BasisColumns(columns, after);
    forall next | Inverse(m, cols, next)
      ensures Exact(edge, after, marks, columns, next)
    {
      NextInverse(m, basic, flags, columns, inv, w, r, q, next);
    }
    NextInverse(m, basic, flags, columns, inv, w, r, q, inv);
  }

  // ----- which exchanges keep the norms -----

  /** What updatePricer can leave behind with true norms: the update formulas, or on a
      refresh norms that are exact for the basis being left, except that the entry the
      exchange adds is the one that was there. */
  ghost predicate Outcome(basic: seq<nat>, flags: seq<bool>, columns: seq<Vector>, inv: seq<Vector>, r: nat, q: nat,
                          was: Vector, edge: Vector, epspivot: real, refresh: bool)
    requires |basic| == |inv| && Square(|inv|, inv) && r < |inv| && q < |columns| == |flags| && basic[r] < |columns|
    requires forall j :: 0 <= j < |columns| ==> |columns[j]| == |inv|
  {
    && |was| == |edge| == |columns| && edge[0] == was[0]
    && (was[0] > 0.0 ==> DualResult(was, edge, basic, columns, inv, r, q, epspivot, refresh))
    && (was[0] == 0.0 ==> PrimalResult(was, edge, flags, basic[r], columns, inv, r, q, epspivot, refresh))
    && (refresh ==> Exact(edge, basic, flags, columns, inv))
    && (refresh ==> var added := if was[0] > 0.0 then q else basic[r]; edge[added] == was[added])
  }

  /** Every exact price vector of this kind is exact again after the exchange. */
  ghost predicate KeepsExact(basic: seq<nat>, flags: seq<bool>, columns: seq<Vector>, inv: seq<Vector>, r: nat, q: nat,
                             epspivot: real, isDual: bool)
    requires |basic| == |inv| && Square(|inv|, inv) && r < |inv| && q < |columns| == |flags| && basic[r] < |columns|
    requires forall j :: 0 <= j < |columns| ==> |columns[j]| == |inv|
    requires Solve(inv, columns[q])[r] != 0.0
  {
    forall was, edge, refresh ::
      Outcome(basic, flags, columns, inv, r, q, was, edge, epspivot, refresh) && Exact(was, basic, flags, columns, inv)
        && (isDual <==> was[0] > 0.0)
      ==> Exact(edge, basic[r := q], flags[basic[r] := false][q := true], columns,
        Pivoted(inv, Solve(inv, columns[q]), r))
  }

  /** An exact vector with nothing stored for the variable the exchange adds. */
  ghost function NothingAdded(basic: seq<nat>, flags: seq<bool>, columns: seq<Vector>, inv: seq<Vector>,
                              isDual: bool): (edge: Vector)
    requires |basic| == |inv| && Square(|inv|, inv) && |columns| == |flags| && BasisOK(basic, flags)
    requires forall j :: 0 <= j < |columns| ==> |columns[j]| == |inv|
    ensures |edge| == |columns|
  {
    seq(|columns|, j requires 0 <= j < |columns| =>
      if j == 0 then (if isDual then 1.0 else 0.0)
      else if flags[j] then (if isDual then NormOf(basic, inv, j) else 0.0)
      else if isDual then 0.0 else 1.0 + Norm2(Solve(inv, columns[j])))
  }

  ghost function NormOf(basic: seq<nat>, inv: seq<Vector>, j: nat): real
    requires |basic| == |inv| && exists i :: 0 <= i < |basic| && basic[i] == j
  {
    var i :| 0 <= i < |basic| && basic[i] == j;
    Norm2(inv[i])
  }

  lemma NothingAddedExact(basic: seq<nat>, flags: seq<bool>, columns: seq<Vector>, inv: seq<Vector>, isDual: bool)
    requires |basic| == |inv| && Square(|inv|, inv) && |columns| == |flags| > 0 && BasisOK(basic, flags)
    requires forall j :: 0 <= j < |columns| ==> |columns[j]| == |inv|
    ensures Exact(NothingAdded(basic, flags, columns, inv, isDual), basic, flags, columns, inv)
  {
    hide Norm2;
    var edge := NothingAdded(basic, flags, columns, inv, isDual);
    if isDual {
      forall i | 0 <= i < |basic|
        ensures edge[basic[i]] == Norm2(inv[i])
      {
        assert flags[basic[i]];
      }
    }
  }

  /** The vector that has nothing stored is not exact after the exchange. */
  lemma NothingAddedFails(m: nat, basic: seq<nat>, flags: seq<bool>, columns: seq<Vector>, inv: seq<Vector>, w: Vector,
                          r: nat, q: nat, edge: Vector, isDual: bool)
    requires PivotData(m, basic, flags, columns, inv, w, r, q) && |basic| == |inv| == m && r < m && |w| == m
    requires w[r] != 0.0
    requires |edge| == |flags| == |columns| && q < |columns| && basic[r] < |columns| && Square(m, inv)
    requires isDual <==> edge[0] > 0.0
    requires edge[if isDual then q else basic[r]] == 0.0
    ensures !Exact(edge, basic[r := q], flags[basic[r] := false][q := true], columns, Pivoted(inv, w, r))
  {
    PivotDataParts(m, basic, flags, columns, inv, w, r, q);
    PivotedPositive(m, BasisColumns(columns, basic), inv, columns[q], w, r, r);
    BasisRange(m, basic, flags, columns, inv, w, r, q);
    hide PivotData, Inverse, Coordinates, Pivoted, BasisColumns, Norm2;
    var next, marks := Pivoted(inv, w, r), flags[basic[r] := false][q := true];
    if isDual {
      assert basic[r := q][r] == q;
    } else if PrimalExact(edge, marks, columns, next) {
      assert !marks[basic[r]];
      NormNonNegative(Solve(next, columns[basic[r]]));
    }
  }

  lemma BasisRange(m: nat, basic: seq<nat>, flags: seq<bool>, columns: seq<Vector>, inv: seq<Vector>, w: Vector, r: nat,
                   q: nat)
    requires PivotData(m, basic, flags, columns, inv, w, r, q)
    ensures r < |basic| && 1 <= basic[r] < |flags| && flags[basic[r]] && basic[r] != q && !flags[q] && 1 <= q < |flags|
  {
    hide Inverse, Solve;
  }

  /** When the norms stay exact: on a true basis the exchange keeps every exact price
      vector exact if and only if the pivot is not below the tolerance. */
  lemma KeepsExactIff(m: nat, basic: seq<nat>, flags: seq<bool>, columns: seq<Vector>, inv: seq<Vector>, r: nat, q: nat,
                      epspivot: real, isDual: bool)
    requires |basic| == |inv| == m && Square(m, inv) && r < m && 1 <= q < |columns| == |flags| && basic[r] < |columns|
    requires forall j :: 0 <= j < |columns| ==> |columns[j]| == m
    requires Solve(inv, columns[q])[r] != 0.0 && PivotData(m, basic, flags, columns, inv, Solve(inv, columns[q]), r, q)
    requires epspivot > 0.0
    ensures KeepsExact(basic, flags, columns, inv, r, q, epspivot, isDual)
       <==> Abs(Solve(inv, columns[q])[r]) >= epspivot
  {
    if Abs(Solve(inv, columns[q])[r]) >= epspivot {
      LargePivotKeeps(m, basic, flags, columns, inv, r, q, epspivot, isDual);
    } else {
      TinyPivotLoses(m, basic, flags, columns, inv, r, q, epspivot, isDual);
    }
  }

  lemma LargePivotKeeps(m: nat, basic: seq<nat>, flags: seq<bool>, columns: seq<Vector>, inv: seq<Vector>, r: nat,
                        q: nat, epspivot: real, isDual: bool)
    requires |basic| == |inv| == m && Square(m, inv) && r < m && 1 <= q < |columns| == |flags| && basic[r] < |columns|
    requires forall j :: 0 <= j < |columns| ==> |columns[j]| == m
    requires Solve(inv, columns[q])[r] != 0.0 && PivotData(m, basic, flags, columns, inv, Solve(inv, columns[q]), r, q)
    requires 0.0 < epspivot <= Abs(Solve(inv, columns[q])[r])
    ensures KeepsExact(basic, flags, columns, inv, r, q, epspivot, isDual)
  {
    var w := Solve(inv, columns[q]);
    PivotDataParts(m, basic, flags, columns, inv, w, r, q);
    hide PivotData, DualResult, PrimalResult, Inverse, Coordinates, Pivoted, Solve, BasisColumns, DualExact,
      PrimalExact;
    forall was, edge, refresh | Outcome(basic, flags, columns, inv, r, q, was, edge, epspivot, refresh)
        && Exact(was, basic, flags, columns, inv) && (isDual <==> was[0] > 0.0)
      ensures Exact(edge, basic[r := q], flags[basic[r] := false][q := true], columns, Pivoted(inv, w, r))
    {
      UpdateExact(m, basic, flags, columns, inv, w, r, q, was, edge, epspivot, refresh);
    }
  }

  lemma TinyPivotLoses(m: nat, basic: seq<nat>, flags: seq<bool>, columns: seq<Vector>, inv: seq<Vector>, r: nat,
                       q: nat, epspivot: real, isDual: bool)
    requires |basic| == |inv| == m && Square(m, inv) && r < m && 1 <= q < |columns| == |flags| && basic[r] < |columns|
    requires forall j :: 0 <= j < |columns| ==> |columns[j]| == m
    requires Solve(inv, columns[q])[r] != 0.0 && PivotData(m, basic, flags, columns, inv, Solve(inv, columns[q]), r, q)
    requires Abs(Solve(inv, columns[q])[r]) < epspivot
    ensures !KeepsExact(basic, flags, columns, inv, r, q, epspivot, isDual)
  {
    var w := Solve(inv, columns[q]);
    BasisRange(m, basic, flags, columns, inv, w, r, q);
    assert BasisOK(basic, flags) by { hide Inverse; }
    hide Inverse, Coordinates, PivotData, Pivoted, BasisColumns, Dot, DualExact, PrimalExact, DualUpdated,
      PrimalUpdated, Exact, BasisOK;
    var edge := NothingAdded(basic, flags, columns, inv, isDual);
    NothingAddedExact(basic, flags, columns, inv, isDual);
    assert Outcome(basic, flags, columns, inv, r, q, edge, edge, epspivot, true);
    NothingAddedFails(m, basic, flags, columns, inv, w, r, q, edge, isDual);
  }

  /** The kind of simplex a restart is asked for. */
  datatype Simplex = PRIMAL | DUAL | AUTOMATIC

  class Pricer {
    const rows: nat
    const columns: seq<Vector>
    const trueNorms: bool
    const epspivot: real
    const isBasic: array<bool>
    const varBasic: array<nat>
    const edgeVector: array<real>

    /** A price vector that is not initialised yet (resizePricer), for a basis given by its
        variables. */
    constructor (columns: seq<Vector>, basic: seq<nat>, flags: seq<bool>, trueNorms: bool, epspivot: real)
      requires |flags| == |columns| > 0 && epspivot > 0.0 && BasisOK(basic, flags)
      requires forall j :: 0 <= j < |columns| ==> |columns[j]| == |basic|
      ensures Valid() && rows == |basic| && this.columns == columns && this.trueNorms == trueNorms
      ensures this.epspivot == epspivot
      ensures varBasic[..] == basic && isBasic[..] == flags
      ensures edgeVector[0] == -1.0 && forall j :: 1 <= j < edgeVector.Length ==> edgeVector[j] == 0.0
      ensures fresh(isBasic) && fresh(varBasic) && fresh(edgeVector)
    {
      rows := |basic|;
      this.columns, this.trueNorms, this.epspivot := columns, trueNorms, epspivot;
      isBasic := new bool[|flags|](i requires 0 <= i < |flags| => flags[i]);
      varBasic := new nat[|basic|](i requires 0 <= i < |basic| => basic[i]);
      edgeVector := new real[|columns|](_ => 0.0);
      new;
      edgeVector[0] := -1.0;
      assert varBasic[..] == basic && isBasic[..] == flags;
    }

    ghost predicate Valid()
      reads isBasic, varBasic
    {
      && isBasic.Length == edgeVector.Length == |columns| > 0 && varBasic.Length == rows && epspivot > 0.0
      && (forall j :: 0 <= j < |columns| ==> |columns[j]| == rows)
      && BasisOK(varBasic[..], isBasic[..])
    }

    /** restartPricer, with inv[i] for what bsolve returns for row i and Solve(inv, a) for
        what fsolve returns for column a.  AUTOMATIC keeps the stored kind of simplex; the
        DEVEX flag the source works out here is not used for anything. */
    method RestartPricer(kind: Simplex, inv: seq<Vector>) returns (isDual: bool)
      requires Valid() && Square(rows, inv) && (kind == AUTOMATIC ==> edgeVector[0] >= 0.0)
      modifies edgeVector
      ensures isDual == if kind == AUTOMATIC then old(edgeVector[0]) > 0.0 else kind == DUAL
      ensures edgeVector[0] == if kind == AUTOMATIC then old(edgeVector[0]) else if isDual then 1.0 else 0.0
      ensures trueNorms ==> Exact(edgeVector[..], varBasic[..], isBasic[..], columns, inv)
      ensures !trueNorms && isDual ==> forall i :: 0 <= i < rows ==> edgeVector[varBasic[i]] == 1.0
      ensures !trueNorms && !isDual ==>
                forall j :: 1 <= j < edgeVector.Length && !isBasic[j] ==> edgeVector[j] == 1.0
      ensures isDual ==> forall i :: 0 <= i < rows ==>
                1 <= varBasic[i] < edgeVector.Length
                && edgeVector[varBasic[i]] == (if trueNorms then Norm2(inv[i]) else 1.0)
      ensures isDual ==> forall j :: 1 <= j < edgeVector.Length && !isBasic[j] ==> edgeVector[j] == old(edgeVector[j])
      ensures !isDual ==> forall j :: 1 <= j < edgeVector.Length ==>
                edgeVector[j] == if isBasic[j] then old(edgeVector[j])
                  else if trueNorms then 1.0 + Norm2(Solve(inv, columns[j])) else 1.0
    {
      hide Norm2, Dot;
      if kind == AUTOMATIC {
        isDual := edgeVector[0] > 0.0;
      } else {
        isDual := kind == DUAL;
        edgeVector[0] := if isDual then 1.0 else 0.0;
      }
      if isDual {
        RestartDual(inv);
      } else {
        RestartPrimal(inv);
      }
    }

    /** The squared norms of the rows of the basis inverse, for the basic variables. */
    method RestartDual(inv: seq<Vector>)
      requires Valid() && Square(rows, inv)
      modifies edgeVector
      ensures edgeVector[0] == old(edgeVector[0])
      ensures forall i :: 0 <= i < rows ==>
                1 <= varBasic[i] < edgeVector.Length
                && edgeVector[varBasic[i]] == (if trueNorms then Norm2(inv[i]) else 1.0)
      ensures forall j :: 1 <= j < edgeVector.Length && !isBasic[j] ==> edgeVector[j] == old(edgeVector[j])
    {
      hide Norm2, Dot;
      for i := 0 to rows
        invariant edgeVector[0] == old(edgeVector[0])
        invariant forall k :: 0 <= k < i ==>
                  1 <= varBasic[k] < edgeVector.Length
                  && edgeVector[varBasic[k]] == (if trueNorms then Norm2(inv[k]) else 1.0)
        invariant forall j :: 1 <= j < edgeVector.Length && !isBasic[j] ==> edgeVector[j] == old(edgeVector[j])
      {
        var norm := 1.0;
        if trueNorms {
          norm := SquaredNorm(0.0, inv[i]);
        }
        assert isBasic[..][varBasic[..][i]];
        edgeVector[varBasic[i]] := norm;
        assert forall k :: 0 <= k < i ==> varBasic[..][k] != varBasic[..][i];
      }
    }

    /** One plus the squared norms of the transformed columns, for the non-basic variables. */
    method RestartPrimal(inv: seq<Vector>)
      requires Valid() && Square(rows, inv)
      modifies edgeVector
      ensures edgeVector[0] == old(edgeVector[0])
      ensures forall j :: 1 <= j < edgeVector.Length ==>
                edgeVector[j] == if isBasic[j] then old(edgeVector[j])
                  else if trueNorms then 1.0 + Norm2(Solve(inv, columns[j])) else 1.0
    {
      hide Norm2, Dot;
      for j := 1 to edgeVector.Length
        invariant edgeVector[0] == old(edgeVector[0])
        invariant forall k :: 1 <= k < edgeVector.Length ==>
                    edgeVector[k] == if isBasic[k] || k >= j then old(edgeVector[k])
                      else if trueNorms then 1.0 + Norm2(Solve(inv, columns[k])) else 1.0
      {
        if !isBasic[j] {
          var norm := 1.0;
          if trueNorms {
            norm := SquaredNorm(1.0, Solve(inv, columns[j]));
          }
          edgeVector[j] := norm;
        }
      }
    }

    /** The dual branch of updatePricer. */
    method UpdateDual(r: nat, q: nat, w: Vector, tau: Vector) returns (refresh: bool)
      requires Valid() && r < rows && 1 <= q < |columns| && !isBasic[q] && |w| == |tau| == rows
      modifies edgeVector
      ensures refresh <==> Abs(w[r]) < epspivot || InvalidDual(old(edgeVector[..]), varBasic[..], r, w, tau, rows)
      ensures !refresh ==> DualUpdated(old(edgeVector[..]), edgeVector[..], varBasic[..], r, q, w, tau, rows)
      ensures edgeVector[0] == old(edgeVector[0])
      ensures Abs(w[r]) < epspivot ==> edgeVector[..] == old(edgeVector[..])
    {
      ghost var was, basic := edgeVector[..], varBasic[..];
      refresh := false;
      var cEdge := edgeVector[varBasic[r]];
      var rw := w[r];
      if Abs(rw) < epspivot {
        return true;
      }
      var hold := 1.0 / rw;
      edgeVector[q] := Mul(hold, Mul(hold, cEdge));
      DualStart(was, basic, r, q, w, tau);
      for i := 0 to rows
        invariant !refresh && DualUpdated(was, edgeVector[..], basic, r, q, w, tau, i)
        invariant !InvalidDual(was, basic, r, w, tau, i)
        invariant edgeVector[0] == was[0]
      {
        if i == r || w[i] == 0.0 {
          DualSkip(was, edgeVector[..], basic, r, q, w, tau, i);
          continue;
        }
        hold := w[i] / rw;
        var j := varBasic[i];
        DualStep(was, edgeVector[..], basic, r, q, w, tau, i);
        var norm := UpdateNorm(edgeVector[j], hold, tau[i], cEdge);
        edgeVector[j] := norm;
        if norm <= 0.0 {
          return true;
        }
      }
    }

    /** The primal branch of updatePricer. */
    method UpdatePrimal(r: nat, q: nat, alpha: Vector, cross: Vector) returns (refresh: bool)
      requires Valid() && r < rows && 1 <= q < |columns| && !isBasic[q] && |alpha| == |cross| == |columns|
      modifies edgeVector
      ensures refresh <==> Abs(alpha[q]) < epspivot
      ensures !refresh ==>
                PrimalUpdated(old(edgeVector[..]), edgeVector[..], isBasic[..], varBasic[r], q, alpha, cross, |columns|)
      ensures refresh ==> edgeVector[..] == old(edgeVector[..])
      ensures edgeVector[0] == old(edgeVector[0])
    {
      ghost var was, flags := edgeVector[..], isBasic[..];
      var leaving := varBasic[r];
      assert flags[varBasic[..][r]];
      var cEdge := edgeVector[q];
      var cAlpha := alpha[q];
      if Abs(cAlpha) < epspivot {
        return true;
      }
      refresh := false;
      var hold := 1.0 / cAlpha;
      edgeVector[leaving] := Mul(hold, Mul(hold, cEdge));
      PrimalStart(was, flags, leaving, q, alpha, cross);
      for i := 1 to |columns|
        invariant PrimalUpdated(was, edgeVector[..], flags, leaving, q, alpha, cross, i)
        invariant edgeVector[0] == was[0]
      {
        if isBasic[i] || i == q || alpha[i] == 0.0 {
          PrimalSkip(was, edgeVector[..], flags, leaving, q, alpha, cross, i);
          continue;
        }
        hold := alpha[i] / cAlpha;
        PrimalStep(was, edgeVector[..], flags, leaving, q, alpha, cross, i);
        var norm := UpdateNorm(edgeVector[i], hold, cross[i], cEdge);
        edgeVector[i] := Max(norm, Mul(hold, hold) + 1.0);
      }
    }

    /** updatePricer, for variable q entering at row r of the basis with inverse `inv`.
        Column q has been solved for (pcol) and row r of the inverse extracted (prow). */
    method UpdatePricer(r: nat, q: nat, inv: seq<Vector>) returns (refresh: bool)
      requires Valid() && Square(rows, inv) && r < rows && 1 <= q < |columns| && !isBasic[q]
      modifies edgeVector
      ensures edgeVector[0] == old(edgeVector[0])
      ensures old(edgeVector[0]) < 0.0 ==> !refresh && edgeVector[..] == old(edgeVector[..])
      ensures old(edgeVector[0]) > 0.0 ==>
                DualResult(old(edgeVector[..]), edgeVector[..], varBasic[..], columns, inv, r, q, epspivot, refresh)
      ensures old(edgeVector[0]) == 0.0 ==>
                PrimalResult(old(edgeVector[..]), edgeVector[..], isBasic[..], varBasic[r], columns, inv, r, q,
                  epspivot, refresh)
      ensures refresh && trueNorms ==>
                if edgeVector[0] > 0.0 then DualExact(edgeVector[..], varBasic[..], inv)
                else PrimalExact(edgeVector[..], isBasic[..], columns, inv)
      ensures Abs(Solve(inv, columns[q])[r]) < epspivot ==>
                if edgeVector[0] > 0.0 then edgeVector[q] == old(edgeVector[q])
                else edgeVector[varBasic[r]] == old(edgeVector[varBasic[r]])
    {
      var kind := edgeVector[0];
      if kind < 0.0 {
        return false;
      }
      var w := Solve(inv, columns[q]);
      if kind > 0.0 {
        var tau := Solve(inv, inv[r]);
        refresh := UpdateDual(r, q, w, tau);
      } else {
        var cross := ProdXA(columns, isBasic[..], BackSolve(inv, w, rows));
        var alpha := ProdXA(columns, isBasic[..], inv[r]);
        refresh := UpdatePrimal(r, q, alpha, cross);
      }
      assert isBasic[..][varBasic[..][r]];
      if refresh {
        var isDual := RestartPricer(AUTOMATIC, inv);
      }
    }

    /** The part of performiteration that changes the basis: the price vector is updated,
        then q takes the place of the variable at row r.  A pivot below the tolerance makes
        updatePricer recompute, and that is for the basis before the exchange. */
    method Pivot(r: nat, q: nat, inv: seq<Vector>) returns (refresh: bool)
      requires Valid() && Square(rows, inv) && r < rows && 1 <= q < |columns| && !isBasic[q]
      requires Inverse(rows, Basis(), inv) && Exact(edgeVector[..], varBasic[..], isBasic[..], columns, inv)
      modifies edgeVector, varBasic, isBasic
      ensures Valid() && edgeVector[0] == old(edgeVector[0])
      ensures varBasic[..] == old(varBasic[..])[r := q]
      ensures isBasic[..] == old(isBasic[..])[old(varBasic[r]) := false][q := true]
      ensures refresh <==> Abs(Solve(inv, columns[q])[r]) < epspivot
      ensures !refresh ==>
                Solve(inv, columns[q])[r] != 0.0 && Inverse(rows, Basis(), Pivoted(inv, Solve(inv, columns[q]), r))
      ensures !refresh ==> ExactForBasis(rows, edgeVector[..], varBasic[..], isBasic[..], columns)
      ensures trueNorms ==>
                Outcome(old(varBasic[..]), old(isBasic[..]), columns, inv, r, q, old(edgeVector[..]), edgeVector[..],
                  epspivot, refresh)
      ensures refresh ==> var added := if edgeVector[0] > 0.0 then q else old(varBasic[r]);
                edgeVector[added] == old(edgeVector[added])
    {
      ghost var w, was, basic, flags := Solve(inv, columns[q]), edgeVector[..], varBasic[..], isBasic[..];
      BasisExchange(basic, flags, r, q);
      ghost var tiny := Abs(w[r]) < epspivot;
      if !tiny {
        assert PivotData(rows, basic, flags, columns, inv, w, r, q);
        PivotDataParts(rows, basic, flags, columns, inv, w, r, q);
      }
      KindKnown(was, basic, flags, inv);
      hide Inverse, Coordinates, PivotData, Exact, ExactForBasis, DualResult, PrimalResult, DualExact, PrimalExact,
           BasisOK, BasisColumns, Pivoted, Solve, Square;
      refresh := UpdatePricer(r, q, inv);
      if tiny {
        TinyRefreshes(was, edgeVector[..], basic, flags, inv, r, q, refresh);
      } else {
        UpdateExact(rows, basic, flags, columns, inv, w, r, q, was, edgeVector[..], epspivot, refresh);
      }
      var leaving := varBasic[r];
      varBasic[r] := q;
      isBasic[leaving] := false;
      isBasic[q] := true;
    }

    lemma KindKnown(edge: Vector, basic: seq<nat>, flags: seq<bool>, inv: seq<Vector>)
      requires Exact(edge, basic, flags, columns, inv)
      ensures |edge| > 0 && edge[0] >= 0.0
    {
    }

    lemma TinyRefreshes(was: Vector, edge: Vector, basic: seq<nat>, flags: seq<bool>, inv: seq<Vector>, r: nat, q: nat,
                        refresh: bool)
      requires |basic| == |inv| == rows && Square(rows, inv) && r < rows && 1 <= q < |columns| == |flags| && !flags[q]
      requires forall j :: 0 <= j < |columns| ==> |columns[j]| == rows
      requires Abs(Solve(inv, columns[q])[r]) < epspivot && 0 < |was| == |edge| && edge[0] == was[0] >= 0.0
      requires basic[r] < |columns|
      requires was[0] > 0.0 ==> DualResult(was, edge, basic, columns, inv, r, q, epspivot, refresh)
      requires was[0] == 0.0 ==> PrimalResult(was, edge, flags, basic[r], columns, inv, r, q, epspivot, refresh)
      ensures refresh
      ensures trueNorms
                && (if edge[0] > 0.0 then DualExact(edge, basic, inv) else PrimalExact(edge, flags, columns, inv)) ==>
                Exact(edge, basic, flags, columns, inv)
    {
      hide InvalidDual, DualUpdated, PrimalUpdated, DualExact, PrimalExact, Dot;
    }

    lemma BasisIs()
      requires Valid()
      ensures Basis() == BasisColumns(columns, varBasic[..])
    {
    }

    ghost function Basis(): seq<Vector>
      requires Valid()
      reads varBasic, isBasic
    {
      BasisColumns(columns, varBasic[..])
    }
  }

  /** prod_xA over the non-basic columns: the products with v, zero elsewhere. */
  function ProdXA(columns: seq<Vector>, flags: seq<bool>, v: Vector): (x: Vector)
    requires |columns| == |flags| && forall j :: 0 <= j < |columns| ==> |columns[j]| == |v|
    ensures |x| == |columns|
    ensures forall j :: 0 <= j < |x| ==> x[j] == if j > 0 && !flags[j] then Dot(v, columns[j], |v|) else 0.0
  {
    seq(|columns|, j requires 0 <= j < |columns| => if j > 0 && !flags[j] then Dot(v, columns[j], |v|) else 0.0)
  }

  // ----- a refresh in the middle of a basis change -----

  /** A basis of one row. */
  lemma OneByOne(c: real)
    requires c != 0.0
    ensures Inverse(1, [[c]], [[1.0 / c]])
  {
    var cols, inv := [[c]], [[1.0 / c]];
    Reciprocal(1.0, c);
    assert Dot(inv[0], cols[0], 1) == Dot(inv[0], cols[0], 0) + Mul(1.0 / c, c);
    hide Mul;
    forall v: Vector, t | |v| == 1 && 0 <= t < 1
      ensures v[t] == Combine(Products(v, cols), inv, t, 1)
    {
      var d := Products(v, cols);
      assert Dot(v, cols[0], 1) == Dot(v, cols[0], 0) + Mul(v[0], c);
      assert Combine(d, inv, t, 1) == Combine(d, inv, t, 0) + Mul(d[0], inv[0][t]);
      Reciprocal(v[0], c);
    }
  }

  lemma Reciprocal(x: real, c: real)
    requires c != 0.0
    ensures Mul(Mul(x, c), 1.0 / c) == x && Mul(1.0 / c, c) == 1.0
  {
  }

  /** With a pivot below the tolerance the exchange leaves wrong norms: one row, the entering
      column a quarter of the leaving one, and the tolerance a half.  The refresh gives the
      leaving variable its old norm, and the entering one keeps what it had, here nothing,
      instead of 16. */
  method RefreshLeavesWrongNorms() returns (p: Pricer, refresh: bool)
    ensures p.Valid() && refresh && p.varBasic[..] == [2]
    ensures Inverse(1, p.Basis(), [[4.0]])
    ensures !Exact(p.edgeVector[..], p.varBasic[..], p.isBasic[..], p.columns, [[4.0]])
  {
    hide *;
    var columns: seq<Vector> := [[0.0], [1.0], [0.25]];
    var basic, flags := [1], [false, true, false];
    OneRowBasis(columns, basic, flags);
    p := new Pricer(columns, basic, flags, true, 0.5);
    var isDual := p.RestartPricer(DUAL, [[1.0]]);
    SmallPivot();
    assert p.Basis() == BasisColumns(columns, [1]) by { p.BasisIs(); }
    refresh := p.Pivot(0, 2, [[1.0]]);
    p.BasisIs();
    NotExact(p.edgeVector[..], p.isBasic[..], columns);
  }

  lemma OneRowBasis(columns: seq<Vector>, basic: seq<nat>, flags: seq<bool>)
    requires columns == [[0.0], [1.0], [0.25]] && basic == [1] && flags == [false, true, false]
    ensures BasisOK(basic, flags) && Square(1, [[1.0]])
    ensures Inverse(1, BasisColumns(columns, [1]), [[1.0]]) && Inverse(1, BasisColumns(columns, [2]), [[4.0]])
  {
    hide Inverse, Dot;
    assert flags[basic[0]];
    OneByOne(1.0);
    OneByOne(0.25);
    assert 1.0 / 0.25 == 4.0 && 1.0 / 1.0 == 1.0;
    assert BasisColumns(columns, [1]) == [[1.0]] && BasisColumns(columns, [2]) == [[0.25]];
  }

  lemma NotExact(edge: Vector, flags: seq<bool>, columns: seq<Vector>)
    requires |edge| == |columns| == |flags| == 3 && edge[0] > 0.0 && edge[2] == 0.0
    requires forall j :: 0 <= j < 3 ==> |columns[j]| == 1
    ensures !Exact(edge, [2], flags, columns, [[4.0]])
  {
    hide Dot;
    SixteenExpected();
    var basic, inv := [2], [[4.0]];
    assert basic[0] == 2 && inv[0] == [4.0];
    assert edge[basic[0]] != Norm2(inv[0]);
  }

  lemma SmallPivot()
    ensures Solve([[1.0]], [0.25])[0] == 0.25 && Abs(0.25) < 0.5
  {
    assert Dot([1.0], [0.25], 1) == Dot([1.0], [0.25], 0) + Mul(1.0, 0.25);
  }

  lemma SixteenExpected()
    ensures Norm2([4.0]) == 16.0
  {
    assert Dot([4.0], [4.0], 1) == Dot([4.0], [4.0], 0) + Mul(4.0, 4.0);
  }
}
