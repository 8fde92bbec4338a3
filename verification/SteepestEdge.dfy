/** The steepest edge pricer of lp_pricePSE.c in exact arithmetic, without the DEVEX
    approximation: recomputing the norms from the basis inverse (restartPricer) and
    updating them after a basis change (updatePricer) give the same numbers. */
module SteepestEdge {
  import opened LinearAlgebra

  // ----- the inverse of the basis after a pivot -----

  /** How much of row r leaves row i of the inverse when column r of the basis is
      replaced by a column with coordinates w in the old basis. */
  function Gain(w: Vector, r: nat, i: nat): real
    requires i < |w| && r < |w| && w[r] != 0.0
  {
    if i == r then 1.0 - 1.0 / w[r] else w[i] / w[r]
  }

  lemma GainCancels(w: Vector, r: nat, i: nat)
    requires i < |w| && r < |w| && w[r] != 0.0
    ensures Mul(w[r], Gain(w, r, i)) == w[i] - Delta(i, r)
  {
  }

  function PivotedRow(inv: seq<Vector>, w: Vector, r: nat, i: nat): (row: Vector)
    requires i < |inv| == |w| && r < |inv| && w[r] != 0.0 && |inv[i]| == |inv[r]|
    ensures |row| == |inv[r]|
    ensures forall t :: 0 <= t < |row| ==> row[t] == inv[i][t] - Mul(Gain(w, r, i), inv[r][t])
  {
    seq(|inv[r]|, t requires 0 <= t < |inv[r]| => inv[i][t] - Mul(Gain(w, r, i), inv[r][t]))
  }

  function Pivoted(inv: seq<Vector>, w: Vector, r: nat): (next: seq<Vector>)
    requires r < |inv| == |w| && w[r] != 0.0
    requires forall i :: 0 <= i < |inv| ==> |inv[i]| == |inv[r]|
    ensures |next| == |inv|
    ensures forall i :: 0 <= i < |inv| ==> next[i] == PivotedRow(inv, w, r, i)
  {
    seq(|inv|, i requires 0 <= i < |inv| => PivotedRow(inv, w, r, i))
  }

  /** The coordinates of column a in the basis. */
  ghost predicate Coordinates(m: nat, inv: seq<Vector>, a: Vector, w: Vector) {
    |a| == |w| == |inv| == m && forall i :: 0 <= i < m ==> |inv[i]| == m && w[i] == Dot(inv[i], a, m)
  }

  /** The coordinates of a column after the pivot. */
  lemma PivotedDot(m: nat, inv: seq<Vector>, w: Vector, r: nat, i: nat, a: Vector)
    requires Square(m, inv) && |w| == |a| == m && r < m && i < m && w[r] != 0.0
    ensures Dot(PivotedRow(inv, w, r, i), a, m) == Dot(inv[i], a, m) - Mul(Gain(w, r, i), Dot(inv[r], a, m))
  {
    hide Dot, Gain, Mul, PivotedRow;
    var g := Gain(w, r, i);
    forall t | 0 <= t < m
      ensures PivotedRow(inv, w, r, i)[t] == inv[i][t] + Mul(-g, inv[r][t])
    {
      Negate(g, inv[r][t]);
    }
    DotLinear(PivotedRow(inv, w, r, i), inv[i], -g, inv[r], a, m);
    Negate(g, Dot(inv[r], a, m));
  }

  lemma Commute(x: real, y: real)
    ensures Mul(x, y) == Mul(y, x)
  {
  }

  lemma TimesZero(x: real)
    ensures Mul(x, 0.0) == 0.0
  {
  }

  lemma InverseSquare(m: nat, cols: seq<Vector>, inv: seq<Vector>)
    requires Inverse(m, cols, inv)
    ensures Square(m, cols) && Square(m, inv)
  {
  }

  /** What the rows of the old inverse give on the columns of the new basis. */
  lemma NewColumns(m: nat, cols: seq<Vector>, inv: seq<Vector>, a: Vector, w: Vector, r: nat, i: nat, k: nat)
    requires Inverse(m, cols, inv) && Coordinates(m, inv, a, w) && r < m && i < m && k < m
    ensures Square(m, inv) && |cols| == m && |cols[r := a][k]| == m && |w| == m
    ensures Dot(inv[i], cols[r := a][k], m) == if k == r then w[i] else Delta(i, k)
  {
    hide Dot, Delta;
  }

  /** The pivoted rows are a left inverse of the new basis. */
  lemma PivotedLeftInverse(m: nat, cols: seq<Vector>, inv: seq<Vector>, a: Vector, w: Vector, r: nat, i: nat, k: nat)
    requires Inverse(m, cols, inv) && Coordinates(m, inv, a, w) && r < m && w[r] != 0.0 && i < m && k < m
    requires Square(m, inv) && Square(m, cols[r := a])
    ensures Dot(PivotedRow(inv, w, r, i), cols[r := a][k], m) == Delta(i, k)
  {
    var column := cols[r := a][k];
    NewColumns(m, cols, inv, a, w, r, i, k);
    NewColumns(m, cols, inv, a, w, r, r, k);
    hide Dot, Inverse, Coordinates, PivotedRow, Gain, Mul;
    PivotedDot(m, inv, w, r, i, column);
    GainCancels(w, r, i);
    Commute(Gain(w, r, i), w[r]);
    TimesZero(Gain(w, r, i));
  }

  /** Every row vector is the combination of the pivoted rows that its products with
      the new columns give. */
  lemma PivotedComplete(m: nat, cols: seq<Vector>, inv: seq<Vector>, a: Vector, w: Vector, r: nat, v: Vector, t: nat)
    requires Inverse(m, cols, inv) && Coordinates(m, inv, a, w) && r < m && w[r] != 0.0
    requires |v| == m && t < m
    requires Square(m, cols[r := a]) && Square(m, Pivoted(inv, w, r))
    ensures v[t] == Combine(Products(v, cols[r := a]), Pivoted(inv, w, r), t, m)
  {
    InverseParts(m, cols, inv, v, t);
    var c, e, next := Products(v, cols), Products(v, cols[r := a]), Pivoted(inv, w, r);
    DotOfExpansion(m, cols, inv, a, w, v);
    CoordinatesLength(m, inv, a, w);
    hide *;
    NewProducts(m, cols, a, r, v);
    PivotedElements(m, inv, w, r, t);
    CombinePivoted(m, c, e, inv, next, w, r, t);
  }

  lemma CoordinatesLength(m: nat, inv: seq<Vector>, a: Vector, w: Vector)
    requires Coordinates(m, inv, a, w)
    ensures |a| == |w| == m
  {
  }

  lemma NewProducts(m: nat, cols: seq<Vector>, a: Vector, r: nat, v: Vector)
    requires |v| == |a| == m && r < m && Square(m, cols) && Square(m, cols[r := a])
    ensures Products(v, cols[r := a])[r] == Dot(v, a, m)
    ensures forall k :: 0 <= k < m && k != r ==> Products(v, cols[r := a])[k] == Products(v, cols)[k]
  {
    hide Dot;
  }

  lemma PivotedElements(m: nat, inv: seq<Vector>, w: Vector, r: nat, t: nat)
    requires r < m && t < m && |w| == m && w[r] != 0.0 && Square(m, inv)
    ensures |Pivoted(inv, w, r)| == m
    ensures forall k :: 0 <= k < m ==> |inv[k]| == m && |Pivoted(inv, w, r)[k]| == m
    ensures forall k :: 0 <= k < m ==> Pivoted(inv, w, r)[k][t] == inv[k][t] - Mul(Gain(w, r, k), inv[r][t])
  {
    hide Gain, Mul;
  }

  function Gains(w: Vector, r: nat): (g: Vector)
    requires r < |w| && w[r] != 0.0
    ensures |g| == |w| && forall k :: 0 <= k < |w| ==> g[k] == Gain(w, r, k)
  {
    seq(|w|, k requires 0 <= k < |w| => Gain(w, r, k))
  }

  lemma CombinePivoted(m: nat, c: Vector, e: Vector, inv: seq<Vector>, next: seq<Vector>, w: Vector, r: nat, t: nat)
    requires |c| == |e| == |w| == |inv| == |next| == m && r < m && t < m && w[r] != 0.0
    requires forall k :: 0 <= k < m ==> |inv[k]| == m && |next[k]| == m
    requires forall k :: 0 <= k < m ==> next[k][t] == inv[k][t] - Mul(Gain(w, r, k), inv[r][t])
    requires forall k :: 0 <= k < m && k != r ==> e[k] == c[k]
    requires e[r] == Dot(c, w, m)
    ensures Combine(e, next, t, m) == Combine(c, inv, t, m)
  {
    var y := inv[r][t];
    hide Combine, Dot, Gain, Mul, Square;
    ProductWithGain(e, c, w, Gains(w, r), r, m);
    assert forall k :: 0 <= k < m ==> Gains(w, r)[k] == Gain(w, r, k);
    CombineShifted(e, inv, Gains(w, r), y, next, t, m);
    CombineChange(e, c, inv, r, t, m);
  }

  lemma InverseParts(m: nat, cols: seq<Vector>, inv: seq<Vector>, v: Vector, t: nat)
    requires Inverse(m, cols, inv) && |v| == m && t < m
    ensures Square(m, cols) && Square(m, inv) && v[t] == Combine(Products(v, cols), inv, t, m)
  {
  }

  /** v.a computed through the expansion of v. */
  lemma DotOfExpansion(m: nat, cols: seq<Vector>, inv: seq<Vector>, a: Vector, w: Vector, v: Vector)
    requires Inverse(m, cols, inv) && Coordinates(m, inv, a, w) && |v| == m
    ensures Dot(v, a, m) == Dot(Products(v, cols), w, m)
  {
    DotCombine(v, Products(v, cols), inv, a, w, m, m);
  }

  /** The gains of the rows add up to the change of coefficient r. */
  lemma ProductWithGain(e: Vector, c: Vector, w: Vector, g: Vector, r: nat, m: nat)
    requires |e| == |c| == |w| == |g| == m && r < m && w[r] != 0.0
    requires forall k :: 0 <= k < m ==> (k != r ==> e[k] == c[k]) && g[k] == Gain(w, r, k)
    requires e[r] == Dot(c, w, m)
    ensures Dot(e, g, m) == e[r] - c[r]
  {
    hide *;
    var u := Lowered(w, r);
    ScaledGains(w, g, r);
    DotScaled(u, w[r], g, e, m);
    DotChange(u, w, e, r, m);
    DotSymmetric(g, e, m);
    DotSymmetric(w, e, m);
    DotChange(e, c, w, r, m);
    GainArithmetic(Dot(e, g, m), Dot(u, e, m), Dot(e, w, m), e[r], c[r], w[r], u[r]);
  }

  /** w with element r less by one. */
  function Lowered(w: Vector, r: nat): (u: Vector)
    ensures |u| == |w| && forall k :: 0 <= k < |w| ==> u[k] == w[k] - Delta(k, r)
  {
    seq(|w|, k requires 0 <= k < |w| => w[k] - Delta(k, r))
  }

  lemma ScaledGains(w: Vector, g: Vector, r: nat)
    requires |g| == |w| && r < |w| && w[r] != 0.0
    requires forall k :: 0 <= k < |w| ==> g[k] == Gain(w, r, k)
    ensures forall k :: 0 <= k < |w| ==> Lowered(w, r)[k] == Mul(w[r], g[k])
    ensures Lowered(w, r)[r] == w[r] - 1.0
    ensures forall k :: 0 <= k < |w| && k != r ==> Lowered(w, r)[k] == w[k]
  {
    hide Gain, Mul;
    forall k | 0 <= k < |w|
      ensures Lowered(w, r)[k] == Mul(w[r], g[k])
    {
      GainCancels(w, r, k);
    }
  }

  lemma GainArithmetic(eg: real, ue: real, ew: real, er: real, cr: real, wr: real, ur: real)
    requires wr != 0.0 && ur == wr - 1.0
    requires ew == er + Mul(er - cr, wr) && ue == ew + Mul(ur - wr, er) && ue == Mul(wr, eg)
    ensures eg == er - cr
  {
    assert wr * eg == wr * (er - cr);
  }

  lemma PivotedSquare(m: nat, cols: seq<Vector>, inv: seq<Vector>, a: Vector, w: Vector, r: nat)
    requires Inverse(m, cols, inv) && Coordinates(m, inv, a, w) && r < m && w[r] != 0.0
    ensures Square(m, cols[r := a]) && Square(m, Pivoted(inv, w, r))
  {
    InverseSquare(m, cols, inv);
    hide Inverse, PivotedRow;
  }

  lemma PivotedAt(m: nat, inv: seq<Vector>, w: Vector, r: nat, i: nat)
    requires r < m && i < m && |w| == m && w[r] != 0.0 && Square(m, inv)
    ensures |inv| == m && |inv[i]| == |inv[r]| && |Pivoted(inv, w, r)| == m
    ensures Pivoted(inv, w, r)[i] == PivotedRow(inv, w, r, i)
  {
    hide PivotedRow;
  }

  lemma PivotedLeft(m: nat, cols: seq<Vector>, inv: seq<Vector>, a: Vector, w: Vector, r: nat)
    requires Inverse(m, cols, inv) && Coordinates(m, inv, a, w) && r < m && w[r] != 0.0
    requires Square(m, inv) && Square(m, cols[r := a]) && Square(m, Pivoted(inv, w, r))
    ensures LeftInverse(m, cols[r := a], Pivoted(inv, w, r))
  {
    var next, columns := Pivoted(inv, w, r), cols[r := a];
    hide Inverse, Dot, PivotedRow, Coordinates, Delta;
    forall i, k | 0 <= i < m && 0 <= k < m
      ensures Dot(next[i], columns[k], m) == Delta(i, k)
    {
      hide *;
      PivotedLeftInverse(m, cols, inv, a, w, r, i, k);
      PivotedAt(m, inv, w, r, i);
    }
  }

  lemma PivotedSpans(m: nat, cols: seq<Vector>, inv: seq<Vector>, a: Vector, w: Vector, r: nat)
    requires Inverse(m, cols, inv) && Coordinates(m, inv, a, w) && r < m && w[r] != 0.0
    requires Square(m, inv) && Square(m, cols[r := a]) && Square(m, Pivoted(inv, w, r))
    ensures Spans(m, cols[r := a], Pivoted(inv, w, r))
  {
    var next, columns := Pivoted(inv, w, r), cols[r := a];
    hide Inverse, Dot, Combine, PivotedRow, Coordinates, Pivoted, Products;
    forall v: Vector, t | |v| == m && 0 <= t < m
      ensures v[t] == Combine(Products(v, columns), next, t, m)
    {
      PivotedComplete(m, cols, inv, a, w, r, v, t);
    }
  }

  /** Replacing column r of the basis by a column with coordinates w, w[r] not zero,
      leaves a basis, and its inverse is the pivoted one. */
  lemma PivotedInverse(m: nat, cols: seq<Vector>, inv: seq<Vector>, a: Vector, w: Vector, r: nat)
    requires Inverse(m, cols, inv) && Coordinates(m, inv, a, w) && r < m && w[r] != 0.0
    ensures Inverse(m, cols[r := a], Pivoted(inv, w, r))
  {
    InverseSquare(m, cols, inv);
    PivotedSquare(m, cols, inv, a, w, r);
    PivotedLeft(m, cols, inv, a, w, r);
    PivotedSpans(m, cols, inv, a, w, r);
    hide LeftInverse, Spans, Pivoted;
  }

  lemma {:induction false} CombineUnit(c: Vector, rows: seq<Vector>, i: nat, t: nat, n: nat)
    requires n <= |c| && n <= |rows| && forall k :: 0 <= k < n ==> t < |rows[k]| && c[k] == Delta(i, k)
    ensures Combine(c, rows, t, n) == if i < n then rows[i][t] else 0.0
  {
    if n > 0 {
      CombineUnit(c, rows, i, t, n - 1);
    }
  }

  /** A basis has one inverse: what bsolve returns for row i is determined. */
  lemma InverseUnique(m: nat, cols: seq<Vector>, inv: seq<Vector>, other: seq<Vector>)
    requires Inverse(m, cols, inv) && Square(m, other)
    requires forall i, k :: 0 <= i < m && 0 <= k < m ==> Dot(other[i], cols[k], m) == Delta(i, k)
    ensures other == inv
  {
    forall i | 0 <= i < m
      ensures other[i] == inv[i]
    {
      forall t | 0 <= t < m
        ensures other[i][t] == inv[i][t]
      {
        CombineUnit(Products(other[i], cols), inv, i, t, m);
      }
    }
  }

  // ----- the norms after a pivot -----

  lemma {:induction false} RowsNonZero(m: nat, cols: seq<Vector>, inv: seq<Vector>, i: nat)
    requires LeftInverse(m, cols, inv) && i < m
    ensures Norm2(inv[i]) > 0.0
  {
    if forall t :: 0 <= t < m ==> inv[i][t] == 0.0 {
      DotZero(inv[i], cols[i], m);
    }
    DotSquare(inv[i], inv[i], m);
  }

  lemma NormScaled(u: Vector, h: real, x: Vector)
    requires |u| == |x| && forall t :: 0 <= t < |u| ==> u[t] == Mul(h, x[t])
    ensures Norm2(u) == Mul(h, Mul(h, Norm2(x)))
  {
    var m := |u|;
    assert Norm2(u) == Dot(u, u, m) && Norm2(x) == Dot(x, x, m);
    hide *;
    DotScaled(u, h, x, u, m);
    DotSymmetric(x, u, m);
    DotScaled(u, h, x, x, m);
  }

  lemma PivotRowScales(w: real, x: real)
    requires w != 0.0
    ensures x - Mul(1.0 - 1.0 / w, x) == Mul(1.0 / w, x)
  {
  }

  /** The squared norm of a row of the new inverse, from the row w_i / w_r times the
      pivot row was taken off. */
  lemma DualNorm(m: nat, inv: seq<Vector>, w: Vector, r: nat, i: nat)
    requires Square(m, inv) && |w| == m && r < m && i < m && w[r] != 0.0
    ensures i != r ==> Norm2(Pivoted(inv, w, r)[i])
                       == ShiftedNorm(Norm2(inv[i]), w[i] / w[r], Dot(inv[i], inv[r], m), Norm2(inv[r]))
    ensures i == r ==> Norm2(Pivoted(inv, w, r)[i]) == Mul(1.0 / w[r], Mul(1.0 / w[r], Norm2(inv[r])))
  {
    var row := PivotedRow(inv, w, r, i);
    PivotedAt(m, inv, w, r, i);
    assert |row| == m && |inv[i]| == m && |inv[r]| == m;
    assert i != r ==> Gain(w, r, i) == w[i] / w[r];
    assert i == r ==> Gain(w, r, i) == 1.0 - 1.0 / w[r];
    hide *;
    if i != r {
      NormShifted(row, inv[i], w[i] / w[r], inv[r]);
    } else {
      forall t | 0 <= t < m
        ensures row[t] == Mul(1.0 / w[r], inv[r][t])
      {
        PivotRowScales(w[r], inv[r][t]);
      }
      NormScaled(row, 1.0 / w[r], inv[r]);
    }
  }

  lemma RowNonZero(m: nat, cols: seq<Vector>, inv: seq<Vector>, i: nat)
    requires Inverse(m, cols, inv) && i < m
    ensures |inv| == m && Norm2(inv[i]) > 0.0
  {
    InverseIsLeft(m, cols, inv);
    assert |inv| == m;
    hide *;
    RowsNonZero(m, cols, inv, i);
  }

  lemma PivotedPositive(m: nat, cols: seq<Vector>, inv: seq<Vector>, a: Vector, w: Vector, r: nat, i: nat)
    requires Square(m, cols) && Square(m, inv) && |a| == |w| == m && r < m && w[r] != 0.0 && i < m
    requires Inverse(m, cols, inv) && Coordinates(m, inv, a, w)
    ensures |Pivoted(inv, w, r)| == m && Norm2(Pivoted(inv, w, r)[i]) > 0.0
  {
    hide Inverse, Coordinates;
    PivotedInverse(m, cols, inv, a, w, r);
    hide *;
    RowNonZero(m, cols[r := a], Pivoted(inv, w, r), i);
  }

  lemma InverseIsLeft(m: nat, cols: seq<Vector>, inv: seq<Vector>)
    requires Inverse(m, cols, inv)
    ensures LeftInverse(m, cols, inv)
  {
  }

  /** The coordinates of column a: what fsolve returns. */
  function Solve(inv: seq<Vector>, a: Vector): (x: Vector)
    requires forall i :: 0 <= i < |inv| ==> |inv[i]| == |a|
    ensures |x| == |inv| && forall i :: 0 <= i < |inv| ==> x[i] == Dot(inv[i], a, |a|)
  {
    seq(|inv|, i requires 0 <= i < |inv| => Dot(inv[i], a, |a|))
  }

  /** Taking h times the unit vector r back after h w was subtracted. */
  lemma NormRestored(u: Vector, x: Vector, h: real, r: nat)
    requires |u| == |x| && r < |u| && x[r] == 0.0 && u[r] == h
    requires forall t :: 0 <= t < |u| && t != r ==> u[t] == x[t]
    ensures Norm2(u) == Norm2(x) + Mul(h, h)
  {
    var m := |u|;
    assert Norm2(u) == Dot(u, u, m) && Norm2(x) == Dot(x, x, m);
    hide *;
    DotChange(u, x, u, r, m);
    DotChange(u, x, x, r, m);
    DotSymmetric(u, x, m);
    TimesZero(h);
    assert h - 0.0 == h;
  }

  lemma PrimalArithmetic(xx: real, h: real, xy: real, yy: real)
    ensures 1.0 + ShiftedNorm(xx, h, xy, yy) + Mul(h, h) == ShiftedNorm(1.0 + xx, h, xy, 1.0 + yy)
  {
    assert h * h * (1.0 + yy) == h * h + h * h * yy;
  }

  lemma Cancels(x: real, w: real)
    requires w != 0.0
    ensures x - Mul(x / w, w) == 0.0
    ensures x - Mul(1.0 - 1.0 / w, x) == x / w
  {
  }

  lemma SwapQuotient(x: real, y: real, w: real)
    requires w != 0.0
    ensures Mul(x / w, y) == Mul(y / w, x)
  {
  }

  /** One plus the squared norm of a column's new coordinates, and the floor that bounds
      it from below. */
  lemma PrimalNorm(m: nat, inv: seq<Vector>, w: Vector, r: nat, x: Vector, u: Vector)
    requires Square(m, inv) && |w| == |x| == |u| == m && r < m && w[r] != 0.0
    requires forall i :: 0 <= i < m ==> u[i] == x[i] - Mul(Gain(w, r, i), x[r])
    ensures var h := x[r] / w[r];
            && 1.0 + Norm2(u) == ShiftedNorm(1.0 + Norm2(x), h, Dot(x, w, m), 1.0 + Norm2(w))
            && 1.0 + Norm2(u) >= Mul(h, h) + 1.0
  {
    hide *;
    var h := x[r] / w[r];
    var y := Shifted(x, h, w);
    Cancels(x[r], w[r]);
    GainAt(w, r, r);
    NormShifted(y, x, h, w);
    forall t | 0 <= t < m && t != r
      ensures u[t] == y[t]
    {
      GainAt(w, r, t);
      SwapQuotient(x[r], w[t], w[r]);
    }
    NormRestored(u, y, h, r);
    PrimalArithmetic(Norm2(x), h, Dot(x, w, m), Norm2(w));
    NormNonNegative(y);
  }

  function Shifted(x: Vector, h: real, w: Vector): (y: Vector)
    requires |x| == |w|
    ensures |y| == |x| && forall t :: 0 <= t < |x| ==> y[t] == x[t] - Mul(h, w[t])
  {
    seq(|x|, t requires 0 <= t < |x| => x[t] - Mul(h, w[t]))
  }

  lemma GainAt(w: Vector, r: nat, i: nat)
    requires i < |w| && r < |w| && w[r] != 0.0
    ensures Gain(w, r, i) == if i == r then 1.0 - 1.0 / w[r] else w[i] / w[r]
  {
  }

  lemma NormNonNegative(y: Vector)
    ensures Norm2(y) >= 0.0
  {
    DotSquare(y, y, |y|);
  }

  lemma {:induction false} DotUnit(u: Vector, v: Vector, r: nat, n: nat)
    requires n <= |u| && n <= |v| && forall k :: 0 <= k < n ==> u[k] == Delta(k, r)
    ensures Dot(u, v, n) == if r < n then v[r] else 0.0
  {
    if n > 0 {
      DotUnit(u, v, r, n - 1);
    }
  }

  /** The vector y with yB = w: what bsolve makes of w. */
  function BackSolve(inv: seq<Vector>, w: Vector, m: nat): (y: Vector)
    requires Square(m, inv) && |w| == m
    ensures |y| == m && forall t :: 0 <= t < m ==> y[t] == Combine(w, inv, t, m)
  {
    seq(m, t requires 0 <= t < m => Combine(w, inv, t, m))
  }

  /** The cross product the primal update needs, obtained without solving for x. */
  lemma CrossProduct(m: nat, inv: seq<Vector>, w: Vector, a: Vector)
    requires Square(m, inv) && |w| == |a| == m
    ensures Dot(BackSolve(inv, w, m), a, m) == Dot(Solve(inv, a), w, m)
  {
    hide Dot, Combine;
    DotCombine(BackSolve(inv, w, m), w, inv, a, Solve(inv, a), m, m);
    DotSymmetric(w, Solve(inv, a), m);
  }

  lemma SolvePivoted(m: nat, inv: seq<Vector>, w: Vector, r: nat, a: Vector)
    requires Square(m, inv) && |w| == |a| == m && r < m && w[r] != 0.0 && Square(m, Pivoted(inv, w, r))
    ensures forall i :: 0 <= i < m ==>
              Solve(Pivoted(inv, w, r), a)[i] == Solve(inv, a)[i] - Mul(Gain(w, r, i), Solve(inv, a)[r])
  {
    forall i | 0 <= i < m
      ensures Solve(Pivoted(inv, w, r), a)[i] == Solve(inv, a)[i] - Mul(Gain(w, r, i), Solve(inv, a)[r])
    {
      PivotedAt(m, inv, w, r, i);
      assert Solve(Pivoted(inv, w, r), a)[i] == Dot(PivotedRow(inv, w, r, i), a, m);
      assert Solve(inv, a)[i] == Dot(inv[i], a, m) && Solve(inv, a)[r] == Dot(inv[r], a, m);
      hide *;
      PivotedDot(m, inv, w, r, i, a);
    }
  }

  /** The primal norm of a column that is non-basic before and after the pivot. */
  lemma PrimalNormKept(m: nat, inv: seq<Vector>, w: Vector, r: nat, a: Vector)
    requires Square(m, inv) && |w| == |a| == m && r < m && w[r] != 0.0 && Square(m, Pivoted(inv, w, r))
    ensures var h, norm := Dot(inv[r], a, m) / w[r], 1.0 + Norm2(Solve(Pivoted(inv, w, r), a));
            && norm == ShiftedNorm(1.0 + Norm2(Solve(inv, a)), h, Dot(BackSolve(inv, w, m), a, m), 1.0 + Norm2(w))
            && norm >= Mul(h, h) + 1.0
  {
    hide Dot, Norm2, ShiftedNorm, Pivoted, BackSolve, Solve, Mul, Combine, Gain, PivotedRow, Delta, LeftInverse;
    SolvePivoted(m, inv, w, r, a);
    CrossProduct(m, inv, w, a);
    PrimalNorm(m, inv, w, r, Solve(inv, a), Solve(Pivoted(inv, w, r), a));
  }

  lemma LeavingArithmetic(w: real, ww: real)
    requires w != 0.0
    ensures ShiftedNorm(1.0 + 1.0, 1.0 / w, w, 1.0 + ww) == Mul(1.0 / w, Mul(1.0 / w, 1.0 + ww))
  {
    assert 2.0 * (1.0 / w) * w == 2.0;
    var k := 1.0 / w;
    assert k * k * (1.0 + ww) == k * (k * (1.0 + ww));
  }

  /** The primal norm of the column that leaves the basis. */
  lemma PrimalNormLeaving(m: nat, cols: seq<Vector>, inv: seq<Vector>, w: Vector, r: nat)
    requires Square(m, cols) && Square(m, inv) && |w| == m && r < m && w[r] != 0.0 && Square(m, Pivoted(inv, w, r))
    requires LeftInverse(m, cols, inv)
    ensures 1.0 + Norm2(Solve(Pivoted(inv, w, r), cols[r])) == Mul(1.0 / w[r], Mul(1.0 / w[r], 1.0 + Norm2(w)))
  {
    var x := Solve(inv, cols[r]);
    LeavingSolve(m, cols, inv, r);
    assert Norm2(x) == Dot(x, x, m);
    hide Dot, Norm2, ShiftedNorm, Pivoted, BackSolve, Solve, Mul, Combine, Gain, PivotedRow, Delta, LeftInverse;
    DotUnit(x, x, r, m);
    DotUnit(x, w, r, m);
    SolvePivoted(m, inv, w, r, cols[r]);
    PrimalNorm(m, inv, w, r, x, Solve(Pivoted(inv, w, r), cols[r]));
    LeavingArithmetic(w[r], Norm2(w));
  }

  lemma LeavingSolve(m: nat, cols: seq<Vector>, inv: seq<Vector>, r: nat)
    requires Square(m, cols) && Square(m, inv) && LeftInverse(m, cols, inv) && r < m
    ensures Solve(inv, cols[r])[r] == 1.0
    ensures forall k :: 0 <= k < m ==> Solve(inv, cols[r])[k] == Delta(k, r)
  {
    hide Dot;
  }
}
