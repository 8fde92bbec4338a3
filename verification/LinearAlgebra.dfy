/** Exact real vectors of a fixed length m, and the inverse of a simplex basis.  Vectors
    are sequences; equations between them are stated element by element. */
module LinearAlgebra {

  type Vector = seq<real>

  /** The product of two numbers, named so that proofs about whole vectors can keep it
      folded. */
  function Mul(x: real, y: real): real { x * y }

  /** The product of the first n elements. */
  function Dot(u: Vector, v: Vector, n: nat): real
    requires n <= |u| && n <= |v|
  {
    if n == 0 then 0.0 else Dot(u, v, n - 1) + Mul(u[n - 1], v[n - 1])
  }

  function Norm2(u: Vector): real {
    Dot(u, u, |u|)
  }

  lemma {:induction false} DotSymmetric(u: Vector, v: Vector, n: nat)
    requires n <= |u| && n <= |v|
    ensures Dot(u, v, n) == Dot(v, u, n)
  {
    if n > 0 {
      DotSymmetric(u, v, n - 1);
    }
  }

  lemma Distribute(x: real, h: real, y: real, v: real)
    ensures Mul(x + Mul(h, y), v) == Mul(x, v) + Mul(h, Mul(y, v))
    ensures Mul(h, x + y) == Mul(h, x) + Mul(h, y)
    ensures Mul(x + y, v) == Mul(x, v) + Mul(y, v)
    ensures Mul(x - y, v) == Mul(x, v) - Mul(y, v)
  {
    assert (x + h * y) * v == x * v + h * (y * v);
  }

  /** The product is linear in its first argument. */
  lemma {:induction false} DotLinear(u: Vector, x: Vector, h: real, y: Vector, v: Vector, n: nat)
    requires n <= |u| && n <= |x| && n <= |y| && n <= |v|
    requires forall t :: 0 <= t < n ==> u[t] == x[t] + Mul(h, y[t])
    ensures Dot(u, v, n) == Dot(x, v, n) + Mul(h, Dot(y, v, n))
  {
    if n > 0 {
      DotLinear(u, x, h, y, v, n - 1);
      hide Mul;
      Distribute(x[n - 1], h, y[n - 1], v[n - 1]);
      Distribute(Dot(y, v, n - 1), h, Mul(y[n - 1], v[n - 1]), 0.0);
    }
  }

  /** The product is linear in its second argument too. */
  lemma DotLinearRight(v: Vector, u: Vector, x: Vector, h: real, y: Vector, n: nat)
    requires n <= |u| && n <= |x| && n <= |y| && n <= |v|
    requires forall t :: 0 <= t < n ==> u[t] == x[t] + Mul(h, y[t])
    ensures Dot(v, u, n) == Dot(v, x, n) + Mul(h, Dot(v, y, n))
  {
    hide Mul, Dot;
    DotLinear(u, x, h, y, v, n);
    DotSymmetric(v, u, n);
    DotSymmetric(v, x, n);
    DotSymmetric(v, y, n);
  }

  lemma {:induction false} DotScaled(u: Vector, h: real, y: Vector, v: Vector, n: nat)
    requires n <= |u| && n <= |y| && n <= |v|
    requires forall t :: 0 <= t < n ==> u[t] == Mul(h, y[t])
    ensures Dot(u, v, n) == Mul(h, Dot(y, v, n))
  {
    if n > 0 {
      DotScaled(u, h, y, v, n - 1);
      hide Mul;
      Distribute(0.0, h, y[n - 1], v[n - 1]);
      Distribute(Dot(y, v, n - 1), h, Mul(y[n - 1], v[n - 1]), 0.0);
      Associate(h, y[n - 1], v[n - 1]);
    } else {
      assert Mul(h, 0.0) == 0.0;
    }
  }

  lemma Associate(x: real, y: real, z: real)
    ensures Mul(Mul(x, y), z) == Mul(x, Mul(y, z))
  {
  }

  /** The squared norm of x - h y from the squared norms of x and y and their product. */
  function ShiftedNorm(xx: real, h: real, xy: real, yy: real): real {
    xx + h * h * yy - 2.0 * h * xy
  }

  lemma NormShifted(u: Vector, x: Vector, h: real, y: Vector)
    requires |u| == |x| == |y|
    requires forall t :: 0 <= t < |u| ==> u[t] == x[t] - Mul(h, y[t])
    ensures Norm2(u) == ShiftedNorm(Norm2(x), h, Dot(x, y, |x|), Norm2(y))
  {
    var m := |u|;
    assert Norm2(u) == Dot(u, u, m) && Norm2(x) == Dot(x, x, m) && Norm2(y) == Dot(y, y, m);
    hide Dot, Norm2, Mul, ShiftedNorm;
    forall t | 0 <= t < m
      ensures u[t] == x[t] + Mul(-h, y[t])
    {
      Negate(h, y[t]);
    }
    DotLinear(u, x, -h, y, u, m);
    DotLinearRight(x, u, x, -h, y, m);
    DotLinearRight(y, u, x, -h, y, m);
    DotSymmetric(x, y, m);
    Expand(Dot(u, u, m), Dot(x, u, m), Dot(y, u, m), Dot(x, x, m), Dot(x, y, m), Dot(y, y, m), h);
  }

  lemma Negate(h: real, x: real)
    ensures Mul(-h, x) == -Mul(h, x)
  {
  }

  lemma Expand(uu: real, xu: real, yu: real, xx: real, xy: real, yy: real, h: real)
    requires uu == xu + Mul(-h, yu) && xu == xx + Mul(-h, xy) && yu == xy + Mul(-h, yy)
    ensures uu == ShiftedNorm(xx, h, xy, yy)
  {
    assert h * (xy - h * yy) == h * xy - h * h * yy;
  }

  lemma ProductOfEquals(x: real, y: real)
    requires x == y
    ensures Mul(x, y) >= 0.0
    ensures x != 0.0 ==> Mul(x, y) > 0.0
  {
    if x > 0.0 {
      SameSign(x, y);
    } else if x < 0.0 {
      SameSign(-x, -y);
      assert Mul(-x, -y) == Mul(x, y);
    }
  }

  lemma SameSign(x: real, y: real)
    requires x > 0.0 && y > 0.0
    ensures Mul(x, y) > 0.0
  {
  }

  /** A vector has a non-negative square, positive unless the vector is zero. */
  lemma {:induction false} DotSquare(u: Vector, v: Vector, n: nat)
    requires n <= |u| && n <= |v| && forall t :: 0 <= t < n ==> u[t] == v[t]
    ensures Dot(u, v, n) >= 0.0
    ensures (exists t :: 0 <= t < n && u[t] != 0.0) ==> Dot(u, v, n) > 0.0
  {
    if n > 0 {
      DotSquare(u, v, n - 1);
      ProductOfEquals(u[n - 1], v[n - 1]);
      if t :| 0 <= t < n && u[t] != 0.0 && u[n - 1] == 0.0 {
        assert t < n - 1;
      }
    }
  }

  lemma {:induction false} DotZero(u: Vector, v: Vector, n: nat)
    requires n <= |u| && n <= |v| && forall t :: 0 <= t < n ==> u[t] == 0.0
    ensures Dot(u, v, n) == 0.0
  {
    if n > 0 {
      DotZero(u, v, n - 1);
    }
  }

  /** Element t of the combination of the first n rows with coefficients c. */
  function Combine(c: Vector, rows: seq<Vector>, t: nat, n: nat): real
    requires n <= |c| && n <= |rows| && forall k :: 0 <= k < n ==> t < |rows[k]|
  {
    if n == 0 then 0.0 else Combine(c, rows, t, n - 1) + Mul(c[n - 1], rows[n - 1][t])
  }

  /** The product with a combination of rows is the combination of the products. */
  lemma {:induction false} DotCombine(v: Vector, c: Vector, rows: seq<Vector>, a: Vector, d: Vector, n: nat, m: nat)
    requires |v| == |a| == m && n <= |c| && n <= |rows| && n <= |d|
    requires forall k :: 0 <= k < n ==> |rows[k]| == m && d[k] == Dot(rows[k], a, m)
    requires forall t :: 0 <= t < m ==> v[t] == Combine(c, rows, t, n)
    ensures Dot(v, a, m) == Dot(c, d, n)
    decreases n
  {
    hide Mul;
    if n == 0 {
      DotZero(v, a, m);
    } else {
      var shorter := seq(m, t requires 0 <= t < m => Combine(c, rows, t, n - 1));
      DotCombine(shorter, c, rows, a, d, n - 1, m);
      DotLinear(v, shorter, c[n - 1], rows[n - 1], a, m);
    }
  }

  /** Combining rows changed in one common direction: each row k loses g[k] times y. */
  lemma {:induction false} CombineShifted(c: Vector, rows: seq<Vector>, g: Vector, y: real, other: seq<Vector>, t: nat,
                                          n: nat)
    requires n <= |c| && n <= |rows| && n <= |g| && n <= |other|
    requires forall k :: 0 <= k < n ==> t < |rows[k]| && t < |other[k]| && other[k][t] == rows[k][t] - Mul(g[k], y)
    ensures Combine(c, other, t, n) == Combine(c, rows, t, n) - Mul(Dot(c, g, n), y)
  {
    if n > 0 {
      CombineShifted(c, rows, g, y, other, t, n - 1);
      var k := n - 1;
      hide Mul;
      Associate(c[k], g[k], y);
      ShiftOne(c[k], rows[k][t], Mul(g[k], y));
      Distribute(Dot(c, g, k), 0.0, Mul(c[k], g[k]), y);
    }
  }

  lemma ShiftOne(c: real, x: real, y: real)
    ensures Mul(c, x - y) == Mul(c, x) - Mul(c, y)
  {
  }

  /** Changing one coefficient moves the combination along its row. */
  lemma {:induction false} CombineChange(c: Vector, e: Vector, rows: seq<Vector>, r: nat, t: nat, n: nat)
    requires n <= |c| && n <= |e| && n <= |rows|
    requires forall k :: 0 <= k < n ==> t < |rows[k]| && (k != r ==> c[k] == e[k])
    ensures Combine(c, rows, t, n) == Combine(e, rows, t, n) + if r < n then Mul(c[r] - e[r], rows[r][t]) else 0.0
  {
    if n > 0 {
      CombineChange(c, e, rows, r, t, n - 1);
      hide Mul;
      if n - 1 == r {
        Distribute(c[r], 0.0, e[r], rows[r][t]);
      }
    }
  }

  lemma {:induction false} DotChange(c: Vector, e: Vector, d: Vector, r: nat, n: nat)
    requires n <= |c| && n <= |e| && n <= |d|
    requires forall k :: 0 <= k < n && k != r ==> c[k] == e[k]
    ensures Dot(c, d, n) == Dot(e, d, n) + if r < n then Mul(c[r] - e[r], d[r]) else 0.0
  {
    if n > 0 {
      DotChange(c, e, d, r, n - 1);
      hide Mul;
      if n - 1 == r {
        Distribute(c[r], 0.0, e[r], d[r]);
      }
    }
  }

  // ----- the inverse of a basis -----

  function Delta(i: nat, k: nat): real { if i == k then 1.0 else 0.0 }

  /** The products of v with the columns of the basis. */
  function Products(v: Vector, cols: seq<Vector>): (d: Vector)
    requires forall k :: 0 <= k < |cols| ==> |cols[k]| == |v|
    ensures |d| == |cols| && forall k :: 0 <= k < |cols| ==> d[k] == Dot(v, cols[k], |v|)
  {
    seq(|cols|, k requires 0 <= k < |cols| => Dot(v, cols[k], |v|))
  }

  ghost predicate Square(m: nat, M: seq<Vector>) {
    |M| == m && forall k :: 0 <= k < m ==> |M[k]| == m
  }

  ghost predicate LeftInverse(m: nat, cols: seq<Vector>, inv: seq<Vector>) {
    && Square(m, cols) && Square(m, inv)
    && forall i, k {:trigger Dot(inv[i], cols[k], m)} :: 0 <= i < m && 0 <= k < m ==>
       Dot(inv[i], cols[k], m) == Delta(i, k)
  }

  /** Every row vector is the combination of the rows of `inv` that its products with the
      columns give. */
  ghost predicate Spans(m: nat, cols: seq<Vector>, inv: seq<Vector>) {
    && Square(m, cols) && Square(m, inv)
    && forall v: Vector, t {:trigger Combine(Products(v, cols), inv, t, m)} :: |v| == m && 0 <= t < m ==>
       v[t] == Combine(Products(v, cols), inv, t, m)
  }

  /** `inv` holds the rows of the inverse of the matrix with columns `cols`. */
  ghost predicate Inverse(m: nat, cols: seq<Vector>, inv: seq<Vector>) {
    LeftInverse(m, cols, inv) && Spans(m, cols, inv)
  }
}
