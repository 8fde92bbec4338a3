/** The mathematics behind the depth-first search of lp_mipbb.c, on values: integer
    boxes, the exact relaxation, the objective tests of bb_better, and the chain of
    half-finished branchings that the live nodes stand for. */
module SearchTree {

  /** Finite integer bounds of the columns. */
  datatype Box = Box(lo: seq<int>, up: seq<int>) {
    ghost predicate Valid() {
      && |lo| == |up|
      && forall j :: 0 <= j < |lo| ==> lo[j] <= up[j]
    }

    ghost predicate Has(p: seq<int>) {
      && |p| == |lo| == |up|
      && forall j :: 0 <= j < |p| ==> lo[j] <= p[j] <= up[j]
    }

    ghost predicate HasReal(x: seq<real>) {
      && |x| == |lo| == |up|
      && forall j :: 0 <= j < |x| ==> lo[j] as real <= x[j] <= up[j] as real
    }
  }

  function AsReal(p: seq<int>): (x: seq<real>)
    ensures |x| == |p| && forall j :: 0 <= j < |p| ==> x[j] == p[j] as real
  {
    seq(|p|, j requires 0 <= j < |p| => p[j] as real)
  }

  /** A minimisation model: its constraints without the bounds, and its objective. */
  datatype Model = Model(constraints: seq<real> -> bool, objective: seq<real> -> real) {
    ghost predicate Solution(box: Box, p: seq<int>) {
      box.Has(p) && constraints(AsReal(p))
    }

    function Cost(p: seq<int>): real {
      objective(AsReal(p))
    }
  }

  /** What the simplex reports for the relaxation of a box. */
  datatype Relaxation = Infeasible | Optimal(x: seq<real>, value: real)

  ghost predicate Exact(m: Model, box: Box, r: Relaxation) {
    match r
    case Infeasible => forall y: seq<real> :: box.HasReal(y) ==> !m.constraints(y)
    case Optimal(x, value) =>
      && box.HasReal(x) && m.constraints(x) && value == m.objective(x)
      && forall y: seq<real> :: box.HasReal(y) && m.constraints(y) ==> value <= m.objective(y)
  }

  /** The relaxation a simplex method without rounding returns is exact. */
  lemma ExactIff(m: Model, box: Box, x: seq<real>)
    ensures Exact(m, box, Optimal(x, m.objective(x))) <==>
              && box.HasReal(x) && m.constraints(x)
              && forall y: seq<real> :: box.HasReal(y) && m.constraints(y) ==> m.objective(x) <= m.objective(y)
    ensures Exact(m, box, Infeasible) <==> !exists y: seq<real> :: box.HasReal(y) && m.constraints(y)
  {
  }

  /** An exact relaxation bounds every integer solution of its box. */
  lemma ExactBounds(m: Model, box: Box, r: Relaxation, p: seq<int>)
    requires Exact(m, box, r) && m.Solution(box, p)
    ensures r.Optimal? && r.value <= m.Cost(p)
  {
    assert box.HasReal(AsReal(p));
  }

  /** A relaxation over a smaller box is not better. */
  lemma ExactMonotone(m: Model, outer: Box, inner: Box, r: Relaxation, s: Relaxation)
    requires Exact(m, outer, r) && Exact(m, inner, s) && s.Optimal?
    requires |outer.lo| == |outer.up| == |inner.lo| == |inner.up|
    requires forall j :: 0 <= j < |outer.lo| ==> outer.lo[j] <= inner.lo[j] && inner.up[j] <= outer.up[j]
    ensures r.Optimal? && r.value <= s.value
  {
    assert outer.HasReal(s.x);
  }

  // ----- the objective tests of bb_better, minimisation -----

  function Abs(x: real): (y: real)
    ensures y >= 0.0 && (y == x || y == -x)
  {
    if x < 0.0 then -x else x
  }

  function RelDiff(x: real, y: real): real { (x - y) / (1.0 + Abs(y)) }

  /** bb_better with target OF_INCUMBENT | OF_DELTA; OF_TEST_BT and OF_TEST_BE are
      the same comparison.  Both gaps are zero, so the window is deltaOF alone. */
  predicate Better(deltaOF: real, epsprimal: real, relgap: bool, value: real, best: real) {
    var testvalue := value + deltaOF;
    (if relgap then RelDiff(testvalue, best) else testvalue - best) < epsprimal
  }

  /** With zero gaps the relative test never rejects what the absolute test accepts. */
  lemma RelativeTestIsImplied(deltaOF: real, epsprimal: real, value: real, best: real)
    requires 0.0 <= epsprimal
    ensures Better(deltaOF, epsprimal, false, value, best) ==> Better(deltaOF, epsprimal, true, value, best)
  {
    var d, s := value + deltaOF - best, 1.0 + Abs(best);
    if d < epsprimal {
      DivideByMoreThanOne(d, s, epsprimal);
    }
  }

  lemma DivideByMoreThanOne(d: real, s: real, e: real)
    requires 1.0 <= s && d < e && 0.0 <= e
    ensures d / s < e
  {
    assert e * (s - 1.0) >= 0.0;
    assert d < e * s;
  }

  /** Two different objective values are told apart by the tolerance test. */
  predicate Apart(deltaOF: real, epsprimal: real, a: real, b: real) {
    a < b ==> deltaOF - epsprimal < b - a && epsprimal - deltaOF <= b - a
  }

  /** The tolerance test compares the values of V exactly if and only if they are apart. */
  lemma TestIsExactIffApart(deltaOF: real, epsprimal: real, V: set<real>)
    ensures
      (forall a, b :: a in V && b in V ==>
        && (a < b ==> Better(deltaOF, epsprimal, false, a, b))
        && (b < a ==> !Better(deltaOF, epsprimal, false, a, b)))
      <==>
      (forall a, b :: a in V && b in V ==> Apart(deltaOF, epsprimal, a, b))
  {
    if forall a, b :: a in V && b in V ==>
        && (a < b ==> Better(deltaOF, epsprimal, false, a, b))
        && (b < a ==> !Better(deltaOF, epsprimal, false, a, b)) {
      forall a, b | a in V && b in V
        ensures Apart(deltaOF, epsprimal, a, b)
      {
        assert a < b ==> Better(deltaOF, epsprimal, false, a, b) && !Better(deltaOF, epsprimal, false, b, a);
      }
    }
    if forall a, b :: a in V && b in V ==> Apart(deltaOF, epsprimal, a, b) {
      forall a, b | a in V && b in V
        ensures (a < b ==> Better(deltaOF, epsprimal, false, a, b))
        ensures (b < a ==> !Better(deltaOF, epsprimal, false, a, b))
      {
        assert Apart(deltaOF, epsprimal, a, b) && Apart(deltaOF, epsprimal, b, a);
      }
    }
  }

  /** Objective values of integer solutions are apart for the test, and at least the
      tolerance of the dual limit apart. */
  ghost predicate Separated(m: Model, root: Box, deltaOF: real, epsprimal: real) {
    forall p: seq<int>, q: seq<int> :: m.Solution(root, p) && m.Solution(root, q) ==>
      && Apart(deltaOF, epsprimal, m.Cost(p), m.Cost(q))
      && (m.Cost(p) < m.Cost(q) ==> epsprimal <= m.Cost(q) - m.Cost(p))
  }

  /** Whole objective values are apart for a tolerance of at most one half and an improvement
      of at most one. */
  lemma WholeValuesSeparate(m: Model, root: Box, deltaOF: real, epsprimal: real)
    requires 0.0 <= epsprimal <= 0.5 && epsprimal > deltaOF - 1.0 && deltaOF >= -0.5
    requires forall p: seq<int> :: m.Solution(root, p) ==> IsInt(m.Cost(p))
    ensures Separated(m, root, deltaOF, epsprimal)
  {
    forall p: seq<int>, q: seq<int> | m.Solution(root, p) && m.Solution(root, q)
      ensures Apart(deltaOF, epsprimal, m.Cost(p), m.Cost(q))
      ensures m.Cost(p) < m.Cost(q) ==> epsprimal <= m.Cost(q) - m.Cost(p)
    {
      WholeGap(m.Cost(p), m.Cost(q));
    }
  }

  lemma WholeGap(a: real, b: real)
    requires IsInt(a) && IsInt(b)
    ensures a < b ==> b - a >= 1.0
  {
    if a < b {
      assert a.Floor < b.Floor;
    }
  }

  lemma BetterIsExact(m: Model, root: Box, deltaOF: real, epsprimal: real, p: seq<int>, q: seq<int>)
    requires Separated(m, root, deltaOF, epsprimal)
    requires m.Solution(root, p) && m.Solution(root, q)
    ensures m.Cost(p) < m.Cost(q) ==> Better(deltaOF, epsprimal, false, m.Cost(p), m.Cost(q))
    ensures Better(deltaOF, epsprimal, false, m.Cost(p), m.Cost(q)) ==> m.Cost(p) <= m.Cost(q)
  {
    assert Apart(deltaOF, epsprimal, m.Cost(p), m.Cost(q)) && Apart(deltaOF, epsprimal, m.Cost(q), m.Cost(p));
  }

  // ----- splitting a box -----

  function Floor(x: real): int { x.Floor }

  function Ceil(x: real): int { if x.Floor as real == x then x.Floor else x.Floor + 1 }

  predicate IsInt(x: real) { x.Floor as real == x }

  lemma RoundingIs(x: real)
    ensures Floor(x) as real <= x < (Floor(x) + 1) as real && (Ceil(x) - 1) as real < x <= Ceil(x) as real
    ensures IsInt(x) <==> Floor(x) == Ceil(x)
  {
  }

  /** One half of `box` when column `col` is split between `cut` and `cut + 1`. */
  function Side(box: Box, col: nat, cut: int, floor: bool): (s: Box)
    requires col < |box.lo| == |box.up|
    ensures |s.lo| == |s.up| == |box.lo|
  {
    if floor then box.(up := box.up[col := cut]) else box.(lo := box.lo[col := cut + 1])
  }

  /** The two halves lose no integer point and share none. */
  lemma SidesPartition(box: Box, col: nat, cut: int, p: seq<int>)
    requires col < |box.lo| == |box.up| && box.lo[col] <= cut < box.up[col]
    ensures box.Has(p) <==> Side(box, col, cut, true).Has(p) || Side(box, col, cut, false).Has(p)
    ensures !(Side(box, col, cut, true).Has(p) && Side(box, col, cut, false).Has(p))
  {
    var a, b := Side(box, col, cut, true), Side(box, col, cut, false);
    if |p| == |box.lo| {
      if box.Has(p) {
        if p[col] <= cut { assert a.Has(p); } else { assert b.Has(p); }
      }
      if a.Has(p) {
        assert p[col] <= a.up[col] == cut;
        assert forall j :: 0 <= j < |p| ==> a.up[j] <= box.up[j];
      }
      if b.Has(p) {
        assert p[col] >= b.lo[col] == cut + 1;
        assert forall j :: 0 <= j < |p| ==> b.lo[j] >= box.lo[j];
      }
    }
  }

  /** Number of integer points. */
  function Volume(lo: seq<int>, up: seq<int>): nat
    requires |lo| == |up|
  {
    if lo == [] then 1 else Mul(Width(lo[0], up[0]), Volume(lo[1..], up[1..]))
  }

  function Width(lo: int, up: int): nat { if lo <= up then up - lo + 1 else 0 }

  function Mul(x: nat, y: nat): nat { x * y }

  lemma MulSum(x: nat, y: nat, a: nat)
    ensures Mul(x + y, a) == Mul(x, a) + Mul(y, a) && Mul(a, x + y) == Mul(a, x) + Mul(a, y)
  {
  }

  lemma MulPositive(x: nat, y: nat)
    requires x >= 1 && y >= 1
    ensures Mul(x, y) >= 1
  {
  }

  lemma {:induction false} VolumePositive(lo: seq<int>, up: seq<int>)
    requires |lo| == |up| && forall j :: 0 <= j < |lo| ==> lo[j] <= up[j]
    ensures Volume(lo, up) >= 1
  {
    hide Mul;
    if lo != [] {
      VolumePositive(lo[1..], up[1..]);
      MulPositive(Width(lo[0], up[0]), Volume(lo[1..], up[1..]));
    }
  }

  /** A box of a single point has size one; with `VolumeSplits` this says what Volume counts. */
  lemma {:induction false} VolumeOne(lo: seq<int>)
    ensures Volume(lo, lo) == 1
  {
    if lo != [] {
      VolumeOne(lo[1..]);
    }
  }

  lemma {:induction false} VolumeSplits(lo: seq<int>, up: seq<int>, col: nat, cut: int)
    requires |lo| == |up| && col < |lo|
    requires lo[col] <= cut < up[col]
    ensures Volume(lo, up[col := cut]) + Volume(lo[col := cut + 1], up) == Volume(lo, up)
  {
    hide Mul;
    var a, b := up[col := cut], lo[col := cut + 1];
    if col == 0 {
      assert a[1..] == up[1..] && b[1..] == lo[1..];
      MulSum(Width(lo[0], cut), Width(cut + 1, up[0]), Volume(lo[1..], up[1..]));
    } else {
      assert a[1..] == up[1..][col - 1 := cut] && b[1..] == lo[1..][col - 1 := cut + 1];
      VolumeSplits(lo[1..], up[1..], col - 1, cut);
      MulSum(Volume(lo[1..], a[1..]), Volume(b[1..], up[1..]), Width(lo[0], up[0]));
    }
  }

  function Size(box: Box): nat
    requires |box.lo| == |box.up|
  {
    Volume(box.lo, box.up)
  }

  lemma SidesSize(box: Box, col: nat, cut: int)
    requires box.Valid() && col < |box.lo| && box.lo[col] <= cut < box.up[col]
    ensures Side(box, col, cut, true).Valid() && Side(box, col, cut, false).Valid()
    ensures Size(Side(box, col, cut, true)) >= 1 && Size(Side(box, col, cut, false)) >= 1
    ensures Size(Side(box, col, cut, true)) + Size(Side(box, col, cut, false)) == Size(box)
  {
    VolumeSplits(box.lo, box.up, col, cut);
    var a, b := Side(box, col, cut, true), Side(box, col, cut, false);
    VolumePositive(a.lo, a.up);
    VolumePositive(b.lo, b.up);
  }

  // ----- the live chain of branchings -----

  /** One live node below the root: the split column, where it is split, which half
      runs first, and how many halves have been started. */
  datatype Frame = Frame(col: nat, cut: int, floorFirst: bool, started: nat) {
    /** The direction BB->isfloor holds: before the first half it is stored flipped. */
    predicate IsFloor() { if started == 1 then floorFirst else !floorFirst }
  }

  /** A node runs its first half first and the other one second. */
  lemma DirectionIs(f: Frame)
    ensures f.started == 1 ==> f.IsFloor() == f.floorFirst
    ensures f.started == 2 ==> f.IsFloor() != f.floorFirst
  {
  }

  /** The box of the last node on the chain, with its current half imposed. */
  function BoxOf(root: Box, frames: seq<Frame>): (box: Box)
    requires |root.lo| == |root.up|
    requires forall i :: 0 <= i < |frames| ==> frames[i].col < |root.lo|
    ensures |box.lo| == |box.up| == |root.lo|
  {
    if frames == [] then root
    else
      var f := frames[|frames| - 1];
      Side(BoxOf(root, frames[..|frames| - 1]), f.col, f.cut, f.IsFloor())
  }

  /** The box of the last node before its own half is imposed. */
  function BaseOf(root: Box, frames: seq<Frame>): (box: Box)
    requires |root.lo| == |root.up|
    requires forall i :: 0 <= i < |frames| ==> frames[i].col < |root.lo|
    ensures |box.lo| == |box.up| == |root.lo|
  {
    if frames == [] then root else BoxOf(root, frames[..|frames| - 1])
  }

  ghost predicate FramesOK(root: Box, frames: seq<Frame>) {
    && root.Valid()
    && (frames != [] ==>
          var f := frames[|frames| - 1];
          && FramesOK(root, frames[..|frames| - 1])
          && f.col < |root.lo| && f.started <= 2
          && (forall i :: 0 <= i < |frames| ==> frames[i].col < |root.lo|)
          && BaseOf(root, frames).lo[f.col] <= f.cut < BaseOf(root, frames).up[f.col])
  }

  lemma {:induction false} BoxIsInside(root: Box, frames: seq<Frame>)
    requires FramesOK(root, frames)
    ensures forall i :: 0 <= i < |frames| ==> frames[i].col < |root.lo|
    ensures BoxOf(root, frames).Valid() && Size(BoxOf(root, frames)) >= 1
    ensures forall j :: 0 <= j < |root.lo| ==>
      root.lo[j] <= BoxOf(root, frames).lo[j] && BoxOf(root, frames).up[j] <= root.up[j]
  {
    if frames == [] {
      VolumePositive(root.lo, root.up);
    } else {
      var f := frames[|frames| - 1];
      BoxIsInside(root, frames[..|frames| - 1]);
      SidesSize(BaseOf(root, frames), f.col, f.cut);
    }
  }

  /** Point p lies in a half that a live node has yet to run. */
  ghost predicate Pending(root: Box, frames: seq<Frame>, p: seq<int>)
    requires FramesOK(root, frames)
  {
    frames != [] &&
    var f := frames[|frames| - 1];
    || Pending(root, frames[..|frames| - 1], p)
    || (f.started == 1 && Side(BaseOf(root, frames), f.col, f.cut, !f.IsFloor()).Has(p))
  }

  /** Number of integer points in the halves still to run. */
  ghost function PendingSize(root: Box, frames: seq<Frame>): nat
    requires FramesOK(root, frames)
  {
    if frames == [] then 0 else
      var f := frames[|frames| - 1];
      PendingSize(root, frames[..|frames| - 1]) +
      (if f.started == 1 then Size(Side(BaseOf(root, frames), f.col, f.cut, !f.IsFloor())) else 0)
  }

  /** Bound on the relaxations still to be solved for the halves still to run: a box
      of n points needs at most 2n - 1. */
  ghost function Work(root: Box, frames: seq<Frame>): int
    requires FramesOK(root, frames)
  {
    if frames == [] then 0 else
      var f := frames[|frames| - 1];
      Work(root, frames[..|frames| - 1]) +
      (if f.started == 1 then 2 * Size(Side(BaseOf(root, frames), f.col, f.cut, !f.IsFloor())) - 1 else 0)
  }

  lemma {:induction false} WorkNonNegative(root: Box, frames: seq<Frame>)
    requires FramesOK(root, frames)
    ensures Work(root, frames) >= 0
  {
    if frames != [] {
      var f := frames[|frames| - 1];
      WorkNonNegative(root, frames[..|frames| - 1]);
      BoxIsInside(root, frames[..|frames| - 1]);
      SidesSize(BaseOf(root, frames), f.col, f.cut);
    }
  }

  /** The chain with one more node, its first half in force. */
  lemma PushedNode(root: Box, frames: seq<Frame>, f: Frame)
    requires FramesOK(root, frames) && f.col < |root.lo| && f.started == 1
    requires (forall i :: 0 <= i < |frames| ==> frames[i].col < |root.lo|) && |root.lo| == |root.up|
    requires BoxOf(root, frames).lo[f.col] <= f.cut < BoxOf(root, frames).up[f.col]
    ensures FramesOK(root, frames + [f]) && BaseOf(root, frames + [f]) == BoxOf(root, frames)
    ensures BoxOf(root, frames + [f]) == Side(BoxOf(root, frames), f.col, f.cut, f.floorFirst)
    ensures forall p :: Pending(root, frames + [f], p) <==>
                        Pending(root, frames, p) || Side(BoxOf(root, frames), f.col, f.cut, !f.floorFirst).Has(p)
  {
    assert (frames + [f])[..|frames|] == frames;
    hide Side, Box.Has;
  }

  lemma PushedSums(root: Box, frames: seq<Frame>, f: Frame)
    requires FramesOK(root, frames) && FramesOK(root, frames + [f]) && f.col < |root.lo| && f.started == 1
    requires (forall i :: 0 <= i < |frames| ==> frames[i].col < |root.lo|) && |root.lo| == |root.up|
    ensures var other := Size(Side(BoxOf(root, frames), f.col, f.cut, !f.floorFirst));
            && PendingSize(root, frames + [f]) == PendingSize(root, frames) + other
            && Work(root, frames + [f]) == Work(root, frames) + 2 * other - 1
  {
    assert (frames + [f])[..|frames|] == frames;
    hide Side, Size, FramesOK, BoxOf;
  }

  /** Pushing a node replaces the current box by its first half; the other half is pending. */
  lemma PushStep(root: Box, frames: seq<Frame>, f: Frame)
    requires FramesOK(root, frames) && f.col < |root.lo| && f.started == 1
    requires BoxOf(root, frames).lo[f.col] <= f.cut < BoxOf(root, frames).up[f.col]
    ensures FramesOK(root, frames + [f])
    ensures forall p :: BoxOf(root, frames).Has(p) || Pending(root, frames, p) <==>
                        BoxOf(root, frames + [f]).Has(p) || Pending(root, frames + [f], p)
    ensures Size(BoxOf(root, frames + [f])) + PendingSize(root, frames + [f])
         == Size(BoxOf(root, frames)) + PendingSize(root, frames)
    ensures 1 + Work(root, frames + [f]) + 2 * Size(BoxOf(root, frames + [f])) - 1
         == Work(root, frames) + 2 * Size(BoxOf(root, frames)) - 1
  {
    var next, box := frames + [f], BoxOf(root, frames);
    PushedNode(root, frames, f);
    PushedSums(root, frames, f);
    BoxIsInside(root, frames);
    SidesSize(box, f.col, f.cut);
    hide BoxOf, BaseOf, FramesOK, Pending, PendingSize, Work, Size, Side, Box.Has;
    forall p
      ensures box.Has(p) || Pending(root, frames, p) <==> BoxOf(root, next).Has(p) || Pending(root, next, p)
    {
      SidesPartition(box, f.col, f.cut, p);
    }
  }

  /** Starting the second half makes it the current box. */
  lemma NextStep(root: Box, frames: seq<Frame>, next: seq<Frame>)
    requires FramesOK(root, frames) && frames != [] && frames[|frames| - 1].started == 1
    requires next == frames[|frames| - 1 := frames[|frames| - 1].(started := 2)]
    ensures FramesOK(root, next)
    ensures forall p :: Pending(root, frames, p) <==> BoxOf(root, next).Has(p) || Pending(root, next, p)
    ensures Size(BoxOf(root, next)) + PendingSize(root, next) == PendingSize(root, frames)
    ensures Work(root, next) + 2 * Size(BoxOf(root, next)) - 1 == Work(root, frames)
  {
    assert next[..|next| - 1] == frames[..|frames| - 1];
  }

  /** A node whose halves are both done drops off the chain without losing a point. */
  lemma PopStep(root: Box, frames: seq<Frame>)
    requires FramesOK(root, frames) && frames != [] && frames[|frames| - 1].started != 1
    ensures FramesOK(root, frames[..|frames| - 1])
    ensures forall p :: Pending(root, frames, p) <==> Pending(root, frames[..|frames| - 1], p)
    ensures PendingSize(root, frames) == PendingSize(root, frames[..|frames| - 1])
    ensures Work(root, frames) == Work(root, frames[..|frames| - 1])
  {
  }
}
