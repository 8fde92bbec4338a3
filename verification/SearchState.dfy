/** What the branch and bound search keeps true, on values: the ladder levels against the
    chain of live nodes, the bounds of the two branches, the verdict on one relaxation, and
    the claim that no integer solution is lost. */
module SearchState {
  import opened UndoLadders
  import opened SearchTree

  datatype Status = NOTRUN | OPTIMAL | INFEASIBLE | NUMFAILURE | PROCBREAK

  /** lp->real_solution and lp->bb_limitOF: infinite until the root is solved. */
  datatype Limit = Infinite | Value(v: real)

  /** What the driver takes from outside: tolerances, the simplex method, and the
      rules that pick the branching variable and the first direction.  The counters
      they receive let every answer differ from the one before. */
  datatype Settings = Settings(
    infinite: int,
    epsprimal: real,
    deltaOF: real,
    solutionlimit: int,
    relax: (nat, Box) -> Relaxation,
    choose: (nat, seq<nat>) -> nat,
    floorFirst: (nat, nat) -> bool)

  // ----- the ladder levels against the chain, on values -----

  /** A bound vector: the entries of the slacks, which branching never touches, then
      those of the columns. */
  function Vec(upper: bool, slacks: seq<int>, box: Box): seq<int> {
    slacks + (if upper then box.up else box.lo)
  }

  ghost predicate Cols(root: Box, frames: seq<Frame>) {
    && |root.lo| == |root.up|
    && forall i :: 0 <= i < |frames| ==> frames[i].col < |root.lo|
  }

  /** The level of the last node of `frames` undoes what that node has in force. */
  ghost predicate LevelUndoes(upper: bool, slacks: seq<int>, root: Box, frames: seq<Frame>,
                              level: seq<Entry<int>>, current: seq<int>)
    requires Cols(root, frames)
  {
    var base := Vec(upper, slacks, BaseOf(root, frames));
    LogsBase(level, |slacks| - 1, base) && Covers(level, |slacks| - 1, base, current)
  }

  /** The same for the i-th node on the chain, whose current half is in force. */
  ghost predicate LevelOK(upper: bool, slacks: seq<int>, root: Box, frames: seq<Frame>, level: seq<Entry<int>>)
    requires Cols(root, frames)
  {
    LevelUndoes(upper, slacks, root, frames, level, Vec(upper, slacks, BoxOf(root, frames)))
  }

  /** Every level but the last undoes the half its node has in force. */
  ghost predicate StackOK(upper: bool, slacks: seq<int>, root: Box, frames: seq<Frame>, levels: seq<seq<Entry<int>>>)
    requires Cols(root, frames)
  {
    && |levels| == |frames| + 1
    && forall i :: 0 <= i < |frames| ==> LevelOK(upper, slacks, root, frames[..i], levels[i])
  }

  lemma StackPush(upper: bool, slacks: seq<int>, root: Box, frames: seq<Frame>, f: Frame, levels: seq<seq<Entry<int>>>)
    requires Cols(root, frames + [f]) && Cols(root, frames)
    requires StackOK(upper, slacks, root, frames, levels)
    requires LevelOK(upper, slacks, root, frames, levels[|frames|])
    ensures StackOK(upper, slacks, root, frames + [f], levels + [[]])
    ensures LevelUndoes(upper, slacks, root, frames + [f], [], Vec(upper, slacks, BoxOf(root, frames)))
  {
    var next := frames + [f];
    assert next[..|next| - 1] == frames;
    forall i | 0 <= i < |next|
      ensures LevelOK(upper, slacks, root, next[..i], (levels + [[]])[i])
    {
      assert next[..i] == frames[..i];
      if i == |frames| { assert frames[..i] == frames; }
    }
  }

  lemma StackPop(upper: bool, slacks: seq<int>, root: Box, frames: seq<Frame>, levels: seq<seq<Entry<int>>>)
    requires Cols(root, frames) && frames != []
    requires StackOK(upper, slacks, root, frames, levels)
    ensures StackOK(upper, slacks, root, frames[..|frames| - 1], levels[..|frames|])
    ensures LevelOK(upper, slacks, root, frames[..|frames| - 1], levels[|frames| - 1])
  {
    var shorter := frames[..|frames| - 1];
    forall i | 0 <= i < |shorter|
      ensures LevelOK(upper, slacks, root, shorter[..i], levels[i])
    {
      assert shorter[..i] == frames[..i];
    }
  }

  /** The last frame and the last level may change without touching the rest. */
  lemma StackTop(upper: bool, slacks: seq<int>, root: Box, frames: seq<Frame>, next: seq<Frame>,
                 levels: seq<seq<Entry<int>>>, level: seq<Entry<int>>)
    requires Cols(root, frames) && Cols(root, next)
    requires StackOK(upper, slacks, root, frames, levels)
    requires |next| == |frames| && (frames != [] ==> next[..|frames| - 1] == frames[..|frames| - 1])
    ensures StackOK(upper, slacks, root, next, levels[|frames| := level])
    ensures BaseOf(root, next) == BaseOf(root, frames)
  {
    forall i | 0 <= i < |next|
      ensures LevelOK(upper, slacks, root, next[..i], levels[|frames| := level][i])
    {
      assert next[..i] == next[..|next| - 1][..i] == frames[..|frames| - 1][..i] == frames[..i];
    }
  }

  /** Logging the old value and changing one column keeps a level able to undo. */
  lemma LevelModify(upper: bool, slacks: seq<int>, root: Box, frames: seq<Frame>,
                    level: seq<Entry<int>>, current: seq<int>, item: nat, value: int)
    requires Cols(root, frames)
    requires LevelUndoes(upper, slacks, root, frames, level, current)
    requires |slacks| > 0 && item < |current|
    requires current[item] == Vec(upper, slacks, BaseOf(root, frames))[item]
    ensures LevelUndoes(upper, slacks, root, frames, level + [(item - (|slacks| - 1), current[item])],
              current[item := value])
  {
    var rows := |slacks| - 1;
    var base := Vec(upper, slacks, BaseOf(root, frames));
    var entry := (item - rows, current[item]);
    var more := level + [entry];
    assert entry in more;
    forall k | 0 <= k < |base| && base[k] != current[item := value][k]
      ensures Logged(more, rows, k)
    {
      if k == item {
        assert entry.0 + rows == k;
      } else {
        assert Logged(level, rows, k);
        var e :| e in level && e.0 + rows == k;
        assert e in more;
      }
    }
  }

  /** Both ladders fit the chain, and their last levels undo the last node. */
  ghost predicate LaddersFit(usl: seq<int>, lsl: seq<int>, root: Box, frames: seq<Frame>, ulevels: seq<seq<Entry<int>>>,
                             llevels: seq<seq<Entry<int>>>, upbo: seq<int>, lowbo: seq<int>)
  {
    && FramesOK(root, frames) && Cols(root, frames)
    && StackOK(true, usl, root, frames, ulevels)
    && StackOK(false, lsl, root, frames, llevels)
    && LevelUndoes(true, usl, root, frames, ulevels[|frames|], upbo)
    && LevelUndoes(false, lsl, root, frames, llevels[|frames|], lowbo)
  }

  /** One ladder's view of the last node: its level goes back to the bounds it found. */
  ghost predicate Undoes(slacks: seq<int>, level: seq<Entry<int>>, base: seq<int>, current: seq<int>) {
    |base| == |current| && LogsBase(level, |slacks| - 1, base) && Covers(level, |slacks| - 1, base, current)
  }

  /** With the last node's half taken back everything still fits. */
  lemma FitBase(usl: seq<int>, lsl: seq<int>, root: Box, frames: seq<Frame>,
                ulevels: seq<seq<Entry<int>>>, llevels: seq<seq<Entry<int>>>, upbo: seq<int>, lowbo: seq<int>)
    requires LaddersFit(usl, lsl, root, frames, ulevels, llevels, upbo, lowbo)
    ensures Cols(root, frames)
    ensures LaddersFit(usl, lsl, root, frames, ulevels, llevels,
                       Vec(true, usl, BaseOf(root, frames)), Vec(false, lsl, BaseOf(root, frames)))
  {
  }

  lemma FitTop(usl: seq<int>, lsl: seq<int>, root: Box, frames: seq<Frame>,
               ulevels: seq<seq<Entry<int>>>, llevels: seq<seq<Entry<int>>>, upbo: seq<int>, lowbo: seq<int>)
    requires LaddersFit(usl, lsl, root, frames, ulevels, llevels, upbo, lowbo)
    ensures Cols(root, frames) && |ulevels| == |llevels| == |frames| + 1
    ensures Undoes(usl, ulevels[|frames|], Vec(true, usl, BaseOf(root, frames)), upbo)
    ensures Undoes(lsl, llevels[|frames|], Vec(false, lsl, BaseOf(root, frames)), lowbo)
  {
  }

  lemma FitPop(usl: seq<int>, lsl: seq<int>, root: Box, frames: seq<Frame>, shorter: seq<Frame>,
               ulevels: seq<seq<Entry<int>>>, llevels: seq<seq<Entry<int>>>, upbo: seq<int>, lowbo: seq<int>)
    requires LaddersFit(usl, lsl, root, frames, ulevels, llevels, upbo, lowbo)
    requires frames != [] && shorter == frames[..|frames| - 1]
    ensures Cols(root, shorter) && Cols(root, frames) && |ulevels| == |llevels| == |frames| + 1
    ensures Undoes(usl, ulevels[|frames| - 1], Vec(true, usl, BaseOf(root, shorter)),
              Vec(true, usl, BaseOf(root, frames)))
    ensures Undoes(lsl, llevels[|frames| - 1], Vec(false, lsl, BaseOf(root, shorter)),
              Vec(false, lsl, BaseOf(root, frames)))
    ensures LaddersFit(usl, lsl, root, shorter, ulevels[..|frames|], llevels[..|frames|],
                       Vec(true, usl, BaseOf(root, shorter)), Vec(false, lsl, BaseOf(root, shorter)))
  {
    StackPop(true, usl, root, frames, ulevels);
    StackPop(false, lsl, root, frames, llevels);
  }

  /** The last node turns to its next half. */
  function Started(frames: seq<Frame>): (next: seq<Frame>)
    ensures |next| == |frames|
  {
    if frames == [] then []
    else frames[|frames| - 1 := frames[|frames| - 1].(started := frames[|frames| - 1].started + 1)]
  }

  lemma FitStart(usl: seq<int>, lsl: seq<int>, root: Box, frames: seq<Frame>,
                 ulevels: seq<seq<Entry<int>>>, llevels: seq<seq<Entry<int>>>, upbo: seq<int>, lowbo: seq<int>)
    requires LaddersFit(usl, lsl, root, frames, ulevels, llevels, upbo, lowbo)
    requires frames != [] && frames[|frames| - 1].started < 2
    ensures Cols(root, frames) && Cols(root, Started(frames))
    ensures BaseOf(root, Started(frames)) == BaseOf(root, frames)
    ensures LaddersFit(usl, lsl, root, Started(frames), ulevels, llevels, upbo, lowbo)
  {
    var next := Started(frames);
    assert next[..|frames| - 1] == frames[..|frames| - 1];
    StackTop(true, usl, root, frames, next, ulevels, ulevels[|frames|]);
    StackTop(false, lsl, root, frames, next, llevels, llevels[|frames|]);
    assert ulevels[|frames| := ulevels[|frames|]] == ulevels && llevels[|frames| := llevels[|frames|]] == llevels;
  }

  lemma FitPush(usl: seq<int>, lsl: seq<int>, root: Box, frames: seq<Frame>, f: Frame,
                ulevels: seq<seq<Entry<int>>>, llevels: seq<seq<Entry<int>>>)
    requires Cols(root, frames) && LaddersFit(usl, lsl, root, frames, ulevels, llevels,
                        Vec(true, usl, BoxOf(root, frames)), Vec(false, lsl, BoxOf(root, frames)))
    requires f.col < |root.lo| && f.started <= 2
    requires BoxOf(root, frames).lo[f.col] <= f.cut < BoxOf(root, frames).up[f.col]
    ensures BaseOf(root, frames + [f]) == BoxOf(root, frames)
    ensures LaddersFit(usl, lsl, root, frames + [f], ulevels + [[]], llevels + [[]],
                       Vec(true, usl, BoxOf(root, frames)), Vec(false, lsl, BoxOf(root, frames)))
  {
    assert (frames + [f])[..|frames|] == frames;
    StackPush(true, usl, root, frames, f, ulevels);
    StackPush(false, lsl, root, frames, f, llevels);
  }

  /** Imposing the floor half of the last node logs the upper bound it overwrites. */
  lemma FitFloor(usl: seq<int>, lsl: seq<int>, root: Box, frames: seq<Frame>, f: Frame, item: nat, base: seq<int>,
                 ulevels: seq<seq<Entry<int>>>, llevels: seq<seq<Entry<int>>>, next: seq<seq<Entry<int>>>)
    requires Cols(root, frames) && frames != [] && f == frames[|frames| - 1] && f.IsFloor()
    requires |usl| > 0 && item == |usl| + f.col && base == Vec(true, usl, BaseOf(root, frames))
    requires LaddersFit(usl, lsl, root, frames, ulevels, llevels, base, Vec(false, lsl, BaseOf(root, frames)))
    requires item < |base| && next == ulevels[|frames| := ulevels[|frames|] + [(item - (|usl| - 1), base[item])]]
    ensures base[item := f.cut] == Vec(true, usl, BoxOf(root, frames))
    ensures Vec(false, lsl, BaseOf(root, frames)) == Vec(false, lsl, BoxOf(root, frames))
    ensures LaddersFit(usl, lsl, root, frames, next, llevels,
                       Vec(true, usl, BoxOf(root, frames)), Vec(false, lsl, BoxOf(root, frames)))
  {
    assert |ulevels| == |llevels| == |frames| + 1;
    FloorVec(usl, lsl, root, frames);
    hide FramesOK, LevelUndoes, StackOK, LevelOK, Vec, BoxOf, BaseOf, Cols;
    LevelModify(true, usl, root, frames, ulevels[|frames|], base, item, f.cut);
    StackTop(true, usl, root, frames, frames, ulevels, next[|frames|]);
  }

  /** What the last node changes in the vectors, running its floor or its ceiling side. */
  lemma FloorVec(usl: seq<int>, lsl: seq<int>, root: Box, frames: seq<Frame>)
    requires Cols(root, frames) && frames != [] && frames[|frames| - 1].IsFloor()
    ensures var f, base := frames[|frames| - 1], Vec(true, usl, BaseOf(root, frames));
            |usl| + f.col < |base| && base[|usl| + f.col := f.cut] == Vec(true, usl, BoxOf(root, frames))
    ensures Vec(false, lsl, BaseOf(root, frames)) == Vec(false, lsl, BoxOf(root, frames))
  {
  }

  lemma CeilingVec(usl: seq<int>, lsl: seq<int>, root: Box, frames: seq<Frame>)
    requires Cols(root, frames) && frames != [] && !frames[|frames| - 1].IsFloor()
    ensures var f, base := frames[|frames| - 1], Vec(false, lsl, BaseOf(root, frames));
            |lsl| + f.col < |base| && base[|lsl| + f.col := f.cut + 1] == Vec(false, lsl, BoxOf(root, frames))
    ensures Vec(true, usl, BaseOf(root, frames)) == Vec(true, usl, BoxOf(root, frames))
  {
  }

  /** Imposing the ceiling half logs the lower bound it overwrites. */
  lemma FitCeiling(usl: seq<int>, lsl: seq<int>, root: Box, frames: seq<Frame>, f: Frame, item: nat, base: seq<int>,
                   ulevels: seq<seq<Entry<int>>>, llevels: seq<seq<Entry<int>>>, next: seq<seq<Entry<int>>>)
    requires Cols(root, frames) && frames != [] && f == frames[|frames| - 1] && !f.IsFloor()
    requires |lsl| > 0 && item == |lsl| + f.col && base == Vec(false, lsl, BaseOf(root, frames))
    requires LaddersFit(usl, lsl, root, frames, ulevels, llevels, Vec(true, usl, BaseOf(root, frames)), base)
    requires item < |base| && next == llevels[|frames| := llevels[|frames|] + [(item - (|lsl| - 1), base[item])]]
    ensures base[item := f.cut + 1] == Vec(false, lsl, BoxOf(root, frames))
    ensures Vec(true, usl, BaseOf(root, frames)) == Vec(true, usl, BoxOf(root, frames))
    ensures LaddersFit(usl, lsl, root, frames, ulevels, next,
                       Vec(true, usl, BoxOf(root, frames)), Vec(false, lsl, BoxOf(root, frames)))
  {
    assert |ulevels| == |llevels| == |frames| + 1;
    CeilingVec(usl, lsl, root, frames);
    hide FramesOK, LevelUndoes, StackOK, LevelOK, Vec, BoxOf, BaseOf, Cols;
    LevelModify(false, lsl, root, frames, llevels[|frames|], base, item, f.cut + 1);
    StackTop(false, lsl, root, frames, frames, llevels, next[|frames|]);
  }

  lemma ColumnsOf(slacks: seq<int>, box: Box)
    ensures Vec(true, slacks, box)[|slacks|..] == box.up
    ensures Vec(false, slacks, box)[|slacks|..] == box.lo
  {
  }

  /** The root alone, nothing imposed. */
  lemma FitRoot(usl: seq<int>, lsl: seq<int>, root: Box)
    requires root.Valid()
    ensures LaddersFit(usl, lsl, root, [], [[]], [[]], Vec(true, usl, root), Vec(false, lsl, root))
    ensures BaseOf(root, []) == BoxOf(root, []) == root && Cols(root, [])
  {
  }

  // ----- the bounds of the two branches -----

  /** A bound that differs from another by less than this many margins is moved to it. */
  const SCALEDINTFIXRANGE := 1.6

  /** my_avoidtiny. */
  function AvoidTiny(value: int, eps: real): (r: int)
    ensures eps <= 1.0 ==> r == value
  {
    if Near(value, 0, eps) then 0 else value
  }

  predicate Near(x: int, y: int, eps: real) { (if x < y then y - x else x - y) as real < eps }

  /** fillbranches_BB for BB_INT: the upper bound of the floor branch, the lower bound
      of the ceiling branch (minus or plus `infinite` when a branch is skipped), and
      how many of the two branches remain.  A fractional value leaves both.  An integral
      one never leaves the ceiling, and not even the floor where it is the upper bound of
      a column that cannot be positive. */
  method BranchBounds(lastsolution: real, ult_lowbo: int, ult_upbo: int, lowbo: int, upbo: int, infinite: int,
                      intmargin: real)
    returns (UPbound: int, LObound: int, nodesleft: int)
    requires 0.0 <= intmargin <= 0.5
    ensures !IsInt(lastsolution) && ult_lowbo <= lowbo && upbo <= ult_upbo
            && lowbo as real <= lastsolution <= upbo as real ==>
      UPbound == Floor(lastsolution) && LObound == Floor(lastsolution) + 1 && nodesleft == 2
    ensures IsInt(lastsolution) && ult_lowbo <= lowbo && upbo <= ult_upbo
            && lowbo as real <= lastsolution <= upbo as real ==>
      && LObound == -infinite
      && (UPbound, nodesleft) ==
           if ult_upbo <= 0 && intmargin > 0.0 && lastsolution == ult_upbo as real then (infinite, 0)
           else (Floor(lastsolution), 1)
  {
    var nofloor, noceiling;
    UPbound, nofloor := FloorBound(Floor(lastsolution), ult_lowbo, ult_upbo, lowbo, infinite, intmargin);
    LObound, noceiling := CeilingBound(lastsolution, ult_upbo, upbo, infinite, intmargin);
    nodesleft := 2 - (if nofloor then 1 else 0) - if noceiling then 1 else 0;
  }

  /** The part at SetUB. */
  method FloorBound(floor: int, ult_lowbo: int, ult_upbo: int, lowbo: int, infinite: int, intmargin: real)
    returns (UPbound: int, skipped: bool)
    requires 0.0 <= intmargin <= 0.5
    ensures ult_lowbo <= lowbo <= floor <= ult_upbo ==>
      (UPbound, skipped) ==
        if ult_upbo <= 0 && intmargin > 0.0 && floor == ult_upbo then (infinite, true) else (floor, false)
  {
    UPbound, skipped := infinite, true;
    if (ult_lowbo >= 0 && (floor as real) < ult_lowbo as real - intmargin)
       || (ult_upbo <= 0 && (floor as real) > ult_upbo as real - intmargin) {
      return;
    }
    var new_bound := floor;
    if new_bound < lowbo {
      new_bound := lowbo - AvoidTiny(new_bound - lowbo, intmargin);
    }
    if new_bound >= lowbo {
      UPbound := if Near(new_bound, lowbo, intmargin * SCALEDINTFIXRANGE) then lowbo else new_bound;
      skipped := false;
    }
  }

  /** The part at SetLB. */
  method CeilingBound(lastsolution: real, ult_upbo: int, upbo: int, infinite: int, intmargin: real)
    returns (LObound: int, skipped: bool)
    requires 0.0 <= intmargin <= 0.5
    ensures IsInt(lastsolution) ==> LObound == -infinite && skipped
    ensures !IsInt(lastsolution) && Floor(lastsolution) + 1 <= upbo <= ult_upbo ==>
              LObound == Floor(lastsolution) + 1 && !skipped
  {
    LObound, skipped := -infinite, true;
    var ceil := Ceil(lastsolution);
    if ceil as real == lastsolution || ceil as real > ult_upbo as real + intmargin {
      return;
    }
    var new_bound := ceil;
    if new_bound > upbo {
      new_bound := upbo + AvoidTiny(new_bound - upbo, intmargin);
    }
    if new_bound <= upbo {
      LObound := if Near(upbo, new_bound, intmargin * SCALEDINTFIXRANGE) then upbo else new_bound;
      skipped := false;
    }
  }

  /** The end of fillbranches_BB: when both branches set the same bound only one is
      run, and a skipped branch is never the first.  Returns the direction to run
      first and the number of branches to run. */
  function FirstBranch(isfloor: bool, nodesleft: int, UPbound: int, LObound: int, lowbo: int, upbo: int, infinite: int):
    (r: (bool, int))
    ensures nodesleft == 2 && UPbound != LObound ==> r == (isfloor, 2)
  {
    var (left, dir) :=
      if LObound == UPbound then
        (nodesleft - 1, if lowbo == LObound then false else if upbo == UPbound then true else isfloor)
      else (nodesleft, isfloor);
    if left == 1 && ((dir && UPbound >= infinite) || (!dir && LObound <= -infinite)) then (!dir, left) else (dir, left)
  }

  /** A branch that was skipped is not run first, and of two equal bounds only one is used:
      the ceiling side at the lower bound, the floor side at the upper one. */
  lemma FirstBranchIs(isfloor: bool, UPbound: int, LObound: int, lowbo: int, upbo: int, infinite: int)
    requires infinite > 0 && LObound < infinite && -infinite < UPbound
    ensures LObound <= -infinite && UPbound < infinite ==>
              FirstBranch(isfloor, 1, UPbound, LObound, lowbo, upbo, infinite) == (true, 1)
    ensures LObound > -infinite && UPbound >= infinite ==>
              FirstBranch(isfloor, 1, UPbound, LObound, lowbo, upbo, infinite) == (false, 1)
    ensures -infinite < LObound == UPbound < infinite ==>
              FirstBranch(isfloor, 2, UPbound, LObound, lowbo, upbo, infinite)
              == (if lowbo == LObound then false else if upbo == UPbound then true else isfloor, 1)
  {
  }

  // ----- outcome of one relaxation -----

  /** solve_LP on the simplex result: a value better than the root's is a numerical
      failure reported as infeasible, a value within the tolerance is the root's. */
  function Assess(epsprimal: real, r: Relaxation, root: Limit): (a: (Status, real))
    ensures a.0 == OPTIMAL || a.0 == INFEASIBLE
    ensures a.0 == OPTIMAL ==> r.Optimal?
  {
    match r
    case Infeasible => (INFEASIBLE, 0.0)
    case Optimal(_, value) =>
      var ref := if root.Infinite? then value else root.v;
      var testOF := RelDiff(value, ref);
      if testOF < -epsprimal then (INFEASIBLE, value)
      else if testOF < 0.0 then (OPTIMAL, ref)
      else (OPTIMAL, value)
  }

  /** For any relaxation: without a root value the verdict is OPTIMAL with the value; with one
      the relative distance to it decides. */
  lemma AssessIs(epsprimal: real, r: Relaxation, root: Limit)
    requires r.Optimal? && epsprimal >= 0.0
    ensures root.Infinite? ==> Assess(epsprimal, r, root) == (OPTIMAL, r.value)
    ensures root.Value? ==>
              var d := (r.value - root.v) / (1.0 + if root.v < 0.0 then -root.v else root.v);
              Assess(epsprimal, r, root) ==
                if d < -epsprimal then (INFEASIBLE, r.value) else (OPTIMAL, if d < 0.0 then root.v else r.value)
  {
  }

  lemma AssessExact(epsprimal: real, r: Relaxation, root: Limit)
    requires 0.0 <= epsprimal && r.Optimal? && (root.Value? ==> root.v <= r.value)
    ensures Assess(epsprimal, r, root) == (OPTIMAL, r.value)
  {
    var ref := if root.Infinite? then r.value else root.v;
    assert RelDiff(r.value, ref) >= 0.0;
  }

  /** bb_better with target OF_RELAXED and OF_TEST_WE. */
  predicate NotBetterThanRoot(epsprimal: real, value: real, root: Limit) {
    root.Value? && root.v - value < epsprimal
  }

  /** The node is abandoned before its variables are looked at. */
  predicate Abandoned(s: Settings, totalnodes: nat, solutioncount: nat, value: real, best: real, root: Limit) {
    || (totalnodes > 0 && !NotBetterThanRoot(s.epsprimal, value, root))
    || (solutioncount == 0 && !(value - s.infinite as real < s.epsprimal))
    || (solutioncount > 0 &&
         (!Better(s.deltaOF, s.epsprimal, true, value, best) || !Better(s.deltaOF, s.epsprimal, false, value, best)))
  }

  /** What the tests come to: the relative test never decides, so a node is abandoned when
      its value beats the root by the tolerance, or is as large as infinity without an
      incumbent, or lies above an incumbent by what the tolerance exceeds the improvement. */
  lemma AbandonedIff(s: Settings, totalnodes: nat, solutioncount: nat, value: real, best: real, root: Limit)
    requires s.epsprimal >= 0.0
    ensures Abandoned(s, totalnodes, solutioncount, value, best, root) <==>
              || (totalnodes > 0 && (root.Infinite? || value <= root.v - s.epsprimal))
              || (solutioncount == 0 && value >= s.infinite as real + s.epsprimal)
              || (solutioncount > 0 && value >= best + s.epsprimal - s.deltaOF)
  {
    RelativeTestIsImplied(s.deltaOF, s.epsprimal, value, best);
    hide RelDiff;
  }

  /** A single solution as good as the dual limit ends the search. */
  predicate AtDualLimit(s: Settings, value: real, limit: Limit) {
    s.solutionlimit == 1 && limit.Value? && value - limit.v < s.epsprimal
  }

  // ----- what the search knows -----

  /** The incumbent and the root value; `best` and `rootx` are their ghost witnesses. */
  datatype Knowledge = Knowledge(brk: bool, count: nat, best_solution: seq<real>, best_OF: real, best: seq<int>,
                                 real_solution: Limit, rootx: seq<real>, totalnodes: nat, gap: Gap)

  /** How much better than the incumbent a solution may be that was given up: at most
      `slack`, after `kept` incumbents. */
  datatype Gap = Gap(slack: real, kept: nat)

  function Max(x: real, y: real): real { if x < y then y else x }

  /** What a single objective test may give up: the window it looks through. */
  function Window(s: Settings): real { Max(0.0, s.deltaOF - s.epsprimal) }

  /** What the incumbent may get worse by n times: with a tolerance wider than the improvement
      asked for, a slightly worse solution passes as better. */
  function Drift(s: Settings, n: nat): real {
    if n == 0 then 0.0 else Drift(s, n - 1) + Max(0.0, s.epsprimal - s.deltaOF)
  }

  lemma {:induction false} DriftGrows(s: Settings, n: nat, k: nat)
    requires n <= k
    ensures 0.0 <= Drift(s, n) <= Drift(s, k) && (s.epsprimal <= s.deltaOF ==> Drift(s, k) == 0.0)
  {
    if n < k {
      DriftGrows(s, n, k - 1);
    } else if n > 0 {
      DriftGrows(s, n - 1, n - 1);
    }
  }

  /** What a search to the end may give up, in numbers. */
  lemma {:induction false} GivenUpIs(s: Settings, n: nat)
    ensures s.epsprimal <= s.deltaOF ==> Window(s) == s.deltaOF - s.epsprimal && Drift(s, n) == 0.0
    ensures s.epsprimal > s.deltaOF ==> Window(s) == 0.0 && Drift(s, n) == n as real * (s.epsprimal - s.deltaOF)
  {
    if n > 0 {
      GivenUpIs(s, n - 1);
      if s.epsprimal > s.deltaOF {
        var d, k := s.epsprimal - s.deltaOF, (n - 1) as real;
        assert n as real == k + 1.0;
        assert (k + 1.0) * d == k * d + d;
      }
    }
  }

  /** The bound on the slack, and no slack beyond the window for values that are apart. */
  ghost predicate GapOK(m: Model, s: Settings, root: Box, gap: Gap) {
    && Window(s) <= gap.slack <= Window(s) + Drift(s, gap.kept)
    && (Separated(m, root, s.deltaOF, s.epsprimal) ==> gap.slack == Window(s))
  }

  /** The gap when `value` becomes the incumbent. */
  function Kept(k: Knowledge, value: real): Gap {
    Gap(k.gap.slack + if k.count == 0 then 0.0 else Max(0.0, value - k.best_OF), k.gap.kept + 1)
  }

  /** An exact oracle, a tolerance that leaves whole numbers alone, and objective values
      below infinity. */
  ghost predicate Exacting(m: Model, s: Settings, root: Box) {
    && root.Valid()
    && 0.0 < s.epsprimal <= 0.5
    && (forall k: nat, box: Box :: box.Valid() && |box.lo| == |root.lo| ==> Exact(m, box, s.relax(k, box)))
    && (forall x: seq<real> :: root.HasReal(x) && m.constraints(x) ==> m.objective(x) < s.infinite as real)
  }

  /** What the incumbent is worth when the search is over: a break at the dual limit gives up
      less than the tolerance, a search to the end the window of the test and the drift of
      the incumbents, and with values that are apart nothing at all. */
  ghost predicate Finished(m: Model, s: Settings, root: Box, k: Knowledge) {
    forall p: seq<int> :: m.Solution(root, p) ==>
      && k.count > 0
      && k.best_OF <= m.Cost(p) + (if k.brk then s.epsprimal else Window(s) + Drift(s, k.gap.kept))
      && (Separated(m, root, s.deltaOF, s.epsprimal) ==> k.best_OF <= m.Cost(p))
  }

  /** Every integer solution is dominated by the incumbent, or lies in a half still to
      run, or (when `current`) in the box about to be solved. */
  ghost predicate Sound(m: Model, s: Settings, root: Box, frames: seq<Frame>, current: bool, k: Knowledge) {
    && FramesOK(root, frames) && Cols(root, frames)
    && (k.count > 0 ==> m.Solution(root, k.best) && k.best_OF == m.Cost(k.best) && k.best_solution == AsReal(k.best))
    && (k.real_solution.Value? ==> Exact(m, root, Optimal(k.rootx, k.real_solution.v)))
    && (k.real_solution.Infinite? ==> frames == [] && k.totalnodes == 0 && k.count == 0)
    && GapOK(m, s, root, k.gap)
    && k.count <= 1
    && (k.brk <==> s.solutionlimit == 1 && k.count == 1 && k.real_solution.Value?
                   && k.best_OF - k.real_solution.v < s.epsprimal)
    && (k.brk ==> forall p: seq<int> :: m.Solution(root, p) ==> k.count > 0 && k.best_OF < m.Cost(p) + s.epsprimal)
    && (!k.brk ==> forall p: seq<int> :: m.Solution(root, p) ==>
          || (k.count > 0 && k.best_OF <= m.Cost(p) + k.gap.slack)
          || Pending(root, frames, p)
          || (current && BoxOf(root, frames).Has(p)))
  }

  /** The verdict on an exact relaxation of a box inside the root box is exact. */
  lemma VerdictExact(m: Model, s: Settings, root: Box, frames: seq<Frame>, k: Knowledge, n: nat)
    requires Exacting(m, s, root) && Sound(m, s, root, frames, true, k)
    ensures
      var box := BoxOf(root, frames);
      var r := s.relax(n, box);
      && Exact(m, box, r)
      && Assess(s.epsprimal, r, k.real_solution).0 == (if r.Optimal? then OPTIMAL else INFEASIBLE)
      && (r.Optimal? ==>
            && Assess(s.epsprimal, r, k.real_solution).1 == r.value
            && |r.x| == |root.lo| && root.HasReal(r.x) && box.HasReal(r.x)
            && (k.real_solution.Value? ==> k.real_solution.v <= r.value)
            && (k.real_solution.Infinite? ==> Exact(m, root, r)))
  {
    var box := BoxOf(root, frames);
    BoxIsInside(root, frames);
    var r := s.relax(n, box);
    assert Exact(m, box, r);
    if r.Optimal? {
      assert root.HasReal(r.x);
      if k.real_solution.Value? {
        ExactMonotone(m, root, box, Optimal(k.rootx, k.real_solution.v), r);
      }
      AssessExact(s.epsprimal, r, k.real_solution);
    }
  }

  /** What the search knows once the root value has been recorded. */
  function Recorded(k: Knowledge, r: Relaxation): (k': Knowledge)
    ensures r.Infeasible? ==> k' == k
    ensures k'.(real_solution := k.real_solution, rootx := k.rootx) == k
  {
    if r.Optimal? && k.real_solution.Infinite? then k.(real_solution := Value(r.value), rootx := r.x) else k
  }

  /** An infeasible node leaves nothing behind. */
  lemma LeafInfeasible(m: Model, s: Settings, root: Box, frames: seq<Frame>, k: Knowledge, n: nat)
    requires Exacting(m, s, root) && Sound(m, s, root, frames, true, k)
    requires Assess(s.epsprimal, s.relax(n, BoxOf(root, frames)), k.real_solution).0 == INFEASIBLE
    ensures Sound(m, s, root, frames, false, Recorded(k, s.relax(n, BoxOf(root, frames))))
  {
    VerdictExact(m, s, root, frames, k, n);
    var box := BoxOf(root, frames);
    forall p: seq<int> | m.Solution(root, p) && box.Has(p)
      ensures false
    {
      ExactBounds(m, box, s.relax(n, box), p);
    }
  }

  /** Recording the root value keeps the search sound. */
  lemma RecordSound(m: Model, s: Settings, root: Box, frames: seq<Frame>, k: Knowledge, n: nat)
    requires Exacting(m, s, root) && Sound(m, s, root, frames, true, k)
    ensures Sound(m, s, root, frames, true, Recorded(k, s.relax(n, BoxOf(root, frames))))
  {
    VerdictExact(m, s, root, frames, k, n);
  }

  /** With an exact relaxation a node is abandoned only when nothing in its box is better
      than the incumbent by more than the slack. */
  lemma LeafAbandoned(m: Model, s: Settings, root: Box, frames: seq<Frame>, k: Knowledge, r: Relaxation)
    requires Exacting(m, s, root) && Sound(m, s, root, frames, true, k) && k.real_solution.Value?
    requires Exact(m, BoxOf(root, frames), r) && r.Optimal? && k.real_solution.v <= r.value && root.HasReal(r.x)
    requires Abandoned(s, k.totalnodes, k.count, r.value, k.best_OF, k.real_solution)
    ensures k.count > 0 && Sound(m, s, root, frames, false, k)
  {
    var box := BoxOf(root, frames);
    BoxIsInside(root, frames);
    RelativeTestIsImplied(s.deltaOF, s.epsprimal, r.value, k.best_OF);
    assert r.value < s.infinite as real;
    assert k.count > 0 && !Better(s.deltaOF, s.epsprimal, false, r.value, k.best_OF);
    forall p: seq<int> | m.Solution(root, p) && box.Has(p)
      ensures k.best_OF <= m.Cost(p) + k.gap.slack
    {
      ExactBounds(m, box, r, p);
    }
  }

  function Floors(x: seq<real>): (p: seq<int>)
    ensures |p| == |x| && forall j :: 0 <= j < |x| ==> p[j] == x[j].Floor
  {
    seq(|x|, j requires 0 <= j < |x| => x[j].Floor)
  }

  /** An integral relaxation that is not abandoned becomes the incumbent; when it ends
      the search at the dual limit, it is optimal up to the tolerance. */
  lemma LeafAccepted(m: Model, s: Settings, root: Box, frames: seq<Frame>, k: Knowledge, r: Relaxation, k': Knowledge)
    requires Exacting(m, s, root) && Sound(m, s, root, frames, true, k) && k.real_solution.Value? && !k.brk
    requires Exact(m, BoxOf(root, frames), r) && r.Optimal?
    requires forall j :: 0 <= j < |r.x| ==> IsInt(r.x[j])
    requires !Abandoned(s, k.totalnodes, k.count, r.value, k.best_OF, k.real_solution)
    requires k'.count == CountAfter(s, k, r.value) && k'.best_solution == r.x && k'.best_OF == r.value
    requires k'.best == Floors(r.x)
    requires k'.real_solution == k.real_solution && k'.rootx == k.rootx && k'.totalnodes == k.totalnodes
    requires k'.brk <==> k'.count == 1 && AtDualLimit(s, r.value, k.real_solution)
    requires k'.gap == Kept(k, r.value)
    ensures Sound(m, s, root, frames, false, k')
  {
    var box := BoxOf(root, frames);
    BoxIsInside(root, frames);
    assert AsReal(k'.best) == r.x;
    assert m.Solution(root, k'.best);
    GapKept(m, s, root, k, k'.best);
    forall p: seq<int> | m.Solution(root, p) && box.Has(p)
      ensures k'.best_OF <= m.Cost(p)
    {
      ExactBounds(m, box, r, p);
    }
    if k'.brk {
      forall p: seq<int> | m.Solution(root, p)
        ensures k'.best_OF < m.Cost(p) + s.epsprimal
      {
        ExactBounds(m, root, Optimal(k.rootx, k.real_solution.v), p);
      }
    }
  }

  /** A new incumbent is worse than the last one by no more than the drift allows, and not at
      all when values are apart. */
  lemma GapKept(m: Model, s: Settings, root: Box, k: Knowledge, p: seq<int>)
    requires GapOK(m, s, root, k.gap) && m.Solution(root, p)
    requires k.count > 0 ==> m.Solution(root, k.best) && k.best_OF == m.Cost(k.best)
                             && Better(s.deltaOF, s.epsprimal, false, m.Cost(p), k.best_OF)
    ensures GapOK(m, s, root, Kept(k, m.Cost(p)))
  {
    if k.count > 0 && Separated(m, root, s.deltaOF, s.epsprimal) {
      BetterIsExact(m, root, s.deltaOF, s.epsprimal, p, k.best);
    }
    hide Separated;
  }

  /** What findnode_BB leaves after an optimal relaxation of the current box. */
  ghost predicate Found(s: Settings, box: Box, r: Relaxation, k: Knowledge, more: bool, k': Knowledge) {
    && r.Optimal? && |r.x| == |box.lo| == |box.up|
    && var rejected := Abandoned(s, k.totalnodes, k.count, r.value, k.best_OF, k.real_solution);
    && var integral := forall j :: 0 <= j < |r.x| ==> box.lo[j] == box.up[j] || IsInt(r.x[j]);
    && (more <==> !rejected && !integral)
    && (rejected || !integral ==> k' == k)
    && (!rejected && integral ==>
          && k'.count == CountAfter(s, k, r.value) > 0 && k'.best_solution == r.x && k'.best_OF == r.value
             && k'.best == Floors(r.x)
          && k'.real_solution == k.real_solution && k'.rootx == k.rootx && k'.totalnodes == k.totalnodes
          && k'.gap == Kept(k, r.value)
          && (k'.brk <==> k'.count == 1 && AtDualLimit(s, r.value, k.real_solution)))
  }

  /** An improved solution starts the count again, an equal one adds to it up to the limit. */
  function CountAfter(s: Settings, k: Knowledge, value: real): nat {
    if (k.count == 0 || Better(s.deltaOF, s.epsprimal, false, value, k.best_OF))
       && Better(s.deltaOF, s.epsprimal, true, value, k.best_OF) then 1
    else if s.solutionlimit <= 0 || k.count < s.solutionlimit then k.count + 1
    else k.count
  }

  /** A solution that was not abandoned is always counted as the first. */
  lemma CountAfterIs(s: Settings, k: Knowledge, value: real)
    requires s.epsprimal >= 0.0
    ensures k.count == 0 && Better(s.deltaOF, s.epsprimal, true, value, k.best_OF) ==> CountAfter(s, k, value) == 1
    ensures k.count > 0 && value + s.deltaOF - k.best_OF < s.epsprimal ==> CountAfter(s, k, value) == 1
    ensures k.count > 0 && value + s.deltaOF - k.best_OF >= s.epsprimal ==>
              CountAfter(s, k, value) == if 0 < s.solutionlimit <= k.count then k.count else k.count + 1
  {
    RelativeTestIsImplied(s.deltaOF, s.epsprimal, value, k.best_OF);
    hide RelDiff;
  }

  lemma FixedIsInt(box: Box, x: seq<real>)
    requires box.HasReal(x)
    requires forall j :: 0 <= j < |x| ==> box.lo[j] == box.up[j] || IsInt(x[j])
    ensures forall j :: 0 <= j < |x| ==> IsInt(x[j])
  {
    forall j | 0 <= j < |x|
      ensures IsInt(x[j])
    {
      BetweenEqualsIsInt(box.lo[j], box.up[j], x[j]);
    }
  }

  lemma BetweenEqualsIsInt(lo: int, up: int, x: real)
    requires lo as real <= x <= up as real
    ensures lo == up ==> IsInt(x)
  {
    if lo == up {
      AtInt(lo, x);
    }
  }

  lemma AtInt(n: int, x: real)
    requires x == n as real
    ensures IsInt(x)
  {
    assert x.Floor == n;
  }

  lemma FoundSound(m: Model, s: Settings, root: Box, frames: seq<Frame>, k: Knowledge, n: nat, more: bool,
                   k': Knowledge)
    requires Exacting(m, s, root) && Sound(m, s, root, frames, true, k) && !k.brk
    requires
      var r := s.relax(n, BoxOf(root, frames));
      r.Optimal? && Found(s, BoxOf(root, frames), r, Recorded(k, r), more, k')
    ensures more ==> !k'.brk && k'.real_solution.Value? && Sound(m, s, root, frames, true, k')
    ensures BoxOf(root, frames).HasReal(s.relax(n, BoxOf(root, frames)).x)
    ensures !more ==> k'.count > 0 && Sound(m, s, root, frames, false, k')
    ensures k'.gap.kept <= k.gap.kept + 1
  {
    var box := BoxOf(root, frames);
    var r := s.relax(n, box);
    hide Sound, Exact, Exacting, Better, FramesOK, BoxOf, AtDualLimit, Assess, IsInt;
    VerdictExact(m, s, root, frames, k, n);
    RecordSound(m, s, root, frames, k, n);
    if Abandoned(s, k.totalnodes, k.count, r.value, k.best_OF, Recorded(k, r).real_solution) {
      LeafAbandoned(m, s, root, frames, Recorded(k, r), r);
    } else if !more {
      FixedIsInt(box, r.x);
      LeafAccepted(m, s, root, frames, Recorded(k, r), r, k');
    }
  }

  lemma SoundPush(m: Model, s: Settings, root: Box, frames: seq<Frame>, f: Frame, k: Knowledge)
    requires Sound(m, s, root, frames, true, k) && k.real_solution.Value?
    requires f.col < |root.lo| && f.started == 1
    requires BoxOf(root, frames).lo[f.col] <= f.cut < BoxOf(root, frames).up[f.col]
    ensures Sound(m, s, root, frames + [f], true, k)
  {
    PushStep(root, frames, f);
  }

  lemma SoundTotalnodes(m: Model, s: Settings, root: Box, frames: seq<Frame>, k: Knowledge, totalnodes: nat)
    requires Sound(m, s, root, frames, true, k) && k.real_solution.Value?
    ensures Sound(m, s, root, frames, true, k.(totalnodes := totalnodes))
  {
  }

  lemma StartedPrefix(frames: seq<Frame>)
    ensures |Started(frames)| == |frames|
    ensures forall i :: 0 <= i < |frames| - 1 ==> Started(frames)[i] == frames[i]
  {
  }

  lemma StartedAppend(before: seq<Frame>, f: Frame)
    ensures Started(before + [f]) == before + [f.(started := f.started + 1)]
  {
  }

  lemma SoundNext(m: Model, s: Settings, root: Box, frames: seq<Frame>, k: Knowledge, totalnodes: nat)
    requires Sound(m, s, root, frames, false, k) && frames != [] && frames[|frames| - 1].started == 1
    ensures Sound(m, s, root, Started(frames), true, k.(totalnodes := totalnodes))
  {
    NextStep(root, frames, Started(frames));
  }

  lemma SoundPop(m: Model, s: Settings, root: Box, frames: seq<Frame>, k: Knowledge)
    requires Sound(m, s, root, frames, false, k) && frames != []
    requires !k.brk ==> frames[|frames| - 1].started != 1
    ensures Sound(m, s, root, frames[..|frames| - 1], false, k)
  {
    if !k.brk {
      PopStep(root, frames);
    }
  }

  /** Integer points and relaxations still to come: `current` counts the box of the last
      node as one that is about to be solved. */
  ghost function PointsLeft(root: Box, frames: seq<Frame>, current: bool): nat
    requires FramesOK(root, frames)
    requires Cols(root, frames)
  {
    PendingSize(root, frames) + (if current then Size(BoxOf(root, frames)) else 0)
  }

  ghost function SolvesLeft(root: Box, frames: seq<Frame>, current: bool): int
    requires FramesOK(root, frames)
    requires Cols(root, frames)
  {
    Work(root, frames) + (if current then 2 * Size(BoxOf(root, frames)) - 1 else 0)
  }

  lemma SolvesLeftPositive(root: Box, frames: seq<Frame>)
    requires FramesOK(root, frames) && Cols(root, frames)
    ensures SolvesLeft(root, frames, true) >= 1 && SolvesLeft(root, frames, false) >= 0
  {
    WorkNonNegative(root, frames);
    BoxIsInside(root, frames);
  }

  lemma LeftPush(root: Box, frames: seq<Frame>, f: Frame)
    requires FramesOK(root, frames) && Cols(root, frames) && f.col < |root.lo| && f.started == 1
    requires BoxOf(root, frames).lo[f.col] <= f.cut < BoxOf(root, frames).up[f.col]
    ensures FramesOK(root, frames + [f]) && Cols(root, frames + [f])
    ensures PointsLeft(root, frames + [f], true) == PointsLeft(root, frames, true)
    ensures SolvesLeft(root, frames + [f], true) == SolvesLeft(root, frames, true) - 1
  {
    PushStep(root, frames, f);
  }

  lemma LeftNext(root: Box, frames: seq<Frame>)
    requires FramesOK(root, frames) && Cols(root, frames) && frames != [] && frames[|frames| - 1].started == 1
    ensures FramesOK(root, Started(frames)) && Cols(root, Started(frames))
    ensures PointsLeft(root, Started(frames), true) == PointsLeft(root, frames, false)
    ensures SolvesLeft(root, Started(frames), true) == SolvesLeft(root, frames, false)
  {
    NextStep(root, frames, Started(frames));
  }

  lemma LeftPop(root: Box, frames: seq<Frame>)
    requires FramesOK(root, frames) && Cols(root, frames) && frames != []
    ensures FramesOK(root, frames[..|frames| - 1]) && Cols(root, frames[..|frames| - 1])
    ensures SolvesLeft(root, frames[..|frames| - 1], false) <= SolvesLeft(root, frames, false)
    ensures frames[|frames| - 1].started != 1 ==>
      PointsLeft(root, frames[..|frames| - 1], false) == PointsLeft(root, frames, false)
  {
    var f := frames[|frames| - 1];
    BoxIsInside(root, frames[..|frames| - 1]);
    SidesSize(BaseOf(root, frames), f.col, f.cut);
  }

  lemma LeafAccounts(root: Box, frames: seq<Frame>)
    requires FramesOK(root, frames) && Cols(root, frames)
    ensures |root.lo| == |root.up| && forall i :: 0 <= i < |frames| ==> frames[i].col < |root.lo|
    ensures PointsLeft(root, frames, true) == PointsLeft(root, frames, false) + Size(BoxOf(root, frames))
    ensures SolvesLeft(root, frames, false) <= SolvesLeft(root, frames, true) - 1
  {
    BoxIsInside(root, frames);
  }

  lemma EmptyAccounts(root: Box)
    requires FramesOK(root, []) && Cols(root, [])
    ensures PointsLeft(root, [], false) == 0
  {
  }

  /** At the end of a run nothing is pending. */
  lemma SoundEnd(m: Model, s: Settings, root: Box, k: Knowledge)
    requires Sound(m, s, root, [], false, k)
    ensures Finished(m, s, root, k)
    ensures k.count > 0 ==> m.Solution(root, k.best) && k.best_OF == m.Cost(k.best) && k.best_solution == AsReal(k.best)
  {
    forall p: seq<int> | m.Solution(root, p)
      ensures k.count > 0
      ensures k.best_OF <= m.Cost(p) + (if k.brk then s.epsprimal else Window(s) + Drift(s, k.gap.kept))
      ensures Separated(m, root, s.deltaOF, s.epsprimal) ==> k.best_OF <= m.Cost(p)
    {
      assert Separated(m, root, s.deltaOF, s.epsprimal) && m.Cost(p) < k.best_OF ==>
               Apart(s.deltaOF, s.epsprimal, m.Cost(p), m.Cost(k.best)) && s.epsprimal <= k.best_OF - m.Cost(p);
    }
  }

  lemma SoundStart(m: Model, s: Settings, root: Box, k: Knowledge)
    requires root.Valid() && !k.brk && k.count == 0 && k.real_solution.Infinite? && k.totalnodes == 0
    requires k.gap == Gap(Window(s), 0)
    ensures FramesOK(root, []) && Cols(root, []) && Sound(m, s, root, [], true, k)
    ensures SolvesLeft(root, [], true) == 2 * Size(root) - 1 && PointsLeft(root, [], true) == Size(root)
  {
  }
}
