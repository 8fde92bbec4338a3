/** The non-recursive branch and bound driver of lp_mipbb.c for pure integer models.
    Live nodes form a linked chain and share one pair of bound vectors, which two undo
    ladders keep correct. */
module BranchAndBound {
  import opened UndoLadders
  import opened SearchTree
  import opened SearchState

  const BB_REAL := 0
  const BB_INT := 1

  // ----- unwinding one ladder -----

  /** Undo what is logged in the last level. */
  method RestoreLevel(ladder: UndoLadder<int>, target: array<int>, ghost slacks: seq<int>, ghost base: seq<int>)
    requires ladder.Valid() && ladder.activelevel > 0
    requires ladder.rows == |slacks| - 1 && Undoes(slacks, ladder.levels[ladder.activelevel - 1], base, target[..])
    modifies ladder, target
    ensures ladder.Valid() && ladder.levels == old(ladder.levels)
    ensures target[..] == base
  {
    ghost var log := ladder.levels[ladder.activelevel - 1];
    RestoreGivesBase(log, ladder.rows, base, target[..]);
    assert forall e :: e in log ==> 0 <= e.0 + ladder.rows < target.Length;
    ladder.Restore(target);
  }

  /** The unwinding loop of pop_BB for one ladder: restore, then `track` times drop a
      level and restore the one below, which undoes the parent's current half too. */
  method Unwind(ladder: UndoLadder<int>, target: array<int>, track: nat,
                ghost slacks: seq<int>, ghost base: seq<int>, ghost below: seq<int>)
    requires ladder.Valid() && ladder.activelevel > 0 && track == 1
    requires ladder.rows == |slacks| - 1 && Undoes(slacks, ladder.levels[ladder.activelevel - 1], base, target[..])
    requires ladder.activelevel == 1 ==> below == base
    requires ladder.activelevel > 1 ==>
      Undoes(slacks, ladder.levels[ladder.activelevel - 2], below, base)
    modifies ladder, target
    ensures ladder.Valid() && ladder.levels == old(ladder.levels)[..old(ladder.activelevel) - 1]
    ensures target[..] == below
  {
    ghost var levels := ladder.levels;
    RestoreLevel(ladder, target, slacks, base);
    var t := track;
    while t > 0
      invariant t <= 1 && ladder.Valid()
      invariant t == 1 ==> ladder.levels == levels && target[..] == base
      invariant t == 0 ==> ladder.levels == levels[..|levels| - 1] && target[..] == below
    {
      ladder.Decrement();
      if ladder.activelevel > 0 {
        RestoreLevel(ladder, target, slacks, below);
      } else {
        ladder.Restore(target);
      }
      t := t - 1;
    }
  }

  /** How many of the first k columns are not fixed and have a fractional value. */
  function FractionalCount(lowbo: seq<int>, upbo: seq<int>, x: seq<real>, rows: nat, k: nat): nat
    requires k <= |x| && rows + k < |lowbo| && rows + k < |upbo|
  {
    if k == 0 then 0
    else FractionalCount(lowbo, upbo, x, rows, k - 1) + if lowbo[rows + k] != upbo[rows + k] && !IsInt(x[k - 1]) then 1
      else 0
  }

  lemma {:induction false} FractionalCountIs(lowbo: seq<int>, upbo: seq<int>, x: seq<real>, rows: nat, k: nat)
    requires k <= |x| && rows + k < |lowbo| && rows + k < |upbo|
    ensures FractionalCount(lowbo, upbo, x, rows, k)
            == |set j | 0 <= j < k && lowbo[rows + 1 + j] != upbo[rows + 1 + j] && !IsInt(x[j])|
  {
    hide IsInt;
    if k > 0 {
      FractionalCountIs(lowbo, upbo, x, rows, k - 1);
      var before := set j | 0 <= j < k - 1 && lowbo[rows + 1 + j] != upbo[rows + 1 + j] && !IsInt(x[j]);
      var after := set j | 0 <= j < k && lowbo[rows + 1 + j] != upbo[rows + 1 + j] && !IsInt(x[j]);
      if lowbo[rows + k] != upbo[rows + k] && !IsInt(x[k - 1]) {
        assert after == before + {k - 1} && k - 1 !in before;
      } else {
        assert after == before;
      }
    }
  }

  class BBrec {
    const upbo: array<int>
    const lowbo: array<int>
    var parent: BBrec?
    var child: BBrec?
    var varno: nat
    var vartype: int
    var nodesleft: int
    var nodessolved: nat
    var lastsolution: real
    var UPbound: int
    var LObound: int
    var UBtrack: nat
    var LBtrack: nat
    var isfloor: bool

    /** create_BB without a full copy: the new node shares the bound vectors. */
    constructor (parentBB: BBrec?, upbo: array<int>, lowbo: array<int>, varno: nat, vartype: int)
      ensures parent == parentBB && child == null && this.upbo == upbo && this.lowbo == lowbo
      ensures this.varno == varno && this.vartype == vartype
      ensures nodessolved == 0 && UBtrack == 0 && LBtrack == 0
    {
      this.upbo, this.lowbo := upbo, lowbo;
      parent, child := parentBB, null;
      this.varno, this.vartype := varno, vartype;
      nodesleft, nodessolved, UBtrack, LBtrack := 0, 0, 0, 0;
      lastsolution, UPbound, LObound, isfloor := 0.0, 0, 0, false;
    }
  }

  class Lprec {
    const rows: nat
    const columns: nat
    const model: Model
    const settings: Settings
    const orig_upbo: seq<int>
    const orig_lowbo: seq<int>
    var bb_bounds: BBrec?
    var bb_level: nat
    var bb_upperchange: UndoLadder<int>
    var bb_lowerchange: UndoLadder<int>
    var bb_break: bool
    var bb_totalnodes: nat
    var solves: nat                  // simplex calls so far
    var solution: seq<real>
    var solutionOF: real
    var real_solution: Limit
    var solutioncount: nat
    var best_solution: seq<real>
    var best_OF: real
    ghost var uppers: array<int>     // the shared vectors
    ghost var lowers: array<int>
    ghost var chain: seq<BBrec>      // live nodes, root first
    ghost var frames: seq<Frame>     // what the nodes below the root stand for
    ghost var best: seq<int>         // the incumbent as an integer point
    ghost var rootx: seq<real>       // the relaxation of the root
    ghost var tiled: nat             // integer points in the boxes of finished leaves
    ghost var gap: Gap               // what the incumbent may miss

    ghost predicate Dimensions() {
      && |orig_upbo| == |orig_lowbo| == rows + 1 + columns
      && Root().Valid() && 0.0 <= settings.epsprimal <= 0.5
    }

    function Root(): (b: Box)
      ensures |orig_upbo| == |orig_lowbo| == rows + 1 + columns ==> |b.lo| == |b.up| == columns
    {
      if |orig_upbo| == |orig_lowbo| == rows + 1 + columns then Box(orig_lowbo[rows + 1..], orig_upbo[rows + 1..])
      else Box([], [])
    }

    ghost function Slacks(upper: bool): (s: seq<int>)
      requires Dimensions()
      ensures |s| == rows + 1
    {
      if upper then orig_upbo[..rows + 1] else orig_lowbo[..rows + 1]
    }

    ghost predicate NodeMatches(node: BBrec, f: Frame)
      reads node`varno, node`vartype, node`UPbound, node`LObound, node`isfloor, node`nodesleft
    {
      && node.varno == rows + 1 + f.col && node.vartype == BB_INT
      && (f.started > 0 ==> Filled(node, f))
    }

    ghost predicate Filled(node: BBrec, f: Frame)
      reads node`UPbound, node`LObound, node`isfloor, node`nodesleft
    {
      node.UPbound == f.cut && node.LObound == f.cut + 1 && node.isfloor == f.IsFloor()
        && node.nodesleft == 2 - f.started
    }

    /** The nodes of the chain are linked, distinct and share the bound vectors. */
    ghost predicate Linked()
      reads `chain, `bb_bounds, `bb_level, `uppers, `lowers
      reads chain`parent, chain`child, chain`UBtrack, chain`LBtrack
    {
      && (forall i, j :: 0 <= i < j < |chain| ==> chain[i] != chain[j])
      && (forall node :: node in chain ==>
            && node.upbo == uppers && node.lowbo == lowers && node.UBtrack == 1 && node.LBtrack == 1)
      && (forall i {:trigger chain[i].parent} :: 0 < i < |chain| ==> chain[i].parent == chain[i - 1])
      && (forall i {:trigger chain[i].child} :: 0 <= i < |chain| - 1 ==> chain[i].child == chain[i + 1])
      && (chain == [] ==> bb_bounds == null)
      && (chain != [] ==>
         chain[0].parent == null && chain[|chain| - 1].child == null && bb_bounds == chain[|chain| - 1])
      && bb_level == |chain|
    }

    ghost predicate Ladders()
      reads `bb_upperchange, `bb_lowerchange, `uppers, `lowers, `chain, `frames
      reads bb_upperchange, bb_lowerchange, uppers, lowers
    {
      && Dimensions()
      && bb_upperchange != bb_lowerchange && uppers != lowers
      && bb_upperchange.Valid() && bb_upperchange.rows == rows
      && bb_lowerchange.Valid() && bb_lowerchange.rows == rows
      && (chain == [] ==> bb_upperchange.levels == [] && bb_lowerchange.levels == [])
      && (chain != [] ==>
            && (forall i :: 0 <= i < |frames| - 1 ==> frames[i].started > 0)
            && LaddersFit(Slacks(true), Slacks(false), Root(), frames,
                          bb_upperchange.levels, bb_lowerchange.levels, uppers[..], lowers[..]))
    }

    ghost predicate Valid()
      reads `chain, `frames, `bb_bounds, `bb_level, `bb_upperchange, `bb_lowerchange, `uppers, `lowers
      reads bb_upperchange, bb_lowerchange, uppers, lowers
      reads chain`parent, chain`child, chain`UBtrack, chain`LBtrack
      reads chain`varno, chain`vartype, chain`UPbound, chain`LObound, chain`isfloor, chain`nodesleft
    {
      Dimensions() && Linked() && Matches() && Ladders()
    }

    /** The root carries no branching; the other nodes carry the frames. */
    ghost predicate Matches()
      reads `chain, `frames, chain`varno, chain`vartype, chain`UPbound, chain`LObound, chain`isfloor, chain`nodesleft
    {
      && (chain == [] ==> frames == [])
      && (chain != [] ==> |chain| == |frames| + 1 && chain[0].varno == 0 && chain[0].vartype == BB_REAL)
      && (forall i :: 0 <= i < |frames| ==> NodeMatches(chain[i + 1], frames[i]))
      && (frames != [] ==> chain[0].nodesleft == 0)
    }

    /** The bound vectors are those of `box`, with the slacks untouched. */
    ghost predicate BoundsAre(box: Box)
      requires Dimensions()
      reads `uppers, `lowers, uppers, lowers
    {
      uppers[..] == Vec(true, Slacks(true), box) && lowers[..] == Vec(false, Slacks(false), box)
    }

    /** Bounds of the last node before its half is imposed. */
    ghost predicate AtBase()
      reads `frames, `uppers, `lowers, uppers, lowers
    {
      Dimensions() && Cols(Root(), frames) && BoundsAre(BaseOf(Root(), frames))
    }

    /** Bounds of the root overridden by the current half of every live node. */
    ghost predicate Imposed()
      reads `frames, `uppers, `lowers, uppers, lowers
    {
      Dimensions() && Cols(Root(), frames) && BoundsAre(BoxOf(Root(), frames))
    }

    ghost predicate AllStarted()
      reads `frames
    {
      forall i :: 0 <= i < |frames| ==> frames[i].started > 0
    }

    constructor (rows: nat, columns: nat, model: Model, settings: Settings, orig_lowbo: seq<int>, orig_upbo: seq<int>)
      ensures this.rows == rows && this.columns == columns && this.model == model && this.settings == settings
      ensures this.orig_lowbo == orig_lowbo && this.orig_upbo == orig_upbo
      ensures fresh(uppers) && fresh(lowers) && chain == []
      ensures !bb_break && bb_totalnodes == 0 && solves == 0 && solutioncount == 0 && real_solution.Infinite?
      ensures tiled == 0
      ensures gap == Gap(Window(settings), 0)
      ensures Dimensions() ==> Valid()
    {
      this.rows, this.columns, this.model, this.settings := rows, columns, model, settings;
      this.orig_lowbo, this.orig_upbo := orig_lowbo, orig_upbo;
      bb_bounds, bb_level, bb_break, bb_totalnodes, solves := null, 0, false, 0, 0;
      bb_upperchange := new UndoLadder<int>(rows);
      bb_lowerchange := new UndoLadder<int>(rows);
      solution, solutionOF, real_solution := [], 0.0, Infinite;
      solutioncount, best_solution, best_OF := 0, [], settings.infinite as real;
      var none, nothing := new int[0], new int[0];
      uppers, lowers, chain, frames := none, nothing, [], [];
      best, rootx, tiled, gap := [], [], 0, Gap(Window(settings), 0);
    }

    /** The last node leaves the chain. */
    method Unlink(BB: BBrec) returns (parentBB: BBrec?)
      requires Linked() && Matches() && chain != [] && BB == chain[|chain| - 1]
      modifies `bb_bounds, `bb_level, `chain, `frames, BB.parent
      ensures Linked() && Matches() && parentBB == bb_bounds
      ensures chain != [] ==> parentBB != null
      ensures chain != [] && frames == [] ==> parentBB.nodesleft == 0
      ensures bb_level == old(bb_level) - 1
      ensures chain == old(chain)[..|old(chain)| - 1]
      ensures frames == if old(frames) == [] then [] else old(frames)[..|old(frames)| - 1]
    {
      parentBB := BB.parent;
      bb_bounds := parentBB;
      if parentBB != null {
        parentBB.child := null;
      }
      bb_level := bb_level - 1;
      chain := chain[..|chain| - 1];
      if frames != [] {
        frames := frames[..|frames| - 1];
      }
    }

    /** What Valid says of the last node and the ladders. */
    lemma LastNode(BB: BBrec, shorter: seq<Frame>)
      requires Valid() && chain != [] && BB == chain[|chain| - 1]
      requires shorter == if frames == [] then [] else frames[..|frames| - 1]
      ensures Dimensions() && Linked() && Matches() && Cols(Root(), frames) && Cols(Root(), shorter)
      ensures BB.upbo == uppers && BB.lowbo == lowers && BB.UBtrack == 1 && BB.LBtrack == 1
      ensures |chain| == |frames| + 1 && bb_level == |chain| && Slacks(true) != [] && Slacks(false) != []
      ensures |Root().lo| == |Root().up| && BB.parent != BB
      ensures forall i :: 0 <= i < |frames| ==> frames[i].col < |Root().lo|
      ensures forall i :: 0 <= i < |frames| - 1 ==> frames[i].started > 0
      ensures forall i :: 0 <= i < |shorter| - 1 ==> shorter[i].started > 0
      ensures uppers.Length == lowers.Length == rows + 1 + columns
      ensures uppers != lowers && bb_upperchange != bb_lowerchange
      ensures bb_upperchange.Valid() && bb_upperchange.rows == rows == |Slacks(true)| - 1
      ensures bb_lowerchange.Valid() && bb_lowerchange.rows == rows == |Slacks(false)| - 1
      ensures bb_upperchange.activelevel == bb_lowerchange.activelevel == |frames| + 1
      ensures Undoes(Slacks(true), bb_upperchange.levels[|frames|], Vec(true, Slacks(true), BaseOf(Root(), frames)),
                uppers[..])
      ensures Undoes(Slacks(false), bb_lowerchange.levels[|frames|], Vec(false, Slacks(false), BaseOf(Root(), frames)),
                lowers[..])
      ensures AtBase() ==> uppers[..] == Vec(true, Slacks(true), BaseOf(Root(), frames))
                           && lowers[..] == Vec(false, Slacks(false), BaseOf(Root(), frames))
      ensures LaddersFit(Slacks(true), Slacks(false), Root(), frames, bb_upperchange.levels, bb_lowerchange.levels,
                Vec(true, Slacks(true), BaseOf(Root(), frames)), Vec(false, Slacks(false), BaseOf(Root(), frames)))
      ensures frames == [] ==> BaseOf(Root(), shorter) == BaseOf(Root(), frames)
      ensures frames != [] ==>
        && Undoes(Slacks(true), bb_upperchange.levels[|frames| - 1],
                  Vec(true, Slacks(true), BaseOf(Root(), shorter)), Vec(true, Slacks(true), BaseOf(Root(), frames)))
        && Undoes(Slacks(false), bb_lowerchange.levels[|frames| - 1],
                  Vec(false, Slacks(false), BaseOf(Root(), shorter)), Vec(false, Slacks(false), BaseOf(Root(), frames)))
        && LaddersFit(Slacks(true), Slacks(false), Root(), shorter, bb_upperchange.levels[..|frames|],
           bb_lowerchange.levels[..|frames|], Vec(true, Slacks(true), BaseOf(Root(), shorter)),
             Vec(false, Slacks(false), BaseOf(Root(), shorter)))
    {
      assert BB in chain && |chain| == |frames| + 1;
      if |chain| > 1 {
        assert chain[|chain| - 1].parent == chain[|chain| - 2];
      }
      hide LaddersFit, FramesOK, StackOK, LevelUndoes, LevelOK, BoxOf, BaseOf, Undoes, UndoLadder<int>.Valid;
      FitTop(Slacks(true), Slacks(false), Root(), frames, bb_upperchange.levels, bb_lowerchange.levels, uppers[..],
        lowers[..]);
      FitBase(Slacks(true), Slacks(false), Root(), frames, bb_upperchange.levels, bb_lowerchange.levels, uppers[..],
        lowers[..]);
      if frames != [] {
        FitPop(Slacks(true), Slacks(false), Root(), frames, shorter,
               bb_upperchange.levels, bb_lowerchange.levels, uppers[..], lowers[..]);
      }
    }

    /** The state is valid again once the bounds are those the last node found. */
    lemma ValidAtBase()
      requires Dimensions() && Linked() && Matches() && Cols(Root(), frames)
      requires uppers != lowers && bb_upperchange != bb_lowerchange
      requires bb_upperchange.Valid() && bb_lowerchange.Valid() && bb_upperchange.rows == bb_lowerchange.rows == rows
      requires chain == [] ==> bb_upperchange.levels == [] && bb_lowerchange.levels == []
      requires chain != [] ==>
        && (forall i :: 0 <= i < |frames| - 1 ==> frames[i].started > 0)
        && uppers[..] == Vec(true, Slacks(true), BaseOf(Root(), frames))
        && lowers[..] == Vec(false, Slacks(false), BaseOf(Root(), frames))
        && uppers.Length == lowers.Length == rows + 1 + columns
        && LaddersFit(Slacks(true), Slacks(false), Root(), frames,
                      bb_upperchange.levels, bb_lowerchange.levels, uppers[..], lowers[..])
      ensures Valid() && (chain != [] ==> AtBase())
    {
      hide LaddersFit, FramesOK, StackOK, LevelUndoes, LevelOK, BoxOf, BaseOf, Undoes, UndoLadder<int>.Valid, Linked,
        Matches;
    }

    /** pop_BB at the end of the chain, the only place where the driver pops. */
    method PopBB(BB: BBrec) returns (parentBB: BBrec?)
      requires Valid() && chain != [] && BB == chain[|chain| - 1]
      modifies `bb_bounds, `bb_level, `chain, `frames, BB.parent
      modifies bb_upperchange, bb_lowerchange, uppers, lowers
      ensures Valid()
      ensures chain == old(chain)[..|old(chain)| - 1] && parentBB == bb_bounds
      ensures frames == if old(frames) == [] then [] else old(frames)[..|old(frames)| - 1]
      ensures chain != [] ==> AtBase()
      ensures chain != [] ==> parentBB != null
      ensures chain != [] && frames == [] ==> parentBB.nodesleft == 0
      ensures bb_level == old(bb_level) - 1
    {
      hide *;
      ghost var shorter := if frames == [] then [] else frames[..|frames| - 1];
      LastNode(BB, shorter);
      ghost var base, below := BaseOf(Root(), frames), BaseOf(Root(), shorter);
      parentBB := Unlink(BB);
      Unwind(bb_upperchange, BB.upbo, BB.UBtrack, Slacks(true), Vec(true, Slacks(true), base),
        Vec(true, Slacks(true), below));
      Unwind(bb_lowerchange, BB.lowbo, BB.LBtrack, Slacks(false), Vec(false, Slacks(false), base),
        Vec(false, Slacks(false), below));
      ValidAtBase();
    }

    /** Step to the other direction and count the branch. */
    method Turn(BB: BBrec)
      requires Linked() && Matches() && frames != [] && BB == chain[|chain| - 1]
      requires Filled(BB, frames[|frames| - 1]) && frames[|frames| - 1].started < 2
      modifies `bb_totalnodes, `frames, BB`isfloor, BB`nodesleft
      ensures Linked() && Matches() && bb_totalnodes == old(bb_totalnodes) + 1
      ensures frames == Started(old(frames)) && Filled(BB, frames[|frames| - 1])
    {
      assert forall i :: 0 <= i < |chain| - 1 ==> chain[i] != BB;
      assert NodeMatches(BB, frames[|frames| - 1]) && |chain| == |frames| + 1;
      hide Linked, NodeMatches, Started;
      StartedIs(frames);
      BB.isfloor := !BB.isfloor;
      BB.nodesleft := BB.nodesleft - 1;
      bb_totalnodes := bb_totalnodes + 1;
      ghost var before := frames;
      frames := Started(frames);
      assert Linked();
      forall i | 0 <= i < |frames|
        ensures NodeMatches(chain[i + 1], frames[i])
      {
        if i < |frames| - 1 {
          assert frames[i] == before[i] && old(NodeMatches(chain[i + 1], before[i]));
        } else {
          NodeTurned(BB, before[i]);
        }
      }
    }

    lemma StartedIs(s: seq<Frame>)
      requires s != []
      ensures Started(s) == s[|s| - 1 := s[|s| - 1].(started := s[|s| - 1].started + 1)]
    {
    }

    lemma NodeTurned(BB: BBrec, f: Frame)
      requires BB.varno == rows + 1 + f.col && BB.vartype == BB_INT && Filled(BB, f.(started := f.started + 1))
      ensures NodeMatches(BB, f.(started := f.started + 1))
    {
    }

    /** nextbranch_BB for integer nodes: take back the bounds of the branch just run
        and turn to the other direction if one is left. */
    method NextBranch(BB: BBrec) returns (ok: bool)
      requires Valid() && chain != [] && BB == chain[|chain| - 1]
      requires BB.nodessolved == 0 ==> AtBase()
      requires frames == [] ==> BB.nodesleft == 0
      requires frames != [] ==> Filled(BB, frames[|frames| - 1])
      modifies `bb_totalnodes, `frames, BB`isfloor, BB`nodesleft, bb_upperchange, bb_lowerchange, uppers, lowers
      ensures Valid() && AtBase()
      ensures ok == (!bb_break && old(frames) != [] && old(frames)[|old(frames)| - 1].started < 2)
      ensures bb_totalnodes == old(bb_totalnodes) + if ok then 1 else 0
      ensures frames == if ok then Started(old(frames)) else old(frames)
      ensures frames == [] ==> BB.nodesleft == 0
      ensures frames != [] ==> Filled(BB, frames[|frames| - 1])
    {
      hide *;
      LastNode(BB, if frames == [] then [] else frames[..|frames| - 1]);
      ghost var base := BaseOf(Root(), frames);
      if frames != [] {
        FilledLeft(BB);
      }
      ok := false;
      if BB.nodessolved > 0 {
        RestoreLevel(bb_upperchange, BB.upbo, Slacks(true), Vec(true, Slacks(true), base));
        RestoreLevel(bb_lowerchange, BB.lowbo, Slacks(false), Vec(false, Slacks(false), base));
      }
      if bb_break {
        ValidAtBase();
        return;
      }
      if BB.nodesleft > 0 {
        FitStart(Slacks(true), Slacks(false), Root(), frames, bb_upperchange.levels, bb_lowerchange.levels,
                 Vec(true, Slacks(true), base), Vec(false, Slacks(false), base));
        StartedPrefix(frames);
        Turn(BB);
        ok := true;
      }
      ValidAtBase();
    }

    lemma FilledLeft(BB: BBrec)
      requires frames != [] && Filled(BB, frames[|frames| - 1])
      ensures BB.nodesleft > 0 <==> frames[|frames| - 1].started < 2
    {
    }

    /** The state after one simplex call that answered `r`. */
    ghost predicate Outcome(r: Relaxation, status: Status, before: Limit)
      reads `solution, `solutionOF, `real_solution
    {
      var (verdict, value) := Assess(settings.epsprimal, r, before);
      && status == verdict
      && (status == OPTIMAL ==> solution == r.x && solutionOF == value)
      && real_solution == if r.Optimal? && before.Infinite? then Value(r.value) else before
    }

    /** solve_LP, with the simplex run on the node's own bounds. */
    method SolveLP(BB: BBrec) returns (status: Status)
      requires BB.upbo.Length == BB.lowbo.Length == rows + 1 + columns
      modifies `solves, `solution, `solutionOF, `real_solution
      ensures bb_break ==> status == PROCBREAK && solves == old(solves) && real_solution == old(real_solution)
      ensures !bb_break ==>
        && solves == old(solves) + 1
        && Outcome(settings.relax(old(solves), Box(BB.lowbo[rows + 1..], BB.upbo[rows + 1..])), status,
           old(real_solution))
    {
      if bb_break {
        return PROCBREAK;
      }
      var r := settings.relax(solves, Box(BB.lowbo[rows + 1..], BB.upbo[rows + 1..]));
      solves := solves + 1;
      var (verdict, value) := Assess(settings.epsprimal, r, real_solution);
      status := verdict;
      if r.Optimal? {
        if real_solution.Infinite? {
          real_solution := Value(r.value);
        }
        solution, solutionOF := r.x, value;
      }
    }

    /** Force the branching variable of the last node into its current half. */
    method Impose(BB: BBrec)
      requires Valid() && frames != [] && BB == chain[|chain| - 1] && AtBase() && AllStarted()
      modifies bb_upperchange, bb_lowerchange, uppers, lowers
      ensures Valid() && Imposed()
    {
      hide LaddersFit, FramesOK, StackOK, LevelUndoes, LevelOK, BoxOf, BaseOf, Undoes, UndoLadder<int>.Valid, Linked;
      LinkedVectors(BB);
      ghost var f := frames[|frames| - 1];
      ghost var usl, lsl, ul, ll := Slacks(true), Slacks(false), bb_upperchange.levels, bb_lowerchange.levels;
      FitTop(usl, lsl, Root(), frames, ul, ll, uppers[..], lowers[..]);
      assert NodeMatches(BB, f);
      hide NodeMatches, Matches;
      if BB.isfloor {
        bb_upperchange.Modify(BB.varno, BB.upbo, BB.UPbound);
        FitFloor(usl, lsl, Root(), frames, f, BB.varno, old(uppers[..]), ul, ll, bb_upperchange.levels);
      } else {
        bb_lowerchange.Modify(BB.varno, BB.lowbo, BB.LObound);
        FitCeiling(usl, lsl, Root(), frames, f, BB.varno, old(lowers[..]), ul, ll, bb_lowerchange.levels);
      }
    }

    lemma LinkedVectors(BB: BBrec)
      requires Linked() && BB in chain
      ensures BB.upbo == uppers && BB.lowbo == lowers
    {
    }

    method CountSolved(BB: BBrec)
      requires Linked() && Matches()
      modifies BB`nodessolved
      ensures Linked() && Matches() && BB.nodessolved == old(BB.nodessolved) + 1
    {
      BB.nodessolved := BB.nodessolved + 1;
    }

    /** The first part of solve_BB: load the bound of the current half, if any. */
    method LoadBounds(BB: BBrec)
      requires Valid() && chain != [] && BB == chain[|chain| - 1] && AtBase() && AllStarted()
      modifies BB`nodessolved, bb_upperchange, bb_lowerchange, uppers, lowers
      ensures Valid() && Imposed()
      ensures BB.nodessolved == 0 ==> AtBase()
    {
      assert BB.varno > 0 <==> frames != [] by {
        if frames != [] { assert NodeMatches(BB, frames[|frames| - 1]); }
      }
      hide *;
      if BB.varno > 0 {
        Impose(BB);
        CountSolved(BB);
      }
    }

    /** What the simplex sees of an imposed node is the node's box. */
    lemma ImposedColumns(BB: BBrec)
      requires Valid() && chain != [] && BB == chain[|chain| - 1] && Imposed()
      ensures BB.upbo == uppers && BB.lowbo == lowers && uppers.Length == lowers.Length == rows + 1 + columns
      ensures Box(BB.lowbo[rows + 1..], BB.upbo[rows + 1..]) == BoxOf(Root(), frames)
    {
      var box := BoxOf(Root(), frames);
      assert BB in chain;
      hide LaddersFit, BoxOf, FramesOK, Linked, Matches;
      ColumnsOf(Slacks(true), box);
      ColumnsOf(Slacks(false), box);
      assert uppers[rows + 1..] == uppers[..][rows + 1..];
      assert lowers[rows + 1..] == lowers[..][rows + 1..];
    }

    /** solve_BB: impose the current half of the node and solve. */
    method SolveBB(BB: BBrec) returns (status: Status)
      requires Valid() && chain != [] && BB == chain[|chain| - 1] && AtBase() && AllStarted()
      modifies BB`nodessolved, bb_upperchange, bb_lowerchange, uppers, lowers
      modifies `solves, `solution, `solutionOF, `real_solution
      ensures Valid() && Imposed()
      ensures BB.nodessolved == 0 ==> AtBase()
      ensures bb_break ==> status == PROCBREAK && solves == old(solves) && real_solution == old(real_solution)
      ensures !bb_break ==>
        && solves == old(solves) + 1
        && Outcome(settings.relax(old(solves), BoxOf(Root(), frames)), status, old(real_solution))
    {
      hide *;
      LoadBounds(BB);
      ImposedColumns(BB);
      status := SolveLP(BB);
    }

    /** create_BB: the root gets its own copy of the original bounds, every other
        node shares its parent's vectors. */
    method CreateBB(parentBB: BBrec?, varno: nat, vartype: int) returns (newBB: BBrec)
      requires Dimensions()
      requires parentBB != null ==> parentBB.upbo == uppers && parentBB.lowbo == lowers
      modifies `uppers, `lowers
      ensures fresh(newBB) && newBB.parent == parentBB && newBB.child == null
      ensures newBB.varno == varno && newBB.vartype == vartype
      ensures newBB.nodessolved == 0 && newBB.UBtrack == 0 && newBB.LBtrack == 0
      ensures newBB.upbo == uppers && newBB.lowbo == lowers
      ensures parentBB != null ==> uppers == old(uppers) && lowers == old(lowers)
      ensures parentBB == null ==> fresh(uppers) && fresh(lowers) && uppers != lowers
                                   && uppers[..] == orig_upbo && lowers[..] == orig_lowbo
    {
      if parentBB == null {
        var upbo := new int[|orig_upbo|](i requires 0 <= i < |orig_upbo| => orig_upbo[i]);
        var lowbo := new int[|orig_lowbo|](i requires 0 <= i < |orig_lowbo| => orig_lowbo[i]);
        newBB := new BBrec(null, upbo, lowbo, varno, vartype);
        uppers, lowers := upbo, lowbo;
        assert uppers[..] == orig_upbo && lowers[..] == orig_lowbo;
      } else {
        newBB := new BBrec(parentBB, parentBB.upbo, parentBB.lowbo, varno, vartype);
      }
    }

    /** The new node becomes the end of the chain. */
    method Link(newBB: BBrec, parentBB: BBrec?, ghost f: Frame)
      requires Linked() && Matches() && parentBB == bb_bounds
      requires newBB !in chain && newBB.parent == parentBB && newBB.child == null
      requires newBB.upbo == uppers && newBB.lowbo == lowers && newBB.UBtrack == 1 && newBB.LBtrack == 1
      requires if parentBB == null then newBB.varno == 0 && newBB.vartype == BB_REAL
               else NodeMatches(newBB, f) && f.started == 0 && chain != [] && (frames == [] ==> parentBB.nodesleft == 0)
      modifies `bb_bounds, `bb_level, `chain, `frames, bb_bounds
      ensures Linked() && Matches() && bb_bounds == newBB && bb_level == old(bb_level) + 1
      ensures chain == old(chain) + [newBB]
      ensures frames == if parentBB == null then [] else old(frames) + [f]
    {
      bb_bounds := newBB;
      if parentBB != null {
        parentBB.child := newBB;
        frames := frames + [f];
      }
      bb_level := bb_level + 1;
      chain := chain + [newBB];
    }

    /** The node at the end of the chain, fresh from push_BB, and the split it makes. */
    ghost predicate Prepared(BB: BBrec, x: real)
      reads `chain, `frames, `bb_totalnodes, BB
    {
      && chain != [] && BB == chain[|chain| - 1] && BB.nodessolved == 0
      && (BB.varno == 0 <==> frames == [])
      && (frames != [] ==>
            var f := frames[|frames| - 1];
            && f.started == 0 && BB.varno == rows + 1 + f.col
            && !IsInt(x) && f.cut == Floor(x) && f.floorFirst == settings.floorFirst(bb_totalnodes, f.col))
    }

    method SetFields(BB: BBrec, x: real, UPbound: int, LObound: int, nodesleft: int, isfloor: bool)
      requires Matches() && Prepared(BB, x) && forall i, j :: 0 <= i < j < |chain| ==> chain[i] != chain[j]
      modifies BB`UPbound, BB`LObound, BB`nodesleft, BB`isfloor, BB`lastsolution
      ensures Matches() && Prepared(BB, x)
      ensures BB.UPbound == UPbound && BB.LObound == LObound && BB.nodesleft == nodesleft && BB.isfloor == isfloor
      ensures BB.lastsolution == x
    {
      BB.UPbound, BB.LObound, BB.nodesleft, BB.isfloor, BB.lastsolution := UPbound, LObound, nodesleft, isfloor, x;
    }

    lemma ValidParts()
      requires Valid()
      ensures Dimensions() && Linked() && Matches() && Ladders()
      ensures forall i, j :: 0 <= i < j < |chain| ==> chain[i] != chain[j]
    {
    }

    lemma ValidFrom()
      requires Dimensions() && Linked() && Matches() && Ladders()
      ensures Valid()
    {
    }

    method SetBranches(BB: BBrec, x: real, UPbound: int, LObound: int, nodesleft: int, isfloor: bool)
      requires Valid() && Prepared(BB, x)
      modifies BB`UPbound, BB`LObound, BB`nodesleft, BB`isfloor, BB`lastsolution
      ensures Valid() && Prepared(BB, x)
      ensures BB.UPbound == UPbound && BB.LObound == LObound && BB.nodesleft == nodesleft && BB.isfloor == isfloor
      ensures BB.lastsolution == x
    {
      hide *;
      ValidParts();
      SetFields(BB, x, UPbound, LObound, nodesleft, isfloor);
      ValidFrom();
    }

    /** The bounds a new node finds for its branching variable. */
    lemma NodeBounds(BB: BBrec, x: real)
      requires Valid() && Prepared(BB, x) && AtBase() && BB.varno > 0
      ensures BB.upbo == uppers && BB.lowbo == lowers && frames != []
      ensures bb_upperchange.Valid() && bb_lowerchange.Valid()
      ensures !IsInt(x) && frames[|frames| - 1].cut == Floor(x) && 0.0 <= settings.epsprimal <= 0.5
      ensures BB.varno < uppers.Length == lowers.Length == |orig_upbo| == |orig_lowbo|
      ensures
        var col := frames[|frames| - 1].col;
        && lowers[BB.varno] == BaseOf(Root(), frames).lo[col] && uppers[BB.varno] == BaseOf(Root(), frames).up[col]
        && orig_lowbo[BB.varno] <= lowers[BB.varno] && uppers[BB.varno] <= orig_upbo[BB.varno]
      ensures lowers[BB.varno] as real <= x <= uppers[BB.varno] as real
    {
      var col := frames[|frames| - 1].col;
      assert BB in chain;
      assert FramesOK(Root(), frames[..|frames| - 1]);
      BoxIsInside(Root(), frames[..|frames| - 1]);
      hide LaddersFit, BoxOf, FramesOK, Linked, Matches, BaseOf;
      assert lowers[BB.varno] == lowers[..][BB.varno] && uppers[BB.varno] == uppers[..][BB.varno];
    }

    lemma FilledNow(BB: BBrec, x: real)
      requires Prepared(BB, x) && frames != []
      requires BB.UPbound == Floor(x) && BB.LObound == Floor(x) + 1 && BB.nodesleft == 2
      requires BB.isfloor == !frames[|frames| - 1].floorFirst
      ensures Filled(BB, frames[|frames| - 1]) && chain != [] && BB == chain[|chain| - 1]
      ensures frames[|frames| - 1].started == 0
    {
    }

    lemma RootPrepared(BB: BBrec, x: real)
      requires Prepared(BB, x) && BB.varno == 0
      ensures frames == [] && Started(frames) == frames
    {
    }

    /** fillbranches_BB: set both branches of the new node and step to the first. */
    method FillBranches(BB: BBrec, x: real) returns (ok: bool)
      requires Valid() && Prepared(BB, x) && AtBase() && BB.lastsolution == x
      requires BB.varno == 0 ==> BB.nodesleft == 1
      requires BB.varno > 0 ==>
        && BB.nodesleft == 2 && BB.isfloor == frames[|frames| - 1].floorFirst
        && |bb_upperchange.levels| == |bb_lowerchange.levels| == |frames| + 1
        && bb_upperchange.levels[|frames|] == [] && bb_lowerchange.levels[|frames|] == []
      modifies `bb_totalnodes, `frames, BB`UPbound, BB`LObound, BB`nodesleft, BB`isfloor, BB`lastsolution
      modifies bb_upperchange, bb_lowerchange, uppers, lowers
      ensures Valid() && AtBase() && ok == !bb_break
      ensures frames == if ok then Started(old(frames)) else old(frames)
      ensures ok && frames != [] ==> Filled(BB, frames[|frames| - 1])
      ensures ok && frames == [] ==> BB.nodesleft == 0
      ensures BB.varno == 0 ==> bb_totalnodes == old(bb_totalnodes)
    {
      hide *;
      ok := false;
      if bb_break {
        return;
      }
      var K := BB.varno;
      if K > 0 {
        NodeBounds(BB, x);
        var UPbound, LObound, left := BranchBounds(BB.lastsolution, orig_lowbo[K], orig_upbo[K],
                                                   BB.lowbo[K], BB.upbo[K], settings.infinite, settings.epsprimal);
        // Make sure the change tracker levels are clean
        var u := bb_upperchange.Counts();
        var l := bb_lowerchange.Counts();
        assert u == 0 && l == 0;
        // Do adjustments
        var (dir, branches) := FirstBranch(BB.isfloor, left, UPbound, LObound, BB.lowbo[K], BB.upbo[K],
          settings.infinite);
        // Header initialization
        SetBranches(BB, x, UPbound, LObound, branches, !dir);
        FilledNow(BB, x);
        while !ok && !bb_break && BB.nodesleft > 0
          invariant Valid() && AtBase() && frames != [] && BB == chain[|chain| - 1]
          invariant Filled(BB, frames[|frames| - 1])
          invariant !ok ==> BB.nodesleft > 0 && frames[|frames| - 1].started == 0
          invariant frames == if ok then Started(old(frames)) else old(frames)
          decreases !ok
        {
          ok := NextBranch(BB);
        }
      } else {
        RootPrepared(BB, x);
        SetBranches(BB, x, BB.UPbound, BB.LObound, BB.nodesleft - 1, BB.isfloor);
        ok := true;
      }
    }

    /** initbranches_BB: one branch for the root, two for an integer node. */
    method InitBranches(BB: BBrec, ghost x: real) returns (ok: bool)
      requires Valid() && Prepared(BB, x) && AtBase()
      requires BB.varno > 0 ==>
        && BB.varno < rows + 1 + |solution| && x == solution[BB.varno - rows - 1]
        && |bb_upperchange.levels| == |bb_lowerchange.levels| == |frames| + 1
        && bb_upperchange.levels[|frames|] == [] && bb_lowerchange.levels[|frames|] == []
      requires BB.varno == 0 <==> BB.vartype == BB_REAL
      requires BB.varno == 0 ==> x == BB.lastsolution
      modifies `bb_totalnodes, `frames, BB`UPbound, BB`LObound, BB`nodesleft, BB`isfloor, BB`lastsolution
      modifies bb_upperchange, bb_lowerchange, uppers, lowers
      ensures Valid() && AtBase() && ok == !bb_break
      ensures frames == if ok then Started(old(frames)) else old(frames)
      ensures ok && frames != [] ==> Filled(BB, frames[|frames| - 1])
      ensures ok && frames == [] ==> BB.nodesleft == 0
      ensures BB.varno == 0 ==> bb_totalnodes == old(bb_totalnodes)
    {
      hide *;
      if BB.vartype == BB_REAL {
        SetBranches(BB, BB.lastsolution, BB.UPbound, BB.LObound, 1, BB.isfloor);
        RootPrepared(BB, BB.lastsolution);
      } else {
        var k := BB.varno - rows - 1;
        NodeBounds(BB, x);
        PreparedColumn(BB, x);
        SetBranches(BB, solution[k], BB.UPbound, BB.LObound, 2, settings.floorFirst(bb_totalnodes, k));
      }
      ok := FillBranches(BB, BB.lastsolution);
    }

    lemma PreparedColumn(BB: BBrec, x: real)
      requires Prepared(BB, x) && BB.varno > 0
      ensures frames != [] && BB.varno == rows + 1 + frames[|frames| - 1].col
      ensures frames[|frames| - 1].floorFirst == settings.floorFirst(bb_totalnodes, frames[|frames| - 1].col)
    {
    }

    /** The ladders each open a level for the new node. */
    method OpenLevels()
      requires bb_upperchange != bb_lowerchange && bb_upperchange.Valid() && bb_lowerchange.Valid()
      modifies bb_upperchange, bb_lowerchange
      ensures bb_upperchange.Valid() && bb_upperchange.levels == old(bb_upperchange.levels) + [[]]
      ensures bb_lowerchange.Valid() && bb_lowerchange.levels == old(bb_lowerchange.levels) + [[]]
    {
      hide *;
      bb_upperchange.Increment();
      bb_lowerchange.Increment();
    }

    /** Where the relaxation of the last node lies: inside its box, fractional at `col`. */
    ghost predicate Fractional(col: nat)
      requires Dimensions() && Cols(Root(), frames)
      reads `solution, `frames
    {
      && |solution| == columns && col < columns && !IsInt(solution[col])
      && BoxOf(Root(), frames).lo[col] as real <= solution[col] <= BoxOf(Root(), frames).up[col] as real
    }

    ghost function NewFrame(col: nat): Frame
      requires col < |solution|
      reads `solution, `bb_totalnodes
    {
      Frame(col, Floor(solution[col]), settings.floorFirst(bb_totalnodes, col), 0)
    }

    /** With the first half in force the node has the bounds of both halves, the direction it
        was asked for, and one branch left. */
    lemma FilledIs(node: BBrec, f: Frame)
      requires Filled(node, f) && f.started == 1
      ensures node.UPbound == f.cut && node.LObound == f.cut + 1 && node.isfloor == f.floorFirst && node.nodesleft == 1
    {
    }

    lemma SplitInside(x: real, lo: int, up: int)
      requires !IsInt(x) && lo as real <= x <= up as real
      ensures lo <= Floor(x) < up
    {
    }

    /** The call pushes the root, or a split of a column the relaxation leaves fractional. */
    ghost predicate CanPush(parentBB: BBrec?, varno: nat, vartype: int)
      reads `solution, `chain, `frames, `bb_bounds, `uppers, `lowers, uppers, lowers, parentBB
    {
      && parentBB == bb_bounds && Dimensions()
      && (chain == [] <==> parentBB == null)
      && (parentBB == null ==> varno == 0 && vartype == BB_REAL)
      && (parentBB != null ==>
            && varno > rows && vartype == BB_INT && (frames == [] ==> parentBB.nodesleft == 0)
            && AllStarted() && Imposed() && Fractional(varno - rows - 1))
    }

    /** The first part of push_BB for the root: it opens level 1 of both ladders. */
    method AttachRoot() returns (newBB: BBrec)
      requires Valid() && chain == []
      modifies `bb_bounds, `bb_level, `chain, `frames, `uppers, `lowers, bb_upperchange, bb_lowerchange
      ensures Valid() && AtBase() && fresh(newBB) && newBB == bb_bounds
      ensures newBB.varno == 0 && newBB.vartype == BB_REAL && newBB.nodessolved == 0 && newBB.parent == null
      ensures chain == [newBB] && old(frames) == frames == [] && fresh(uppers) && fresh(lowers)
      ensures Prepared(newBB, newBB.lastsolution)
    {
      hide *;
      RootLevels();
      newBB := CreateBB(null, 0, BB_REAL);
      OpenLevels();
      newBB.LBtrack := newBB.LBtrack + 1;
      newBB.UBtrack := newBB.UBtrack + 1;
      FitRoot(Slacks(true), Slacks(false), Root());
      assert bb_upperchange.levels == [[]] && bb_lowerchange.levels == [[]];
      EmptyChain();
      Link(newBB, null, Frame(0, 0, false, 0));
      ValidAtBase();
      RootIsPrepared(newBB);
    }

    /** With no live node the ladders are empty. */
    lemma RootLevels()
      requires Valid() && chain == []
      ensures Dimensions() && Linked() && Matches() && frames == [] && bb_bounds == null && bb_level == 0
      ensures Root().Valid()
      ensures bb_upperchange != bb_lowerchange && bb_upperchange.Valid() && bb_lowerchange.Valid()
      ensures bb_upperchange.rows == bb_lowerchange.rows == rows && bb_upperchange.levels == bb_lowerchange.levels == []
      ensures orig_upbo == Vec(true, Slacks(true), Root()) && orig_lowbo == Vec(false, Slacks(false), Root())
      ensures |orig_upbo| == |orig_lowbo| == rows + 1 + columns
    {
    }

    lemma EmptyChain()
      requires chain == [] && bb_bounds == null && bb_level == 0
      ensures Linked()
    {
    }

    lemma RootIsPrepared(BB: BBrec)
      requires chain == [BB] && frames == [] && BB.nodessolved == 0 && BB.varno == 0
      ensures Prepared(BB, BB.lastsolution)
    {
    }

    /** create_BB for a child, and a level for it on both ladders. */
    method CreateChild(parentBB: BBrec, varno: nat, vartype: int) returns (newBB: BBrec)
      requires Dimensions() && parentBB.upbo == uppers && parentBB.lowbo == lowers
      requires bb_upperchange != bb_lowerchange && bb_upperchange.Valid() && bb_lowerchange.Valid()
      modifies `uppers, `lowers, bb_upperchange, bb_lowerchange
      ensures fresh(newBB) && newBB.parent == parentBB && newBB.child == null && newBB.varno == varno
      ensures newBB.vartype == vartype
      ensures newBB.nodessolved == 0 && newBB.UBtrack == 1 && newBB.LBtrack == 1 && newBB.upbo == uppers
      ensures newBB.lowbo == lowers
      ensures uppers == old(uppers) && lowers == old(lowers)
      ensures bb_upperchange.Valid() && bb_upperchange.levels == old(bb_upperchange.levels) + [[]]
      ensures bb_lowerchange.Valid() && bb_lowerchange.levels == old(bb_lowerchange.levels) + [[]]
    {
      hide *;
      newBB := CreateBB(parentBB, varno, vartype);
      OpenLevels();
      newBB.LBtrack := newBB.LBtrack + 1;
      newBB.UBtrack := newBB.UBtrack + 1;
    }

    /** The first part of push_BB below the root: the node shares the vectors, and both
        ladders open an empty level for it. */
    method AttachChild(parentBB: BBrec, varno: nat, vartype: int) returns (newBB: BBrec)
      requires Valid() && CanPush(parentBB, varno, vartype)
      modifies `bb_bounds, `bb_level, `chain, `frames, `uppers, `lowers, bb_bounds, bb_upperchange, bb_lowerchange
      ensures Valid() && AtBase() && fresh(newBB) && newBB == bb_bounds
      ensures newBB.varno == varno > 0 && newBB.vartype == vartype != BB_REAL && newBB.nodessolved == 0
      ensures newBB.parent == parentBB
      ensures chain == old(chain) + [newBB] && uppers == old(uppers) && lowers == old(lowers)
      ensures 0 <= varno - rows - 1 < |solution| && frames == old(frames) + [NewFrame(varno - rows - 1)]
      ensures Prepared(newBB, solution[varno - rows - 1])
      ensures |bb_upperchange.levels| == |bb_lowerchange.levels| == |frames| + 1
      ensures bb_upperchange.levels[|frames|] == [] && bb_lowerchange.levels[|frames|] == []
    {
      hide *;
      ChildReady(parentBB, varno, vartype);
      ghost var f := NewFrame(varno - rows - 1);
      FitPush(Slacks(true), Slacks(false), Root(), frames, f, bb_upperchange.levels, bb_lowerchange.levels);
      newBB := CreateChild(parentBB, varno, vartype);
      ChildMatches(newBB, f);
      ghost var before := frames;
      Link(newBB, parentBB, f);
      assert forall i :: 0 <= i < |frames| - 1 ==> frames[i] == before[i];
      ValidAtBase();
      ChildIsPrepared(newBB, f);
    }

    /** What CanPush says of the parent and the split. */
    lemma ChildReady(parentBB: BBrec, varno: nat, vartype: int)
      requires Valid() && CanPush(parentBB, varno, vartype)
      ensures Dimensions() && Linked() && Matches() && parentBB == bb_bounds && chain != [] && Cols(Root(), frames)
      ensures parentBB.upbo == uppers && parentBB.lowbo == lowers && uppers != lowers
      ensures uppers.Length == lowers.Length == rows + 1 + columns
      ensures bb_upperchange != bb_lowerchange && bb_upperchange.Valid() && bb_lowerchange.Valid()
      ensures bb_upperchange.rows == bb_lowerchange.rows == rows
      ensures |bb_upperchange.levels| == |bb_lowerchange.levels| == |frames| + 1
      ensures forall i :: 0 <= i < |frames| ==> frames[i].started > 0
      ensures frames == [] ==> parentBB.nodesleft == 0
      ensures 0 <= varno - rows - 1 < |solution| && varno > 0 && vartype == BB_INT != BB_REAL
      ensures !IsInt(solution[varno - rows - 1])
      ensures uppers[..] == Vec(true, Slacks(true), BoxOf(Root(), frames))
      ensures lowers[..] == Vec(false, Slacks(false), BoxOf(Root(), frames))
      ensures LaddersFit(Slacks(true), Slacks(false), Root(), frames,
                         bb_upperchange.levels, bb_lowerchange.levels, uppers[..], lowers[..])
      ensures
        var f := NewFrame(varno - rows - 1);
        && f.col == varno - rows - 1 < |Root().lo| && f.started == 0
        && BoxOf(Root(), frames).lo[f.col] <= f.cut < BoxOf(Root(), frames).up[f.col]
    {
      assert parentBB in chain;
      var col := varno - rows - 1;
      hide LaddersFit, UndoLadder<int>.Valid, FramesOK, BoxOf, BaseOf;
      FitTop(Slacks(true), Slacks(false), Root(), frames, bb_upperchange.levels, bb_lowerchange.levels, uppers[..],
        lowers[..]);
      SplitInside(solution[col], BoxOf(Root(), frames).lo[col], BoxOf(Root(), frames).up[col]);
    }

    lemma ChildMatches(newBB: BBrec, f: Frame)
      requires newBB.varno == rows + 1 + f.col && newBB.vartype == BB_INT && f.started == 0
      ensures NodeMatches(newBB, f)
    {
    }

    lemma ChildIsPrepared(newBB: BBrec, f: Frame)
      requires chain != [] && newBB == chain[|chain| - 1] && newBB.nodessolved == 0 && frames != []
      requires f == frames[|frames| - 1]
      requires 0 <= newBB.varno - rows - 1 < |solution| && f == NewFrame(newBB.varno - rows - 1)
      requires !IsInt(solution[newBB.varno - rows - 1])
      ensures Prepared(newBB, solution[newBB.varno - rows - 1])
    {
    }

    lemma CanPushFrom(parentBB: BBrec?, varno: nat, vartype: int)
      requires CanPush(parentBB, varno, vartype)
      ensures parentBB == bb_bounds && (parentBB == null <==> chain == [])
    {
    }

    /** push_BB: a new node with its first half chosen.  When its branches cannot be set
        it is popped again, and that also takes back the parent's current half. */
    method PushBB(parentBB: BBrec?, varno: nat, vartype: int) returns (newBB: BBrec?)
      requires Valid() && CanPush(parentBB, varno, vartype)
      modifies `bb_bounds, `bb_level, `chain, `frames, `uppers, `lowers, `bb_totalnodes, bb_bounds
      modifies bb_upperchange, bb_lowerchange, uppers, lowers
      ensures Valid() && newBB == bb_bounds
      ensures chain != [] ==> AtBase()
      ensures bb_break ==> chain == old(chain) && frames == old(frames)
      ensures !bb_break ==>
        && newBB != null && fresh(newBB) && chain == old(chain) + [newBB] && newBB.nodessolved == 0
        && frames == (if parentBB == null then [] else Started(old(frames) + [old(NewFrame(varno - rows - 1))]))
        && (frames != [] ==> Filled(newBB, frames[|frames| - 1]))
        && (frames == [] ==> newBB.nodesleft == 0)
      ensures parentBB == null ==> fresh(uppers) && fresh(lowers) && bb_totalnodes == old(bb_totalnodes)
      ensures parentBB != null ==> uppers == old(uppers) && lowers == old(lowers)
    {
      hide *;
      CanPushFrom(parentBB, varno, vartype);
      ghost var x := 0.0;
      if parentBB == null {
        newBB := AttachRoot();
        x := newBB.lastsolution;
      } else {
        newBB := AttachChild(parentBB, varno, vartype);
        x := solution[varno - rows - 1];
      }
      assert frames != [] ==> frames[..|frames| - 1] == old(frames);
      var ok := InitBranches(newBB, x);
      if !ok {
        newBB := PopBB(newBB);
      }
    }

    ghost function Know(): Knowledge
      reads `bb_break, `solutioncount, `best_solution, `best_OF, `best, `gap, `real_solution, `rootx, `bb_totalnodes
    {
      Knowledge(bb_break, solutioncount, best_solution, best_OF, best, real_solution, rootx, bb_totalnodes, gap)
    }

    /** find_int_bbvar: list the columns that are fractional and not fixed, and let the
        node selection rule pick one. */
    method FindIntBBVar(BB: BBrec) returns (varno: nat, count: nat)
      requires BB.upbo.Length == BB.lowbo.Length == rows + 1 + columns && |solution| == columns
      ensures count == 0 <==> forall j :: 0 <= j < columns ==>
        BB.lowbo[rows + 1 + j] == BB.upbo[rows + 1 + j] || IsInt(solution[j])
      ensures count == FractionalCount(BB.lowbo[..], BB.upbo[..], solution, rows, columns)
      ensures count == 0 ==> varno == 0
      ensures count > 0 ==>
                rows < varno <= rows + columns && !IsInt(solution[varno - rows - 1])
                  && BB.lowbo[varno] != BB.upbo[varno]
    {
      var nonint: seq<nat> := [];
      var k := 1;
      while k <= columns
        invariant 1 <= k <= columns + 1
        invariant |nonint| == FractionalCount(BB.lowbo[..], BB.upbo[..], solution, rows, k - 1)
        invariant forall i :: 0 <= i < |nonint| ==>
          1 <= nonint[i] < k && !IsInt(solution[nonint[i] - 1])
            && BB.lowbo[rows + nonint[i]] != BB.upbo[rows + nonint[i]]
        invariant nonint == [] <==> forall j :: 0 <= j < k - 1 ==>
          BB.lowbo[rows + 1 + j] == BB.upbo[rows + 1 + j] || IsInt(solution[j])
      {
        var i := rows + k;
        if BB.lowbo[i] != BB.upbo[i] && !IsInt(solution[k - 1]) {
          nonint := nonint + [k];
        }
        k := k + 1;
      }
      count := |nonint|;
      varno := 0;
      if count > 0 {
        varno := rows + nonint[settings.choose(bb_totalnodes, nonint) % count];
      }
    }

    /** The tests of findnode_BB on the objective value alone. */
    method TestObjective() returns (abandoned: bool)
      ensures abandoned == Abandoned(settings, bb_totalnodes, solutioncount, solutionOF, best_OF, real_solution)
    {
      hide Better, NotBetterThanRoot;
      var s := settings;
      if bb_totalnodes > 0 && !NotBetterThanRoot(s.epsprimal, solutionOF, real_solution) {
        return true;
      }
      abandoned := (solutioncount == 0 && !(solutionOF - s.infinite as real < s.epsprimal))
         || (solutioncount > 0 && (!Better(s.deltaOF, s.epsprimal, true, solutionOF, best_OF)
                                   || !Better(s.deltaOF, s.epsprimal, false, solutionOF, best_OF)));
    }

    /** The acceptance of an integer solution: better or equal, it becomes the incumbent. */
    method KeepSolution()
      modifies `solutioncount, `best_solution, `best_OF, `best, `gap
      ensures solutioncount == CountAfter(settings, old(Know()), solutionOF) > 0
      ensures best_solution == solution && best_OF == solutionOF && best == Floors(solution)
      ensures gap == Kept(old(Know()), solutionOF)
    {
      hide Better;
      var s := settings;
      gap := Kept(Know(), solutionOF);
      var is_better := solutioncount == 0 || Better(s.deltaOF, s.epsprimal, false, solutionOF, best_OF);
      is_better := is_better && Better(s.deltaOF, s.epsprimal, true, solutionOF, best_OF);
      if !is_better {
        if s.solutionlimit <= 0 || solutioncount < s.solutionlimit {
          solutioncount := solutioncount + 1;
        }
      } else {
        solutioncount := 1;
      }
      best_solution, best_OF := solution, solutionOF;
      best := Floors(solution);
    }

    /** findnode_BB: abandon the node, or name a column to split, or keep the solution. */
    method FindNode(BB: BBrec) returns (more: bool, varno: nat)
      requires BB.upbo.Length == BB.lowbo.Length == rows + 1 + columns && |solution| == columns && !bb_break
      modifies `solutioncount, `best_solution, `best_OF, `bb_break, `best, `gap
      ensures Found(settings, Box(BB.lowbo[rows + 1..], BB.upbo[rows + 1..]), Optimal(solution, solutionOF),
                    old(Know()), more, Know())
      ensures bb_break ==> !more && settings.solutionlimit == 1 && solutioncount == 1 && real_solution.Value?
                           && best_OF == solutionOF && best_OF - real_solution.v < settings.epsprimal
      ensures gap != old(gap) && settings.solutionlimit == 1 && solutioncount == 1 && real_solution.Value? ==>
                (bb_break <==> solutionOF - real_solution.v < settings.epsprimal)
      ensures more ==> rows < varno <= rows + columns && !IsInt(solution[varno - rows - 1])
    {
      hide Better, NotBetterThanRoot, IsInt, Abandoned, CountAfter, FractionalCount;
      ghost var box := Box(BB.lowbo[rows + 1..], BB.upbo[rows + 1..]);
      assert forall j :: 0 <= j < columns ==> box.lo[j] == BB.lowbo[rows + 1 + j] && box.up[j] == BB.upbo[rows + 1 + j];
      varno := 0;
      var abandoned := TestObjective();
      if abandoned {
        return false, 0;
      }
      var countnint;
      varno, countnint := FindIntBBVar(BB);
      if varno == 0 {
        KeepSolution();
      }
      if countnint == 0 && solutioncount == 1 && AtDualLimit(settings, solutionOF, real_solution) {
        bb_break := true;
        return false, varno;
      }
      more := varno > 0;
    }

    /** solve_BB on the last node; the verdict is exact and the root value is recorded. */
    method SolveAndRecord(BB: BBrec) returns (status: Status)
      requires Valid() && chain != [] && BB == chain[|chain| - 1] && AtBase() && AllStarted() && !bb_break
      requires Exacting(model, settings, Root()) && Sound(model, settings, Root(), frames, true, Know())
      modifies BB`nodessolved, bb_upperchange, bb_lowerchange, uppers, lowers
      modifies `solves, `solution, `solutionOF, `real_solution, `rootx
      ensures Valid() && Imposed() && solves == old(solves) + 1
      ensures BB.nodessolved == 0 ==> AtBase()
      ensures Cols(Root(), frames) && |Root().lo| == columns
      ensures
        var r := settings.relax(old(solves), BoxOf(Root(), frames));
        && Know() == Recorded(old(Know()), r)
        && status == (if r.Optimal? then OPTIMAL else INFEASIBLE)
        && (r.Optimal? ==> Optimal(solution, solutionOF) == r && |solution| == columns)
      ensures BB.upbo.Length == BB.lowbo.Length == rows + 1 + columns
      ensures Box(BB.lowbo[rows + 1..], BB.upbo[rows + 1..]) == BoxOf(Root(), frames)
    {
      hide *;
      ghost var k := Know();
      VerdictExact(model, settings, Root(), frames, k, solves);
      SoundCols();
      ghost var r := settings.relax(solves, BoxOf(Root(), frames));
      KnowFields();
      status := SolveBB(BB);
      ImposedColumns(BB);
      if r.Optimal? && k.real_solution.Infinite? {
        rootx := r.x;
      }
      OutcomeRecorded(r, status, k);
    }

    lemma SoundCols()
      requires Valid() && Sound(model, settings, Root(), frames, true, Know())
      ensures Dimensions() && Cols(Root(), frames) && |Root().lo| == columns
    {
    }

    lemma OutcomeRecorded(r: Relaxation, status: Status, k: Knowledge)
      requires Outcome(r, status, k.real_solution)
      requires Assess(settings.epsprimal, r, k.real_solution).0 == (if r.Optimal? then OPTIMAL else INFEASIBLE)
      requires r.Optimal? ==> Assess(settings.epsprimal, r, k.real_solution).1 == r.value
      requires k.brk == bb_break && k.count == solutioncount && k.best_solution == best_solution && k.best_OF == best_OF
      requires k.best == best && k.totalnodes == bb_totalnodes && k.gap == gap
      requires rootx == if r.Optimal? && k.real_solution.Infinite? then r.x else k.rootx
      ensures Know() == Recorded(k, r)
      ensures status == (if r.Optimal? then OPTIMAL else INFEASIBLE)
      ensures r.Optimal? ==> Optimal(solution, solutionOF) == r
    {
    }

    lemma KnowFields()
      ensures Know()
                == Knowledge(bb_break, solutioncount, best_solution, best_OF, best, real_solution, rootx, bb_totalnodes,
                  gap)
    {
    }

    /** One turn of the driver loop: solve_BB and, if it is optimal, findnode_BB. */
    method SolveAndFind(BB: BBrec) returns (status: Status, more: bool, varno: nat)
      requires Valid() && chain != [] && BB == chain[|chain| - 1] && AtBase() && AllStarted() && !bb_break
      requires Exacting(model, settings, Root()) && Sound(model, settings, Root(), frames, true, Know())
      modifies BB`nodessolved, bb_upperchange, bb_lowerchange, uppers, lowers
      modifies `solves, `solution, `solutionOF, `real_solution, `rootx
      modifies `solutioncount, `best_solution, `best_OF, `bb_break, `best, `gap
      ensures Valid() && Imposed() && solves == old(solves) + 1
      ensures BB.nodessolved == 0 ==> AtBase()
      ensures more ==>
        && |solution| == columns && rows < varno <= rows + columns && !IsInt(solution[varno - rows - 1])
        && Cols(Root(), frames) && BoxOf(Root(), frames).HasReal(solution)
      ensures more ==> !bb_break && real_solution.Value? && Sound(model, settings, Root(), frames, true, Know())
      ensures !more ==> Sound(model, settings, Root(), frames, false, Know())
      ensures !more && solutioncount == 0 ==> status != OPTIMAL
      ensures gap.kept <= old(gap.kept) + 1
    {
      hide *;
      ghost var k, n := Know(), solves;
      KnowFields();
      status := SolveAndRecord(BB);
      more, varno := false, 0;
      if status == OPTIMAL {
        more, varno := FindNode(BB);
        FoundSound(model, settings, Root(), frames, k, n, more, Know());
        KnowFields();
      } else {
        VerdictExact(model, settings, Root(), frames, k, n);
        LeafInfeasible(model, settings, Root(), frames, k, n);
      }
    }

    /** The last node is ready for nextbranch_BB. */
    ghost predicate AtLeaf(BB: BBrec?)
      reads `chain, `frames, `bb_bounds, `bb_level, `uppers, `lowers, uppers, lowers, BB
    {
      && BB == bb_bounds && bb_level == |chain| && (chain == [] ==> frames == [])
      && (chain != [] ==>
            && BB != null && BB == chain[|chain| - 1] && |chain| == |frames| + 1 && AllStarted()
            && (BB.nodessolved == 0 ==> AtBase())
            && (frames == [] ==> BB.nodesleft == 0)
            && (frames != [] ==> Filled(BB, frames[|frames| - 1])))
    }

    lemma TopFilled(BB: BBrec?)
      requires Valid() && BB == bb_bounds && AllStarted()
      requires chain != [] && frames == [] ==> BB != null && BB.nodesleft == 0
      requires chain != [] ==> AtBase()
      ensures AtLeaf(BB)
    {
      hide LaddersFit, FramesOK, BoxOf, UndoLadder<int>.Valid;
      if frames != [] {
        assert NodeMatches(chain[|frames| - 1 + 1], frames[|frames| - 1]);
      }
    }

    lemma LeafFacts(BB: BBrec?)
      requires Valid() && AtLeaf(BB) && bb_level > 0 && FramesOK(Root(), frames)
      ensures BB != null && BB == bb_bounds && chain != [] && BB == chain[|chain| - 1]
      ensures |chain| == |frames| + 1 && bb_level == |chain|
      ensures AllStarted() && (BB.nodessolved == 0 ==> AtBase())
      ensures (frames == [] ==> BB.nodesleft == 0) && (frames != [] ==> Filled(BB, frames[|frames| - 1]))
      ensures frames != [] ==> 1 <= frames[|frames| - 1].started <= 2
      ensures BB.parent != null ==> BB.parent in chain
    {
      if |chain| > 1 {
        assert chain[|chain| - 1].parent == chain[|chain| - 2];
      }
      if frames != [] {
        assert frames[|frames| - 1].started > 0;
      }
    }

    lemma StartedAtLeaf(BB: BBrec, before: seq<Frame>)
      requires Valid() && AtBase() && chain != [] && BB == chain[|chain| - 1] && |chain| == |frames| + 1
      requires before != [] && frames == Started(before)
      requires forall i :: 0 <= i < |before| ==> before[i].started > 0
      requires Filled(BB, frames[|frames| - 1])
      ensures AtLeaf(BB)
    {
      hide LaddersFit, FramesOK, BoxOf, UndoLadder<int>.Valid;
    }

    lemma PoppedAllStarted(before: seq<Frame>)
      requires frames == if before == [] then [] else before[..|before| - 1]
      requires forall i :: 0 <= i < |before| ==> before[i].started > 0
      ensures AllStarted()
    {
    }

    lemma Unstarted()
      requires AllStarted()
      ensures forall i :: 0 <= i < |frames| ==> frames[i].started > 0
    {
    }

    /** The state between two steps of the driver; `current` says that the last node has
        a branch chosen that waits to be solved. */
    ghost predicate Searching(BB: BBrec?, current: bool)
      reads `chain, `frames, `bb_bounds, `bb_level, `bb_upperchange, `bb_lowerchange, `uppers, `lowers
      reads bb_upperchange, bb_lowerchange, uppers, lowers, chain, BB
      reads `bb_break, `solutioncount, `best_solution, `best_OF, `best, `gap, `real_solution, `rootx, `bb_totalnodes
    {
      && Valid() && AtLeaf(BB) && FramesOK(Root(), frames) && Cols(Root(), frames)
      && Sound(model, settings, Root(), frames, current, Know())
      && (current ==> AtBase() && !bb_break && bb_level > 0)
    }

    /** At most `most` relaxations are to come and, unless the search was broken off, the
        boxes to come hold `points` integer points. */
    ghost predicate Owes(current: bool, most: int, points: nat)
      reads `frames, `bb_break
    {
      && FramesOK(Root(), frames) && Cols(Root(), frames)
      && SolvesLeft(Root(), frames, current) <= most
      && (!bb_break ==> PointsLeft(Root(), frames, current) == points)
    }

    lemma SearchingParts(BB: BBrec?, current: bool)
      requires Searching(BB, current)
      ensures Valid() && AtLeaf(BB) && FramesOK(Root(), frames) && Cols(Root(), frames)
      ensures Sound(model, settings, Root(), frames, current, Know())
      ensures current ==> AtBase() && !bb_break && bb_level > 0
    {
    }

    lemma SearchingFrom(BB: BBrec?, current: bool)
      requires Valid() && AtLeaf(BB) && FramesOK(Root(), frames) && Cols(Root(), frames)
      requires Sound(model, settings, Root(), frames, current, Know())
      requires current ==> AtBase() && !bb_break && bb_level > 0
      ensures Searching(BB, current)
    {
    }

    /** nextbranch_BB, and pop_BB when no branch is left. */
    method StepBack(BB: BBrec, ghost most: int, ghost points: nat) returns (current: BBrec?, ok: bool)
      requires Searching(BB, false) && bb_level > 0 && Owes(false, most, points)
      modifies `bb_bounds, `bb_level, `chain, `frames, `bb_totalnodes, chain
      modifies bb_upperchange, bb_lowerchange, uppers, lowers
      ensures Searching(current, ok) && Owes(ok, most, points)
      ensures chain <= old(chain) && bb_level == if ok then old(bb_level) else old(bb_level) - 1
    {
      hide *;
      OwesStep(frames, most, points);
      current, ok := StepOrPop(BB);
      OwesFrom(ok, most, points);
    }

    method StepOrPop(BB: BBrec) returns (current: BBrec?, ok: bool)
      requires Searching(BB, false) && bb_level > 0
      modifies `bb_bounds, `bb_level, `chain, `frames, `bb_totalnodes, chain
      modifies bb_upperchange, bb_lowerchange, uppers, lowers
      ensures Searching(current, ok)
      ensures chain <= old(chain) && bb_level == if ok then old(bb_level) else old(bb_level) - 1
      ensures ok ==>
                !bb_break && old(frames) != [] && old(frames)[|old(frames)| - 1].started == 1
                  && frames == Started(old(frames))
      ensures !ok ==> frames == if old(frames) == [] then [] else old(frames)[..|old(frames)| - 1]
      ensures !ok && old(frames) != [] && !bb_break ==> old(frames)[|old(frames)| - 1].started != 1
    {
      hide *;
      ghost var k, before := Know(), frames;
      SearchingParts(BB, false);
      KnowFields();
      LeafFacts(BB);
      Unstarted();
      current := BB;
      ok := NextBranch(BB);
      if ok {
        SoundNext(model, settings, Root(), before, k, bb_totalnodes);
        StartedAtLeaf(BB, before);
      } else {
        KnowFields();
        current := GoUp(BB);
        return;
      }
      KnowFields();
      SearchingFrom(current, ok);
    }

    /** pop_BB within the state of the search. */
    method GoUp(BB: BBrec) returns (current: BBrec?)
      requires Valid() && chain != [] && BB == chain[|chain| - 1] && AllStarted() && FramesOK(Root(), frames)
      requires Cols(Root(), frames)
      requires Sound(model, settings, Root(), frames, false, Know())
      requires !bb_break && frames != [] ==> frames[|frames| - 1].started != 1
      modifies `bb_bounds, `bb_level, `chain, `frames, BB.parent
      modifies bb_upperchange, bb_lowerchange, uppers, lowers
      ensures Searching(current, false) && bb_level == old(bb_level) - 1
      ensures chain <= old(chain) && frames == if old(frames) == [] then [] else old(frames)[..|old(frames)| - 1]
    {
      hide *;
      ghost var k, before := Know(), frames;
      KnowFields();
      Unstarted();
      if frames != [] {
        SoundPop(model, settings, Root(), frames, k);
      }
      FramesFit(Root(), frames);
      current := PopBB(BB);
      PoppedAllStarted(before);
      TopFilled(current);
      KnowFields();
      SearchingFrom(current, false);
    }

    lemma FramesFit(root: Box, all: seq<Frame>)
      requires FramesOK(root, all) && Cols(root, all)
      ensures FramesOK(root, []) && Cols(root, [])
      ensures all != [] ==> FramesOK(root, all[..|all| - 1]) && Cols(root, all[..|all| - 1])
    {
    }

    /** What a step back owes afterwards. */
    lemma OwesStep(before: seq<Frame>, most: int, points: nat)
      requires frames == before && Owes(false, most, points)
      ensures FramesOK(Root(), before) && Cols(Root(), before)
      ensures before == [] ==>
        SolvesLeft(Root(), before, false) <= most && (!bb_break ==> PointsLeft(Root(), before, false) == points)
      ensures before != [] && before[|before| - 1].started == 1 ==>
        && FramesOK(Root(), Started(before)) && Cols(Root(), Started(before))
        && SolvesLeft(Root(), Started(before), true) <= most
        && (!bb_break ==> PointsLeft(Root(), Started(before), true) == points)
      ensures before != [] ==>
        && FramesOK(Root(), before[..|before| - 1]) && Cols(Root(), before[..|before| - 1])
        && SolvesLeft(Root(), before[..|before| - 1], false) <= most
        && (!bb_break && before[|before| - 1].started != 1 ==>
           PointsLeft(Root(), before[..|before| - 1], false) == points)
    {
      hide FramesOK, Cols, PointsLeft, SolvesLeft;
      if before != [] {
        LeftPop(Root(), before);
        if before[|before| - 1].started == 1 {
          LeftNext(Root(), before);
        }
      }
    }

    /** The inner loop of run_BB: pop until some live node has a branch left. */
    method Backtrack(BB: BBrec, ghost most: int, ghost points: nat) returns (current: BBrec?)
      requires Searching(BB, false) && bb_level > 0 && Owes(false, most, points)
      modifies `bb_bounds, `bb_level, `chain, `frames, `bb_totalnodes, chain
      modifies bb_upperchange, bb_lowerchange, uppers, lowers
      ensures Searching(current, bb_level > 0) && Owes(bb_level > 0, most, points)
      ensures chain <= old(chain)
    {
      hide *;
      current := BB;
      var ok := false;
      while bb_level > 0 && !ok
        invariant Searching(current, ok) && Owes(ok, most, points)
        invariant chain <= old(chain)
        invariant ok ==> bb_level > 0
        decreases bb_level, !ok
      {
        SearchingParts(current, false);
        LeafFacts(current);
        current, ok := StepBack(current, most, points);
      }
    }

    /** A fractional column of the last node may be split. */
    lemma PushReady(BB: BBrec?, varno: nat)
      requires Valid() && BB == bb_bounds && chain != [] && AllStarted() && Imposed()
      requires BB != null && (frames == [] ==> BB.nodesleft == 0)
      requires |solution| == columns && rows < varno <= rows + columns && !IsInt(solution[varno - rows - 1])
      requires Cols(Root(), frames) && BoxOf(Root(), frames).HasReal(solution)
      ensures CanPush(BB, varno, BB_INT)
      ensures varno - rows - 1 < |Root().lo|
      ensures var x := solution[varno - rows - 1];
        BoxOf(Root(), frames).lo[varno - rows - 1] <= Floor(x) < BoxOf(Root(), frames).up[varno - rows - 1]
    {
      var col := varno - rows - 1;
      hide LaddersFit, FramesOK, BoxOf, UndoLadder<int>.Valid, Linked, Matches;
      SplitInside(solution[col], BoxOf(Root(), frames).lo[col], BoxOf(Root(), frames).up[col]);
    }

    lemma PushedAtLeaf(BB: BBrec, before: seq<Frame>)
      requires Valid() && AtBase() && BB == bb_bounds && frames != []
      requires |frames| == |before| + 1 && frames[..|before|] == before && frames[|before|].started > 0
      requires forall i :: 0 <= i < |before| ==> before[i].started > 0
      requires Filled(BB, frames[|frames| - 1])
      ensures AtLeaf(BB)
    {
      hide LaddersFit, FramesOK, BoxOf, UndoLadder<int>.Valid;
      forall i | 0 <= i < |frames|
        ensures frames[i].started > 0
      {
        if i < |before| { assert frames[..|before|][i] == before[i]; }
      }
    }

    /** A node splits at the value of its column and starts on the side the settings ask for. */
    lemma NewFrameIs(col: nat)
      requires col < |solution|
      ensures var f := NewFrame(col);
              && f.col == col && f.cut == Floor(solution[col]) && f.started == 0
              && f.floorFirst == settings.floorFirst(bb_totalnodes, col)
    {
    }

    lemma ValidLevel()
      requires Valid()
      ensures bb_level == |chain| && (chain == [] <==> bb_bounds == null)
      ensures chain == [] ==> frames == []
      ensures chain != [] ==> bb_bounds == chain[|chain| - 1]
    {
    }

    /** One push of the driver loop, with the accounts of the search carried over. */
    method Descend(BB: BBrec, varno: nat) returns (current: BBrec?)
      requires Valid() && AtLeaf(BB) && bb_level > 0 && Imposed() && !bb_break
      requires |solution| == columns && rows < varno <= rows + columns && !IsInt(solution[varno - rows - 1])
      requires Cols(Root(), frames) && FramesOK(Root(), frames) && BoxOf(Root(), frames).HasReal(solution)
      requires real_solution.Value? && Sound(model, settings, Root(), frames, true, Know())
      modifies `bb_bounds, `bb_level, `chain, `frames, `uppers, `lowers, `bb_totalnodes, bb_bounds
      modifies bb_upperchange, bb_lowerchange, uppers, lowers
      ensures Valid() && AtLeaf(current) && AtBase() && bb_level > 0
      ensures chain == old(chain) + [current] && fresh(current) && uppers == old(uppers) && lowers == old(lowers)
      ensures FramesOK(Root(), frames) && Cols(Root(), frames) && Sound(model, settings, Root(), frames, true, Know())
      ensures SolvesLeft(Root(), frames, true) == SolvesLeft(Root(), old(frames), true) - 1
      ensures PointsLeft(Root(), frames, true) == PointsLeft(Root(), old(frames), true)
    {
      hide *;
      LeafFacts(BB);
      Unstarted();
      PushReady(BB, varno);
      ghost var k, before, f := Know(), frames, NewFrame(varno - rows - 1);
      NewFrameIs(varno - rows - 1);
      KnowFields();
      ghost var f1 := f.(started := 1);
      StartedAppend(before, f);
      SoundPush(model, settings, Root(), before, f1, k);
      LeftPush(Root(), before, f1);
      current := PushBB(BB, varno, BB_INT);
      SoundTotalnodes(model, settings, Root(), frames, k, bb_totalnodes);
      KnowFields();
      PushedAtLeaf(current, before);
      ValidLevel();
    }

    method CreateLadders()
      requires Valid() && chain == []
      modifies `bb_upperchange, `bb_lowerchange
      ensures Valid() && CanPush(null, 0, BB_REAL)
      ensures fresh(bb_upperchange) && fresh(bb_lowerchange)
    {
      bb_upperchange := new UndoLadder<int>(rows);
      bb_lowerchange := new UndoLadder<int>(rows);
    }

    /** The start of run_BB: fresh ladders and the root node. */
    method StartRun() returns (current: BBrec?)
      requires Valid() && chain == [] && !bb_break
      modifies `bb_upperchange, `bb_lowerchange, `bb_bounds, `bb_level, `chain, `frames, `uppers, `lowers,
        `bb_totalnodes
      modifies uppers, lowers
      ensures Valid() && AtLeaf(current) && bb_level > 0 && AtBase() && frames == []
      ensures fresh(bb_upperchange) && fresh(bb_lowerchange) && fresh(uppers) && fresh(lowers)
      ensures forall i :: 0 <= i < |chain| ==> fresh(chain[i])
      ensures Know() == old(Know())
    {
      hide *;
      KnowFields();
      CreateLadders();
      KnowFields();
      current := PushBB(null, 0, BB_REAL);
      KnowFields();
      ValidLevel();
      PoppedAllStarted([]);
      TopFilled(current);
    }

    lemma RootReady()
      requires Valid() && chain == [] && Exacting(model, settings, Root())
      requires !bb_break && bb_totalnodes == 0 && solutioncount == 0 && real_solution.Infinite?
      requires gap == Gap(Window(settings), 0)
      ensures FramesOK(Root(), []) && Cols(Root(), []) && Sound(model, settings, Root(), [], true, Know())
      ensures SolvesLeft(Root(), [], true) == 2 * Size(Root()) - 1 && PointsLeft(Root(), [], true) == Size(Root())
    {
      SoundStart(model, settings, Root(), Know());
    }

    lemma SolvedAtLeaf(BB: BBrec)
      requires BB == bb_bounds && chain != [] && BB == chain[|chain| - 1] && |chain| == |frames| + 1
      requires bb_level == |chain|
      requires AllStarted() && (BB.nodessolved == 0 ==> AtBase())
      requires (frames == [] ==> BB.nodesleft == 0) && (frames != [] ==> Filled(BB, frames[|frames| - 1]))
      ensures AtLeaf(BB)
    {
    }

    /** The accounts of the run: the relaxations solved and those to come stay below twice
        the number of integer points, and the boxes of the finished leaves together with
        those to come tile the root box. */
    ghost predicate Accounts(current: bool)
      reads `frames, `bb_break, `solves, `tiled, `gap
    {
      tiled <= Size(Root()) && gap.kept <= solves && Owes(current, 2 * Size(Root()) - 1 - solves, Size(Root()) - tiled)
    }

    lemma AccountsParts(current: bool)
      requires Accounts(current)
      ensures |Root().lo| == |Root().up|
      ensures tiled <= Size(Root()) && gap.kept <= solves
      ensures Owes(current, 2 * Size(Root()) - 1 - solves, Size(Root()) - tiled)
    {
    }

    lemma AccountsFrom(current: bool)
      requires tiled <= Size(Root()) && gap.kept <= solves
      requires Owes(current, 2 * Size(Root()) - 1 - solves, Size(Root()) - tiled)
      ensures Accounts(current)
    {
    }

    lemma OwesParts(current: bool, most: int, points: nat)
      requires Owes(current, most, points)
      ensures FramesOK(Root(), frames) && Cols(Root(), frames)
      ensures SolvesLeft(Root(), frames, current) <= most
      ensures !bb_break ==> PointsLeft(Root(), frames, current) == points
    {
    }

    lemma OwesFrom(current: bool, most: int, points: nat)
      requires FramesOK(Root(), frames) && Cols(Root(), frames)
      requires SolvesLeft(Root(), frames, current) <= most
      requires !bb_break ==> PointsLeft(Root(), frames, current) == points
      ensures Owes(current, most, points)
    {
    }

    /** solve_BB and findnode_BB on the last node, within the state of the search. */
    method Examine(BB: BBrec) returns (status: Status, more: bool, varno: nat)
      requires Searching(BB, true) && Exacting(model, settings, Root())
      modifies BB`nodessolved, bb_upperchange, bb_lowerchange, uppers, lowers
      modifies `solves, `solution, `solutionOF, `real_solution, `rootx
      modifies `solutioncount, `best_solution, `best_OF, `bb_break, `best, `gap
      ensures solves == old(solves) + 1 && gap.kept <= old(gap.kept) + 1
      ensures !more ==> Searching(BB, false) && (solutioncount == 0 ==> status != OPTIMAL)
      ensures more ==>
        && Valid() && AtLeaf(BB) && Imposed() && !bb_break && real_solution.Value?
        && FramesOK(Root(), frames) && Cols(Root(), frames) && Sound(model, settings, Root(), frames, true, Know())
        && |solution| == columns && rows < varno <= rows + columns && !IsInt(solution[varno - rows - 1])
        && BoxOf(Root(), frames).HasReal(solution)
    {
      hide *;
      SearchingParts(BB, true);
      LeafFacts(BB);
      status, more, varno := SolveAndFind(BB);
      SolvedAtLeaf(BB);
      if !more {
        SearchingFrom(BB, false);
      }
    }

    /** push_BB of the driver loop, within the state of the search. */
    method Deepen(BB: BBrec, varno: nat) returns (current: BBrec?)
      requires Valid() && AtLeaf(BB) && bb_level > 0 && Imposed() && !bb_break
      requires |solution| == columns && rows < varno <= rows + columns && !IsInt(solution[varno - rows - 1])
      requires Cols(Root(), frames) && FramesOK(Root(), frames) && BoxOf(Root(), frames).HasReal(solution)
      requires real_solution.Value? && Sound(model, settings, Root(), frames, true, Know())
      modifies `bb_bounds, `bb_level, `chain, `frames, `uppers, `lowers, `bb_totalnodes, bb_bounds
      modifies bb_upperchange, bb_lowerchange, uppers, lowers
      ensures Searching(current, true) && bb_level > 0
      ensures chain == old(chain) + [current] && fresh(current) && uppers == old(uppers) && lowers == old(lowers)
      ensures FramesOK(Root(), frames) && Cols(Root(), frames)
      ensures SolvesLeft(Root(), frames, true) == SolvesLeft(Root(), old(frames), true) - 1
      ensures PointsLeft(Root(), frames, true) == PointsLeft(Root(), old(frames), true)
    {
      hide *;
      current := Descend(BB, varno);
      SearchingFrom(current, true);
    }

    /** The leaf just solved joins the tiles, and the search goes back. */
    method CloseLeaf(BB: BBrec, ghost most: int) returns (current: BBrec?)
      requires Searching(BB, false) && bb_level > 0 && FramesOK(Root(), frames) && Cols(Root(), frames)
      requires |Root().lo| == |Root().up|
      requires SolvesLeft(Root(), frames, true) <= most + 1
      requires PointsLeft(Root(), frames, true) + tiled == Size(Root())
      modifies `bb_bounds, `bb_level, `chain, `frames, `bb_totalnodes, `tiled, chain
      modifies bb_upperchange, bb_lowerchange, uppers, lowers
      ensures Searching(current, bb_level > 0) && chain <= old(chain)
      ensures tiled <= Size(Root()) && Owes(bb_level > 0, most, Size(Root()) - tiled)
    {
      hide *;
      LeafAccounts(Root(), frames);
      SearchingParts(BB, false);
      tiled := tiled + Size(BoxOf(Root(), frames));
      OwesFrom(false, most, Size(Root()) - tiled);
      SearchingFrom(BB, false);
      current := Backtrack(BB, most, Size(Root()) - tiled);
    }

    /** One turn of the driver loop. */
    method Iterate(BB: BBrec) returns (current: BBrec?, status: Status)
      requires Searching(BB, true) && BB in chain && BB == bb_bounds && bb_level > 0 && Accounts(true)
      requires Exacting(model, settings, Root())
      modifies `bb_bounds, `bb_level, `chain, `frames, `uppers, `lowers, `bb_totalnodes, chain
      modifies bb_upperchange, bb_lowerchange, uppers, lowers
      modifies `solves, `solution, `solutionOF, `real_solution, `rootx, `tiled
      modifies `solutioncount, `best_solution, `best_OF, `bb_break, `best, `gap
      ensures Searching(current, bb_level > 0) && Accounts(bb_level > 0)
      ensures uppers == old(uppers) && lowers == old(lowers) && solves == old(solves) + 1
      ensures chain <= old(chain) || (current != null && fresh(current) && chain == old(chain) + [current])
      ensures bb_level == 0 && solutioncount == 0 ==> status != OPTIMAL
    {
      hide *;
      AccountsParts(true);
      OwesParts(true, 2 * Size(Root()) - 1 - solves, Size(Root()) - tiled);
      SearchingParts(BB, true);
      ghost var points := Size(Root()) - tiled;
      ghost var most := 2 * Size(Root()) - 2 - solves;
      var more, varno;
      status, more, varno := Examine(BB);
      if more {
        current := Deepen(BB, varno);
        OwesFrom(true, most, points);
      } else {
        current := CloseLeaf(BB, most);
      }
      AccountsFrom(bb_level > 0);
    }

    lemma SearchingTop(BB: BBrec?, current: bool)
      requires Searching(BB, current)
      ensures BB == bb_bounds && bb_level == |chain| && (chain == [] ==> frames == [])
      ensures bb_level > 0 ==> BB != null && BB in chain
    {
    }

    /** run_BB: the whole search.  A break at the dual limit gives up at most the tolerance, a
        search to the end the window of the objective test and the drift of the incumbents,
        and nothing when objective values are apart. */
    method RunBB() returns (status: Status)
      requires Valid() && chain == [] && Exacting(model, settings, Root())
      requires !bb_break && bb_totalnodes == 0 && solves == 0 && solutioncount == 0 && real_solution.Infinite?
      requires tiled == 0
      requires gap == Gap(Window(settings), 0)
      modifies this, uppers, lowers
      ensures bb_level == 0 && bb_bounds == null
      ensures status == OPTIMAL <==> exists p: seq<int> :: model.Solution(Root(), p)
      ensures status == OPTIMAL ==>
                model.Solution(Root(), best) && best_solution == AsReal(best) && best_OF == model.Cost(best)
      ensures status == OPTIMAL ==> forall p: seq<int> :: model.Solution(Root(), p) ==>
                best_OF <= model.Cost(p) + if bb_break then settings.epsprimal
                  else Window(settings) + Drift(settings, solves)
      ensures status == OPTIMAL ==> solutioncount == 1 && real_solution.Value?
                                    && Exact(model, Root(), Optimal(rootx, real_solution.v))
      ensures bb_break <==> status == OPTIMAL && settings.solutionlimit == 1 && real_solution.Value?
                            && best_OF - real_solution.v < settings.epsprimal
      ensures status == OPTIMAL && Separated(model, Root(), settings.deltaOF, settings.epsprimal) ==>
                forall p: seq<int> :: model.Solution(Root(), p) ==> best_OF <= model.Cost(p)
      ensures solves <= 2 * Size(Root()) - 1
      ensures !bb_break ==> tiled == Size(Root())
    {
      hide *;
      var prevsolutions := solutioncount;
      RootReady();
      var current := StartRun();
      status := NOTRUN;
      OwesFrom(true, 2 * Size(Root()) - 1, Size(Root()));
      AccountsFrom(true);
      SearchingFrom(current, true);
      while bb_level > 0
        invariant Searching(current, bb_level > 0) && Accounts(bb_level > 0)
        invariant fresh(bb_upperchange) && fresh(bb_lowerchange) && fresh(uppers) && fresh(lowers)
        invariant forall i :: 0 <= i < |chain| ==> fresh(chain[i])
        invariant bb_level == 0 && solutioncount == 0 ==> status != OPTIMAL
        decreases bb_level > 0, 2 * Size(Root()) - solves
      {
        SearchingTop(current, true);
        SolvesBound(true);
        current, status := Iterate(current);
        SolvesBound(bb_level > 0);
      }
      SearchingTop(current, false);
      SearchingParts(current, false);
      ValidLevel();
      SolvesBound(false);
      FinishedRun();
      if solutioncount > prevsolutions {
        status := OPTIMAL;
      }
    }

    lemma SolvesBound(current: bool)
      requires Accounts(current)
      ensures solves <= 2 * Size(Root()) - 1
      ensures current ==> solves < 2 * Size(Root()) - 1
    {
      SolvesLeftPositive(Root(), frames);
    }

    lemma FinishedRun()
      requires Accounts(false) && frames == [] && Sound(model, settings, Root(), frames, false, Know())
      ensures !bb_break ==> tiled == Size(Root())
      ensures solutioncount > 0 <==> exists p: seq<int> :: model.Solution(Root(), p)
      ensures solutioncount > 0 ==>
                model.Solution(Root(), best) && best_solution == AsReal(best) && best_OF == model.Cost(best)
      ensures solutioncount > 0 ==> forall p: seq<int> :: model.Solution(Root(), p) ==>
                best_OF <= model.Cost(p) + if bb_break then settings.epsprimal
                  else Window(settings) + Drift(settings, solves)
      ensures solutioncount > 0 ==> solutioncount == 1 && real_solution.Value?
                                    && Exact(model, Root(), Optimal(rootx, real_solution.v))
      ensures bb_break <==> solutioncount == 1 && settings.solutionlimit == 1 && real_solution.Value?
                            && best_OF - real_solution.v < settings.epsprimal
      ensures solutioncount > 0 && Separated(model, Root(), settings.deltaOF, settings.epsprimal) ==>
                forall p: seq<int> :: model.Solution(Root(), p) ==> best_OF <= model.Cost(p)
    {
      DriftGrows(settings, gap.kept, solves);
      EmptyAccounts(Root());
      SoundEnd(model, settings, Root(), Know());
      hide Sound, FramesOK, Cols, BoxOf, Pending;
    }
  }

  /** A new problem and its search: with an exact oracle the verdict is that of the integer
      program, and the solution is optimal up to what the objective test gives up. */
  method SolveModel(rows: nat, columns: nat, model: Model, settings: Settings, lowbo: seq<int>, upbo: seq<int>)
    returns (lp: Lprec, status: Status)
    requires |lowbo| == |upbo| == rows + 1 + columns
    requires Exacting(model, settings, Box(lowbo[rows + 1..], upbo[rows + 1..]))
    ensures fresh(lp)
    ensures var root := Box(lowbo[rows + 1..], upbo[rows + 1..]);
            && (status == OPTIMAL <==> exists p: seq<int> :: model.Solution(root, p))
            && (status == OPTIMAL ==>
               model.Solution(root, lp.best) && lp.best_solution == AsReal(lp.best)
                 && lp.best_OF == model.Cost(lp.best))
            && (status == OPTIMAL ==> forall p: seq<int> :: model.Solution(root, p) ==>
                  lp.best_OF <= model.Cost(p) + if lp.bb_break then settings.epsprimal
                    else Window(settings) + Drift(settings, lp.solves))
            && (status == OPTIMAL && Separated(model, root, settings.deltaOF, settings.epsprimal) ==>
                  forall p: seq<int> :: model.Solution(root, p) ==> lp.best_OF <= model.Cost(p))
            && (status == OPTIMAL ==> lp.solutioncount == 1 && lp.real_solution.Value?
                                      && Exact(model, root, Optimal(lp.rootx, lp.real_solution.v)))
            && (lp.bb_break <==> status == OPTIMAL && settings.solutionlimit == 1 && lp.real_solution.Value?
                                 && lp.best_OF - lp.real_solution.v < settings.epsprimal)
            && lp.solves <= 2 * Size(root) - 1
  {
    lp := new Lprec(rows, columns, model, settings, lowbo, upbo);
    assert lp.Root() == Box(lowbo[rows + 1..], upbo[rows + 1..]) && lp.Root().Valid();
    hide Exacting, Lprec.Valid;
    status := lp.RunBB();
  }
}
