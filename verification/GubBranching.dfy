/** The three branches of a variable in a generalized upper bound set (nextbranch_BB of
    lp_mipbb.c, with the list operations of lp_SOS.c). */
module GubBranching {
  import opened SosList
  import opened Sos
  import opened Gub
  import UndoLadders

  datatype Kind = Ceiling | FloorLeft | FloorRight

  function KindOf(isfloor: bool, nodesleft: int): Kind {
    if !isfloor then Ceiling else if nodesleft > 0 then FloorLeft else FloorRight
  }

  /** The upper bounds a branch works with: in the ceiling branch every unmarked member
      outside of the window of the variable is fixed, in a floor branch half of the
      candidates. */
  ghost predicate Imposed(kind: Kind, list: seq<int>, n: nat, nn: nat, k: int, varlist: seq<int>, was: seq<real>,
                          bound: seq<real>)
    requires nn > 0 && Covers(list, n, nn, |was|)
  {
    match kind
    case Ceiling => Fixed(list, n, nn, k, was, bound, 0.0, n)
    case FloorLeft => HalfFixed(list, n, Half(varlist, LeftHalf), was, bound)
    case FloorRight => HalfFixed(list, n, Half(varlist, RightHalf), was, bound)
  }

  /** Nothing a branch fixes at zero has a positive original lower bound. */
  ghost predicate Imposable(kind: Kind, list: seq<int>, n: nat, nn: nat, k: int, varlist: seq<int>, was: seq<real>,
                            limit: seq<real>)
    requires nn > 0 && Covers(list, n, nn, |was|) && |limit| == |was|
  {
    match kind
    case Ceiling => forall i :: !Violates(list, n, nn, k, was, 0.0, true, limit, i)
    case FloorLeft => NoneRaised(list, n, Half(varlist, LeftHalf), limit)
    case FloorRight => NoneRaised(list, n, Half(varlist, RightHalf), limit)
  }

  /** A set in which the variable may be activated, and the columns to be fixed. */
  ghost predicate Setup(base: seq<int>, n: nat, nn: nat, k: int, varlist: seq<int>, size: nat) {
    && IsWindow(base, n, nn) && Covers(base, n, nn, size) && Markable(base, n, k) && Admissible(base, n, nn, k)
    && Ascending(varlist) && forall c :: c in varlist ==> 0 < c < size
  }

  /** The mark the branch puts on the variable keeps the set well-formed, and taking it
      away again restores the set. */
  lemma MarkForBranch(base: seq<int>, n: nat, nn: nat, k: int, varlist: seq<int>, size: nat, active: bool)
    requires Setup(base, n, nn, k, varlist, size)
    ensures |base| == n + 2 + nn && Shape(base, n, nn) && k > 0
    ensures var list := Marked(base, n, nn, k, active);
            && Shape(list, n, nn) && IsWindow(list, n, nn) && Covers(list, n, nn, size)
            && Unmarked(list, n, nn, k) == base
  {
    SetupParts(base, n, nn, k, varlist, size);
    var cnt, p, rightward :| Window(base, n, nn, cnt, p, rightward);
    MarkedCovers(base, n, nn, cnt, p, rightward, k, size, active);
    WindowShape(base, n, nn);
    hide Setup, Window, Position, Covers, Marked, Unmarked, Markable, Admissible, Shape;
    UnmarkRestores(base, n, nn, cnt, p, rightward, k, active);
    if active {
      ActivationKeepsWindow(base, n, nn, k);
    } else {
      MarkKeepsWindow(base, n, nn, cnt, p, rightward, k);
    }
    WindowShape(Marked(base, n, nn, k, active), n, nn);
  }

  lemma SetupParts(base: seq<int>, n: nat, nn: nat, k: int, varlist: seq<int>, size: nat)
    requires Setup(base, n, nn, k, varlist, size)
    ensures IsWindow(base, n, nn) && Covers(base, n, nn, size) && Markable(base, n, k) && |base| == n + 2 + nn
    ensures Admissible(base, n, nn, k) && k > 0
  {
  }

  lemma MarkedCovers(base: seq<int>, n: nat, nn: nat, cnt: nat, p: int, rightward: bool, k: int, size: nat,
                     active: bool)
    requires Window(base, n, nn, cnt, p, rightward) && Covers(base, n, nn, size) && Markable(base, n, k)
    ensures |base| == n + 2 + nn && Covers(Marked(base, n, nn, k, active), n, nn, size)
  {
    MarkedIs(base, n, nn, cnt, p, rightward, k);
    assert Abs(base[Position(base, n, k)]) == k;
    hide Position, Shape, Marked, Window;
  }

  lemma WindowShape(list: seq<int>, n: nat, nn: nat)
    requires IsWindow(list, n, nn)
    ensures Shape(list, n, nn)
  {
  }

  class GubNode {
    const rec: SOSrec
    const upbo: array<real>
    const k: int
    const varlist: seq<int>
    const limit: seq<real>
    const rows: nat
    const log: UndoLadders.UndoLadder<real>
    ghost const saved: seq<real>
    ghost const base: seq<int>
    var isfloor: bool
    var nodesleft: int
    var nodessolved: nat

    /** initbranches_BB with a member of a GUB set: three branches, the first one in the
        direction asked for (fillbranches_BB starts with the flag inverted). */
    constructor (rec: SOSrec, upbo: array<real>, k: int, varlist: seq<int>, limit: seq<real>, rows: nat,
                 log: UndoLadders.UndoLadder<real>, floorfirst: bool)
      requires log.Valid() && log.levels != [] && log.levels[|log.levels| - 1] == []
      requires Setup(rec.members[..], rec.n, rec.nn, k, varlist, upbo.Length) && |limit| == upbo.Length
      ensures Valid() && isfloor == !floorfirst && nodesleft == 3 && nodessolved == 0
      ensures this.log == log && this.rec == rec && this.upbo == upbo && this.k == k && this.varlist == varlist
      ensures this.limit == limit
      ensures saved == upbo[..] && base == rec.members[..]
    {
      this.rec, this.upbo, this.k, this.varlist, this.limit, this.rows := rec, upbo, k, varlist, limit, rows;
      this.log := log;
      saved, base := upbo[..], rec.members[..];
      isfloor, nodesleft, nodessolved := !floorfirst, 3, 0;
      new;
      MarkForBranch(base, rec.n, rec.nn, k, varlist, upbo.Length, true);
    }

    ghost predicate Valid()
      reads this, rec.members, upbo, log
    {
      && Setup(base, rec.n, rec.nn, k, varlist, |saved|) && |saved| == |limit| == upbo.Length
         && |base| == rec.n + 2 + rec.nn
      && rec.members[..] == (if nodessolved == 0 then base else Marked(base, rec.n, rec.nn, k, !isfloor))
      && (nodessolved == 0 ==> upbo[..] == saved) && CanRestore(log, saved, upbo[..])
    }

    /** restoreUndoLadder: the bounds the last branch changed come back. */
    method RestoreBounds()
      requires CanRestore(log, saved, upbo[..])
      modifies upbo, log
      ensures upbo[..] == saved && CanRestore(log, saved, upbo[..])
    {
      LogFits(log, saved, upbo[..]);
      hide UndoLadders.LogsBase, UndoLadders.Covers, UndoLadders.UndoLadder<real>.Valid;
      UndoLadders.RestoreGivesBase(log.levels[|log.levels| - 1], log.rows, saved, upbo[..]);
      log.Restore(upbo);
      NothingChanged(log, saved);
    }

    /** Bounds and marker of the last branch are undone. */
    method UndoBranch()
      requires Valid()
      modifies rec.members, upbo, log
      ensures upbo[..] == saved && rec.members[..] == base && CanRestore(log, saved, saved)
    {
      MarkForBranch(base, rec.n, rec.nn, k, varlist, |saved|, !isfloor);
      hide Setup, Marked, Unmarked, IsWindow, Covers, Shape, CanRestore, Ascending;
      if nodessolved > 0 {
        RestoreBounds();
        var done := rec.Unmark(k);
      }
    }

    /** Undoes the marker of the last branch, steps on, and sets the new one.  The last
        branch is a floor branch whatever the direction says. */
    method StepBranch()
      requires Valid() && nodesleft > 0
      modifies this, rec.members, upbo, log
      ensures nodesleft == old(nodesleft) - 1 && nodessolved == old(nodessolved) && CanRestore(log, saved, saved)
      ensures isfloor == (nodesleft == 0 || !old(isfloor))
      ensures upbo[..] == saved && rec.members[..] == Marked(base, rec.n, rec.nn, k, !isfloor)
    {
      ValidParts();
      hide Setup, Marked, Unmarked, IsWindow, Covers, Shape, CanRestore, Ascending, Valid;
      UndoBranch();
      isfloor := !isfloor;
      nodesleft := nodesleft - 1;
      if nodesleft == 0 && !isfloor {
        isfloor := !isfloor;
      }
      MarkForBranch(base, rec.n, rec.nn, k, varlist, |saved|, !isfloor);
      var marked := rec.SetMarked(k, !isfloor);
    }

    /** The GUB part of nextbranch_BB. It fails exactly when something it would fix at zero
        has a positive original lower bound. */
    method NextBranch() returns (ok: bool)
      requires Valid() && nodesleft > 0
      modifies this, rec.members, upbo, log
      ensures nodesleft == old(nodesleft) - 1 && nodessolved == old(nodessolved) && CanRestore(log, saved, upbo[..])
      ensures isfloor == (nodesleft == 0 || !old(isfloor))
      ensures upbo.Length == |saved| && rec.members[..] == Marked(base, rec.n, rec.nn, k, !isfloor)
      ensures Covers(rec.members[..], rec.n, rec.nn, |saved|) && rec.nn > 0
      ensures |limit| == |saved|
      ensures ok <==> Imposable(KindOf(isfloor, nodesleft), rec.members[..], rec.n, rec.nn, k, varlist, saved, limit)
      ensures ok ==> Imposed(KindOf(isfloor, nodesleft), rec.members[..], rec.n, rec.nn, k, varlist, saved, upbo[..])
    {
      ValidParts();
      hide Setup, Marked, Unmarked, Fixed, HalfFixed, IsWindow, Covers, Half, Shape, Violates, CanRestore, Imposed,
        Imposable, Valid;
      StepBranch();
      ok := ImposeBounds();
    }

    lemma ValidParts()
      requires Valid()
      ensures Setup(base, rec.n, rec.nn, k, varlist, |saved|) && |saved| == |limit| == upbo.Length
      ensures |base| == rec.n + 2 + rec.nn
    {
    }

    /** The bounds of the branch, under its marker. */
    method ImposeBounds() returns (ok: bool)
      requires Setup(base, rec.n, rec.nn, k, varlist, |saved|) && |saved| == |limit| == upbo.Length
      requires |base| == rec.n + 2 + rec.nn
      requires upbo[..] == saved && rec.members[..] == Marked(base, rec.n, rec.nn, k, !isfloor)
      requires CanRestore(log, saved, saved)
      modifies upbo, log
      ensures Covers(rec.members[..], rec.n, rec.nn, |saved|) && rec.nn > 0 && CanRestore(log, saved, upbo[..])
      ensures ok <==> Imposable(KindOf(isfloor, nodesleft), rec.members[..], rec.n, rec.nn, k, varlist, saved, limit)
      ensures ok ==> Imposed(KindOf(isfloor, nodesleft), rec.members[..], rec.n, rec.nn, k, varlist, saved, upbo[..])
    {
      MarkForBranch(base, rec.n, rec.nn, k, varlist, |saved|, !isfloor);
      SetupColumns(base, rec.n, rec.nn, k, varlist, |saved|);
      assert rec.members[0] == rec.n && rec.members.Length == rec.n + 2 + rec.nn && rec.nn > 0;
      hide Setup, Marked, Unmarked, Fixed, HalfFixed, NoneRaised, IsWindow, Covers, Half, Shape, Violates, CanRestore,
        Ascending;
      if isfloor {
        ok := FixHalf(if nodesleft > 0 then LeftHalf else RightHalf);
      } else {
        ok := FixOthers();
      }
    }

    /** A floor branch: one half of the candidates. */
    method FixHalf(part: Part) returns (ok: bool)
      requires rec.members.Length > rec.n == rec.members[0] && |limit| == upbo.Length == |saved|
      requires (forall c :: c in varlist ==> 0 < c < |saved|) && Ascending(varlist) && upbo[..] == saved
      requires CanRestore(log, saved, saved)
      modifies upbo, log
      ensures CanRestore(log, saved, upbo[..])
      ensures ok <==> NoneRaised(rec.members[..], rec.n, Half(varlist, part), limit)
      ensures ok ==> HalfFixed(rec.members[..], rec.n, Half(varlist, part), saved, upbo[..])
    {
      hide HalfFixed, NoneRaised, RaisedColumn, Half, CanRestore, Ascending, MembersIn;
      var count := FixList(rec.members[..], rec.members[0], varlist, part, upbo, limit, rows, log);
      RaisedIsNotNone(rec.members[..], rec.n, Half(varlist, part), limit, -count - rows);
      ok := count >= 0;
    }

    /** The ceiling branch: the unmarked members outside of the window. */
    method FixOthers() returns (ok: bool)
      requires rec.Valid() && IsWindow(rec.members[..], rec.n, rec.nn)
      requires Covers(rec.members[..], rec.n, rec.nn, |saved|)
      requires k > 0 && rec.nn > 0 && |limit| == upbo.Length == |saved| && upbo[..] == saved
      requires CanRestore(log, saved, saved)
      modifies upbo, log
      ensures CanRestore(log, saved, upbo[..])
      ensures ok <==> forall i :: !Violates(rec.members[..], rec.n, rec.nn, k, saved, 0.0, true, limit, i)
      ensures ok ==> Fixed(rec.members[..], rec.n, rec.nn, k, saved, upbo[..], 0.0, rec.n)
    {
      hide Fixed, IsWindow, Covers, Shape, Violates, CanRestore;
      var count := rec.FixUnmarked(k, upbo, 0.0, true, limit, rows, log);
      ok := count >= 0;
    }
  }

  lemma LogFits(log: UndoLadders.UndoLadder<real>, was: seq<real>, bound: seq<real>)
    requires CanRestore(log, was, bound)
    ensures log.Valid() && log.levels != [] && log.activelevel == |log.levels| && |was| == |bound|
    ensures var top := log.levels[|log.levels| - 1];
            && UndoLadders.LogsBase(top, log.rows, was) && UndoLadders.Covers(top, log.rows, was, bound)
            && forall e :: e in top ==> 0 <= e.0 + log.rows < |was|
  {
  }

  lemma NothingChanged(log: UndoLadders.UndoLadder<real>, was: seq<real>)
    requires log.Valid() && log.levels != [] && UndoLadders.LogsBase(log.levels[|log.levels| - 1], log.rows, was)
    ensures CanRestore(log, was, was)
  {
  }

  function Order(floorfirst: bool): seq<Kind> {
    if floorfirst then [FloorLeft, Ceiling, FloorRight] else [Ceiling, FloorLeft, FloorRight]
  }

  /** The branch loop: whatever direction comes first, it runs one ceiling branch and the
      two floor branches, up to the first that cannot be imposed, if there is one.  The
      search below each branch leaves markers and bounds as it found them. */
  method RunBranches(node: GubNode, floorfirst: bool) returns (kinds: seq<Kind>, bounds: seq<seq<real>>)
    requires node.Valid() && node.isfloor == !floorfirst && node.nodesleft == 3 && node.nodessolved == 0
    modifies node, node.rec.members, node.upbo, node.log
    ensures |kinds| == |bounds| <= 3 && kinds == Order(floorfirst)[..|kinds|]
    ensures |kinds| < 3 ==> !CanImpose(node, Order(floorfirst)[|kinds|])
    ensures forall i :: 0 <= i < |kinds| ==> CanImpose(node, kinds[i]) && Branched(node, kinds[i], bounds[i])
  {
    hide Branched, CanImpose, GubNode.Valid;
    kinds, bounds := [], [];
    while node.nodesleft > 0
      invariant 0 <= node.nodesleft <= 3 && node.nodessolved == 3 - node.nodesleft == |kinds| == |bounds|
      invariant node.Valid()
      invariant kinds == Order(floorfirst)[..|kinds|]
      invariant node.nodesleft > 0 ==> node.isfloor == (if |kinds| == 1 then floorfirst else !floorfirst)
      invariant forall i :: 0 <= i < |kinds| ==> CanImpose(node, kinds[i]) && Branched(node, kinds[i], bounds[i])
    {
      var ok, kind, bound := RunBranch(node);
      if !ok {
        return;
      }
      kinds, bounds := kinds + [kind], bounds + [bound];
    }
  }

  /** One branch; solve_BB counts it. */
  method RunBranch(node: GubNode) returns (ok: bool, kind: Kind, bound: seq<real>)
    requires node.Valid() && node.nodesleft > 0
    modifies node, node.rec.members, node.upbo, node.log
    ensures node.nodesleft == old(node.nodesleft) - 1 && node.isfloor == (node.nodesleft == 0 || !old(node.isfloor))
    ensures ok ==> node.Valid() && node.nodessolved == old(node.nodessolved) + 1
    ensures kind == KindOf(node.isfloor, node.nodesleft) && (ok <==> CanImpose(node, kind))
    ensures ok ==> Branched(node, kind, bound)
  {
    hide Setup, Marked, CanRestore, Imposed, Branched, Imposable, CanImpose, Covers;
    ok := node.NextBranch();
    kind, bound := KindOf(node.isfloor, node.nodesleft), node.upbo[..];
    CanImposeIs(node, kind);
    if ok {
      BranchedNow(node, kind, bound);
      node.nodessolved := node.nodessolved + 1;
    }
  }

  /** The bounds of one branch, under the marker it sets. */
  ghost predicate Branched(node: GubNode, kind: Kind, bound: seq<real>) {
    && |node.base| == node.rec.n + 2 + node.rec.nn && node.rec.nn > 0
    && var list := Marked(node.base, node.rec.n, node.rec.nn, node.k, kind == Ceiling);
       && Covers(list, node.rec.n, node.rec.nn, |node.saved|)
       && Imposed(kind, list, node.rec.n, node.rec.nn, node.k, node.varlist, node.saved, bound)
  }

  /** The branch can be imposed, under the marker it sets. */
  ghost predicate CanImpose(node: GubNode, kind: Kind) {
    && |node.base| == node.rec.n + 2 + node.rec.nn && node.rec.nn > 0 && |node.limit| == |node.saved|
    && var list := Marked(node.base, node.rec.n, node.rec.nn, node.k, kind == Ceiling);
       && Covers(list, node.rec.n, node.rec.nn, |node.saved|)
       && Imposable(kind, list, node.rec.n, node.rec.nn, node.k, node.varlist, node.saved, node.limit)
  }

  lemma CanImposeIs(node: GubNode, kind: Kind)
    requires node.rec.nn > 0 && |node.base| == node.rec.n + 2 + node.rec.nn && |node.limit| == |node.saved|
    requires Covers(Marked(node.base, node.rec.n, node.rec.nn, node.k, kind == Ceiling), node.rec.n, node.rec.nn,
              |node.saved|)
    ensures CanImpose(node, kind) <==>
              Imposable(kind, Marked(node.base, node.rec.n, node.rec.nn, node.k, kind == Ceiling), node.rec.n,
                node.rec.nn, node.k, node.varlist, node.saved, node.limit)
  {
  }

  lemma BranchedNow(node: GubNode, kind: Kind, bound: seq<real>)
    requires node.rec.nn > 0 && |node.base| == node.rec.n + 2 + node.rec.nn
    requires var list := Marked(node.base, node.rec.n, node.rec.nn, node.k, kind == Ceiling);
             && Covers(list, node.rec.n, node.rec.nn, |node.saved|)
             && Imposed(kind, list, node.rec.n, node.rec.nn, node.k, node.varlist, node.saved, bound)
    ensures Branched(node, kind, bound)
  {
  }

  // ----- no point is lost -----

  /** A point below the node's upper bounds in which at most one member of the set is not
      zero, the variable k being integer. */
  ghost predicate GubPoint(x: seq<real>, base: seq<int>, n: nat, k: int, was: seq<real>)
    requires n < |base|
  {
    && |x| == |was| && 0 < k < |x| && x[k] == x[k].Floor as real
    && (forall c {:trigger x[c]} :: 0 <= c < |x| ==> x[c] <= was[c])
    && forall c, d {:trigger x[c], x[d]} ::
         0 < c < d < |x| && Position(base, n, c) > 0 && Position(base, n, d) > 0 ==> x[c] == 0.0 || x[d] == 0.0
  }

  ghost predicate Below(x: seq<real>, bound: seq<real>) {
    |x| == |bound| && forall c {:trigger x[c]} :: 0 <= c < |x| ==> x[c] <= bound[c]
  }

  /** Every point is within the bounds of one of the floor branches. */
  lemma FloorCovers(base: seq<int>, list: seq<int>, n: nat, k: int, varlist: seq<int>, was: seq<real>, x: seq<real>,
                    left: seq<real>, right: seq<real>)
    requires n < |base| == |list| && GubPoint(x, base, n, k, was) && Ascending(varlist)
    requires forall c :: Position(list, n, c) == Position(base, n, c)
    requires forall c :: c in varlist ==> 0 < c < |was|
    requires HalfFixed(list, n, Half(varlist, LeftHalf), was, left)
    requires HalfFixed(list, n, Half(varlist, RightHalf), was, right)
    ensures Below(x, left) || Below(x, right)
  {
    if !Below(x, left) {
      var c {:trigger x[c]} :| 0 <= c < |x| && x[c] > left[c];
      assert c in Half(varlist, LeftHalf) && Position(base, n, c) > 0 && x[c] > 0.0;
      HalvesPartition(varlist, c);
      forall d {:trigger x[d]} | 0 <= d < |x|
        ensures x[d] <= right[d]
      {
        if d in Half(varlist, RightHalf) && Position(base, n, d) > 0 {
          assert d != c && x[d] == 0.0;
        }
      }
    }
  }

  /** A point with the variable at one or more is in the ceiling branch. */
  lemma CeilingCovers(base: seq<int>, list: seq<int>, n: nat, nn: nat, k: int, was: seq<real>, x: seq<real>,
                      bound: seq<real>)
    requires Shape(list, n, nn) && |base| == |list| && Covers(list, n, nn, |was|) && GubPoint(x, base, n, k, was)
    requires x[k] >= 1.0
    requires forall c :: Position(list, n, c) == Position(base, n, c)
    requires Position(list, n, k) > 0 && list[Position(list, n, k)] == -k
    requires Fixed(list, n, nn, k, was, bound, 0.0, n)
    ensures Below(x, bound)
  {
    forall c {:trigger x[c]} | 0 <= c < |x|
      ensures x[c] <= bound[c]
    {
      if i :| i <= n && Outside(list, n, nn, k, i) && list[i] == c {
        PositionIs(list, n, nn, i);
      } else {
        assert bound[c] == was[c];
      }
    }
  }

  lemma {:induction false} PositionsKept(base: seq<int>, list: seq<int>, n: nat, c: int)
    requires n < |base| == |list| && forall i {:trigger list[i]} :: 1 <= i <= n ==> Abs(list[i]) == Abs(base[i])
    ensures Position(list, n, c) == Position(base, n, c)
  {
    if n > 0 {
      assert Abs(list[n]) == Abs(base[n]);
      PositionsKept(base, list, n - 1, c);
    }
  }

  /** Marking moves no member. */
  lemma MarkedPositions(base: seq<int>, n: nat, nn: nat, k: int, active: bool)
    requires IsWindow(base, n, nn) && Markable(base, n, k)
    ensures |base| == n + 2 + nn
    ensures var list := Marked(base, n, nn, k, active);
            && (forall c :: Position(list, n, c) == Position(base, n, c))
            && Position(list, n, k) > 0 && list[Position(list, n, k)] == -k
  {
    var cnt, p, rightward :| Window(base, n, nn, cnt, p, rightward);
    MarkedIs(base, n, nn, cnt, p, rightward, k);
    var list := Marked(base, n, nn, k, active);
    assert forall i {:trigger list[i]} :: 1 <= i <= n ==> Abs(list[i]) == Abs(base[i]);
    hide Marked, Window;
    forall c
      ensures Position(list, n, c) == Position(base, n, c)
    {
      PositionsKept(base, list, n, c);
    }
  }

  lemma BranchedList(node: GubNode, kind: Kind, bound: seq<real>, varlist: seq<int>)
    requires Branched(node, kind, bound) && Setup(node.base, node.rec.n, node.rec.nn, node.k, varlist, |node.saved|)
    ensures |node.base| == node.rec.n + 2 + node.rec.nn && node.rec.nn > 0
    ensures var list, n, nn := Marked(node.base, node.rec.n, node.rec.nn, node.k, kind == Ceiling), node.rec.n,
              node.rec.nn;
            && Shape(list, n, nn) && Covers(list, n, nn, |node.saved|)
            && (forall c :: Position(list, n, c) == Position(node.base, n, c))
            && Position(list, n, node.k) > 0 && list[Position(list, n, node.k)] == -node.k
            && Imposed(kind, list, n, nn, node.k, node.varlist, node.saved, bound)
  {
    hide Imposed, Position, Marked;
    MarkForBranch(node.base, node.rec.n, node.rec.nn, node.k, varlist, |node.saved|, kind == Ceiling);
    SetupParts(node.base, node.rec.n, node.rec.nn, node.k, varlist, |node.saved|);
    MarkedPositions(node.base, node.rec.n, node.rec.nn, node.k, kind == Ceiling);
  }

  /** The branch with its bound on the variable, which solve_BB imposes: at most `cut` in
      a floor branch, more than that in the ceiling branch. */
  ghost predicate InBranch(x: seq<real>, kind: Kind, bound: seq<real>, k: int, cut: int)
    requires 0 <= k < |x|
  {
    if kind == Ceiling then Below(x, bound) && x[k] >= (cut + 1) as real
    else k < |bound| && Below(x, bound[k := cut as real])
  }

  /** Three-way branching loses no point, wherever the variable is cut: up to the cut it is
      in one of the two floor branches, above it in the ceiling branch. */
  lemma NoPointLost(node: GubNode, up: seq<real>, left: seq<real>, right: seq<real>, x: seq<real>)
    requires Setup(node.base, node.rec.n, node.rec.nn, node.k, node.varlist, |node.saved|) && Ascending(node.varlist)
    requires Branched(node, Ceiling, up) && Branched(node, FloorLeft, left) && Branched(node, FloorRight, right)
    requires |node.base| == node.rec.n + 2 + node.rec.nn && GubPoint(x, node.base, node.rec.n, node.k, node.saved)
    ensures Below(x, left) || Below(x, right)
    ensures x[node.k] >= 1.0 ==> Below(x, up)
    ensures forall cut: nat ::
              if x[node.k] > cut as real then InBranch(x, Ceiling, up, node.k, cut)
              else InBranch(x, FloorLeft, left, node.k, cut) || InBranch(x, FloorRight, right, node.k, cut)
  {
    var base, n, nn, k := node.base, node.rec.n, node.rec.nn, node.k;
    SetupColumns(base, n, nn, k, node.varlist, |node.saved|);
    BranchedList(node, Ceiling, up, node.varlist);
    BranchedList(node, FloorLeft, left, node.varlist);
    BranchedList(node, FloorRight, right, node.varlist);
    assert x[k] == x[k].Floor as real && 0 < k < |x|;
    hide Setup, Branched, GubPoint, Below, Position, Marked, Shape, Covers, HalfFixed, Fixed, Half, Ascending, InBranch;
    FloorCovers(base, Marked(base, n, nn, k, false), n, k, node.varlist, node.saved, x, left, right);
    if x[k] >= 1.0 {
      CeilingCovers(base, Marked(base, n, nn, k, true), n, nn, k, node.saved, x, up);
    }
    forall cut: nat
      ensures if x[k] > cut as real then InBranch(x, Ceiling, up, k, cut)
              else InBranch(x, FloorLeft, left, k, cut) || InBranch(x, FloorRight, right, k, cut)
    {
      AtCut(x, up, left, right, k, cut);
    }
  }

  lemma AtCut(x: seq<real>, up: seq<real>, left: seq<real>, right: seq<real>, k: int, cut: nat)
    requires 0 < k < |x| && x[k] == x[k].Floor as real && (Below(x, left) || Below(x, right))
    requires (x[k] >= 1.0 ==> Below(x, up))
    ensures if x[k] > cut as real then InBranch(x, Ceiling, up, k, cut)
            else InBranch(x, FloorLeft, left, k, cut) || InBranch(x, FloorRight, right, k, cut)
  {
    hide Below;
    if x[k] > cut as real {
      AboveCut(x[k].Floor, cut);
    } else if Below(x, left) {
      BelowCut(x, left, k, cut);
    } else {
      BelowCut(x, right, k, cut);
    }
  }

  lemma AboveCut(f: int, cut: nat)
    requires f as real > cut as real
    ensures f as real >= (cut + 1) as real && f as real >= 1.0
  {
    assert f > cut;
  }

  lemma BelowCut(x: seq<real>, bound: seq<real>, k: int, cut: nat)
    requires 0 <= k < |x| && Below(x, bound) && x[k] <= cut as real
    ensures k < |bound| && Below(x, bound[k := cut as real])
  {
  }

  lemma RaisedIsNotNone(list: seq<int>, n: nat, half: seq<int>, limit: seq<real>, c: int)
    requires n < |list|
    ensures RaisedColumn(list, n, half, limit, c) ==> !NoneRaised(list, n, half, limit)
  {
  }

  lemma SetupColumns(base: seq<int>, n: nat, nn: nat, k: int, varlist: seq<int>, size: nat)
    requires Setup(base, n, nn, k, varlist, size)
    ensures Ascending(varlist) && forall c :: c in varlist ==> 0 < c < size
    ensures forall c :: c in Half(varlist, LeftHalf) || c in Half(varlist, RightHalf) ==> c in varlist
  {
  }

  // ----- the node that branches on a set -----

  /** With a candidate list nothing that a branch fixes has a positive original lower
      bound: a member with one would have left no list. */
  lemma CandidatesImposable(node: GubNode, sets: seq<seq<int>>, i: nat, v: nat, lower: seq<real>, kind: Kind)
    requires Setup(node.base, node.rec.n, node.rec.nn, node.k, node.varlist, |node.saved|)
    requires |node.base| == node.rec.n + 2 + node.rec.nn && |lower| == |node.saved| == |node.limit|
    requires forall c {:trigger lower[c]} :: 0 <= c < |lower| ==> node.limit[c] <= lower[c] <= node.saved[c]
    requires i < v <= |sets| && sets[i] == node.base[1..node.rec.n + 1]
    requires IsCandidateList(node.varlist, sets, v, node.k, true, node.saved)
    requires !RaisedLower(sets, v, node.k, node.saved, lower)
    ensures CanImpose(node, kind)
  {
    hide Setup, IsWindow, Marked, Unmarked, Covers, Shape, HasMember, RaisedLower, RaisedMember, IsCandidateList,
      Imposable, CanImpose;
    var base, n, nn, k := node.base, node.rec.n, node.rec.nn, node.k;
    MarkForBranch(base, n, nn, k, node.varlist, |node.saved|, kind == Ceiling);
    SetupMember(base, n, nn, k, node.varlist, |node.saved|, kind == Ceiling);
    CanImposeIs(node, kind);
    if kind == Ceiling {
      SetNotRaised(sets, i, v, k, node.saved, lower);
    }
    CandidatesNotRaised(sets, v, k, node.varlist, node.saved, lower, node.limit);
    MarkedImposable(kind, Marked(base, n, nn, k, kind == Ceiling), base, n, nn, k, node.varlist, node.saved, lower,
      node.limit);
  }

  lemma MarkedImposable(kind: Kind, list: seq<int>, base: seq<int>, n: nat, nn: nat, k: int, varlist: seq<int>,
                        was: seq<real>, lower: seq<real>, limit: seq<real>)
    requires nn > 0 && Covers(list, n, nn, |was|) && |base| == |list| == n + 2 + nn && |limit| == |was| == |lower|
    requires forall j {:trigger list[j]} :: 1 <= j <= n && list[j] > 0 ==> base[j] == list[j]
    requires forall c {:trigger lower[c]} :: 0 <= c < |lower| ==> limit[c] <= lower[c] <= was[c]
    requires kind == Ceiling ==> !RaisedMember(base[1..n + 1], was, lower)
    requires forall c :: c in varlist && 0 <= c < |limit| ==> limit[c] <= 0.0
    ensures Imposable(kind, list, n, nn, k, varlist, was, limit)
  {
    hide Imposable, Covers, RaisedMember, NoneRaised, Violates, Half;
    if kind == Ceiling {
      NoViolation(list, base, n, nn, k, was, lower, limit);
    } else {
      HalvesNotRaised(list, n, varlist, limit);
    }
    ImposableFrom(kind, list, n, nn, k, varlist, was, limit);
  }

  lemma ImposableFrom(kind: Kind, list: seq<int>, n: nat, nn: nat, k: int, varlist: seq<int>, was: seq<real>,
                      limit: seq<real>)
    requires nn > 0 && Covers(list, n, nn, |was|) && |limit| == |was|
    requires kind == Ceiling ==> forall i :: !Violates(list, n, nn, k, was, 0.0, true, limit, i)
    requires kind != Ceiling ==>
              NoneRaised(list, n, Half(varlist, LeftHalf), limit)
                && NoneRaised(list, n, Half(varlist, RightHalf), limit)
    ensures Imposable(kind, list, n, nn, k, varlist, was, limit)
  {
  }

  /** The variable is a member, and what a marker leaves unmarked was unmarked before. */
  lemma SetupMember(base: seq<int>, n: nat, nn: nat, k: int, varlist: seq<int>, size: nat, active: bool)
    requires Setup(base, n, nn, k, varlist, size)
    ensures |base| == n + 2 + nn && nn > 0 && HasMember(base[1..n + 1], k)
    ensures var list := Marked(base, n, nn, k, active);
            forall j {:trigger list[j]} :: 1 <= j <= n && list[j] > 0 ==> base[j] == list[j]
  {
    var cnt, p, rightward :| Window(base, n, nn, cnt, p, rightward);
    MarkedIs(base, n, nn, cnt, p, rightward, k);
    assert base[1..n + 1][Position(base, n, k) - 1] == k;
    hide Marked;
  }

  lemma SetNotRaised(sets: seq<seq<int>>, i: nat, v: nat, column: int, upbound: seq<real>, lobound: seq<real>)
    requires i < v <= |sets| && !RaisedLower(sets, v, column, upbound, lobound) && HasMember(sets[i], column)
    ensures !RaisedMember(sets[i], upbound, lobound)
  {
    RaisedSetIs(sets[i], column, upbound, lobound);
    hide RaisedSet, RaisedMember, HasMember;
  }

  lemma NoViolation(list: seq<int>, base: seq<int>, n: nat, nn: nat, k: int, was: seq<real>, lower: seq<real>,
                    limit: seq<real>)
    requires nn > 0 && Covers(list, n, nn, |was|) && |base| == |list| && |limit| == |was| == |lower|
    requires forall j {:trigger list[j]} :: 1 <= j <= n && list[j] > 0 ==> base[j] == list[j]
    requires forall c {:trigger lower[c]} :: 0 <= c < |lower| ==> limit[c] <= lower[c] <= was[c]
    requires !RaisedMember(base[1..n + 1], was, lower)
    ensures forall i :: !Violates(list, n, nn, k, was, 0.0, true, limit, i)
  {
    hide Violates, RaisedMember, Covers;
    forall i
      ensures !Violates(list, n, nn, k, was, 0.0, true, limit, i)
    {
      ViolatorIsRaised(list, base, n, nn, k, was, lower, limit, i);
    }
  }

  lemma ViolatorIsRaised(list: seq<int>, base: seq<int>, n: nat, nn: nat, k: int, was: seq<real>, lower: seq<real>,
                         limit: seq<real>, i: int)
    requires nn > 0 && Covers(list, n, nn, |was|) && |base| == |list| && |limit| == |was| == |lower|
    requires forall j {:trigger list[j]} :: 1 <= j <= n && list[j] > 0 ==> base[j] == list[j]
    requires forall c {:trigger lower[c]} :: 0 <= c < |lower| ==> limit[c] <= lower[c] <= was[c]
    ensures |base| == n + 2 + nn
    ensures Violates(list, n, nn, k, was, 0.0, true, limit, i) ==> RaisedMember(base[1..n + 1], was, lower)
  {
    if Violates(list, n, nn, k, was, 0.0, true, limit, i) {
      var c := list[i];
      assert base[1..n + 1][i - 1] == c;
      assert limit[c] <= lower[c] <= was[c];
    }
  }

  lemma CandidatesNotRaised(sets: seq<seq<int>>, v: nat, column: int, varlist: seq<int>, upbound: seq<real>,
                            lower: seq<real>, limit: seq<real>)
    requires IsCandidateList(varlist, sets, v, column, true, upbound) && !RaisedLower(sets, v, column, upbound, lower)
    requires |limit| == |upbound| == |lower|
    requires forall c {:trigger lower[c]} :: 0 <= c < |lower| ==> limit[c] <= lower[c]
    ensures forall c :: c in varlist && 0 <= c < |limit| ==> limit[c] <= 0.0
  {
    hide Ascending, RaisedLower, HasMember;
    forall c | c in varlist && 0 <= c < |limit|
      ensures limit[c] <= 0.0
    {
      assert Candidate(sets, v, column, upbound, c);
      var i :| 0 <= i < v <= |sets| && CandidateIn(sets[i], column, upbound, c);
      SetNotRaised(sets, i, v, column, upbound, lower);
      assert limit[c] <= lower[c];
    }
  }

  lemma HalvesNotRaised(list: seq<int>, n: nat, varlist: seq<int>, limit: seq<real>)
    requires n < |list| && forall c :: c in varlist && 0 <= c < |limit| ==> limit[c] <= 0.0
    ensures NoneRaised(list, n, Half(varlist, LeftHalf), limit) && NoneRaised(list, n, Half(varlist, RightHalf), limit)
  {
    hide Half;
  }

  /** initbranches_BB and the branch loop for a variable that may be activated in one set:
      the candidates are looked up, and with a list the three branches run, in either order,
      and lose no point.  Without one the other members cannot be non-zero, or one of them
      has a positive lower bound. */
  method BranchOnSet(sets: seq<seq<int>>, columns: nat, ghost i: nat, rec: SOSrec, upbo: array<real>, lower: seq<real>,
                     k: int, limit: seq<real>, rows: nat, log: UndoLadders.UndoLadder<real>, floorfirst: bool)
    returns (managed: bool, kinds: seq<Kind>, bounds: seq<seq<real>>)
    requires log.Valid() && log.levels != [] && log.levels[|log.levels| - 1] == []
    requires upbo.Length == |lower| == |limit| == columns + 1 && MembersOK(sets, columns)
    requires forall c {:trigger lower[c]} :: 0 <= c <= columns ==> limit[c] <= lower[c] <= upbo[c]
    requires Setup(rec.members[..], rec.n, rec.nn, k, [], columns + 1)
    requires i < |sets| && |rec.members[..]| > rec.n && sets[i] == rec.members[..][1..rec.n + 1]
    requires forall j :: 0 <= j < |sets| && HasMember(sets[j], k) ==> j == i
    modifies rec.members, upbo, log
    ensures managed <==> OthersOpen(sets[i], k, old(upbo[..])) && !RaisedMember(sets[i], old(upbo[..]), lower)
    ensures managed ==> kinds == Order(floorfirst) && |bounds| == 3
    ensures managed ==> LosesNothing(kinds, bounds, old(rec.members[..]), rec.n, k, old(upbo[..]))
  {
    hide *;
    kinds, bounds := [], [];
    var candidates;
    ghost var v;
    candidates, v := GetCandidates(sets, columns, true, k, true, upbo[..], lower);
    managed := candidates != null;
    SetupMember(rec.members[..], rec.n, rec.nn, k, [], columns + 1, true);
    OnlySet(sets, i, v, k, upbo[..], lower);
    if managed {
      var varlist := candidates[1..candidates[0] + 1];
      SetupWith(rec.members[..], rec.n, rec.nn, k, varlist, sets, v, upbo[..], columns + 1);
      var node := new GubNode(rec, upbo, k, varlist, limit, rows, log, floorfirst);
      node.ValidParts();
      CandidatesImposable(node, sets, i, v, lower, Ceiling);
      CandidatesImposable(node, sets, i, v, lower, FloorLeft);
      CandidatesImposable(node, sets, i, v, lower, FloorRight);
      kinds, bounds := RunBranches(node, floorfirst);
      AllKept(node, floorfirst, kinds, bounds);
    }
  }

  lemma SetupWith(base: seq<int>, n: nat, nn: nat, k: int, varlist: seq<int>, sets: seq<seq<int>>, v: nat,
                  upbound: seq<real>, size: nat)
    requires Setup(base, n, nn, k, [], size) && IsCandidateList(varlist, sets, v, k, true, upbound) && |upbound| == size
    ensures Setup(base, n, nn, k, varlist, size)
  {
    hide IsWindow, Sos.Covers, Markable, Admissible, Ascending, HasMember;
    forall c | c in varlist
      ensures 0 < c < size
    {
      assert Candidate(sets, v, k, upbound, c);
    }
  }

  /** With the variable in one set only, the walk over the sets says what that set says. */
  lemma OnlySet(sets: seq<seq<int>>, i: nat, v: nat, k: int, upbound: seq<real>, lower: seq<real>)
    requires i < |sets| && v <= |sets| && HasMember(sets[i], k)
    requires forall j :: 0 <= j < |sets| && HasMember(sets[j], k) ==> j == i
    requires v < |sets| && !RaisedLower(sets, v, k, upbound, lower) ==> v > 0 && HasMember(sets[v - 1], k)
    ensures !RaisedLower(sets, v, k, upbound, lower) ==> i < v
    ensures NoneFound(sets, v, k, true, upbound) || RaisedLower(sets, v, k, upbound, lower)
       <==> !OthersOpen(sets[i], k, upbound) || RaisedMember(sets[i], upbound, lower)
  {
    hide RaisedMember, HasMember;
    if RaisedLower(sets, v, k, upbound, lower) {
      var j :| 0 <= j < v && RaisedSet(sets[j], k, upbound, lower);
      assert j == i;
    } else {
      assert i < v && !RaisedSet(sets[i], k, upbound, lower);
      forall c
        ensures Candidate(sets, v, k, upbound, c) <==> CandidateIn(sets[i], k, upbound, c)
      {
        OnlyCandidate(sets, i, v, k, upbound, c);
      }
      NoneFoundIn(sets, i, v, k, upbound);
    }
  }

  lemma OnlyCandidate(sets: seq<seq<int>>, i: nat, v: nat, k: int, upbound: seq<real>, c: int)
    requires i < v <= |sets| && forall j :: 0 <= j < |sets| && HasMember(sets[j], k) ==> j == i
    ensures Candidate(sets, v, k, upbound, c) <==> CandidateIn(sets[i], k, upbound, c)
  {
    hide HasMember;
  }

  lemma NoneFoundIn(sets: seq<seq<int>>, i: nat, v: nat, k: int, upbound: seq<real>)
    requires i < |sets| && HasMember(sets[i], k)
    requires forall c :: Candidate(sets, v, k, upbound, c) <==> CandidateIn(sets[i], k, upbound, c)
    ensures NoneFound(sets, v, k, true, upbound) <==> !OthersOpen(sets[i], k, upbound)
  {
    hide Candidate, HasMember;
    if OthersOpen(sets[i], k, upbound) {
      var c :| c in sets[i] && c != k && 0 < c < |upbound| && upbound[c] > 0.0;
      assert CandidateIn(sets[i], k, upbound, c);
    }
  }

  /** Three branches, in their order, that together keep every point. */
  lemma AllKept(node: GubNode, floorfirst: bool, kinds: seq<Kind>, bounds: seq<seq<real>>)
    requires Setup(node.base, node.rec.n, node.rec.nn, node.k, node.varlist, |node.saved|)
    requires |node.base| == node.rec.n + 2 + node.rec.nn
    requires CanImpose(node, Ceiling) && CanImpose(node, FloorLeft) && CanImpose(node, FloorRight)
    requires |kinds| == |bounds| <= 3 && kinds == Order(floorfirst)[..|kinds|]
    requires |kinds| < 3 ==> !CanImpose(node, Order(floorfirst)[|kinds|])
    requires forall b :: 0 <= b < |kinds| ==> Branched(node, kinds[b], bounds[b])
    ensures kinds == Order(floorfirst) && |bounds| == 3
    ensures LosesNothing(kinds, bounds, node.base, node.rec.n, node.k, node.saved)
  {
    hide Setup, CanImpose, Branched, GubPoint, Survives;
    assert |kinds| == 3 && kinds == Order(floorfirst);
    forall x | GubPoint(x, node.base, node.rec.n, node.k, node.saved)
      ensures 0 <= node.k < |x| && forall cut: nat :: Survives(x, kinds, bounds, node.k, cut)
    {
      PointSurvives(node, if floorfirst then 1 else 0, kinds, bounds, x);
    }
  }

  lemma PointSurvives(node: GubNode, c: nat, kinds: seq<Kind>, bounds: seq<seq<real>>, x: seq<real>)
    requires Setup(node.base, node.rec.n, node.rec.nn, node.k, node.varlist, |node.saved|)
    requires |node.base| == node.rec.n + 2 + node.rec.nn
    requires |kinds| == |bounds| == 3 && c < 2 && kinds[c] == Ceiling && kinds[1 - c] == FloorLeft
    requires kinds[2] == FloorRight
    requires Branched(node, Ceiling, bounds[c]) && Branched(node, FloorLeft, bounds[1 - c])
    requires Branched(node, FloorRight, bounds[2])
    requires GubPoint(x, node.base, node.rec.n, node.k, node.saved)
    ensures 0 <= node.k < |x| && forall cut: nat :: Survives(x, kinds, bounds, node.k, cut)
  {
    hide Setup, Branched, GubPoint, InBranch, Ascending, Survives;
    SetupColumns(node.base, node.rec.n, node.rec.nn, node.k, node.varlist, |node.saved|);
    NoPointLost(node, bounds[c], bounds[1 - c], bounds[2], x);
    PointInside(x, node.base, node.rec.n, node.k, node.saved);
    forall cut: nat
      ensures Survives(x, kinds, bounds, node.k, cut)
    {
      if x[node.k] > cut as real {
        SurvivesIn(x, kinds, bounds, node.k, cut, c);
      } else if InBranch(x, FloorLeft, bounds[1 - c], node.k, cut) {
        SurvivesIn(x, kinds, bounds, node.k, cut, 1 - c);
      } else {
        SurvivesIn(x, kinds, bounds, node.k, cut, 2);
      }
    }
  }

  lemma PointInside(x: seq<real>, base: seq<int>, n: nat, k: int, was: seq<real>)
    requires n < |base| && GubPoint(x, base, n, k, was)
    ensures 0 < k < |x|
  {
  }

  lemma SurvivesIn(x: seq<real>, kinds: seq<Kind>, bounds: seq<seq<real>>, k: int, cut: nat, b: int)
    requires 0 <= k < |x| && 0 <= b < |kinds| == |bounds| && InBranch(x, kinds[b], bounds[b], k, cut)
    ensures Survives(x, kinds, bounds, k, cut)
  {
  }

  /** The point is in one of the branches. */
  ghost predicate Survives(x: seq<real>, kinds: seq<Kind>, bounds: seq<seq<real>>, k: int, cut: nat)
    requires 0 <= k < |x|
  {
    |kinds| == |bounds| && exists b :: 0 <= b < |kinds| && InBranch(x, kinds[b], bounds[b], k, cut)
  }

  /** Every point of the node is, wherever the variable is cut. */
  ghost predicate LosesNothing(kinds: seq<Kind>, bounds: seq<seq<real>>, base: seq<int>, n: nat, k: int,
                               was: seq<real>) {
    n < |base| && forall x :: GubPoint(x, base, n, k, was) ==>
      0 <= k < |x| && forall cut: nat :: Survives(x, kinds, bounds, k, cut)
  }

  /** Some other member can be non-zero. */
  ghost predicate OthersOpen(list: seq<int>, k: int, upbound: seq<real>) {
    exists c :: c in list && c != k && 0 < c < |upbound| && upbound[c] > 0.0
  }
}
