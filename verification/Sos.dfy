/** The operations of lp_SOS.c on one specially ordered set, in place on its member array. */
module Sos {
  import opened SosList
  import UndoLadders

  // ----- what the loops of SOS_can_activate count -----

  /** Members up to position i with a positive lower bound. */
  ghost function Lifted(list: seq<int>, lowbo: seq<real>, i: nat): nat
    requires i < |list| && forall j {:trigger list[j]} :: 1 <= j <= i ==> Abs(list[j]) < |lowbo|
  {
    if i == 0 then 0 else Lifted(list, lowbo, i - 1) + if lowbo[Abs(list[i])] > 0.0 then 1 else 0
  }

  /** Active members in the first k slots whose lower bound is zero. */
  ghost function Idle(list: seq<int>, n: nat, lowbo: seq<real>, k: nat): nat
    requires n + 2 + k <= |list| && forall t {:trigger list[t]} :: n + 2 <= t < n + 2 + k ==> 0 <= list[t] < |lowbo|
  {
    if k == 0 then 0 else Idle(list, n, lowbo, k - 1) + if lowbo[list[n + 1 + k]] == 0.0 then 1 else 0
  }

  /** The quota of SOS_can_activate: the positions held up, and the slots that are not. */
  lemma {:induction false} LiftedIs(list: seq<int>, lowbo: seq<real>, i: nat)
    requires i < |list| && forall j {:trigger list[j]} :: 1 <= j <= i ==> Abs(list[j]) < |lowbo|
    ensures Lifted(list, lowbo, i) == |set j | 1 <= j <= i && lowbo[Abs(list[j])] > 0.0|
  {
    if i > 0 {
      LiftedIs(list, lowbo, i - 1);
      var before := set j | 1 <= j <= i - 1 && lowbo[Abs(list[j])] > 0.0;
      var after := set j | 1 <= j <= i && lowbo[Abs(list[j])] > 0.0;
      assert after == if lowbo[Abs(list[i])] > 0.0 then before + {i} else before;
    }
  }

  lemma {:induction false} IdleIs(list: seq<int>, n: nat, lowbo: seq<real>, k: nat)
    requires n + 2 + k <= |list| && forall t {:trigger list[t]} :: n + 2 <= t < n + 2 + k ==> 0 <= list[t] < |lowbo|
    ensures Idle(list, n, lowbo, k) == |set t | n + 2 <= t < n + 2 + k && lowbo[list[t]] == 0.0|
  {
    if k > 0 {
      IdleIs(list, n, lowbo, k - 1);
      var before := set t | n + 2 <= t < n + 2 + k - 1 && lowbo[list[t]] == 0.0;
      var after := set t | n + 2 <= t < n + 2 + k && lowbo[list[t]] == 0.0;
      assert after == if lowbo[list[n + 1 + k]] == 0.0 then before + {n + 1 + k} else before;
    }
  }

  /** The vectors the set is checked against have an entry for every member. */
  ghost predicate Covers(list: seq<int>, n: nat, nn: nat, size: nat) {
    && |list| == n + 2 + nn
    && (forall j {:trigger list[j]} :: 1 <= j <= n ==> Abs(list[j]) < size)
    && (forall t {:trigger list[t]} :: n + 2 <= t < |list| ==> 0 <= list[t] < size)
  }

  ghost predicate Named(list: seq<int>, n: nat, cnt: nat, column: int)
    requires n + 2 + cnt <= |list|
  {
    exists t {:trigger list[t]} :: n + 2 <= t < n + 2 + cnt && list[t] == column
  }

  ghost predicate Unmarkable(list: seq<int>, n: nat, lowbo: seq<real>, column: int)
    requires n < |list| && forall j {:trigger list[j]} :: 1 <= j <= n ==> Abs(list[j]) < |lowbo|
  {
    exists i {:trigger list[i]} :: 1 <= i <= n && list[i] == column && lowbo[Abs(list[i])] > 0.0
  }

  lemma NamedIff(list: seq<int>, n: nat, cnt: nat, column: int)
    requires n + 2 + cnt <= |list|
    ensures Named(list, n, cnt, column) <==> column in list[n + 2..n + 2 + cnt]
  {
    var active := list[n + 2..n + 2 + cnt];
    if t :| n + 2 <= t < n + 2 + cnt && list[t] == column {
      assert active[t - n - 2] == column;
    }
  }

  lemma UnmarkableIff(list: seq<int>, n: nat, lowbo: seq<real>, column: int)
    requires n < |list| && forall j {:trigger list[j]} :: 1 <= j <= n ==> Abs(list[j]) < |lowbo|
    ensures column in list[1..n + 1] ==> Abs(column) < |lowbo|
    ensures Unmarkable(list, n, lowbo, column) <==> column in list[1..n + 1] && lowbo[Abs(column)] > 0.0
  {
    if i :| 1 <= i <= n && list[i] == column {
      assert list[1..n + 1][i - 1] == column;
    }
  }

  lemma PositionIff(list: seq<int>, n: nat, column: int)
    requires n < |list|
    ensures Position(list, n, column) == 0 <==> forall j {:trigger list[j]} :: 1 <= j <= n ==> Abs(list[j]) != column
  {
  }

  /** What SOS_can_activate asks for. */
  ghost predicate MayActivate(list: seq<int>, n: nat, nn: nat, column: int, lowbo: seq<real>)
    requires Covers(list, n, nn, |lowbo|) && nn > 0
  {
    var cnt := Active(list, n, nn);
    || Position(list, n, column) == 0
    || (&& cnt < nn && !Unmarkable(list, n, lowbo, column)
        && Lifted(list, lowbo, n) + Idle(list, n, lowbo, cnt) != nn
        && (cnt == 0 || (!Named(list, n, cnt, column) && NextToLast(list, n, list[n + 1 + cnt], column))))
  }

  lemma MayActivateIff(list: seq<int>, n: nat, nn: nat, column: int, lowbo: seq<real>)
    requires Covers(list, n, nn, |lowbo|) && nn > 0
    ensures var cnt := Active(list, n, nn);
            MayActivate(list, n, nn, column, lowbo) <==>
              || (forall i {:trigger list[i]} :: 1 <= i <= n ==> Abs(list[i]) != column)
              || (&& cnt < nn && !(column in list[1..n + 1] && lowbo[Abs(column)] > 0.0)
                  && |set i | 1 <= i <= n && lowbo[Abs(list[i])] > 0.0|
                     + |set t | n + 2 <= t < n + 2 + cnt && lowbo[list[t]] == 0.0| != nn
                  && (cnt == 0 || (column !in list[n + 2..n + 2 + cnt]
                     && NextToLast(list, n, list[n + 1 + cnt], column))))
  {
    var cnt := Active(list, n, nn);
    LiftedIs(list, lowbo, n);
    IdleIs(list, n, lowbo, cnt);
    UnmarkableIff(list, n, lowbo, column);
    NamedIff(list, n, cnt, column);
    PositionIff(list, n, column);
    hide Lifted, Idle, Named, NextToLast, Unmarkable, Position, Covers;
  }

  /** Distinct columns. */
  predicate NewMembers(variables: seq<int>) {
    && (forall i :: 0 <= i < |variables| ==> variables[i] > 0)
    && forall i, j :: 0 <= i < j < |variables| ==> variables[i] != variables[j]
  }

  lemma NewWindow(variables: seq<int>, order: nat, list: seq<int>)
    requires order > 0 && NewMembers(variables) && list == [|variables|] + variables + [order] + seq(order, _ => 0)
    ensures Window(list, |variables|, order, 0, 0, true)
  {
    assert forall i {:trigger list[i]} :: 1 <= i <= |variables| ==> list[i] == variables[i - 1];
  }

  /** With a change log: its last level gives `was` back when it is restored. */
  ghost predicate CanRestore(log: UndoLadders.UndoLadder?<real>, was: seq<real>, bound: seq<real>)
    reads log
  {
    log != null ==>
      && log.Valid() && log.levels != []
      && UndoLadders.LogsBase(log.levels[|log.levels| - 1], log.rows, was)
      && UndoLadders.Covers(log.levels[|log.levels| - 1], log.rows, was, bound)
  }

  /** A bound is set, through the change log if there is one. */
  method SetBound(bound: array<real>, log: UndoLadders.UndoLadder?<real>, c: nat, value: real, ghost was: seq<real>)
    requires c < bound.Length == |was| && CanRestore(log, was, bound[..]) && (log != null ==> bound[c] == was[c])
    modifies bound, log
    ensures bound[..] == old(bound[..])[c := value] && CanRestore(log, was, bound[..])
  {
    hide UndoLadders.LogsBase, UndoLadders.Covers, UndoLadders.UndoLadder<real>.Valid;
    if log == null {
      bound[c] := value;
    } else {
      UndoLadders.LoggedOneMore(log.levels[|log.levels| - 1], log.rows, was, bound[..], c, value);
      LevelsMatch(log);
      log.Modify(c, bound, value);
    }
  }

  lemma LevelsMatch(log: UndoLadders.UndoLadder<real>)
    requires log.Valid() && log.levels != []
    ensures log.activelevel > 0
  {
  }

  class SOSrec {
    const members: array<int>
    ghost const n: nat
    ghost const nn: nat

    /** append_SOSrec for a new set, its variables in the order of their weights: nothing is
        marked and the active list is empty. */
    constructor (variables: seq<int>, order: nat)
      requires order > 0 && NewMembers(variables)
      ensures Valid() && fresh(members) && n == |variables| && nn == order
      ensures members[..] == [|variables|] + variables + [order] + seq(order, _ => 0)
      ensures Window(members[..], n, nn, 0, 0, true)
    {
      n, nn := |variables|, order;
      members := new int[|variables| + 2 + order];
      new;
      members[0] := |variables|;
      for i := 0 to |variables|
        invariant members[0] == |variables|
        invariant forall k {:trigger members[k]} :: 1 <= k <= i ==> members[k] == variables[k - 1]
      {
        members[i + 1] := variables[i];
      }
      var base := |variables| + 1;
      members[base] := order;
      for k := 0 to order
        invariant members[..base + 1] == [|variables|] + variables + [order]
        invariant forall t {:trigger members[t]} :: base < t <= base + k ==> members[t] == 0
      {
        members[base + 1 + k] := 0;
      }
      assert members[..] == members[..base + 1] + members[base + 1..];
      NewWindow(variables, order, members[..]);
    }

    ghost predicate Valid()
      reads members
    {
      Shape(members[..], n, nn)
    }

    /** The first scan of SOS_can_activate: members held up by their lower bound, unless
        the column itself is one of them. */
    method CountLifted(column: int, lowbo: seq<real>) returns (nz: int, rejected: bool)
      requires Valid() && Covers(members[..], n, nn, |lowbo|)
      ensures rejected <==> Unmarkable(members[..], n, lowbo, column)
      ensures !rejected ==> nz == Lifted(members[..], lowbo, n)
    {
      ghost var list := members[..];
      nz, rejected := 0, false;
      for i := 1 to members[0] + 1
        invariant nz == Lifted(list, lowbo, i - 1) && !rejected
        invariant forall j {:trigger list[j]} :: 1 <= j < i && list[j] == column ==> lowbo[Abs(list[j])] <= 0.0
      {
        if lowbo[Abs(members[i])] > 0.0 {
          nz := nz + 1;
          if members[i] == column {
            assert list[i] == column;
            return nz, true;
          }
        }
      }
    }

    /** The scan of the active list, which stops at the first free slot. */
    method CountIdle(lowbo: seq<real>) returns (nz: int)
      requires Valid() && Covers(members[..], n, nn, |lowbo|)
      ensures nz == Idle(members[..], n, lowbo, Active(members[..], n, nn))
    {
      ghost var list := members[..];
      ghost var cnt := Active(list, n, nn);
      var base, k := members[0] + 2, 0;
      nz := 0;
      while k < members[base - 1] && members[base + k] != 0
        invariant 0 <= k <= cnt && nz == Idle(list, n, lowbo, k)
      {
        assert list[n + 2 + k] != 0;
        if lowbo[members[base + k]] == 0.0 {
          nz := nz + 1;
        }
        k := k + 1;
      }
      assert k == cnt;
    }

    /** The last scan: is the column new, and next to the member last made active? */
    method IsNeighbour(column: int) returns (yes: bool)
      requires Valid() && Active(members[..], n, nn) > 0
      ensures var list, cnt := members[..], Active(members[..], n, nn);
              (yes <==> !Named(list, n, cnt, column) && NextToLast(list, n, list[n + 1 + cnt], column))
    {
      ghost var list := members[..];
      ghost var cnt := Active(list, n, nn);
      var size := members[0];
      var base, k := size + 2, 0;
      while k < members[base - 1] && members[base + k] != 0
        invariant 0 <= k <= cnt
        invariant forall t {:trigger list[t]} :: n + 2 <= t < n + 2 + k ==> list[t] != column
      {
        assert list[n + 2 + k] != 0;
        if members[base + k] == column {
          return false;
        }
        k := k + 1;
      }
      assert k == cnt;
      var last := members[base + k - 1];
      var i := 1;
      while i <= size && Abs(members[i]) != last
        invariant 1 <= i <= size + 1
        invariant forall j {:trigger list[j]} :: 1 <= j < i ==> Abs(list[j]) != last
      {
        i := i + 1;
      }
      if i > size {
        return false;
      }
      assert forall j :: NextTo(list, n, j, last, column) ==> j == i;
      if i > 1 && members[i - 1] == column {
        assert NextTo(list, n, i, last, column);
        return true;
      }
      if i < size && members[i + 1] == column {
        assert NextTo(list, n, i, last, column);
        return true;
      }
      return false;
    }

    /** SOS_can_activate for one set.  A column that is no member may always be activated. */
    method CanActivate(column: int, lowbo: seq<real>) returns (yes: bool)
      requires Valid() && IsWindow(members[..], n, nn) && Covers(members[..], n, nn, |lowbo|)
      ensures yes <==> MayActivate(members[..], n, nn, column, lowbo)
    {
      hide Lifted, Idle, Named, NextToLast, Unmarkable, Position, IsWindow;
      ghost var list := members[..];
      ghost var cnt := Active(list, n, nn);
      LastSlot(list, n, nn);
      if Position(members[..], members[0], column) == 0 {
        return true;
      }
      var base := members[0] + 1;
      var order := members[base];
      if members[base + order] != 0 {
        return false;
      }
      var nz, rejected := CountLifted(column, lowbo);
      if rejected {
        return false;
      }
      var idle := CountIdle(lowbo);
      if nz + idle == order {
        return false;
      }
      if members[base + 1] == 0 {
        assert list[n + 2] == 0;
        return true;
      }
      yes := IsNeighbour(column);
    }

    /** SOS_set_marked for one set. */
    method SetMarked(column: int, asactive: bool) returns (done: bool)
      requires Valid() && IsWindow(members[..], n, nn) && column > 0
      modifies members
      ensures members[..] == Marked(old(members[..]), n, nn, column, asactive)
      ensures done == !(asactive && Markable(old(members[..]), n, column) && Active(old(members[..]), n, nn) < nn)
    {
      ghost var list := members[..];
      var size := members[0];
      var order := members[size + 1];
      var i := Position(members[..], size, column);
      if i > 0 && members[i] > 0 {
        FreeSlots(list, n, nn, column);
        members[i] := -members[i];
      } else {
        return true;
      }
      if asactive {
        ghost var marked := members[..];
        ghost var cnt := Active(list, n, nn);
        for k := 0 to order
          invariant members[..] == marked && k <= cnt
          invariant Appended(marked, n, nn, column, 0) == Appended(marked, n, nn, column, k)
        {
          assert marked[n + 2 + k] == list[n + 2 + k];
          if members[size + 2 + k] == column {
            return false;
          } else if members[size + 2 + k] == 0 {
            members[size + 2 + k] := column;
            return false;
          }
        }
      }
      return true;
    }

    /** SOS_unmark for one set. */
    method Unmark(column: int) returns (done: bool)
      requires Valid() && column > 0
      modifies members
      ensures done && members[..] == Unmarked(old(members[..]), n, nn, column)
    {
      assert members.Length == n + 2 + nn && members[0] == n && members[n + 1] == nn;
      UnmarkedCases(members[..], n, nn, column);
      hide Position, Unmarked, Inactive, Shape, Abs;
      var i := Position(members[..], members[0], column);
      if i > 0 && members[i] < 0 {
        Unflip(i);
      } else {
        return true;
      }
      LeaveList(column);
      return true;
    }

    /** An active column gives its slot up. */
    method LeaveList(column: int)
      requires members.Length == n + 2 + nn && members[0] == n && members[n + 1] == nn
      modifies members
      ensures members[..] == Inactive(old(members[..]), n, nn, column)
    {
      hide SlotOf, Closed;
      var size := members[0];
      var order := members[size + 1];
      var k := SlotOf(members[..], size, order, column, 0);
      if k < order {
        CloseUp(k);
      }
    }

    method Unflip(i: nat)
      requires i < members.Length
      modifies members
      ensures members[..] == old(members[..])[i := -old(members[..])[i]]
    {
      members[i] := -members[i];
    }

    /** The loop that shrinks the active list when slot k is given up. */
    method CloseUp(slot: nat)
      requires members.Length == n + 2 + nn && members[0] == n && members[n + 1] == nn && slot < nn
      modifies members
      ensures members[..] == Closed(old(members[..]), n + 2 + slot)
    {
      var base := members[0] + 2;
      var order := members[base - 1];
      var k: nat := slot;
      while k < order - 1
        invariant slot <= k <= order - 1
        invariant forall t {:trigger members[t]} :: 0 <= t < members.Length ==>
                    members[t] == if base + slot <= t < base + k then old(members[t + 1]) else old(members[t])
      {
        members[base + k] := members[base + k + 1];
        k := k + 1;
      }
      members[base + order - 1] := 0;
    }

    /** The free window of SOS_fix_unmarked. */
    method FreeWindow(variable: int) returns (left: int, right: int)
      requires Valid() && IsWindow(members[..], n, nn) && variable > 0
      ensures left == FreeLeft(members[..], n, nn) && right == FreeRight(members[..], n, nn, variable)
    {
      hide IsWindow, Position;
      FirstSlot(members[..], n, nn);
      var size := members[0];
      var base := size + 2;
      var order := members[base - 1];
      var used := Active(members[..], size, order);
      var unused := order - used;
      left := 0;
      if unused == order {
        right := Position(members[..], size, variable);
      } else {
        left := Position(members[..], size, members[base]);
        right := if variable == members[base] then left else Position(members[..], size, variable);
      }
      right := right + unused;
    }

    /** SOS_fix_unmarked for one set, on the bounds of the columns; `rows` is the offset
        lp_solve gives to columns.  A negative result names the column whose original
        bound the value would violate. */
    method FixUnmarked(variable: int, bound: array<real>, value: real, isupper: bool, limit: seq<real>, rows: nat,
                       log: UndoLadders.UndoLadder?<real>) returns (count: int)
      requires CanRestore(log, bound[..], bound[..])
      requires Valid() && IsWindow(members[..], n, nn) && Covers(members[..], n, nn, bound.Length)
      requires |limit| == bound.Length && variable > 0
      modifies bound, log
      ensures CanRestore(log, old(bound[..]), bound[..])
      ensures count >= 0 ==> forall i ::
                !Violates(members[..], n, nn, variable, old(bound[..]), value, isupper, limit, i)
      ensures count >= 0 ==> Fixed(members[..], n, nn, variable, old(bound[..]), bound[..], value, n)
      ensures count >= 0 ==> count == |set c | 0 <= c < bound.Length && bound[c] != old(bound[c])|
      ensures count < 0 ==> exists i :: Violates(members[..], n, nn, variable, old(bound[..]), value, isupper, limit, i)
                              && (forall j :: j < i ==>
                                 !Violates(members[..], n, nn, variable, old(bound[..]), value, isupper, limit, j))
                              && count == -(rows + members[i])
                                 && Fixed(members[..], n, nn, variable, old(bound[..]), bound[..], value, i - 1)
    {
      hide IsWindow, Fixed, Position, Active, FreeLeft, FreeRight, CanRestore, Altered;
      ghost var list, was := members[..], bound[..];
      FixedStart(list, n, nn, variable, was, value);
      NoneAltered(was);
      var left, right := FreeWindow(variable);
      var size := members[0];
      count := 0;
      for i := 1 to size + 1
        invariant Fixed(list, n, nn, variable, was, bound[..], value, i - 1) && CanRestore(log, was, bound[..])
        invariant count == |Altered(was, bound[..])|
        invariant forall j :: j < i ==> !Violates(list, n, nn, variable, was, value, isupper, limit, j)
      {
        if left <= i <= right || members[i] <= 0 {
          FixedSkip(list, n, nn, variable, was, bound[..], value, i);
          continue;
        }
        assert Outside(list, n, nn, variable, i);
        NotYetFixed(list, n, nn, variable, was, bound[..], value, i);
        var ii := members[i];
        ghost var before := bound[..];
        if bound[ii] != value {
          if (isupper && value < limit[ii]) || (!isupper && value > limit[ii]) {
            assert Violates(list, n, nn, variable, was, value, isupper, limit, i) && ii == list[i];
            assert Fixed(list, n, nn, variable, was, bound[..], value, i - 1);
            return -(rows + ii);
          }
          count := count + 1;
          AlteredMore(was, bound[..], ii, value);
          SetBound(bound, log, ii, value, was);
        }
        assert bound[..][ii := was[ii]] == before;
        FixedStep(list, n, nn, variable, was, bound[..], value, i);
      }
      OutsideInRange(list, n, nn, variable, was, value, isupper, limit);
      AlteredIs(was, bound[..]);
      assert (set c | 0 <= c < |was| && bound[..][c] != was[c])
             == set c | 0 <= c < bound.Length && bound[c] != old(bound[c]);
    }

    /** SOS_is_satisfied for one set: whether the non-zero members are where they may be.
        The scan of the active members runs to the right; where it passes the last member it
        reads the order and the active list as if they were members. */
    method IsSatisfied(solution: seq<real>, sosType: int) returns (status: int)
      requires Valid() && IsWindow(members[..], n, nn) && Covers(members[..], n, nn, |solution|)
      requires Active(members[..], n, nn) > 0 ==>
                 Position(members[..], n, members[n + 2]) + Active(members[..], n, nn) <= n + 1 || nn < |solution|
      ensures status <= 0 ==>
                status == if Active(members[..], n, nn) == nn then COMPLETE else if sosType <= SOS3 then SOS3_INCOMPLETE
                  else INCOMPLETE
      ensures Active(members[..], n, nn) == 0 ==> status == INFEASIBLE || status <= 0
      ensures Active(members[..], n, nn) == 0 ==> (status <= 0 <==> OneBlock(members[..], n, solution, nn))
      ensures var list, cnt := members[..], Active(members[..], n, nn);
              cnt > 0 ==>
                var p := Position(list, n, list[n + 2]);
                && (status <= 0 <==> Suffix(list, Reach(n, p, cnt), solution, p, p + cnt))
                && (status == INTERNALERROR <==> !Suffix(list, p + cnt - 1, solution, p, p + cnt))
                && (status <= 0 || status == INFEASIBLE || status == INTERNALERROR)
    {
      ghost var list := members[..];
      FirstIsMember(list, n, nn);
      hide IsWindow, Block, OneBlock, Suffix, Position, NonZero, Abs, Covers;
      var count := Active(members[..], members[0], members[members[0] + 1]);
      status := if count == members[members[0] + 1] then COMPLETE else INCOMPLETE;
      if count > 0 {
        status := CheckActive(solution, count, status, sosType);
      } else {
        status := CheckEmpty(solution, status, sosType);
      }
    }

    /** SOS_is_satisfied with an active list. */
    method CheckActive(solution: seq<real>, count: nat, before: int, sosType: int) returns (status: int)
      requires Valid() && Covers(members[..], n, nn, |solution|) && 0 < count <= nn && before <= 0
      requires var p := Position(members[..], n, members[n + 2]); 0 < p && (p + count <= n + 1 || nn < |solution|)
      ensures status <= 0 ==> status == if before == INCOMPLETE && sosType <= SOS3 then SOS3_INCOMPLETE else before
      ensures status <= 0 || status == INFEASIBLE || status == INTERNALERROR
      ensures var list := members[..];
              var p := Position(list, n, list[n + 2]);
              && (status <= 0 <==> Suffix(list, Reach(n, p, count), solution, p, p + count))
              && (status == INTERNALERROR <==> !Suffix(list, p + count - 1, solution, p, p + count))
    {
      ghost var list := members[..];
      hide Block, Suffix, Position, NonZero, Abs, Covers, Shape;
      ghost var p := Position(list, n, list[n + 2]);
      var failed, i;
      ghost var a;
      failed, i, a := ScanActive(solution, count);
      SuffixFrom(list, Reach(n, p, count), solution, p, p + count, a);
      if failed {
        return INTERNALERROR;
      }
      status := Trailing(solution, i, a, i, before, sosType);
    }

    /** SOS_is_satisfied without one. */
    method CheckEmpty(solution: seq<real>, before: int, sosType: int) returns (status: int)
      requires Valid() && Covers(members[..], n, nn, |solution|) && before <= 0
      ensures status <= 0 ==> status == if before == INCOMPLETE && sosType <= SOS3 then SOS3_INCOMPLETE else before
      ensures status <= 0 || status == INFEASIBLE
      ensures status <= 0 <==> OneBlock(members[..], n, solution, nn)
    {
      ghost var list := members[..];
      hide Block, OneBlock, NonZero, Abs, Covers;
      var i, count;
      ghost var a;
      i, count, a := ScanEmpty(solution);
      if count > members[members[0] + 1] {
        TooLong(list, n, nn, solution, a, i);
        return INFEASIBLE;
      }
      OneBlockFrom(list, n, nn, solution, a, i);
      status := Trailing(solution, i, a, i, before, sosType);
    }

    /** With an active list: nothing non-zero before the first active member, then zeros,
        then non-zeros to the end of the window. */
    method ScanActive(solution: seq<real>, count: int) returns (failed: bool, i: int, ghost a: int)
      requires Valid() && Covers(members[..], n, nn, |solution|) && count > 0
      requires var p := Position(members[..], n, members[n + 2]);
                0 < p && count <= nn && (p + count <= n + 1 || nn < |solution|)
      ensures var list, p := members[..], Position(members[..], n, members[n + 2]);
              && (failed ==> !Suffix(list, p + count - 1, solution, p, p + count))
              && (!failed ==> i == p + count && p <= a <= i && Block(list, i - 1, solution, a, i))
    {
      ghost var list := members[..];
      var size := members[0];
      var first := members[size + 2];
      ghost var p := Position(list, n, first);
      failed, i, a := false, 1, 0;
      while i <= size && !(Abs(members[i]) == first || solution[Abs(members[i])] != 0.0)
        invariant 1 <= i <= p
        invariant forall j :: 1 <= j < i ==> !NonZero(list, solution, j)
      {
        PositionIs(list, n, nn, p);
        i := i + 1;
      }
      if Abs(members[i]) != first {
        assert NonZero(list, solution, i);
        return true, i, a;
      }
      PositionIs(list, n, nn, i);
      var stop := i + count;
      while i < stop && solution[Abs(members[i])] == 0.0
        invariant p <= i <= stop
        invariant forall j :: 1 <= j < i ==> !NonZero(list, solution, j)
      {
        i := i + 1;
      }
      a := i;
      while i < stop && solution[Abs(members[i])] != 0.0
        invariant a <= i <= stop
        invariant forall j :: 1 <= j < i ==> (NonZero(list, solution, j) <==> a <= j)
      {
        i := i + 1;
      }
      if i < stop {
        assert !NonZero(list, solution, i) && NonZero(list, solution, i - 1);
        failed := true;
      }
    }

    /** Without an active list: leading zeros, then at most one more non-zero than the
        order allows. */
    method ScanEmpty(solution: seq<real>) returns (i: int, count: int, ghost a: int)
      requires Valid() && Covers(members[..], n, nn, |solution|)
      ensures 1 <= a <= i <= n + 1 && count == i - a <= nn + 1 && Block(members[..], i - 1, solution, a, i)
      ensures count <= nn && i <= n ==> !NonZero(members[..], solution, i)
      ensures a == i ==> i == n + 1
    {
      ghost var list := members[..];
      var size := members[0];
      var order := members[size + 1];
      i, count := 1, 0;
      while i <= size && solution[Abs(members[i])] == 0.0
        invariant 1 <= i <= size + 1
        invariant forall j :: 1 <= j < i ==> !NonZero(list, solution, j)
      {
        i := i + 1;
      }
      a := i;
      while i <= size && count <= order && solution[Abs(members[i])] != 0.0
        invariant a <= i <= size + 1 && count == i - a && count <= order + 1
        invariant a <= size ==> NonZero(list, solution, a)
        invariant forall j :: 1 <= j < i ==> (NonZero(list, solution, j) <==> a <= j)
      {
        i := i + 1;
        count := count + 1;
      }
    }

    /** The closing scan: members from i on must be zero. */
    method Trailing(solution: seq<real>, from: int, ghost a: int, ghost b: int, before: int, sosType: int)
      returns (status: int)
      requires Valid() && Covers(members[..], n, nn, |solution|) && 1 <= from && b == from
      requires Block(members[..], from - 1, solution, a, b)
      ensures status == if Block(members[..], Reach(n, from, 0), solution, a, b) then
                if before == INCOMPLETE && sosType <= SOS3 then SOS3_INCOMPLETE else before
                        else INFEASIBLE
    {
      var i := from;
      var size := members[0];
      while i <= size && solution[Abs(members[i])] == 0.0
        invariant from <= i && (i <= size + 1 || i == from)
        invariant forall j :: from <= j < i ==> !NonZero(members[..], solution, j)
      {
        i := i + 1;
      }
      if i <= size {
        assert NonZero(members[..], solution, i);
        return INFEASIBLE;
      }
      return if before == INCOMPLETE && sosType <= SOS3 then SOS3_INCOMPLETE else before;
    }

    /** The end of the run of zero (or of non-zero) active members that starts at slot i. */
    method SkipRun(solution: seq<real>, i: int, zeros: bool) returns (j: int)
      requires Valid() && Covers(members[..], n, nn, |solution|) && 0 <= i <= Active(members[..], n, nn)
      ensures i <= j <= Active(members[..], n, nn)
      ensures forall t :: i <= t < j ==> (On(members[..], n, solution, t) <==> !zeros)
      ensures j < Active(members[..], n, nn) ==> (On(members[..], n, solution, j) <==> zeros)
      ensures j < Active(members[..], n, nn) <==> j < nn && members[n + 2 + j] != 0
    {
      ghost var list := members[..];
      ghost var cnt := Active(list, n, nn);
      var base := members[0] + 2;
      j := i;
      while j < members[base - 1] && members[base + j] != 0 && (solution[members[base + j]] == 0.0) == zeros
        invariant i <= j <= cnt
        invariant forall t :: i <= t < j ==> (On(list, n, solution, t) <==> !zeros)
      {
        assert list[n + 2 + j] != 0;
        j := j + 1;
      }
      assert j < nn ==> list[n + 2 + j] == members[base + j];
    }

    /** SOS_is_feasible for one set: counts the runs of non-zeros in the active list. */
    method IsFeasible(solution: seq<real>) returns (yes: bool)
      requires Valid() && IsWindow(members[..], n, nn) && Covers(members[..], n, nn, |solution|)
      ensures nn <= 2 ==> yes
      ensures yes <==> !Gap(members[..], n, solution, Active(members[..], n, nn))
    {
      ghost var list := members[..];
      ghost var cnt := Active(list, n, nn);
      ZerosBehind(list, n, nn);
      hide On, IsWindow;
      var base := members[0] + 2;
      var order := members[base - 1];
      if order <= 2 {
        return true;
      }
      var i, runs := 0, 0;
      ghost var first := 0;
      while i < order && members[base + i] != 0
        invariant 0 <= i <= cnt + 1 && (i < cnt <==> i < nn && list[n + 2 + i] != 0)
        invariant runs >= 0 && (runs == 0 ==> forall t :: 0 <= t < i && t < cnt ==> !On(list, n, solution, t))
        invariant runs > 0 ==> 0 <= first < cnt && On(list, n, solution, first)
        invariant runs > 0 && i < cnt ==> first < i - 1 && !On(list, n, solution, i - 1)
        invariant runs == 1 ==> forall a, b, c :: c < i && c < cnt ==> !Hole(list, n, solution, a, b, c)
        invariant runs > 1 ==> Gap(list, n, solution, cnt)
        decreases order - i
      {
        i := SkipRun(solution, i, true);
        if i < order && members[base + i] != 0 {
          if runs == 0 {
            first := i;
          } else {
            assert Hole(list, n, solution, first, i - 1, i);
          }
          i := SkipRun(solution, i + 1, false);
          runs := runs + 1;
        }
        i := i + 1;
      }
      return runs <= 1;
    }
  }

  lemma ZerosBehind(list: seq<int>, n: nat, nn: nat)
    requires IsWindow(list, n, nn)
    ensures |list| == n + 2 + nn
    ensures forall t {:trigger list[t]} :: n + 2 + Active(list, n, nn) <= t < |list| ==> list[t] == 0
  {
    var cnt, p, rightward :| Window(list, n, nn, cnt, p, rightward);
    WindowActive(list, n, nn, cnt, p, rightward);
  }

  // ----- SOS_is_feasible -----

  /** Slot t of the active list names a column that is not zero. */
  predicate On(list: seq<int>, n: nat, solution: seq<real>, t: int) {
    0 <= t && n + 2 + t < |list| && 0 <= list[n + 2 + t] < |solution| && solution[list[n + 2 + t]] != 0.0
  }

  ghost predicate Hole(list: seq<int>, n: nat, solution: seq<real>, a: int, b: int, c: int) {
    0 <= a < b < c && On(list, n, solution, a) && !On(list, n, solution, b) && On(list, n, solution, c)
  }

  /** A zero between two non-zeros among the first k active members. */
  ghost predicate Gap(list: seq<int>, n: nat, solution: seq<real>, k: int) {
    exists a, b, c :: c < k && Hole(list, n, solution, a, b, c)
  }

  lemma GapIff(list: seq<int>, n: nat, nn: nat, solution: seq<real>, k: nat)
    requires Covers(list, n, nn, |solution|) && k <= nn
    ensures var active := list[n + 2..n + 2 + k];
            Gap(list, n, solution, k) <==> exists a, b, c :: 0 <= a < b < c < k && solution[active[a]] != 0.0
                                             && solution[active[b]] == 0.0 && solution[active[c]] != 0.0
  {
    var active := list[n + 2..n + 2 + k];
    forall t | 0 <= t < k
      ensures 0 <= active[t] < |solution| && (On(list, n, solution, t) <==> solution[active[t]] != 0.0)
    {
      assert active[t] == list[n + 2 + t];
    }
    forall a, b, c | 0 <= a < b < c < k && solution[active[a]] != 0.0 && solution[active[b]] == 0.0
                     && solution[active[c]] != 0.0
      ensures Hole(list, n, solution, a, b, c)
    {
    }
  }

  // ----- SOS_is_satisfied -----

  const SOS3 := -1
  const SOS3_INCOMPLETE := -2
  const INCOMPLETE := -1
  const COMPLETE := 0
  const INFEASIBLE := 1
  const INTERNALERROR := 2

  predicate NonZero(list: seq<int>, solution: seq<real>, i: int) {
    0 <= i < |list| && Abs(list[i]) < |solution| && solution[Abs(list[i])] != 0.0
  }

  /** The last position looked at: the last member, or the end of the active scan behind it. */
  function Reach(n: int, p: int, cnt: int): int { if p + cnt <= n + 1 then n else p + cnt - 1 }

  /** Among the first k members exactly those at positions a to b - 1 are non-zero. */
  ghost predicate Block(list: seq<int>, k: int, solution: seq<real>, a: int, b: int) {
    forall j :: 1 <= j <= k ==> (NonZero(list, solution, j) <==> a <= j < b)
  }

  lemma FirstIsMember(list: seq<int>, n: nat, nn: nat)
    requires IsWindow(list, n, nn)
    ensures |list| == n + 2 + nn && (Active(list, n, nn) > 0 ==> Position(list, n, list[n + 2]) > 0)
  {
    var cnt, p, rightward :| Window(list, n, nn, cnt, p, rightward);
    WindowActive(list, n, nn, cnt, p, rightward);
    if cnt > 0 {
      assert ActiveAt(list, n, p, rightward, n + 2);
      PositionIs(list, n, nn, p);
    }
  }

  /** When exactly the active members are non-zero, a window of at least two passes the
      check if and only if it runs to the right: the scan ignores the direction. */
  lemma FullWindowAcceptedIff(list: seq<int>, n: nat, nn: nat, cnt: nat, p: int, rightward: bool, solution: seq<real>)
    requires Window(list, n, nn, cnt, p, rightward) && cnt >= 2
    requires forall i :: 1 <= i <= n ==>
              (NonZero(list, solution, i) <==> exists k :: 0 <= k < cnt && i == Place(p, rightward, k))
    ensures Suffix(list, Reach(n, p, cnt), solution, p, p + cnt) <==> rightward
  {
    assert ActiveAt(list, n, p, rightward, n + 2) && ActiveAt(list, n, p, rightward, n + 1 + cnt);
    if rightward {
      forall i | 1 <= i <= n
        ensures NonZero(list, solution, i) <==> p <= i < p + cnt
      {
        assert p <= i < p + cnt ==> i == Place(p, rightward, i - p);
      }
      assert Block(list, n, solution, p, p + cnt);
    } else {
      assert p - 1 == Place(p, rightward, 1);
      assert ActiveAt(list, n, p, rightward, n + 3);
      assert NonZero(list, solution, p - 1);
    }
  }

  ghost predicate OneBlock(list: seq<int>, n: int, solution: seq<real>, nn: nat) {
    exists a, b :: b - a <= nn && Block(list, n, solution, a, b)
  }

  ghost predicate Suffix(list: seq<int>, k: int, solution: seq<real>, p: int, stop: int) {
    exists a :: p <= a <= stop && Block(list, k, solution, a, stop)
  }

  /** In terms of the solution: of two non-zero members all between are non-zero too, and
      there are no more of them than the order. */
  lemma OneBlockIff(list: seq<int>, n: nat, nn: nat, solution: seq<real>)
    requires Covers(list, n, nn, |solution|)
    ensures OneBlock(list, n, solution, nn)
       <==> forall i, j {:trigger list[i], list[j]} ::
            1 <= i <= j <= n && solution[Abs(list[i])] != 0.0 && solution[Abs(list[j])] != 0.0 ==>
              j - i < nn && forall t {:trigger list[t]} :: i <= t <= j ==> solution[Abs(list[t])] != 0.0
  {
    var a, b := 1, n + 1;
    while a < b && !NonZero(list, solution, a)
      invariant 1 <= a <= b && forall j :: 1 <= j < a ==> !NonZero(list, solution, j)
    {
      a := a + 1;
    }
    while a < b && !NonZero(list, solution, b - 1)
      invariant a <= b <= n + 1 && forall j :: b <= j <= n ==> !NonZero(list, solution, j)
    {
      b := b - 1;
    }
    NonZeroIff(list, n, nn, solution);
    hide NonZero, Covers, Abs;
    if c, d :| d - c <= nn && Block(list, n, solution, c, d) {
      assert OneBlock(list, n, solution, nn);
    } else {
      assert !(b - a <= nn && Block(list, n, solution, a, b));
      assert a < b && NonZero(list, solution, a) && NonZero(list, solution, b - 1);
      assert solution[Abs(list[a])] != 0.0 && solution[Abs(list[b - 1])] != 0.0;
    }
  }

  /** Of the members from the first active one on, the non-zero ones come last, and nothing
      is non-zero in front of them or behind the active ones. */
  lemma SuffixIff(list: seq<int>, n: nat, nn: nat, solution: seq<real>, p: int, cnt: nat)
    requires Covers(list, n, nn, |solution|) && 1 <= p && p + cnt <= n + 1
    ensures Suffix(list, Reach(n, p, cnt), solution, p, p + cnt)
       <==> forall i {:trigger list[i]} :: 1 <= i <= n && solution[Abs(list[i])] != 0.0 ==>
              p <= i < p + cnt && forall t {:trigger list[t]} :: i <= t < p + cnt ==> solution[Abs(list[t])] != 0.0
  {
    var a := 1;
    while a < p + cnt && !NonZero(list, solution, a)
      invariant 1 <= a <= p + cnt && forall j :: 1 <= j < a ==> !NonZero(list, solution, j)
    {
      a := a + 1;
    }
    NonZeroIff(list, n, nn, solution);
    hide NonZero, Covers, Abs;
    assert a < p + cnt ==> NonZero(list, solution, a);
    assert p <= a ==> (Block(list, n, solution, a, p + cnt) ==> Suffix(list, n, solution, p, p + cnt));
    assert forall c {:trigger Block(list, n, solution, c, p + cnt)} ::
        p <= c <= p + cnt && Block(list, n, solution, c, p + cnt) ==> c <= a;
  }

  lemma NonZeroIff(list: seq<int>, n: nat, nn: nat, solution: seq<real>)
    requires Covers(list, n, nn, |solution|)
    ensures forall j {:trigger NonZero(list, solution, j)} {:trigger list[j]} :: 1 <= j <= n ==>
                Abs(list[j]) < |solution| && (NonZero(list, solution, j) <==> solution[Abs(list[j])] != 0.0)
  {
  }

  lemma TooLong(list: seq<int>, n: nat, nn: nat, solution: seq<real>, a: int, i: int)
    requires 1 <= a && a + nn + 1 == i <= n + 1 && Block(list, i - 1, solution, a, i)
    ensures !OneBlock(list, n, solution, nn)
  {
    assert NonZero(list, solution, a) && NonZero(list, solution, i - 1);
    assert forall c, d :: Block(list, n, solution, c, d) ==> c <= a && i <= d;
  }

  /** A block that ends before position i + 1 is the only candidate for the whole set. */
  lemma OneBlockFrom(list: seq<int>, n: nat, nn: nat, solution: seq<real>, a: int, i: int)
    requires 1 <= a <= i <= n + 1 && i - a <= nn && Block(list, i - 1, solution, a, i)
    requires if i == a then i == n + 1 else i <= n ==> !NonZero(list, solution, i)
    ensures OneBlock(list, n, solution, nn) <==> Block(list, n, solution, a, i)
  {
    if c, d :| d - c <= nn && Block(list, n, solution, c, d) {
      assert a < i ==> NonZero(list, solution, a);
    }
  }

  lemma SuffixFrom(list: seq<int>, n: nat, solution: seq<real>, p: int, stop: int, a: int)
    requires 1 <= p <= stop <= n + 1
    ensures Suffix(list, n, solution, p, stop) ==> Suffix(list, stop - 1, solution, p, stop)
    ensures p <= a <= stop && Block(list, stop - 1, solution, a, stop) ==>
              Suffix(list, stop - 1, solution, p, stop)
                && (Suffix(list, n, solution, p, stop) <==> Block(list, n, solution, a, stop))
  {
    if c :| p <= c <= stop && Block(list, n, solution, c, stop) {
      assert Block(list, stop - 1, solution, c, stop);
    }
  }

  // ----- SOS_fix_unmarked -----

  lemma FirstSlot(list: seq<int>, n: nat, nn: nat)
    requires IsWindow(list, n, nn)
    ensures Active(list, n, nn) > 0 ==> list[n + 2] > 0
  {
    var cnt, p, rightward :| Window(list, n, nn, cnt, p, rightward);
    WindowActive(list, n, nn, cnt, p, rightward);
    if cnt > 0 {
      assert ActiveAt(list, n, p, rightward, n + 2);
    }
  }

  /** The positions left free: from the first active member, if there is one, to as many
      positions behind the variable as slots are unused. */
  function FreeLeft(list: seq<int>, n: nat, nn: nat): int
    requires |list| == n + 2 + nn && nn > 0
  {
    if Active(list, n, nn) == 0 then 0 else Position(list, n, list[n + 2])
  }

  function FreeRight(list: seq<int>, n: nat, nn: nat, variable: int): int
    requires |list| == n + 2 + nn && nn > 0
  {
    Position(list, n, variable) + nn - Active(list, n, nn)
  }

  /** An unmarked member outside of the free window. */
  ghost predicate Outside(list: seq<int>, n: nat, nn: nat, variable: int, i: int)
    requires |list| == n + 2 + nn && nn > 0
  {
    1 <= i <= n && list[i] > 0 && !(FreeLeft(list, n, nn) <= i <= FreeRight(list, n, nn, variable))
  }

  /** In positions, when k slots are used and the variable stands at v: with none used the
      members further behind than the order, otherwise also those in front of the first
      active one. */
  lemma OutsideIff(list: seq<int>, n: nat, nn: nat, k: nat, p: nat, v: nat, i: int)
    requires Shape(list, n, nn) && k == Active(list, n, nn) && 1 <= v <= n
    requires k > 0 ==> 1 <= p <= n && Abs(list[p]) == list[n + 2]
    ensures Outside(list, n, nn, Abs(list[v]), i)
       <==> 1 <= i <= n && list[i] > 0 && ((k > 0 && i < p) || i > v + nn - k)
  {
    PositionIs(list, n, nn, v);
    if k > 0 {
      PositionIs(list, n, nn, p);
    }
  }

  ghost predicate Violates(list: seq<int>, n: nat, nn: nat, variable: int, was: seq<real>, value: real, isupper: bool,
                           limit: seq<real>, i: int)
    requires nn > 0 && Covers(list, n, nn, |was|) && |limit| == |was|
  {
    && Outside(list, n, nn, variable, i) && was[list[i]] != value
    && if isupper then value < limit[list[i]] else value > limit[list[i]]
  }

  /** Exactly the unmarked members outside of the window, up to position k, have the value. */
  ghost predicate Fixed(list: seq<int>, n: nat, nn: nat, variable: int, was: seq<real>, bound: seq<real>, value: real,
                        k: nat)
    requires nn > 0 && Covers(list, n, nn, |was|)
  {
    && |bound| == |was|
    && (forall i :: i <= k && Outside(list, n, nn, variable, i) ==> bound[list[i]] == value)
    && forall c {:trigger bound[c]} ::
       0 <= c < |was| && (forall i :: i <= k && Outside(list, n, nn, variable, i) ==> list[i] != c) ==>
         bound[c] == was[c]
  }

  /** Nothing violates a limit exactly when every bound that changes keeps to its own. */
  lemma ViolatesIff(list: seq<int>, n: nat, nn: nat, variable: int, was: seq<real>, bound: seq<real>, value: real,
                    isupper: bool, limit: seq<real>)
    requires nn > 0 && Covers(list, n, nn, |was|) && |limit| == |was|
    requires Fixed(list, n, nn, variable, was, bound, value, n)
    ensures (forall i :: !Violates(list, n, nn, variable, was, value, isupper, limit, i))
       <==> forall c {:trigger bound[c]} :: 0 <= c < |was| && bound[c] != was[c] ==>
              if isupper then value >= limit[c] else value <= limit[c]
  {
    forall c {:trigger bound[c]} | 0 <= c < |was| && bound[c] != was[c]
      ensures bound[c] == value && exists i :: i <= n && Outside(list, n, nn, variable, i) && list[i] == c
    {
    }
    forall i | Violates(list, n, nn, variable, was, value, isupper, limit, i)
      ensures 0 <= list[i] < |was| && bound[list[i]] == value != was[list[i]]
    {
    }
    hide Fixed, FreeLeft, FreeRight;
  }

  /** The columns whose bound is not what it was. */
  ghost function Altered(was: seq<real>, bound: seq<real>): set<int>
    requires |bound| == |was|
  {
    set c | 0 <= c < |was| && bound[c] != was[c]
  }

  lemma AlteredIs(was: seq<real>, bound: seq<real>)
    requires |bound| == |was|
    ensures Altered(was, bound) == set c | 0 <= c < |was| && bound[c] != was[c]
  {
  }

  lemma NoneAltered(was: seq<real>)
    ensures Altered(was, was) == {}
  {
  }

  lemma AlteredMore(was: seq<real>, bound: seq<real>, c: nat, value: real)
    requires c < |was| == |bound| && bound[c] == was[c] != value
    ensures |Altered(was, bound[c := value])| == |Altered(was, bound)| + 1
  {
    assert Altered(was, bound[c := value]) == Altered(was, bound) + {c};
  }

  lemma OutsideInRange(list: seq<int>, n: nat, nn: nat, variable: int, was: seq<real>, value: real, isupper: bool,
                       limit: seq<real>)
    requires nn > 0 && Covers(list, n, nn, |was|) && |limit| == |was|
    ensures forall j :: Violates(list, n, nn, variable, was, value, isupper, limit, j) ==> 1 <= j <= n
  {
  }

  lemma FixedSkip(list: seq<int>, n: nat, nn: nat, variable: int, was: seq<real>, bound: seq<real>, value: real, i: nat)
    requires nn > 0 && Covers(list, n, nn, |was|) && 1 <= i <= n
    requires Fixed(list, n, nn, variable, was, bound, value, i - 1) && !Outside(list, n, nn, variable, i)
    ensures Fixed(list, n, nn, variable, was, bound, value, i)
  {
    hide Outside;
  }

  lemma FixedStart(list: seq<int>, n: nat, nn: nat, variable: int, was: seq<real>, value: real)
    requires nn > 0 && Covers(list, n, nn, |was|)
    ensures Fixed(list, n, nn, variable, was, was, value, 0)
  {
  }

  lemma NotYetFixed(list: seq<int>, n: nat, nn: nat, variable: int, was: seq<real>, bound: seq<real>, value: real,
                    i: nat)
    requires Shape(list, n, nn) && Covers(list, n, nn, |was|)
    requires i > 0 && Fixed(list, n, nn, variable, was, bound, value, i - 1) && Outside(list, n, nn, variable, i)
    ensures bound[list[i]] == was[list[i]]
  {
    forall j | j <= i - 1 && Outside(list, n, nn, variable, j)
      ensures list[j] != list[i]
    {
      assert Abs(list[j]) != Abs(list[i]);
    }
  }

  lemma FixedStep(list: seq<int>, n: nat, nn: nat, variable: int, was: seq<real>, bound: seq<real>, value: real, i: nat)
    requires Shape(list, n, nn) && Covers(list, n, nn, |was|) && |bound| == |was|
    requires i > 0 && Outside(list, n, nn, variable, i) && bound[list[i]] == value
    requires Fixed(list, n, nn, variable, was, bound[list[i] := was[list[i]]], value, i - 1)
    ensures Fixed(list, n, nn, variable, was, bound, value, i)
  {
    var before := bound[list[i] := was[list[i]]];
    forall j | j <= i && Outside(list, n, nn, variable, j)
      ensures bound[list[j]] == value
    {
      if j < i {
        assert Abs(list[j]) != Abs(list[i]);
        assert before[list[j]] == value;
      }
    }
    forall c {:trigger bound[c]} | 0 <= c < |was| && forall j :: j <= i && Outside(list, n, nn, variable, j) ==>
      list[j] != c
      ensures bound[c] == was[c]
    {
      assert before[c] == was[c];
    }
  }

  /** With the window to the right of the first active member and the variable activated
      last, as many positions as the order allows stay free, from the first active one. */
  lemma RightwardWindowIsOrder(list: seq<int>, n: nat, nn: nat, cnt: nat, p: int, variable: int)
    requires Window(list, n, nn, cnt, p, true) && cnt > 0 && variable == list[n + 1 + cnt]
    ensures FreeLeft(list, n, nn) == p && FreeRight(list, n, nn, variable) == p + nn - 1
  {
    WindowActive(list, n, nn, cnt, p, true);
    assert ActiveAt(list, n, p, true, n + 2) && ActiveAt(list, n, p, true, n + 1 + cnt);
    PositionIs(list, n, nn, p);
    PositionIs(list, n, nn, p + cnt - 1);
  }

  /** A window of at least two members can only grow one way.  The member it would grow by
      stays free exactly when the window runs to the right; to the left, SOS_fix_unmarked
      fixes the very member SOS_can_activate would accept. */
  lemma NextStaysFreeIff(list: seq<int>, n: nat, nn: nat, cnt: nat, p: int, rightward: bool, variable: int)
    requires Window(list, n, nn, cnt, p, rightward) && 2 <= cnt < nn && variable == list[n + 1 + cnt]
    requires 1 <= Place(p, rightward, cnt) <= n && list[Place(p, rightward, cnt)] > 0
    ensures NextToLast(list, n, list[n + 1 + cnt], list[Place(p, rightward, cnt)])
    ensures !Outside(list, n, nn, variable, Place(p, rightward, cnt)) <==> rightward
  {
    WindowActive(list, n, nn, cnt, p, rightward);
    assert ActiveAt(list, n, p, rightward, n + 2) && ActiveAt(list, n, p, rightward, n + 1 + cnt);
    PositionIs(list, n, nn, p);
    PositionIs(list, n, nn, Place(p, rightward, cnt - 1));
    assert NextTo(list, n, Place(p, rightward, cnt - 1), list[n + 1 + cnt], list[Place(p, rightward, cnt)]);
  }

  /** Activating at least two members from an empty set, highest position first, is permitted
      throughout, and then the two differences show: the check calls the full window a
      consistency error, and the member that may be activated next is fixed. */
  lemma LeftwardRunFails(list: seq<int>, n: nat, nn: nat, i: nat, k: nat, solution: seq<real>)
    requires Window(list, n, nn, 0, i, false) && 2 <= k <= i <= n && k <= nn
    requires forall j {:trigger list[j]} :: i - k < j <= i ==> list[j] > 0
    ensures Permitted(list, n, nn, Downward(list, i, k))
    ensures var after := After(list, n, nn, Downward(list, i, k));
            && |after| == n + 2 + nn && Active(after, n, nn) == k && Position(after, n, after[n + 2]) == i
            && ((forall j :: 1 <= j <= n ==> (NonZero(after, solution, j) <==> i - k < j <= i)) ==>
                  !Suffix(after, Reach(n, i, k), solution, i, i + k))
            && (k < nn && k < i && list[i - k] > 0 ==>
                  Admissible(after, n, nn, list[i - k]) && Outside(after, n, nn, after[n + 1 + k], i - k))
  {
    assert |list| == n + 2 + nn;
    hide Marked, After, Permitted, Downward, Position, Markable, Admissible, Outside, Suffix, NonZero, Shape;
    var after := After(list, n, nn, Downward(list, i, k));
    LeftwardRun(list, n, nn, i, k);
    WindowActive(after, n, nn, k, i, false);
    assert ActiveAt(after, n, i, false, n + 2);
    PositionIs(after, n, nn, i);
    if forall j :: 1 <= j <= n ==> (NonZero(after, solution, j) <==> i - k < j <= i) {
      forall j | 1 <= j <= n
        ensures NonZero(after, solution, j) <==> exists t :: 0 <= t < k && j == Place(i, false, t)
      {
        assert i - k < j <= i ==> j == Place(i, false, i - j);
      }
      FullWindowAcceptedIff(after, n, nn, k, i, false, solution);
    }
    if k < nn && k < i && list[i - k] > 0 {
      UntouchedAt(list, after, i - k, i - k);
      LeftStep(after, n, nn, i, k);
      NextStaysFreeIff(after, n, nn, k, i, false, after[n + 1 + k]);
    }
  }

  lemma LastSlot(list: seq<int>, n: nat, nn: nat)
    requires IsWindow(list, n, nn)
    ensures |list| == n + 2 + nn && nn > 0 && (Active(list, n, nn) < nn <==> list[n + 1 + nn] == 0)
    ensures Active(list, n, nn) == 0 <==> list[n + 2] == 0
  {
    var cnt, p, rightward :| Window(list, n, nn, cnt, p, rightward);
    WindowActive(list, n, nn, cnt, p, rightward);
  }

  lemma FreeSlots(list: seq<int>, n: nat, nn: nat, column: int)
    requires IsWindow(list, n, nn) && Markable(list, n, column)
    ensures |list| == n + 2 + nn
    ensures forall t {:trigger list[t]} :: n + 2 <= t < n + 2 + Active(list, n, nn) ==>
              list[t] != 0 && list[t] != column
  {
    var cnt, p, rightward :| Window(list, n, nn, cnt, p, rightward);
    WindowActive(list, n, nn, cnt, p, rightward);
    SlotsNameOthers(list, n, nn, cnt, p, rightward, column);
  }

}
