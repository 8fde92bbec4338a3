/** One specially ordered set of lp_SOS.c.  A single int array holds the number of members,
    the members (negative once marked), the order of the set, and as many slots for the
    members made active, filled from the left and zero behind. */
module SosList {

  function Abs(x: int): nat { if x < 0 then -x else x }

  /** The layout: n members at 1..n, the order nn at n+1, the active list behind it. */
  ghost predicate Shape(list: seq<int>, n: nat, nn: nat) {
    && |list| == n + 2 + nn && nn >= 1 && list[0] == n && list[n + 1] == nn
    && (forall i {:trigger list[i]} :: 1 <= i <= n ==> list[i] != 0)
    && forall i, j {:trigger list[i], list[j]} :: 1 <= i < j <= n ==> Abs(list[i]) != Abs(list[j])
  }

  /** The position of a member at 1..n, or zero: what SOS_member_index finds. */
  function Position(list: seq<int>, n: nat, column: int): (i: nat)
    requires n < |list|
    ensures i <= n
    ensures i > 0 ==> Abs(list[i]) == column
    ensures i == 0 ==> forall j {:trigger list[j]} :: 1 <= j <= n ==> Abs(list[j]) != column
  {
    if n == 0 then 0 else if Abs(list[n]) == column then n else Position(list, n - 1, column)
  }

  lemma PositionIs(list: seq<int>, n: nat, nn: nat, i: nat)
    requires Shape(list, n, nn) && 1 <= i <= n
    ensures Position(list, n, Abs(list[i])) == i
  {
  }

  /** Step k of a window that starts at p. */
  function Place(p: int, rightward: bool, k: int): int { if rightward then p + k else p - k }

  /** Slot t of the active list names the marked member at its place in the window. */
  ghost predicate ActiveAt(list: seq<int>, n: nat, p: int, rightward: bool, t: int)
    requires n + 2 <= t < |list|
  {
    var i := Place(p, rightward, t - n - 2);
    1 <= i <= n && list[t] > 0 && list[i] == -list[t]
  }

  /** The active list: cnt distinct marked members, at consecutive positions from p in one
      direction, then zeros. */
  ghost predicate Window(list: seq<int>, n: nat, nn: nat, cnt: nat, p: int, rightward: bool) {
    && Shape(list, n, nn) && cnt <= nn
    && (forall t :: n + 2 <= t < n + 2 + cnt ==> ActiveAt(list, n, p, rightward, t))
    && (forall t {:trigger list[t]} :: n + 2 + cnt <= t < n + 2 + nn ==> list[t] == 0)
  }

  ghost predicate IsWindow(list: seq<int>, n: nat, nn: nat) {
    exists cnt, p, rightward :: Window(list, n, nn, cnt, p, rightward)
  }

  /** The number of active members: the slots before the first zero. */
  function Active(list: seq<int>, n: nat, nn: nat): (cnt: nat)
    requires |list| == n + 2 + nn
    ensures cnt <= nn
    ensures forall t {:trigger list[t]} :: n + 2 <= t < n + 2 + cnt ==> list[t] != 0
    ensures cnt < nn ==> list[n + 2 + cnt] == 0
  {
    ActiveFrom(list, n, nn, 0)
  }

  function ActiveFrom(list: seq<int>, n: nat, nn: nat, k: nat): (cnt: nat)
    requires |list| == n + 2 + nn && k <= nn
    ensures k <= cnt <= nn
    ensures forall t {:trigger list[t]} :: n + 2 + k <= t < n + 2 + cnt ==> list[t] != 0
    ensures cnt < nn ==> list[n + 2 + cnt] == 0
    decreases nn - k
  {
    if k == nn || list[n + 2 + k] == 0 then k else ActiveFrom(list, n, nn, k + 1)
  }

  lemma WindowActive(list: seq<int>, n: nat, nn: nat, cnt: nat, p: int, rightward: bool)
    requires Window(list, n, nn, cnt, p, rightward)
    ensures Active(list, n, nn) == cnt
  {
    var a := Active(list, n, nn);
    assert a < nn ==> list[n + 2 + a] == 0;
    assert cnt < nn ==> list[n + 2 + cnt] == 0;
    assert a < cnt ==> ActiveAt(list, n, p, rightward, n + 2 + a);
  }

  // ----- marking -----

  /** The effect of SOS_set_marked: an unmarked member is marked, and an active one takes
      the first free slot unless the list already names it. */
  function Marked(list: seq<int>, n: nat, nn: nat, column: int, asactive: bool): (r: seq<int>)
    requires |list| == n + 2 + nn
    ensures |r| == |list|
  {
    var i := Position(list, n, column);
    if i == 0 || list[i] < 0 then list
    else
      var marked := list[i := -list[i]];
      if asactive then Appended(marked, n, nn, column, 0) else marked
  }

  function Appended(list: seq<int>, n: nat, nn: nat, column: int, k: nat): (r: seq<int>)
    requires |list| == n + 2 + nn && k <= nn
    ensures |r| == |list|
    decreases nn - k
  {
    if k == nn || list[n + 2 + k] == column then list
    else if list[n + 2 + k] == 0 then list[n + 2 + k := column]
    else Appended(list, n, nn, column, k + 1)
  }

  /** The effect of SOS_unmark: the mark goes, and an active member leaves the list, which
      closes up. */
  function Unmarked(list: seq<int>, n: nat, nn: nat, column: int): (r: seq<int>)
    requires |list| == n + 2 + nn
    ensures |r| == |list|
  {
    var i := Position(list, n, column);
    if i == 0 || list[i] >= 0 then list else Inactive(list[i := -list[i]], n, nn, column)
  }

  /** The list without the column among the active members. */
  function Inactive(list: seq<int>, n: nat, nn: nat, column: int): (r: seq<int>)
    requires |list| == n + 2 + nn
    ensures |r| == |list|
  {
    var k := SlotOf(list, n, nn, column, 0);
    if k == nn then list else Closed(list, n + 2 + k)
  }

  /** The list without entry `at`, a zero at its end. */
  function Closed(list: seq<int>, at: nat): (r: seq<int>)
    requires at < |list|
    ensures |r| == |list|
  {
    list[..at] + list[at + 1..] + [0]
  }

  lemma ClosedAt(list: seq<int>, at: nat, t: nat)
    requires at < |list| && t < |list|
    ensures Closed(list, at)[t] == if t < at then list[t] else if t + 1 < |list| then list[t + 1] else 0
  {
  }

  lemma UnmarkedCases(list: seq<int>, n: nat, nn: nat, column: int)
    requires |list| == n + 2 + nn
    ensures var i := Position(list, n, column);
            Unmarked(list, n, nn, column) == if i == 0 || list[i] >= 0 then list
              else Inactive(list[i := -list[i]], n, nn, column)
  {
  }

  /** The slot of the active list that names the column (SOS_is_active and the scan behind
      it), or nn. */
  function SlotOf(list: seq<int>, n: nat, nn: nat, column: int, k: nat): (r: nat)
    requires |list| == n + 2 + nn && k <= nn
    ensures k <= r <= nn
    ensures r < nn ==> list[n + 2 + r] == column && column != 0
    ensures forall t {:trigger list[t]} :: n + 2 + k <= t < n + 2 + r && r < nn ==> list[t] != 0 && list[t] != column
    decreases nn - k
  {
    if k == nn || list[n + 2 + k] == 0 then nn
    else if list[n + 2 + k] == column then k
    else SlotOf(list, n, nn, column, k + 1)
  }

  lemma {:induction false} AppendedAt(list: seq<int>, n: nat, nn: nat, column: int, k: nat, cnt: nat)
    requires |list| == n + 2 + nn && k <= cnt <= nn
    requires forall t {:trigger list[t]} :: n + 2 + k <= t < n + 2 + cnt ==> list[t] != 0 && list[t] != column
    requires column != 0 && (cnt < nn ==> list[n + 2 + cnt] == 0)
    ensures Appended(list, n, nn, column, k) == if cnt < nn then list[n + 2 + cnt := column] else list
    decreases cnt - k
  {
    if k < cnt {
      AppendedAt(list, n, nn, column, k + 1, cnt);
    }
  }

  /** A column that may be marked: a member, not marked yet. */
  ghost predicate Markable(list: seq<int>, n: nat, column: int) {
    n < |list| && column > 0 && Position(list, n, column) > 0 && list[Position(list, n, column)] > 0
  }

  lemma MarkableIff(list: seq<int>, n: nat, nn: nat, column: int)
    requires Shape(list, n, nn) && column > 0
    ensures Markable(list, n, column) <==> column in list[1..n + 1]
  {
    var i := Position(list, n, column);
    if k :| 1 <= k <= n && list[k] == column {
      PositionIs(list, n, nn, k);
    }
    assert i > 0 ==> list[i] == list[1..n + 1][i - 1];
  }

  /** Only unmarked members can be marked, and only marked ones unmarked. */
  lemma NothingToMark(list: seq<int>, n: nat, nn: nat, column: int, asactive: bool)
    requires Shape(list, n, nn) && column > 0 && forall i {:trigger list[i]} :: 1 <= i <= n ==> list[i] != column
    ensures Marked(list, n, nn, column, asactive) == list
  {
  }

  lemma NothingToUnmark(list: seq<int>, n: nat, nn: nat, column: int)
    requires Shape(list, n, nn) && column > 0 && forall i {:trigger list[i]} :: 1 <= i <= n ==> list[i] != -column
    ensures Unmarked(list, n, nn, column) == list
  {
  }

  lemma SlotsNameOthers(list: seq<int>, n: nat, nn: nat, cnt: nat, p: int, rightward: bool, column: int)
    requires Window(list, n, nn, cnt, p, rightward) && Markable(list, n, column)
    ensures forall t {:trigger list[t]} :: n + 2 <= t < n + 2 + cnt ==> list[t] != 0 && list[t] != column
  {
    assert list[Position(list, n, column)] == column;
    assert forall t {:trigger list[t]} :: n + 2 <= t < n + 2 + cnt ==> ActiveAt(list, n, p, rightward, t);
  }

  /** An unmarked member is not in the active list, so marking it appends it. */
  lemma MarkedIs(list: seq<int>, n: nat, nn: nat, cnt: nat, p: int, rightward: bool, column: int)
    requires Window(list, n, nn, cnt, p, rightward) && Markable(list, n, column)
    ensures var i := Position(list, n, column);
            && Marked(list, n, nn, column, false) == list[i := -column]
            && Marked(list, n, nn, column, true) == if cnt < nn then list[i := -column][n + 2 + cnt := column]
               else list[i := -column]
  {
    var i := Position(list, n, column);
    var marked := list[i := -list[i]];
    SlotsNameOthers(list, n, nn, cnt, p, rightward, column);
    AppendedAt(marked, n, nn, column, 0, cnt);
  }

  lemma PassiveKeepsWindow(list: seq<int>, n: nat, nn: nat, cnt: nat, p: int, rightward: bool, i: nat)
    requires Window(list, n, nn, cnt, p, rightward) && 1 <= i <= n && list[i] > 0
    ensures Window(list[i := -list[i]], n, nn, cnt, p, rightward)
  {
    var marked := list[i := -list[i]];
    assert Shape(marked, n, nn);
    forall t | n + 2 <= t < n + 2 + cnt
      ensures ActiveAt(marked, n, p, rightward, t)
    {
      assert ActiveAt(list, n, p, rightward, t);
    }
  }

  lemma MarkKeepsWindow(list: seq<int>, n: nat, nn: nat, cnt: nat, p: int, rightward: bool, column: int)
    requires Window(list, n, nn, cnt, p, rightward) && Markable(list, n, column)
    ensures Window(Marked(list, n, nn, column, false), n, nn, cnt, p, rightward)
  {
    MarkedIs(list, n, nn, cnt, p, rightward, column);
    PassiveKeepsWindow(list, n, nn, cnt, p, rightward, Position(list, n, column));
  }

  /** The column stands next to the member last made active. */
  ghost predicate NextToLast(list: seq<int>, n: nat, last: int, column: int)
    requires n < |list|
  {
    exists i :: NextTo(list, n, i, last, column)
  }

  predicate NextTo(list: seq<int>, n: nat, i: int, last: int, column: int)
    requires n < |list|
  {
    1 <= i <= n && Abs(list[i]) == last && ((i > 1 && list[i - 1] == column) || (i < n && list[i + 1] == column))
  }

  lemma NextToLastIff(list: seq<int>, n: nat, nn: nat, i: nat, column: int)
    requires Shape(list, n, nn) && 1 <= i <= n
    ensures NextToLast(list, n, Abs(list[i]), column)
       <==> (i > 1 && list[i - 1] == column) || (i < n && list[i + 1] == column)
  {
    assert (i > 1 && list[i - 1] == column) || (i < n && list[i + 1] == column) ==>
        NextTo(list, n, i, Abs(list[i]), column);
  }

  /** The place that continues the window; a window of one member may still turn. */
  lemma NextPlace(list: seq<int>, n: nat, nn: nat, cnt: nat, p: int, rightward: bool, column: int)
    returns (toRight: bool)
    requires Window(list, n, nn, cnt, p, rightward) && Markable(list, n, column) && 0 < cnt < nn
    requires NextToLast(list, n, list[n + 1 + cnt], column)
    ensures Window(list, n, nn, cnt, p, toRight) && Position(list, n, column) == Place(p, toRight, cnt)
  {
    var i :| NextTo(list, n, i, list[n + 1 + cnt], column);
    var last := Place(p, rightward, cnt - 1);
    assert ActiveAt(list, n, p, rightward, n + 1 + cnt);
    assert i == last;
    var j := if i > 1 && list[i - 1] == column then i - 1 else i + 1;
    PositionIs(list, n, nn, j);
    assert Position(list, n, column) == j;
    if cnt == 1 {
      toRight := j > i;
      assert ActiveAt(list, n, p, toRight, n + 2);
    } else {
      toRight := rightward;
      assert ActiveAt(list, n, p, rightward, n + cnt);
    }
  }

  lemma WindowExtended(list: seq<int>, n: nat, nn: nat, cnt: nat, p: int, rightward: bool, column: int)
    requires Window(list, n, nn, cnt, p, rightward) && Markable(list, n, column) && cnt < nn
    requires Position(list, n, column) == Place(p, rightward, cnt)
    ensures Window(Marked(list, n, nn, column, true), n, nn, cnt + 1, p, rightward)
  {
    MarkedIs(list, n, nn, cnt, p, rightward, column);
    var i := Position(list, n, column);
    PassiveKeepsWindow(list, n, nn, cnt, p, rightward, i);
    var passive := list[i := -column];
    var marked := passive[n + 2 + cnt := column];
    assert Window(passive, n, nn, cnt, p, rightward);
    assert Shape(marked, n, nn);
    forall t | n + 2 <= t < n + 2 + cnt + 1
      ensures ActiveAt(marked, n, p, rightward, t)
    {
      assert t < n + 2 + cnt ==> ActiveAt(passive, n, p, rightward, t);
    }
  }

  /** What SOS_can_activate asks of the lists before a column may become active. */
  ghost predicate Admissible(list: seq<int>, n: nat, nn: nat, column: int)
    requires |list| == n + 2 + nn
  {
    var cnt := Active(list, n, nn);
    cnt < nn && (cnt == 0 || NextToLast(list, n, list[n + 1 + cnt], column))
  }

  /** Activating an admissible column keeps the active list a window. */
  lemma ActivationKeepsWindow(list: seq<int>, n: nat, nn: nat, column: int)
    requires IsWindow(list, n, nn) && Markable(list, n, column) && Admissible(list, n, nn, column)
    ensures IsWindow(Marked(list, n, nn, column, true), n, nn)
  {
    var cnt, p, rightward :| Window(list, n, nn, cnt, p, rightward);
    WindowActive(list, n, nn, cnt, p, rightward);
    if cnt == 0 {
      var i := Position(list, n, column);
      assert Window(list, n, nn, 0, i, true);
      WindowExtended(list, n, nn, 0, i, true, column);
    } else {
      var toRight := NextPlace(list, n, nn, cnt, p, rightward, column);
      WindowExtended(list, n, nn, cnt, p, toRight, column);
    }
  }

  // ----- unmarking -----

  lemma {:induction false} SlotIs(list: seq<int>, n: nat, nn: nat, column: int, k: nat, at: nat)
    requires |list| == n + 2 + nn && k <= at <= nn && column != 0
    requires forall t {:trigger list[t]} :: n + 2 + k <= t < n + 2 + at ==> list[t] != 0 && list[t] != column
    requires at < nn ==> list[n + 2 + at] == column || list[n + 2 + at] == 0
    ensures SlotOf(list, n, nn, column, k) == if at < nn && list[n + 2 + at] == column then at else nn
    decreases at - k
  {
    if k < at {
      SlotIs(list, n, nn, column, k + 1, at);
    }
  }

  lemma PositionAfterMark(list: seq<int>, n: nat, nn: nat, list': seq<int>, column: int)
    requires Shape(list, n, nn) && Markable(list, n, column) && |list'| == |list|
    requires forall i {:trigger list'[i]} :: 1 <= i <= n && i != Position(list, n, column) ==> list'[i] == list[i]
    requires list'[Position(list, n, column)] == -column
    ensures Position(list', n, column) == Position(list, n, column)
  {
    var i, j := Position(list, n, column), Position(list', n, column);
    assert Abs(list'[i]) == column && j > 0;
    assert Abs(list'[j]) == column;
  }

  /** What unmarking does, when the slot that names the column, or the first free one, is
      known. */
  lemma UnmarkedIs(list: seq<int>, n: nat, nn: nat, column: int, i: nat, at: nat)
    requires |list| == n + 2 + nn && 0 < i == Position(list, n, column) && list[i] == -column < 0 && at <= nn
    requires forall t {:trigger list[t]} :: n + 2 <= t < n + 2 + at ==> list[t] != 0 && list[t] != column
    requires at < nn ==> list[n + 2 + at] == column || list[n + 2 + at] == 0
    ensures var unmarked := list[i := column];
            Unmarked(list, n, nn, column) ==
              if at < nn && list[n + 2 + at] == column then Closed(unmarked, n + 2 + at) else unmarked
  {
    hide Position, SlotOf, Closed;
    SlotIs(list[i := column], n, nn, column, 0, at);
  }

  lemma ClosedUp(list: seq<int>, at: nat, column: int)
    requires at < |list| && forall t :: at <= t < |list| ==> list[t] == 0
    ensures Closed(list[at := column], at) == list
  {
  }

  /** Unmarking right after marking restores the array exactly. */
  lemma UnmarkRestores(list: seq<int>, n: nat, nn: nat, cnt: nat, p: int, rightward: bool, column: int, asactive: bool)
    requires Window(list, n, nn, cnt, p, rightward) && Markable(list, n, column)
    ensures Unmarked(Marked(list, n, nn, column, asactive), n, nn, column) == list
  {
    var i := Position(list, n, column);
    MarkedIs(list, n, nn, cnt, p, rightward, column);
    SlotsNameOthers(list, n, nn, cnt, p, rightward, column);
    WindowParts(list, n, nn, cnt, p, rightward, column);
    hide Window, Marked, Unmarked, Closed, Position, Markable, Abs, Shape;
    var marked := Marked(list, n, nn, column, asactive);
    PositionAfterMark(list, n, nn, marked, column);
    UnmarkedIs(marked, n, nn, column, i, cnt);
    if asactive && cnt < nn {
      assert marked[i := column] == list[n + 2 + cnt := column];
      ClosedUp(list, n + 2 + cnt, column);
    } else {
      assert marked[i := column] == list;
    }
  }

  lemma WindowParts(list: seq<int>, n: nat, nn: nat, cnt: nat, p: int, rightward: bool, column: int)
    requires Window(list, n, nn, cnt, p, rightward) && Markable(list, n, column)
    ensures Shape(list, n, nn) && |list| == n + 2 + nn && cnt <= nn
    ensures column > 0 && 1 <= Position(list, n, column) <= n && list[Position(list, n, column)] == column
    ensures forall t :: n + 2 + cnt <= t < n + 2 + nn ==> list[t] == 0
  {
  }

  /** Which calls undo each other: unmarking after marking restores the array if and only
      if the column was not marked before. */
  lemma UnmarkRestoresIff(list: seq<int>, n: nat, nn: nat, column: int, asactive: bool)
    requires IsWindow(list, n, nn) && column > 0
    ensures Unmarked(Marked(list, n, nn, column, asactive), n, nn, column) == list
       <==> !(exists i {:trigger list[i]} :: 1 <= i <= n && list[i] == -column)
  {
    var cnt, p, rightward :| Window(list, n, nn, cnt, p, rightward);
    var i := Position(list, n, column);
    assert i > 0 && list[i] > 0 ==> Markable(list, n, column);
    if Markable(list, n, column) {
      UnmarkRestores(list, n, nn, cnt, p, rightward, column, asactive);
      assert forall j {:trigger list[j]} :: 1 <= j <= n && list[j] == -column ==> j == i;
    } else if i > 0 {
      assert list[i] == -column && Unmarked(list, n, nn, column)[i] == column;
    }
  }

  // ----- whole runs -----

  datatype Mark = Mark(column: int, asactive: bool)

  /** The list after these marks, none of them undone yet. */
  ghost function After(list: seq<int>, n: nat, nn: nat, marks: seq<Mark>): (r: seq<int>)
    requires |list| == n + 2 + nn
    ensures |r| == |list|
  {
    if marks == [] then list
    else
      var last := marks[|marks| - 1];
      Marked(After(list, n, nn, marks[..|marks| - 1]), n, nn, last.column, last.asactive)
  }

  /** Every mark was put on an unmarked member, active ones only where SOS_can_activate
      allows. */
  ghost predicate Permitted(list: seq<int>, n: nat, nn: nat, marks: seq<Mark>)
    requires |list| == n + 2 + nn
  {
    marks == [] ||
    var last, before := marks[|marks| - 1], After(list, n, nn, marks[..|marks| - 1]);
    && Permitted(list, n, nn, marks[..|marks| - 1])
    && Markable(before, n, last.column)
    && (last.asactive ==> Admissible(before, n, nn, last.column))
  }

  /** Standing marks, put on one after the other, make the active list a window, and the
      last of them can be taken back. */
  lemma {:induction false} StackKeepsWindow(list: seq<int>, n: nat, nn: nat, marks: seq<Mark>)
    requires |list| == n + 2 + nn && IsWindow(list, n, nn) && Permitted(list, n, nn, marks)
    ensures IsWindow(After(list, n, nn, marks), n, nn)
    ensures marks != [] ==> Unmarked(After(list, n, nn, marks), n, nn, marks[|marks| - 1].column)
                            == After(list, n, nn, marks[..|marks| - 1])
  {
    hide Marked, Unmarked, Window, Markable, Admissible, Position;
    if marks != [] {
      var last, before := marks[|marks| - 1], After(list, n, nn, marks[..|marks| - 1]);
      StackKeepsWindow(list, n, nn, marks[..|marks| - 1]);
      var cnt, p, rightward :| Window(before, n, nn, cnt, p, rightward);
      UnmarkRestores(before, n, nn, cnt, p, rightward, last.column, last.asactive);
      if last.asactive {
        ActivationKeepsWindow(before, n, nn, last.column);
      } else {
        MarkKeepsWindow(before, n, nn, cnt, p, rightward, last.column);
      }
    }
  }

  /** One call of a run: a mark is put on, or the youngest mark that stands is taken back. */
  datatype Call = Put(mark: Mark) | TakeBack

  /** The marks that stand after a run. */
  ghost function Standing(run: seq<Call>): (marks: seq<Mark>)
  {
    if run == [] then []
    else
      var marks := Standing(run[..|run| - 1]);
      match run[|run| - 1]
      case Put(mark) => marks + [mark]
      case TakeBack => if marks == [] then [] else marks[..|marks| - 1]
  }

  /** The list after a run, every call executed on it. */
  ghost function State(list: seq<int>, n: nat, nn: nat, run: seq<Call>): (r: seq<int>)
    requires |list| == n + 2 + nn
    ensures |r| == |list|
  {
    if run == [] then list
    else
      var before, marks := State(list, n, nn, run[..|run| - 1]), Standing(run[..|run| - 1]);
      match run[|run| - 1]
      case Put(mark) => Marked(before, n, nn, mark.column, mark.asactive)
      case TakeBack => if marks == [] then before else Unmarked(before, n, nn, marks[|marks| - 1].column)
  }

  /** Every mark goes on an unmarked member, an active one only where SOS_can_activate
      allows; only standing marks are taken back. */
  ghost predicate Guarded(list: seq<int>, n: nat, nn: nat, run: seq<Call>)
    requires |list| == n + 2 + nn
  {
    run == [] ||
    var before, marks := State(list, n, nn, run[..|run| - 1]), Standing(run[..|run| - 1]);
    && Guarded(list, n, nn, run[..|run| - 1])
    && match run[|run| - 1]
       case Put(mark) => Markable(before, n, mark.column) && (mark.asactive ==> Admissible(before, n, nn, mark.column))
       case TakeBack => marks != []
  }

  /** At every point of a guarded run the array is the one the standing marks alone give:
      marks taken back leave no trace, in whatever order marking and unmarking alternate.
      So the active list is a window throughout. */
  lemma {:induction false} RunKeepsWindow(list: seq<int>, n: nat, nn: nat, run: seq<Call>)
    requires |list| == n + 2 + nn && IsWindow(list, n, nn) && Guarded(list, n, nn, run)
    ensures Permitted(list, n, nn, Standing(run))
    ensures State(list, n, nn, run) == After(list, n, nn, Standing(run))
    ensures IsWindow(State(list, n, nn, run), n, nn)
  {
    hide Marked, Unmarked, IsWindow, Markable, Admissible;
    if run != [] {
      var marks := Standing(run[..|run| - 1]);
      RunKeepsWindow(list, n, nn, run[..|run| - 1]);
      match run[|run| - 1] {
        case Put(mark) =>
          assert (marks + [mark])[..|marks|] == marks;
        case TakeBack =>
          StackKeepsWindow(list, n, nn, marks);
      }
    }
    StackKeepsWindow(list, n, nn, Standing(run));
  }

  // ----- runs to the left -----

  /** The marks that activate k members from position i down. */
  ghost function Downward(list: seq<int>, i: nat, k: nat): (marks: seq<Mark>)
    requires k <= i < |list|
    ensures |marks| == k
  {
    if k == 0 then [] else Downward(list, i, k - 1) + [Mark(list[i + 1 - k], true)]
  }

  /** Members up to position k are what they were. */
  ghost predicate Untouched(list: seq<int>, after: seq<int>, k: int) {
    |list| == |after| > k && forall j {:trigger list[j]} {:trigger after[j]} :: 1 <= j <= k ==> after[j] == list[j]
  }

  lemma OneMore(list: seq<int>, n: nat, nn: nat, marks: seq<Mark>, column: int)
    requires |list| == n + 2 + nn && Permitted(list, n, nn, marks)
    requires Markable(After(list, n, nn, marks), n, column) && Admissible(After(list, n, nn, marks), n, nn, column)
    ensures Permitted(list, n, nn, marks + [Mark(column, true)])
    ensures After(list, n, nn, marks + [Mark(column, true)]) == Marked(After(list, n, nn, marks), n, nn, column, true)
  {
    hide Markable, Admissible, Marked;
    assert (marks + [Mark(column, true)])[..|marks|] == marks;
  }

  /** Nothing keeps the active list from growing to the left: from an empty one, members
      that stand side by side may be activated from the highest position down. */
  lemma {:induction false} LeftwardRun(list: seq<int>, n: nat, nn: nat, i: nat, k: nat)
    requires Window(list, n, nn, 0, i, false) && k <= i <= n && k <= nn
    requires forall j {:trigger list[j]} :: i - k < j <= i ==> list[j] > 0
    ensures Permitted(list, n, nn, Downward(list, i, k))
    ensures Window(After(list, n, nn, Downward(list, i, k)), n, nn, k, i, false)
    ensures Untouched(list, After(list, n, nn, Downward(list, i, k)), i - k)
  {
    assert |list| == n + 2 + nn;
    hide *;
    NoneYet(list, n, nn, i);
    if k > 0 {
      LeftwardRun(list, n, nn, i, k - 1);
      LeftwardMore(list, n, nn, i, k);
    }
  }

  lemma LeftwardMore(list: seq<int>, n: nat, nn: nat, i: nat, k: nat)
    requires |list| == n + 2 + nn && 0 < k <= i <= n && k <= nn && list[i + 1 - k] > 0
    requires Permitted(list, n, nn, Downward(list, i, k - 1))
    requires Window(After(list, n, nn, Downward(list, i, k - 1)), n, nn, k - 1, i, false)
    requires Untouched(list, After(list, n, nn, Downward(list, i, k - 1)), i + 1 - k)
    ensures Permitted(list, n, nn, Downward(list, i, k))
    ensures Window(After(list, n, nn, Downward(list, i, k)), n, nn, k, i, false)
    ensures Untouched(list, After(list, n, nn, Downward(list, i, k)), i - k)
  {
    hide *;
    var before, column := After(list, n, nn, Downward(list, i, k - 1)), list[i + 1 - k];
    UntouchedAt(list, before, i + 1 - k, i + 1 - k);
    LeftStep(before, n, nn, i, k - 1);
    OneMore(list, n, nn, Downward(list, i, k - 1), column);
    UntouchedBoth(list, before, Marked(before, n, nn, column, true), i - k);
    DownwardIs(list, i, k);
  }

  lemma NoneYet(list: seq<int>, n: nat, nn: nat, i: nat)
    requires |list| == n + 2 + nn > i
    ensures Downward(list, i, 0) == [] && After(list, n, nn, []) == list && Permitted(list, n, nn, [])
    ensures Untouched(list, list, i)
  {
  }

  lemma DownwardIs(list: seq<int>, i: nat, k: nat)
    requires 0 < k <= i < |list|
    ensures Downward(list, i, k) == Downward(list, i, k - 1) + [Mark(list[i + 1 - k], true)]
  {
  }

  lemma UntouchedAt(list: seq<int>, after: seq<int>, k: int, j: int)
    requires Untouched(list, after, k) && 1 <= j <= k
    ensures after[j] == list[j]
  {
  }

  lemma UntouchedBoth(list: seq<int>, before: seq<int>, after: seq<int>, k: int)
    requires Untouched(list, before, k + 1) && Untouched(before, after, k)
    ensures Untouched(list, after, k)
  {
  }

  lemma LeftStep(list: seq<int>, n: nat, nn: nat, i: nat, k: nat)
    requires Window(list, n, nn, k, i, false) && k < i <= n && k < nn && list[i - k] > 0
    ensures Markable(list, n, list[i - k]) && Admissible(list, n, nn, list[i - k])
    ensures Window(Marked(list, n, nn, list[i - k], true), n, nn, k + 1, i, false)
    ensures Untouched(list, Marked(list, n, nn, list[i - k], true), i - k - 1)
  {
    PositionIs(list, n, nn, i - k);
    WindowActive(list, n, nn, k, i, false);
    if k > 0 {
      assert ActiveAt(list, n, i, false, n + 1 + k);
      assert NextTo(list, n, i - k + 1, list[n + 1 + k], list[i - k]);
    }
    MarkedIs(list, n, nn, k, i, false, list[i - k]);
    WindowExtended(list, n, nn, k, i, false, list[i - k]);
  }
}
