/** Branching on a member of a generalized upper bound set (lp_mipbb.c, lp_SOS.c): one
    ceiling branch, and two floor branches that each fix one half of the other candidates. */
module Gub {
  import opened SosList
  import opened Sos
  import UndoLadders

  // ----- the candidate list -----

  /** Column c can be non-zero in one of the first v sets that contain the column. */
  ghost predicate Candidate(sets: seq<seq<int>>, v: nat, column: int, upbound: seq<real>, c: int) {
    exists i :: 0 <= i < v <= |sets| && CandidateIn(sets[i], column, upbound, c)
  }

  ghost predicate CandidateIn(list: seq<int>, column: int, upbound: seq<real>, c: int) {
    0 < c < |upbound| && upbound[c] > 0.0 && HasMember(list, column) && c in list
  }

  /** The column is a member, marked or not. */
  predicate HasMember(list: seq<int>, column: int) {
    column in list || -column in list
  }

  /** The members of every set, without header, order and active list. */
  ghost predicate MembersOK(sets: seq<seq<int>>, columns: nat) {
    forall i, j :: 0 <= i < |sets| && 0 <= j < |sets[i]| ==> 0 < Abs(sets[i][j]) <= columns
  }

  /** The listed numbers, in ascending order. */
  ghost predicate Ascending(s: seq<int>) {
    forall i, j :: 0 <= i < j < |s| ==> s[i] < s[j]
  }

  /** Counts the unmarked members of one set that can be non-zero; stops at a positive
      lower bound. */
  method TallyCandidates(list: seq<int>, columns: nat, column: int, upbound: seq<real>, lobound: seq<real>,
                         tally: array<int>)
    returns (added: int, valid: bool)
    requires |upbound| == |lobound| == tally.Length == columns + 1
    requires forall j :: 0 <= j < |list| ==> 0 < Abs(list[j]) <= columns
    requires forall c :: 0 <= c <= columns ==> tally[c] >= 0
    modifies tally
    ensures valid ==> CountedToo(old(tally[..]), tally[..], list, upbound)
    ensures added >= 0
    ensures valid <==> !RaisedMember(list, upbound, lobound)
  {
    added, valid := 0, true;
    var n := |list|;
    while n > 0
      invariant 0 <= n <= |list| && added >= 0
      invariant forall c :: 0 <= c <= columns ==> tally[c] >= 0
      invariant !RaisedMember(list[n..], upbound, lobound)
      invariant forall c :: 1 <= c <= columns ==>
                (tally[c] > 0 <==> old(tally[c]) > 0 || (upbound[c] > 0.0 && c in list[n..]))
    {
      var j := list[n - 1];
      assert list[n - 1..] == [j] + list[n..];
      if j > 0 && upbound[j] > 0.0 {
        if lobound[j] > 0.0 {
          assert j in list;
          return added, false;
        }
        if tally[j] == 0 {
          added := added + 1;
        }
        tally[j] := tally[j] + 1;
      }
      n := n - 1;
    }
    assert list[0..] == list;
  }

  /** The columns below i with a positive count, but for an excluded one. */
  function Kept(tally: seq<int>, i: nat, column: int, excludetarget: bool): (s: seq<int>)
    requires i <= |tally|
    ensures |s| < i || (i == 0 && s == [])
  {
    if i <= 1 then []
    else Kept(tally, i - 1, column, excludetarget)
         + if tally[i - 1] > 0 && (!excludetarget || i - 1 != column) then [i - 1] else []
  }

  lemma KeptStart(tally: seq<int>, column: int, excludetarget: bool)
    requires |tally| > 0
    ensures Kept(tally, 1, column, excludetarget) == []
  {
  }

  lemma KeptNext(tally: seq<int>, i: nat, column: int, excludetarget: bool)
    requires 1 <= i < |tally|
    ensures Kept(tally, i + 1, column, excludetarget) ==
            Kept(tally, i, column, excludetarget) + if tally[i] > 0 && (!excludetarget || i != column) then [i] else []
  {
  }

  lemma {:induction false} KeptAscending(tally: seq<int>, i: nat, column: int, excludetarget: bool)
    requires i <= |tally|
    ensures Ascending(Kept(tally, i, column, excludetarget))
    ensures forall k :: 0 <= k < |Kept(tally, i, column, excludetarget)| ==>
              Kept(tally, i, column, excludetarget)[k] < i
  {
    if i > 1 {
      KeptAscending(tally, i - 1, column, excludetarget);
    }
  }

  lemma {:induction false} KeptMember(tally: seq<int>, i: nat, column: int, excludetarget: bool, c: int)
    requires i <= |tally|
    ensures c in Kept(tally, i, column, excludetarget)
       <==> 1 <= c < i && tally[c] > 0 && !(excludetarget && c == column)
  {
    if i > 1 {
      KeptMember(tally, i - 1, column, excludetarget, c);
    }
  }

  /** The condensing loop: the counts are overwritten, from the front, by the columns that
      have one.  The write position never passes the read position. */
  method Condense(candidates: array<int>, column: int, excludetarget: bool)
    requires candidates.Length > 0
    modifies candidates
    ensures 0 <= candidates[0] < candidates.Length
    ensures candidates[1..candidates[0] + 1] == Kept(old(candidates[..]), candidates.Length, column, excludetarget)
  {
    hide Kept;
    ghost var was := candidates[..];
    KeptStart(was, column, excludetarget);
    var n := 0;
    for i := 1 to candidates.Length
      invariant 0 <= n < i
      invariant forall k {:trigger candidates[k]} :: i <= k < candidates.Length ==> candidates[k] == was[k]
      invariant candidates[1..n + 1] == Kept(was, i, column, excludetarget)
    {
      ghost var kept := candidates[1..n + 1];
      KeptNext(was, i, column, excludetarget);
      if candidates[i] > 0 && (!excludetarget || i != column) {
        n := n + 1;
        candidates[n] := i;
        assert candidates[1..n + 1] == kept + [i];
      }
    }
    ghost var kept := candidates[1..n + 1];
    candidates[0] := n;
    assert candidates[1..n + 1] == kept;
  }

  /** One set: skipped unless the column is a member. */
  method VisitSet(sets: seq<seq<int>>, i: nat, columns: nat, column: int, upbound: seq<real>, lobound: seq<real>,
                  tally: array<int>)
    returns (added: int, valid: bool)
    requires i < |sets| && |upbound| == |lobound| == tally.Length == columns + 1 && MembersOK(sets, columns)
    requires Counted(tally[..], sets, i, column, upbound)
    modifies tally
    ensures valid ==> Counted(tally[..], sets, i + 1, column, upbound)
    ensures valid <==> !RaisedSet(sets[i], column, upbound, lobound)
  {
    hide *;
    ghost var before := tally[..];
    added, valid := 0, true;
    if HasMember(sets[i], column) {
      MembersOfSet(sets, columns, i);
      CountedParts(before, sets, i, column, upbound);
      added, valid := TallyCandidates(sets[i], columns, column, upbound, lobound, tally);
    }
    RaisedSetIs(sets[i], column, upbound, lobound);
    if valid {
      CountedStep(before, tally[..], sets, i, i + 1, column, upbound);
    }
  }

  /** Which columns the list names, when v sets have been looked at. */
  ghost predicate IsCandidateList(list: seq<int>, sets: seq<seq<int>>, v: nat, column: int, excludetarget: bool,
                                  upbound: seq<real>) {
    && |list| > 0 && Ascending(list)
    && forall c :: c in list <==> Candidate(sets, v, column, upbound, c) && !(excludetarget && c == column)
  }

  ghost predicate NoneFound(sets: seq<seq<int>>, v: nat, column: int, excludetarget: bool, upbound: seq<real>) {
    forall c :: Candidate(sets, v, column, upbound, c) ==> excludetarget && c == column
  }

  /** Who is a candidate: a column that can be non-zero and is an unmarked member of one of
      the sets looked at, if the branching column is a member of that set too. */
  lemma CandidateIff(sets: seq<seq<int>>, v: nat, column: int, upbound: seq<real>, c: int)
    requires v <= |sets|
    ensures Candidate(sets, v, column, upbound, c)
       <==> 0 < c < |upbound| && upbound[c] > 0.0
            && exists list :: list in sets[..v] && c in list && (column in list || -column in list)
  {
    if i :| 0 <= i < v && CandidateIn(sets[i], column, upbound, c) {
      assert sets[i] in sets[..v];
    }
    if list :| list in sets[..v] && c in list && (column in list || -column in list) {
      var i :| 0 <= i < v && sets[i] == list;
    }
  }

  /** When the collection is given up. */
  lemma RaisedLowerIff(sets: seq<seq<int>>, v: nat, column: int, upbound: seq<real>, lobound: seq<real>)
    requires v <= |sets| && |upbound| == |lobound|
    ensures RaisedLower(sets, v, column, upbound, lobound)
       <==> exists c :: Candidate(sets, v, column, upbound, c) && lobound[c] > 0.0
  {
    if i :| 0 <= i < v && RaisedSet(sets[i], column, upbound, lobound) {
      var c :| c in sets[i] && 0 < c < |upbound| && upbound[c] > 0.0 && lobound[c] > 0.0;
      assert CandidateIn(sets[i], column, upbound, c) && Candidate(sets, v, column, upbound, c);
    }
    if c :| Candidate(sets, v, column, upbound, c) && lobound[c] > 0.0 {
      var i :| 0 <= i < v && CandidateIn(sets[i], column, upbound, c);
      assert RaisedMember(sets[i], upbound, lobound) && RaisedSet(sets[i], column, upbound, lobound);
    }
  }

  /** A member that can be non-zero has a positive lower bound. */
  ghost predicate RaisedMember(list: seq<int>, upbound: seq<real>, lobound: seq<real>) {
    exists c :: c in list && 0 < c < |upbound| && c < |lobound| && upbound[c] > 0.0 && lobound[c] > 0.0
  }

  /** So it is in one of the sets looked at. */
  ghost predicate RaisedLower(sets: seq<seq<int>>, v: nat, column: int, upbound: seq<real>, lobound: seq<real>) {
    exists i :: 0 <= i < v <= |sets| && RaisedSet(sets[i], column, upbound, lobound)
  }

  ghost predicate RaisedSet(list: seq<int>, column: int, upbound: seq<real>, lobound: seq<real>) {
    HasMember(list, column) && RaisedMember(list, upbound, lobound)
  }

  lemma RaisedSetIs(list: seq<int>, column: int, upbound: seq<real>, lobound: seq<real>)
    ensures RaisedSet(list, column, upbound, lobound)
       <==> HasMember(list, column) && RaisedMember(list, upbound, lobound)
  {
  }

  lemma RaisedNext(sets: seq<seq<int>>, v: nat, column: int, upbound: seq<real>, lobound: seq<real>)
    requires v < |sets|
    ensures RaisedLower(sets, v + 1, column, upbound, lobound)
       <==> RaisedLower(sets, v, column, upbound, lobound) || RaisedSet(sets[v], column, upbound, lobound)
  {
    hide RaisedSet;
  }

  lemma NoneRaisedYet(sets: seq<seq<int>>, column: int, upbound: seq<real>, lobound: seq<real>)
    ensures !RaisedLower(sets, 0, column, upbound, lobound)
  {
  }

  /** The tally over the sets; with `firstonly` no further set is looked at once two
      candidates are known. */
  method TallySets(sets: seq<seq<int>>, columns: nat, firstonly: bool, column: int, upbound: seq<real>,
                   lobound: seq<real>, tally: array<int>)
    returns (v: nat, valid: bool)
    requires |upbound| == |lobound| == tally.Length == columns + 1 && MembersOK(sets, columns)
    requires forall c :: 0 <= c < tally.Length ==> tally[c] == 0
    modifies tally
    ensures v <= |sets|
    ensures valid ==> Counted(tally[..], sets, v, column, upbound)
    ensures valid && v < |sets| ==> firstonly && v > 0 && HasMember(sets[v - 1], column)
    ensures valid <==> !RaisedLower(sets, v, column, upbound, lobound)
  {
    NoneCounted(tally[..], sets, column, upbound);
    NoneRaisedYet(sets, column, upbound, lobound);
    hide *;
    var nn := 0;
    v, valid := 0, true;
    while v < |sets|
      invariant v <= |sets| && valid && Counted(tally[..], sets, v, column, upbound)
      invariant !RaisedLower(sets, v, column, upbound, lobound)
    {
      var added;
      added, valid := VisitSet(sets, v, columns, column, upbound, lobound, tally);
      var member := HasMember(sets[v], column);
      RaisedNext(sets, v, column, upbound, lobound);
      v := v + 1;
      if !valid {
        return;
      }
      if firstonly && nn + added > 1 && member {
        return;
      }
      nn := nn + added;
    }
  }

  /** The end of SOS_get_candidates. */
  method CondenseFound(tally: array<int>, ghost sets: seq<seq<int>>, ghost v: nat, column: int, excludetarget: bool,
                       ghost upbound: seq<real>)
    requires tally.Length > 0 && Counted(tally[..], sets, v, column, upbound)
    modifies tally
    ensures 0 <= tally[0] < tally.Length
    ensures tally[0] == 0 <==> NoneFound(sets, v, column, excludetarget, upbound)
    ensures tally[0] > 0 ==> IsCandidateList(tally[1..tally[0] + 1], sets, v, column, excludetarget, upbound)
  {
    hide Counted, Candidate, Kept, IsCandidateList, NoneFound;
    CandidatesFound(tally[..], sets, v, column, excludetarget, upbound);
    Condense(tally, column, excludetarget);
  }

  /** SOS_get_candidates.  Null stands for an empty list and for a member of a visited set
      that can be non-zero and has a positive lower bound, and for nothing else. */
  method GetCandidates(sets: seq<seq<int>>, columns: nat, firstonly: bool, column: int, excludetarget: bool,
                       upbound: seq<real>, lobound: seq<real>)
    returns (candidates: array?<int>, ghost v: nat)
    requires |upbound| == |lobound| == columns + 1 && MembersOK(sets, columns)
    ensures v <= |sets|
    ensures v < |sets| && !RaisedLower(sets, v, column, upbound, lobound) ==>
              firstonly && v > 0 && HasMember(sets[v - 1], column)
    ensures candidates != null ==>
              && !RaisedLower(sets, v, column, upbound, lobound)
              && fresh(candidates) && candidates.Length == columns + 1 && 0 < candidates[0] <= columns
              && IsCandidateList(candidates[1..candidates[0] + 1], sets, v, column, excludetarget, upbound)
    ensures candidates == null <==>
              NoneFound(sets, v, column, excludetarget, upbound) || RaisedLower(sets, v, column, upbound, lobound)
  {
    var tally := new int[columns + 1](_ => 0);
    hide Counted, Candidate, Kept, IsCandidateList, NoneFound, RaisedLower, MembersOK, HasMember;
    var valid;
    v, valid := TallySets(sets, columns, firstonly, column, upbound, lobound, tally);
    if !valid {
      return null, v;
    }
    CondenseFound(tally, sets, v, column, excludetarget, upbound);
    return if tally[0] == 0 then null else tally, v;
  }

  /** The counts are positive for exactly the candidates of the first v sets. */
  ghost predicate Counted(tally: seq<int>, sets: seq<seq<int>>, v: nat, column: int, upbound: seq<real>) {
    && |tally| == |upbound|
    && (forall c :: 0 <= c < |tally| ==> tally[c] >= 0)
    && forall c :: 1 <= c < |tally| ==> (tally[c] > 0 <==> Candidate(sets, v, column, upbound, c))
  }

  ghost predicate CountedToo(was: seq<int>, tally: seq<int>, list: seq<int>, upbound: seq<real>) {
    && |tally| == |upbound| == |was|
    && (forall c :: 0 <= c < |tally| ==> tally[c] >= 0)
    && forall c :: 1 <= c < |tally| ==> (tally[c] > 0 <==> was[c] > 0 || (upbound[c] > 0.0 && c in list))
  }

  lemma NoneCounted(tally: seq<int>, sets: seq<seq<int>>, column: int, upbound: seq<real>)
    requires |tally| == |upbound| && forall c :: 0 <= c < |tally| ==> tally[c] == 0
    ensures Counted(tally, sets, 0, column, upbound)
  {
  }

  lemma CountedParts(tally: seq<int>, sets: seq<seq<int>>, v: nat, column: int, upbound: seq<real>)
    requires Counted(tally, sets, v, column, upbound)
    ensures forall c :: 0 <= c < |tally| ==> tally[c] >= 0
  {
  }

  lemma MembersOfSet(sets: seq<seq<int>>, columns: nat, i: nat)
    requires MembersOK(sets, columns) && i < |sets|
    ensures forall j :: 0 <= j < |sets[i]| ==> 0 < Abs(sets[i][j]) <= columns
  {
  }

  lemma CountedStep(was: seq<int>, tally: seq<int>, sets: seq<seq<int>>, i: nat, next: nat, column: int,
                    upbound: seq<real>)
    requires i < |sets| && next == i + 1 && Counted(was, sets, i, column, upbound)
    requires if HasMember(sets[i], column) then CountedToo(was, tally, sets[i], upbound) else tally == was
    ensures Counted(tally, sets, next, column, upbound)
  {
    CandidateStep(sets, i, next, column, upbound);
    hide Candidate, HasMember;
  }

  lemma CandidateStep(sets: seq<seq<int>>, i: nat, next: nat, column: int, upbound: seq<real>)
    requires i < |sets| && next == i + 1
    ensures forall c :: Candidate(sets, next, column, upbound, c) <==>
                          Candidate(sets, i, column, upbound, c) || CandidateIn(sets[i], column, upbound, c)
  {
    hide CandidateIn;
  }

  lemma SomeFound(list: seq<int>, sets: seq<seq<int>>, v: nat, column: int, excludetarget: bool, upbound: seq<real>)
    requires IsCandidateList(list, sets, v, column, excludetarget, upbound)
    ensures !NoneFound(sets, v, column, excludetarget, upbound)
  {
    hide Candidate, Ascending;
    var c := list[0];
    assert c in list;
    assert Candidate(sets, v, column, upbound, c) && !(excludetarget && c == column);
  }

  lemma CandidatesKept(tally: seq<int>, sets: seq<seq<int>>, v: nat, column: int, excludetarget: bool,
                       upbound: seq<real>)
    requires Counted(tally, sets, v, column, upbound)
    ensures var list := Kept(tally, |tally|, column, excludetarget);
            Ascending(list) && forall c ::
              c in list <==> Candidate(sets, v, column, upbound, c) && !(excludetarget && c == column)
  {
    var list := Kept(tally, |tally|, column, excludetarget);
    KeptAscending(tally, |tally|, column, excludetarget);
    forall c
      ensures c in list <==> Candidate(sets, v, column, upbound, c) && !(excludetarget && c == column)
    {
      assert Candidate(sets, v, column, upbound, c) ==> 1 <= c < |upbound|;
      KeptMember(tally, |tally|, column, excludetarget, c);
    }
    hide Candidate;
  }

  lemma CandidatesFound(tally: seq<int>, sets: seq<seq<int>>, v: nat, column: int, excludetarget: bool,
                        upbound: seq<real>)
    requires Counted(tally, sets, v, column, upbound)
    ensures var list := Kept(tally, |tally|, column, excludetarget);
            && (|list| > 0 ==> IsCandidateList(list, sets, v, column, excludetarget, upbound))
            && (|list| == 0 <==> NoneFound(sets, v, column, excludetarget, upbound))
  {
    hide Candidate, Kept, Counted;
    var list := Kept(tally, |tally|, column, excludetarget);
    CandidatesKept(tally, sets, v, column, excludetarget, upbound);
    if |list| > 0 {
      SomeFound(list, sets, v, column, excludetarget, upbound);
    }
  }

  // ----- fixing one half of the candidates -----

  datatype Part = LeftHalf | RightHalf

  function Half(varlist: seq<int>, part: Part): (h: seq<int>)
    ensures forall c :: c in h ==> c in varlist
  {
    if part == LeftHalf then varlist[..|varlist| / 2] else varlist[|varlist| / 2..]
  }

  /** Each candidate is in exactly one half. */
  lemma HalvesPartition(varlist: seq<int>, c: int)
    requires Ascending(varlist)
    ensures c in varlist <==> c in Half(varlist, LeftHalf) || c in Half(varlist, RightHalf)
    ensures !(c in Half(varlist, LeftHalf) && c in Half(varlist, RightHalf))
    ensures Half(varlist, LeftHalf) + Half(varlist, RightHalf) == varlist
    ensures |Half(varlist, RightHalf)| - |Half(varlist, LeftHalf)| == |varlist| % 2
  {
    var m := |varlist| / 2;
    assert varlist == varlist[..m] + varlist[m..];
    if c in varlist[..m] && m < |varlist| {
      assert c < varlist[m];
    }
    if c in varlist[m..] {
      assert varlist[m] <= c;
    }
  }

  /** The set lists the column. */
  predicate Lists(list: seq<int>, n: nat, c: int)
    requires n < |list|
  {
    Position(list, n, c) > 0
  }

  /** SOS_fix_list for one set: the members among one half of the list are fixed at zero.
      A negative result names a column whose original lower bound is positive. */
  method FixList(list: seq<int>, n: nat, varlist: seq<int>, part: Part, bound: array<real>, limit: seq<real>, rows: nat,
                 log: UndoLadders.UndoLadder?<real>) returns (count: int)
    requires CanRestore(log, bound[..], bound[..]) && (log != null ==> Ascending(varlist))
    requires n < |list| && |limit| == bound.Length && forall c :: c in varlist ==> 0 < c < bound.Length
    modifies bound, log
    ensures CanRestore(log, old(bound[..]), bound[..])
    ensures count < 0 ==> RaisedColumn(list, n, Half(varlist, part), limit, -count - rows)
    ensures count >= 0 ==> HalfFixed(list, n, Half(varlist, part), old(bound[..]), bound[..])
    ensures count >= 0 ==>
              count == MembersIn(list, n, Half(varlist, part)) && NoneRaised(list, n, Half(varlist, part), limit)
  {
    var i, ii := 0, |varlist| / 2;
    if part == RightHalf {
      i, ii := ii, |varlist|;
    }
    HalfIs(varlist, part);
    hide *;
    count := FixRange(list, n, varlist, i, ii, bound, limit, rows, log);
  }

  lemma HalfIs(varlist: seq<int>, part: Part)
    ensures Half(varlist, part) == if part == LeftHalf then varlist[0..|varlist| / 2]
              else varlist[|varlist| / 2..|varlist|]
  {
  }

  /** The loop of SOS_fix_list, over the candidates from one index to another. */
  method FixRange(list: seq<int>, n: nat, varlist: seq<int>, from: nat, to: nat, bound: array<real>, limit: seq<real>,
                  rows: nat, log: UndoLadders.UndoLadder?<real>) returns (count: int)
    requires from <= to <= |varlist| && CanRestore(log, bound[..], bound[..]) && (log != null ==> Ascending(varlist))
    requires n < |list| && |limit| == bound.Length && forall c :: c in varlist ==> 0 < c < bound.Length
    modifies bound, log
    ensures CanRestore(log, old(bound[..]), bound[..])
    ensures count < 0 ==> RaisedColumn(list, n, varlist[from..to], limit, -count - rows)
    ensures count >= 0 ==> HalfFixed(list, n, varlist[from..to], old(bound[..]), bound[..])
    ensures count >= 0 ==>
              count == MembersIn(list, n, varlist[from..to]) && NoneRaised(list, n, varlist[from..to], limit)
  {
    ghost var half, was := varlist[from..to], bound[..];
    SliceAscending(varlist, from, to);
    hide HalfDone, HalfFixed, Lists, Ascending, CanRestore, RaisedColumn, MembersIn, NoneRaised;
    count := 0;
    HalfStart(list, n, half, was, limit);
    var i := from;
    while i < to
      invariant from <= i <= to && count >= 0
      invariant HalfDone(list, n, half, i - from, was, bound[..], limit, count) && CanRestore(log, was, bound[..])
    {
      var c := varlist[i];
      assert c == half[i - from] && c in varlist;
      var raised, fixed := FixColumn(list, n, half, i - from, c, bound, limit, log, was, count);
      if raised {
        return -(rows + c);
      }
      count := count + fixed;
      i := i + 1;
    }
    HalfParts(list, n, half, was, bound[..], limit, count);
  }

  lemma SliceAscending(varlist: seq<int>, from: nat, to: nat)
    requires from <= to <= |varlist|
    ensures Ascending(varlist) ==> Ascending(varlist[from..to])
  {
  }

  /** The k-th column of the half is fixed, if the set lists it. */
  method FixColumn(list: seq<int>, n: nat, ghost half: seq<int>, ghost k: nat, c: int, bound: array<real>,
                   limit: seq<real>, log: UndoLadders.UndoLadder?<real>, ghost was: seq<real>, ghost count: int)
    returns (raised: bool, fixed: nat)
    requires n < |list| && k < |half| && c == half[k] && 0 < c < bound.Length == |limit| == |was|
    requires CanRestore(log, was, bound[..]) && (log != null ==> Ascending(half))
    requires HalfDone(list, n, half, k, was, bound[..], limit, count)
    modifies bound, log
    ensures CanRestore(log, was, bound[..])
    ensures raised ==> RaisedColumn(list, n, half, limit, c)
    ensures !raised ==> HalfDone(list, n, half, k + 1, was, bound[..], limit, count + fixed)
  {
    hide HalfDone, Lists, Ascending, CanRestore, RaisedColumn;
    if !Lists(list, n, c) {
      HalfSkip(list, n, half, k, was, bound[..], limit, count);
      return false, 0;
    }
    if 0.0 < limit[c] {
      RaisedHere(list, n, half, k, limit);
      return true, 0;
    }
    raised, fixed := false, 1;
    if log != null {
      NotYetDone(list, n, half, k, was, bound[..], limit, count);
    }
    HalfStep(list, n, half, k, was, bound[..], limit, count);
    SetBound(bound, log, c, 0.0, was);
  }

  /** A member in the half whose original lower bound is positive. */
  ghost predicate RaisedColumn(list: seq<int>, n: nat, half: seq<int>, limit: seq<real>, c: int) {
    n < |list| && c in half && 0 < c < |limit| && Lists(list, n, c) && limit[c] > 0.0
  }

  lemma RaisedHere(list: seq<int>, n: nat, half: seq<int>, k: nat, limit: seq<real>)
    requires n < |list| && k < |half| && 0 < half[k] < |limit| && Lists(list, n, half[k]) && limit[half[k]] > 0.0
    ensures RaisedColumn(list, n, half, limit, half[k])
  {
  }

  /** The members among `half` have bound zero, all other bounds are as they were. */
  ghost predicate HalfFixed(list: seq<int>, n: nat, half: seq<int>, was: seq<real>, bound: seq<real>)
    requires n < |list|
  {
    && |bound| == |was|
    && forall c :: 0 <= c < |was| ==> bound[c] == if c in half && Lists(list, n, c) then 0.0 else was[c]
  }

  /** How many columns of the half are members. */
  function MembersIn(list: seq<int>, n: nat, half: seq<int>): nat
    requires n < |list|
  {
    if half == [] then 0
    else MembersIn(list, n, half[..|half| - 1]) + if Lists(list, n, half[|half| - 1]) then 1 else 0
  }

  /** What FixList does to the bounds, and what it returns, in terms of the members. */
  lemma HalfFixedIff(list: seq<int>, n: nat, half: seq<int>, was: seq<real>, bound: seq<real>)
    requires n < |list| && |was| == |bound|
    ensures HalfFixed(list, n, half, was, bound)
       <==> forall c {:trigger bound[c]} :: 0 <= c < |was| ==>
              bound[c] == if c in half && exists j {:trigger list[j]} :: 1 <= j <= n && Abs(list[j]) == c then 0.0
                          else was[c]
  {
    assert forall c :: 0 <= c < |was| ==>
        (Lists(list, n, c) <==> exists j {:trigger list[j]} :: 1 <= j <= n && Abs(list[j]) == c);
    hide Lists;
  }

  lemma {:induction false} MembersInIs(list: seq<int>, n: nat, half: seq<int>)
    requires n < |list|
    ensures MembersIn(list, n, half) == |(set k | 0 <= k < |half| &&
                exists j {:trigger list[j]} :: 1 <= j <= n && Abs(list[j]) == half[k])|
  {
    if half != [] {
      var rest := half[..|half| - 1];
      MembersInIs(list, n, rest);
      var before := set k | 0 <= k < |rest| && exists j {:trigger list[j]} :: 1 <= j <= n && Abs(list[j]) == rest[k];
      var after := set k | 0 <= k < |half| && exists j {:trigger list[j]} :: 1 <= j <= n && Abs(list[j]) == half[k];
      assert after == if Lists(list, n, half[|half| - 1]) then before + {|half| - 1} else before;
    }
  }

  ghost predicate NoneRaised(list: seq<int>, n: nat, half: seq<int>, limit: seq<real>)
    requires n < |list|
  {
    forall c :: c in half && 0 <= c < |limit| && Lists(list, n, c) ==> limit[c] <= 0.0
  }

  /** The first k columns of the half have been looked at. */
  ghost predicate HalfDone(list: seq<int>, n: nat, half: seq<int>, k: nat, was: seq<real>, bound: seq<real>,
                           limit: seq<real>, count: int) {
    && n < |list| && k <= |half|
    && HalfFixed(list, n, half[..k], was, bound) && count == MembersIn(list, n, half[..k])
       && NoneRaised(list, n, half[..k], limit)
  }

  lemma HalfParts(list: seq<int>, n: nat, half: seq<int>, was: seq<real>, bound: seq<real>, limit: seq<real>,
                  count: int)
    requires n < |list| && HalfDone(list, n, half, |half|, was, bound, limit, count)
    ensures HalfFixed(list, n, half, was, bound) && count == MembersIn(list, n, half)
    ensures NoneRaised(list, n, half, limit)
  {
    assert half[..|half|] == half;
  }

  lemma HalfStart(list: seq<int>, n: nat, half: seq<int>, was: seq<real>, limit: seq<real>)
    requires n < |list|
    ensures HalfDone(list, n, half, 0, was, was, limit, 0)
  {
  }

  /** In an ascending list every column comes once. */
  lemma NotYetDone(list: seq<int>, n: nat, half: seq<int>, k: nat, was: seq<real>, bound: seq<real>, limit: seq<real>,
                   count: int)
    requires Ascending(half) && k < |half| && 0 <= half[k] < |was|
    requires HalfDone(list, n, half, k, was, bound, limit, count)
    ensures |bound| == |was| && bound[half[k]] == was[half[k]]
  {
    hide Lists, MembersIn;
    assert forall j :: 0 <= j < k ==> half[j] < half[k];
  }

  lemma HalfSkip(list: seq<int>, n: nat, half: seq<int>, k: nat, was: seq<real>, bound: seq<real>, limit: seq<real>,
                 count: int)
    requires n < |list| && HalfDone(list, n, half, k, was, bound, limit, count) && k < |half|
    requires 0 <= half[k] < |bound| == |limit|
    ensures !Lists(list, n, half[k]) ==> HalfDone(list, n, half, k + 1, was, bound, limit, count)
  {
    assert half[..k + 1] == half[..k] + [half[k]];
    assert half[..k + 1][..k] == half[..k];
  }

  lemma HalfStep(list: seq<int>, n: nat, half: seq<int>, k: nat, was: seq<real>, bound: seq<real>, limit: seq<real>,
                 count: int)
    requires n < |list| && HalfDone(list, n, half, k, was, bound, limit, count) && k < |half|
    requires 0 <= half[k] < |bound| == |limit|
    requires Lists(list, n, half[k]) && limit[half[k]] <= 0.0
    ensures HalfDone(list, n, half, k + 1, was, bound[half[k] := 0.0], limit, count + 1)
  {
    assert half[..k + 1] == half[..k] + [half[k]];
    assert half[..k + 1][..k] == half[..k];
  }
}
