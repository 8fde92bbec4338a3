/** The membership index of a group of sets (lp_SOS.c): which sets contain a column. */
module SosGroup {

  /** One set as SOS_member_updatemap reads it: its members, unmarked, as columns. */
  type Members = seq<int>

  datatype Entry = Entry(set_: int, column: int)

  /** Set number and column of every member, in the order the loops visit them. */
  function Entries(sets: seq<Members>, i: nat): (e: seq<Entry>)
    requires i <= |sets|
  {
    if i == 0 then [] else Entries(sets, i - 1) + Tagged(i, sets[i - 1], |sets[i - 1]|)
  }

  function Tagged(number: int, members: Members, n: nat): (e: seq<Entry>)
    requires n <= |members|
    ensures |e| == n && forall j :: 0 <= j < n ==> e[j] == Entry(number, members[j])
  {
    if n == 0 then [] else Tagged(number, members, n - 1) + [Entry(number, members[n - 1])]
  }

  /** The numbers of the sets that list the column, as often as they list it. */
  function SetsOf(e: seq<Entry>, column: int): (s: seq<int>)
  {
    if e == [] then []
    else
      var last := e[|e| - 1];
      SetsOf(e[..|e| - 1], column) + if last.column == column then [last.set_] else []
  }

  lemma SetsOfSnoc(e: seq<Entry>, x: Entry, column: int)
    ensures SetsOf(e + [x], column) == SetsOf(e, column) + if x.column == column then [x.set_] else []
  {
    assert (e + [x])[..|e|] == e;
  }

  lemma {:induction false} SetsOfPrefix(e: seq<Entry>, k: nat, column: int)
    requires k <= |e|
    ensures |SetsOf(e[..k], column)| <= |SetsOf(e, column)|
    ensures SetsOf(e[..k], column) == SetsOf(e, column)[..|SetsOf(e[..k], column)|]
    decreases |e|
  {
    if k < |e| {
      SetsOfPrefix(e[..|e| - 1], k, column);
      assert e[..|e| - 1][..k] == e[..k];
    } else {
      assert e[..k] == e;
    }
  }

  /** The list is ascending: sets are visited in order. */
  lemma {:induction false} SetsOfAscending(sets: seq<Members>, i: nat, column: int)
    requires i <= |sets|
    ensures var s := SetsOf(Entries(sets, i), column);
            && (forall k :: 0 <= k < |s| ==> 1 <= s[k] <= i)
            && forall k, l :: 0 <= k < l < |s| ==> s[k] <= s[l]
  {
    if i > 0 {
      assert Entries(sets, i) == Entries(sets, i - 1) + Tagged(i, sets[i - 1], |sets[i - 1]|);
      hide *;
      SetsOfAscending(sets, i - 1, column);
      SetsOfTagged(sets, i, column, |sets[i - 1]|);
    }
  }

  lemma {:induction false} SetsOfTagged(sets: seq<Members>, i: nat, column: int, n: nat)
    requires 0 < i <= |sets| && n <= |sets[i - 1]|
    ensures var before := SetsOf(Entries(sets, i - 1), column);
            var s := SetsOf(Entries(sets, i - 1) + Tagged(i, sets[i - 1], n), column);
            && |before| <= |s| && s[..|before|] == before
            && forall k :: |before| <= k < |s| ==> s[k] == i
  {
    var e := Entries(sets, i - 1);
    if n == 0 {
      assert e + Tagged(i, sets[i - 1], 0) == e;
    } else {
      SetsOfTagged(sets, i, column, n - 1);
      var last := Entry(i, sets[i - 1][n - 1]);
      SetsOfSnoc(e + Tagged(i, sets[i - 1], n - 1), last, column);
      assert e + Tagged(i, sets[i - 1], n) == (e + Tagged(i, sets[i - 1], n - 1)) + [last];
    }
  }

  lemma {:induction false} SetsOfMember(e: seq<Entry>, number: int, column: int)
    ensures number in SetsOf(e, column) <==> Entry(number, column) in e
  {
    if e != [] {
      SetsOfMember(e[..|e| - 1], number, column);
    }
  }

  // ----- the counting sort -----

  ghost predicate InRange(sets: seq<Members>, columns: nat) {
    forall i, j :: 0 <= i < |sets| && 0 <= j < |sets[i]| ==> 1 <= sets[i][j] <= columns
  }

  /** How many entries the columns up to c have. */
  ghost function Total(e: seq<Entry>, c: nat): nat {
    if c == 0 then 0 else Total(e, c - 1) + |SetsOf(e, c)|
  }

  ghost function Used(e: seq<Entry>, c: nat): nat {
    if c == 0 then 0 else Used(e, c - 1) + if SetsOf(e, c) == [] then 0 else 1
  }

  ghost predicate Listed(sets: seq<Members>, c: int) {
    exists i :: 0 <= i < |sets| && c in sets[i]
  }

  /** The columns that are a member of some set. */
  lemma {:induction false} UsedIs(sets: seq<Members>, n: nat)
    ensures Used(Entries(sets, |sets|), n) == |(set c | 1 <= c <= n && Listed(sets, c))|
  {
    if n > 0 {
      UsedIs(sets, n - 1);
      InSomeSet(sets, n);
      hide Entries, SetsOf, Listed;
      var before := set c | 1 <= c <= n - 1 && Listed(sets, c);
      var after := set c | 1 <= c <= n && Listed(sets, c);
      if SetsOf(Entries(sets, |sets|), n) == [] {
        assert after == before;
      } else {
        assert after == before + {n} && n !in before;
      }
    }
  }

  lemma InSomeSet(sets: seq<Members>, c: int)
    ensures SetsOf(Entries(sets, |sets|), c) != [] <==> Listed(sets, c)
  {
    var s := SetsOf(Entries(sets, |sets|), c);
    hide Entries, SetsOf;
    if s != [] {
      SetsOfMember(Entries(sets, |sets|), s[0], c);
      EntryOfSet(sets, |sets|, s[0], c);
      assert c in sets[s[0] - 1];
    }
    if i :| 0 <= i < |sets| && c in sets[i] {
      SetsOfMember(Entries(sets, |sets|), i + 1, c);
      EntryOfSet(sets, |sets|, i + 1, c);
    }
  }

  lemma {:induction false} TotalGrows(e: seq<Entry>, b: nat, c: nat)
    requires b <= c
    ensures Total(e, b) <= Total(e, c)
  {
    if b < c {
      TotalGrows(e, b, c - 1);
    }
  }

  lemma {:induction false} TotalIsAll(e: seq<Entry>, columns: nat)
    requires forall k :: 0 <= k < |e| ==> 1 <= e[k].column <= columns
    ensures Total(e, columns) == |e|
  {
    if e == [] {
      TotalOfNone(columns);
    } else {
      TotalIsAll(e[..|e| - 1], columns);
      TotalSnoc(e[..|e| - 1], e[|e| - 1], columns);
      assert e == e[..|e| - 1] + [e[|e| - 1]];
    }
  }

  lemma {:induction false} TotalOfNone(c: nat)
    ensures Total([], c) == 0
  {
    if c > 0 {
      TotalOfNone(c - 1);
    }
  }

  lemma {:induction false} TotalSnoc(e: seq<Entry>, x: Entry, c: nat)
    ensures Total(e + [x], c) == Total(e, c) + if 1 <= x.column <= c then 1 else 0
  {
    if c > 0 {
      TotalSnoc(e, x, c - 1);
      SetsOfSnoc(e, x, c);
    }
  }

  /** Every slice of the index: complete for the first k entries. */
  ghost predicate Loaded(e: seq<Entry>, k: nat, columns: nat, next: seq<int>, membership: seq<int>) {
    && k <= |e| && |next| == columns + 1 && |membership| == Total(e, columns) + 1
    && forall c :: 1 <= c <= columns ==> SliceLoaded(e, e[..k], c, next, membership)
  }

  ghost predicate SliceLoaded(e: seq<Entry>, visited: seq<Entry>, c: nat, next: seq<int>, membership: seq<int>)
    requires 1 <= c < |next|
  {
    var from, s := Total(e, c - 1), SetsOf(visited, c);
    next[c] == from + |s| && next[c] <= |membership| && membership[from..next[c]] == s
  }

  /** The entry behind the visited ones, and room for it in its slice. */
  lemma LoadRoom(e: seq<Entry>, k: nat, columns: nat, next: seq<int>, membership: seq<int>)
    requires k < |e| && 1 <= e[k].column <= columns && Loaded(e, k, columns, next, membership)
    ensures |next| == columns + 1
    ensures 0 <= next[e[k].column] < Total(e, e[k].column) <= Total(e, columns) < |membership|
  {
    var c := e[k].column;
    assert SliceLoaded(e, e[..k], c, next, membership);
    assert e[..k + 1] == e[..k] + [e[k]];
    SetsOfSnoc(e[..k], e[k], c);
    SetsOfPrefix(e, k + 1, c);
    TotalGrows(e, c, columns);
  }

  lemma LoadStep(e: seq<Entry>, k: nat, columns: nat, next: seq<int>, membership: seq<int>)
    requires k < |e| && 1 <= e[k].column < |next| && Loaded(e, k, columns, next, membership)
    requires 0 <= next[e[k].column] < |membership|
    ensures var c := e[k].column;
            Loaded(e, k + 1, columns, next[c := next[c] + 1], membership[next[c] := e[k].set_])
  {
    var c, x := e[k].column, e[k].set_;
    LoadRoom(e, k, columns, next, membership);
    assert SliceLoaded(e, e[..k], c, next, membership);
    hide SliceLoaded;
    var visited, after, next' := e[..k], e[..k + 1], next[c := next[c] + 1];
    var membership' := membership[next[c] := x];
    forall d | 1 <= d <= columns
      ensures SliceLoaded(e, after, d, next', membership')
    {
      assert SliceLoaded(e, visited, d, next, membership);
      SliceStep(e, k, d, next, membership);
    }
  }

  lemma SliceStep(e: seq<Entry>, k: nat, d: nat, next: seq<int>, membership: seq<int>)
    requires k < |e| && 1 <= e[k].column < |next| && 1 <= d < |next|
    requires SliceLoaded(e, e[..k], d, next, membership) && SliceLoaded(e, e[..k], e[k].column, next, membership)
    requires 0 <= next[e[k].column] < Total(e, e[k].column) <= |membership| && next[e[k].column] < |membership|
    ensures var c := e[k].column;
            SliceLoaded(e, e[..k + 1], d, next[c := next[c] + 1], membership[next[c] := e[k].set_])
  {
    hide SetsOf, Total, SliceLoaded;
    var c := e[k].column;
    assert e[..k + 1] == e[..k] + [e[k]];
    SetsOfSnoc(e[..k], e[k], d);
    if d == c {
      SliceGrows(e, e[..k], e[..k + 1], c, next, membership, e[k].set_);
    } else {
      SetsOfPrefix(e, k, d);
      SliceKept(e, e[..k], e[..k + 1], c, d, next, membership, e[k].set_);
    }
  }

  lemma TotalStep(e: seq<Entry>, c: nat)
    requires c > 0
    ensures Total(e, c) == Total(e, c - 1) + |SetsOf(e, c)|
  {
  }

  lemma SliceGrows(e: seq<Entry>, visited: seq<Entry>, after: seq<Entry>, c: nat, next: seq<int>, membership: seq<int>,
                   x: int)
    requires 1 <= c < |next| && SliceLoaded(e, visited, c, next, membership) && 0 <= next[c] < |membership|
    requires SetsOf(after, c) == SetsOf(visited, c) + [x]
    ensures SliceLoaded(e, after, c, next[c := next[c] + 1], membership[next[c] := x])
  {
    hide SetsOf, Total;
    SliceUpdate(membership, Total(e, c - 1), next[c], next[c], x);
  }

  lemma SliceKept(e: seq<Entry>, visited: seq<Entry>, after: seq<Entry>, c: nat, d: nat, next: seq<int>,
                  membership: seq<int>, x: int)
    requires 1 <= c < |next| && 1 <= d < |next| && c != d
    requires SliceLoaded(e, visited, d, next, membership) && SliceLoaded(e, visited, c, next, membership)
    requires |SetsOf(visited, d)| <= |SetsOf(e, d)| && SetsOf(after, d) == SetsOf(visited, d)
    requires 0 <= next[c] < Total(e, c) <= |membership|
    ensures SliceLoaded(e, after, d, next[c := next[c] + 1], membership[next[c] := x])
  {
    hide SetsOf, Total;
    TotalStep(e, d);
    if d < c {
      TotalGrows(e, d, c - 1);
    } else {
      TotalGrows(e, c, d - 1);
    }
    SliceUpdate(membership, Total(e, d - 1), next[d], next[c], x);
  }

  lemma SliceUpdate(s: seq<int>, from: int, to: int, at: int, x: int)
    requires 0 <= from <= to <= |s| && 0 <= at < |s|
    ensures at < from || to <= at ==> s[at := x][from..to] == s[from..to]
    ensures at == to ==> s[at := x][from..to + 1] == s[from..to] + [x]
  {
  }

  lemma EntryAt(sets: seq<Members>, i: nat, j: nat, columns: nat)
    requires i < |sets| && j < |sets[i]| && InRange(sets, columns)
    ensures 1 <= sets[i][j] <= columns
    ensures |Entries(sets, i + 1)| == |Entries(sets, i)| + |sets[i]| <= |Entries(sets, |sets|)|
    ensures var e, k := Entries(sets, |sets|), |Entries(sets, i)| + j;
            k < |e| && e[k] == Entry(i + 1, sets[i][j])
  {
    EntriesPrefix(sets, i + 1, |sets|);
    EntriesPrefix(sets, i, |sets|);
  }

  lemma EntriesGrow(sets: seq<Members>, i: nat)
    requires i < |sets|
    ensures |Entries(sets, i + 1)| == |Entries(sets, i)| + |sets[i]| <= |Entries(sets, |sets|)|
  {
    EntriesPrefix(sets, i + 1, |sets|);
  }

  lemma {:induction false} EntriesPrefix(sets: seq<Members>, i: nat, k: nat)
    requires i <= k <= |sets|
    ensures |Entries(sets, i)| <= |Entries(sets, k)| && Entries(sets, k)[..|Entries(sets, i)|] == Entries(sets, i)
  {
    if i < k {
      EntriesPrefix(sets, i, k - 1);
    }
  }

  lemma {:induction false} EntriesInRange(sets: seq<Members>, columns: nat, i: nat)
    requires InRange(sets, columns) && i <= |sets|
    ensures forall k :: 0 <= k < |Entries(sets, i)| ==> 1 <= Entries(sets, i)[k].column <= columns
  {
    if i > 0 {
      EntriesInRange(sets, columns, i - 1);
    }
  }

  /** The finished index: for each column the slice between consecutive positions lists its
      sets, and the slices together are all there is. */
  ghost predicate Index(e: seq<Entry>, columns: nat, memberpos: seq<int>, membership: seq<int>) {
    && |memberpos| == columns + 1 && memberpos[0] == 0 && memberpos[columns] == |e| == |membership| - 1
    && (forall c :: 1 <= c <= columns ==> SliceIs(memberpos, membership, c, SetsOf(e, c)))
  }

  ghost predicate SliceIs(memberpos: seq<int>, membership: seq<int>, c: nat, s: seq<int>) {
    && 1 <= c < |memberpos| && 0 <= memberpos[c - 1] <= memberpos[c] <= |membership|
    && membership[memberpos[c - 1]..memberpos[c]] == s
  }

  /** The membership query of the index gives every set that lists the column, once for
      each time it does. */
  lemma SliceAnswers(sets: seq<Members>, columns: nat, memberpos: seq<int>, membership: seq<int>, c: nat, number: int)
    requires Index(Entries(sets, |sets|), columns, memberpos, membership) && 1 <= c <= columns
    ensures 0 <= memberpos[c - 1] <= memberpos[c] <= |membership|
    ensures number in membership[memberpos[c - 1]..memberpos[c]] <==> 1 <= number <= |sets| && c in sets[number - 1]
  {
    assert SliceIs(memberpos, membership, c, SetsOf(Entries(sets, |sets|), c));
    SetsOfMember(Entries(sets, |sets|), number, c);
    EntryOfSet(sets, |sets|, number, c);
  }

  lemma {:induction false} EntryOfSet(sets: seq<Members>, i: nat, number: int, c: int)
    requires i <= |sets|
    ensures Entry(number, c) in Entries(sets, i) <==> 1 <= number <= i && c in sets[number - 1]
  {
    if i > 0 {
      EntryOfSet(sets, i - 1, number, c);
      var t := Tagged(i, sets[i - 1], |sets[i - 1]|);
      var m := sets[i - 1];
      assert Entry(number, c) in t <==> number == i && c in m by {
        if k :| 0 <= k < |m| && m[k] == c && number == i {
          assert t[k] == Entry(number, c);
        }
      }
    }
  }

  class SOSgroup {
    const columns: nat
    const sets: seq<Members>
    var memberpos: array<int>
    var membership: array<int>

    constructor (columns: nat, sets: seq<Members>)
      ensures this.columns == columns && this.sets == sets
    {
      this.columns, this.sets := columns, sets;
      memberpos, membership := new int[0], new int[0];
    }

    /** Each column's number of memberships. */
    method Tally() returns (tally: array<int>)
      requires InRange(sets, columns)
      ensures fresh(tally) && Tallied(Entries(sets, |sets|), |Entries(sets, |sets|)|, columns, tally[..])
    {
      ghost var e := Entries(sets, |sets|);
      tally := new int[columns + 1](_ => 0);
      TallyStart(e, columns, tally[..]);
      hide *;
      for i := 0 to |sets|
        invariant tally.Length == columns + 1 && Tallied(e, |Entries(sets, i)|, columns, tally[..])
      {
        TallySet(tally, i);
      }
    }

    method TallySet(tally: array<int>, i: nat)
      requires i < |sets| && InRange(sets, columns) && tally.Length == columns + 1
      requires Tallied(Entries(sets, |sets|), |Entries(sets, i)|, columns, tally[..])
      modifies tally
      ensures Tallied(Entries(sets, |sets|), |Entries(sets, i + 1)|, columns, tally[..])
    {
      hide *;
      ghost var e, at := Entries(sets, |sets|), |Entries(sets, i)|;
      EntriesGrow(sets, i);
      for j := 0 to |sets[i]|
        invariant Tallied(e, at + j, columns, tally[..])
      {
        EntryAt(sets, i, j, columns);
        CountEntry(tally, sets[i][j], e, at + j);
      }
    }

    method CountEntry(tally: array<int>, column: int, ghost e: seq<Entry>, ghost k: nat)
      requires k < |e| && e[k].column == column && 1 <= column <= columns
      requires tally.Length == columns + 1 && Tallied(e, k, columns, tally[..])
      modifies tally
      ensures Tallied(e, k + 1, columns, tally[..])
    {
      hide *;
      TallyStep(e, k, columns, tally[..]);
      tally[column] := tally[column] + 1;
    }

    /** Running totals; the result counts the columns in at least one set. */
    method Positions(tally: array<int>, ghost e: seq<Entry>) returns (nvars: int)
      requires memberpos.Length == columns + 1 && tally != memberpos && Tallied(e, |e|, columns, tally[..])
      modifies memberpos
      ensures forall c {:trigger memberpos[c]} :: 0 <= c <= columns ==> memberpos[c] == Total(e, c)
      ensures nvars == Used(e, columns)
    {
      nvars := 0;
      memberpos[0] := 0;
      for i := 1 to columns + 1
        invariant forall c {:trigger memberpos[c]} :: 0 <= c < i ==> memberpos[c] == Total(e, c)
        invariant nvars == Used(e, i - 1)
      {
        TalliedAt(e, columns, tally[..], i);
        var n := tally[i];
        if n > 0 {
          nvars := nvars + 1;
        }
        memberpos[i] := memberpos[i - 1] + n;
      }
    }

    /** Each entry goes to the next free place of its column's slice. */
    method Load(next: array<int>)
      requires InRange(sets, columns) && next.Length == columns + 1 && next != membership
      requires membership.Length == Total(Entries(sets, |sets|), columns) + 1
      requires forall c {:trigger next[c]} :: 1 <= c <= columns ==> next[c] == Total(Entries(sets, |sets|), c - 1)
      modifies next, membership
      ensures Loaded(Entries(sets, |sets|), |Entries(sets, |sets|)|, columns, next[..], membership[..])
    {
      ghost var e := Entries(sets, |sets|);
      LoadStart(e, columns, next[..], membership[..]);
      hide *;
      for i := 0 to |sets|
        invariant next.Length == columns + 1 && Loaded(e, |Entries(sets, i)|, columns, next[..], membership[..])
      {
        LoadSet(next, i);
      }
    }

    method LoadSet(next: array<int>, i: nat)
      requires i < |sets| && InRange(sets, columns) && next.Length == columns + 1 && next != membership
      requires Loaded(Entries(sets, |sets|), |Entries(sets, i)|, columns, next[..], membership[..])
      modifies next, membership
      ensures Loaded(Entries(sets, |sets|), |Entries(sets, i + 1)|, columns, next[..], membership[..])
    {
      hide *;
      ghost var e, at := Entries(sets, |sets|), |Entries(sets, i)|;
      EntriesGrow(sets, i);
      for j := 0 to |sets[i]|
        invariant Loaded(e, at + j, columns, next[..], membership[..])
      {
        EntryAt(sets, i, j, columns);
        Place(next, i + 1, sets[i][j], e, at + j);
      }
    }

    /** One entry goes to the next free place of its column's slice. */
    method Place(next: array<int>, number: int, column: int, ghost e: seq<Entry>, ghost k: nat)
      requires k < |e| && e[k] == Entry(number, column) && 1 <= column <= columns
      requires next != membership && next.Length == columns + 1 && Loaded(e, k, columns, next[..], membership[..])
      modifies next, membership
      ensures Loaded(e, k + 1, columns, next[..], membership[..])
    {
      hide Loaded, Total;
      LoadRoom(e, k, columns, next[..], membership[..]);
      LoadStep(e, k, columns, next[..], membership[..]);
      var at := next[column];
      next[column] := at + 1;
      membership[at] := number;
    }

    /** SOS_member_updatemap: a counting sort of all members by column. */
    method UpdateMap() returns (nvars: int)
      requires InRange(sets, columns)
      modifies this
      ensures Index(Entries(sets, |sets|), columns, memberpos[..], membership[..])
      ensures nvars == |(set c | 1 <= c <= columns && Listed(sets, c))|
    {
      UsedIs(sets, columns);
      ghost var e := Entries(sets, |sets|);
      EntriesInRange(sets, columns, |sets|);
      TotalIsAll(e, columns);
      memberpos := new int[columns + 1];
      var tally := Tally();
      nvars := Positions(tally, e);
      forall i | 1 <= i <= columns {
        tally[i] := memberpos[i - 1];
      }
      membership := new int[memberpos[columns] + 1];
      Load(tally);
      LoadedIsIndex(e, columns, memberpos[..], tally[..], membership[..]);
    }
  }

  ghost predicate Tallied(e: seq<Entry>, k: nat, columns: nat, tally: seq<int>) {
    k <= |e| && |tally| == columns + 1 && forall c {:trigger tally[c]} :: 1 <= c <= columns ==>
      tally[c] == |SetsOf(e[..k], c)|
  }

  lemma TalliedAt(e: seq<Entry>, columns: nat, tally: seq<int>, c: nat)
    requires Tallied(e, |e|, columns, tally) && 1 <= c <= columns
    ensures |tally| == columns + 1 && tally[c] == |SetsOf(e, c)|
  {
    assert e[..|e|] == e;
  }

  lemma TallyStart(e: seq<Entry>, columns: nat, tally: seq<int>)
    requires |tally| == columns + 1 && forall c :: 0 <= c <= columns ==> tally[c] == 0
    ensures Tallied(e, 0, columns, tally)
  {
  }

  lemma TallyStep(e: seq<Entry>, k: nat, columns: nat, tally: seq<int>)
    requires k < |e| && 1 <= e[k].column <= columns && Tallied(e, k, columns, tally) && |tally| == columns + 1
    ensures Tallied(e, k + 1, columns, tally[e[k].column := tally[e[k].column] + 1])
  {
    var after, visited := tally[e[k].column := tally[e[k].column] + 1], e[..k + 1];
    assert visited == e[..k] + [e[k]];
    forall c {:trigger after[c]} | 1 <= c <= columns
      ensures after[c] == |SetsOf(visited, c)|
    {
      SetsOfSnoc(e[..k], e[k], c);
    }
  }

  lemma LoadStart(e: seq<Entry>, columns: nat, next: seq<int>, membership: seq<int>)
    requires |next| == columns + 1 && |membership| == Total(e, columns) + 1
    requires forall c {:trigger next[c]} :: 1 <= c <= columns ==> next[c] == Total(e, c - 1)
    ensures Loaded(e, 0, columns, next, membership)
  {
    forall c | 1 <= c <= columns
      ensures SliceLoaded(e, e[..0], c, next, membership)
    {
      TotalGrows(e, c - 1, columns);
    }
  }

  lemma LoadedIsIndex(e: seq<Entry>, columns: nat, memberpos: seq<int>, next: seq<int>, membership: seq<int>)
    requires Loaded(e, |e|, columns, next, membership) && |memberpos| == columns + 1 && Total(e, columns) == |e|
    requires forall c {:trigger memberpos[c]} :: 0 <= c <= columns ==> memberpos[c] == Total(e, c)
    ensures Index(e, columns, memberpos, membership)
  {
    forall c | 1 <= c <= columns
      ensures SliceIs(memberpos, membership, c, SetsOf(e, c))
    {
      assert e[..|e|] == e;
      assert SliceLoaded(e, e[..|e|], c, next, membership);
      assert memberpos[c] == Total(e, c) == Total(e, c - 1) + |SetsOf(e, c)| && memberpos[c - 1] == Total(e, c - 1);
      TotalGrows(e, c, columns);
    }
  }
}
