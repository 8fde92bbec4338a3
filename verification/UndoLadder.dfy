/** The undo ladder of lp_matrix.c: a stack of change logs kept in one sparse
    matrix whose columns are the levels.  An entry (row, value) says what a bound
    held before it was changed.  Branch and bound keeps one ladder for the upper
    and one for the lower bounds, and all nodes share the two bound vectors. */
module UndoLadders {

  /** One entry of a level: the row of the tracker and the value to put back. */
  type Entry<T> = (int, T)

  /** What restoreUndoLadder does to a bound vector: write the logged values back,
      oldest entry first. */
  function Restored<T>(log: seq<Entry<T>>, rows: int, target: seq<T>): (r: seq<T>)
    requires forall e :: e in log ==> 0 <= e.0 + rows < |target|
    ensures |r| == |target|
  {
    if log == [] then target
    else Restored(log[1..], rows, target[log[0].0 + rows := log[0].1])
  }

  /** Every logged value is the value of `base` at its place. */
  ghost predicate LogsBase<T(!new)>(log: seq<Entry<T>>, rows: int, base: seq<T>) {
    forall e :: e in log ==> 0 <= e.0 + rows < |base| && e.1 == base[e.0 + rows]
  }

  /** Index k of a bound vector has an entry. */
  ghost predicate Logged<T(!new)>(log: seq<Entry<T>>, rows: int, k: int) {
    exists e :: e in log && e.0 + rows == k
  }

  /** Everything in which `target` differs from `base` has an entry. */
  ghost predicate Covers<T(!new)>(log: seq<Entry<T>>, rows: int, base: seq<T>, target: seq<T>) {
    && |base| == |target|
    && forall k :: 0 <= k < |base| && base[k] != target[k] ==> Logged(log, rows, k)
  }

  /** Restoring gives back exactly `base`, even when an item was logged twice and
      even when the entries of an earlier branch are still in the level. */
  lemma {:induction false} RestoreGivesBase<T(!new)>(log: seq<Entry<T>>, rows: int, base: seq<T>, target: seq<T>)
    requires LogsBase(log, rows, base)
    requires Covers(log, rows, base, target)
    ensures Restored(log, rows, target) == base
  {
    if log == [] {
      assert forall k :: 0 <= k < |base| ==> !Logged(log, rows, k);
      assert target == base;
    } else {
      var next := target[log[0].0 + rows := log[0].1];
      assert log[0] in log;
      assert LogsBase(log[1..], rows, base) by {
        assert forall e :: e in log[1..] ==> e in log;
      }
      forall k | 0 <= k < |base| && base[k] != next[k]
        ensures Logged(log[1..], rows, k)
      {
        assert Logged(log, rows, k);
        var e :| e in log && e.0 + rows == k;
        assert e != log[0];
        assert log == [log[0]] + log[1..];
        assert e in log[1..];
      }
      RestoreGivesBase(log[1..], rows, base, next);
    }
  }

  /** Logging the old value of an item that still has it keeps both conditions. */
  lemma LoggedOneMore<T(!new)>(log: seq<Entry<T>>, rows: int, base: seq<T>, target: seq<T>, item: nat, value: T)
    requires LogsBase(log, rows, base) && Covers(log, rows, base, target) && item < |target|
    requires target[item] == base[item]
    ensures var next := log + [(item - rows, target[item])];
            LogsBase(next, rows, base) && Covers(next, rows, base, target[item := value])
  {
    var next, after := log + [(item - rows, target[item])], target[item := value];
    assert next[|log|] in next;
    forall k | 0 <= k < |base| && base[k] != after[k]
      ensures Logged(next, rows, k)
    {
      if k != item {
        assert Logged(log, rows, k);
        var e :| e in log && e.0 + rows == k;
        assert e in next;
      }
    }
  }

  /** The value of the last entry of index k. */
  ghost function LastValue<T>(log: seq<Entry<T>>, rows: int, k: int): (v: T)
    requires exists e :: e in log && e.0 + rows == k
    decreases |log|
  {
    var last := log[|log| - 1];
    if last.0 + rows == k then last.1
    else
      assert exists e :: e in log[..|log| - 1] && e.0 + rows == k by {
        var e :| e in log && e.0 + rows == k;
        assert log == log[..|log| - 1] + [last];
        assert e in log[..|log| - 1];
      }
      LastValue(log[..|log| - 1], rows, k)
  }

  lemma {:induction false} RestoredSnoc<T>(log: seq<Entry<T>>, rows: int, target: seq<T>)
    requires log != [] && forall e :: e in log ==> 0 <= e.0 + rows < |target|
    ensures var (row, value) := log[|log| - 1];
            Restored(log, rows, target) == Restored(log[..|log| - 1], rows, target)[row + rows := value]
  {
    var front := log[..|log| - 1];
    assert log == front + [log[|log| - 1]];
    if |log| > 1 {
      assert log[1..][..|log[1..]| - 1] == front[1..];
      assert log[1..][|log[1..]| - 1] == log[|log| - 1];
      RestoredSnoc(log[1..], rows, target[log[0].0 + rows := log[0].1]);
    }
  }

  /** What restoring leaves at an index: the value of its last entry, or what was there. */
  lemma {:induction false} RestoredAt<T(!new)>(log: seq<Entry<T>>, rows: int, target: seq<T>, k: nat)
    requires k < |target| && forall e :: e in log ==> 0 <= e.0 + rows < |target|
    ensures Restored(log, rows, target)[k] == if Logged(log, rows, k) then LastValue(log, rows, k) else target[k]
  {
    if log != [] {
      var front, last := log[..|log| - 1], log[|log| - 1];
      assert log == front + [last];
      RestoredSnoc(log, rows, target);
      RestoredAt(front, rows, target, k);
      assert last.0 + rows != k ==> (Logged(log, rows, k) <==> Logged(front, rows, k));
      assert last.0 + rows == k ==> Logged(log, rows, k);
    }
  }

  /** When restoring gives `base` back: the last entry of every logged item has its value in
      `base`, and nothing else differs.  Earlier entries of an item do not matter. */
  lemma RestoreGivesBaseIff<T(!new)>(log: seq<Entry<T>>, rows: int, base: seq<T>, target: seq<T>)
    requires |base| == |target| && forall e :: e in log ==> 0 <= e.0 + rows < |target|
    ensures Restored(log, rows, target) == base <==>
      forall k :: 0 <= k < |base| ==> base[k] == if Logged(log, rows, k) then LastValue(log, rows, k) else target[k]
  {
    var r := Restored(log, rows, target);
    forall k | 0 <= k < |base|
      ensures r[k] == if Logged(log, rows, k) then LastValue(log, rows, k) else target[k]
    {
      RestoredAt(log, rows, target, k);
    }
    assert r == base <==> forall k :: 0 <= k < |base| ==> base[k] == r[k];
  }

  /** The levels lie one behind the other in the entries. */
  ghost predicate Stored<T>(levels: seq<seq<Entry<T>>>, colEnd: seq<int>, entries: seq<Entry<T>>) {
    var n := |levels|;
    && n < |colEnd| && colEnd[0] == 0
    && (forall i, j :: 0 <= i <= j <= n ==> 0 <= colEnd[i] <= colEnd[j])
    && 0 <= colEnd[n] <= |entries|
    && (forall i :: 0 <= i < n ==> levels[i] == entries[colEnd[i]..colEnd[i + 1]])
  }

  lemma StoredParts<T>(levels: seq<seq<Entry<T>>>, colEnd: seq<int>, entries: seq<Entry<T>>)
    requires Stored(levels, colEnd, entries)
    ensures |levels| < |colEnd| && 0 <= colEnd[|levels|] <= |entries|
  {
  }

  /** An entry written behind the last level becomes its last entry. */
  lemma StoredOneMore<T>(levels: seq<seq<Entry<T>>>, colEnd: seq<int>, entries: seq<Entry<T>>, entry: Entry<T>,
                         next: seq<Entry<T>>)
    requires Stored(levels, colEnd, entries) && levels != []
    requires var pos := colEnd[|levels|]; |next| > pos && next[..pos] == entries[..pos] && next[pos] == entry
    ensures var n := |levels|;
            Stored(levels[n - 1 := levels[n - 1] + [entry]], colEnd[n := colEnd[n] + 1], next)
  {
    var n := |levels|;
    var pos := colEnd[n];
    var after, ends := levels[n - 1 := levels[n - 1] + [entry]], colEnd[n := pos + 1];
    assert forall i :: 0 <= i < n ==> colEnd[i] <= colEnd[n];
    forall i | 0 <= i < n
      ensures after[i] == next[ends[i]..ends[i + 1]]
    {
      assert 0 <= colEnd[i] <= colEnd[i + 1] <= pos;
      assert entries[..pos][colEnd[i]..colEnd[i + 1]] == entries[colEnd[i]..colEnd[i + 1]];
      assert next[..pos][colEnd[i]..colEnd[i + 1]] == next[colEnd[i]..colEnd[i + 1]];
      if i == n - 1 {
        assert next[colEnd[i]..pos + 1] == next[colEnd[i]..pos] + [entry];
      }
    }
  }

  class UndoLadder<T> {
    const rows: nat                  // DV->lp->rows
    var activelevel: nat
    var columns: nat                 // tracker->columns
    var colEnd: seq<int>             // tracker->col_end
    var entries: seq<Entry<T>>       // tracker->col_mat_rownr, col_mat_value
    ghost var levels: seq<seq<Entry<T>>>

    ghost predicate Valid()
      reads this
      ensures Valid() ==> columns == activelevel == |levels|
    {
      columns == activelevel == |levels| && Stored(levels, colEnd, entries)
    }

    constructor (rows: nat)
      ensures Valid() && levels == [] && this.rows == rows
    {
      this.rows := rows;
      activelevel, columns, colEnd, entries, levels := 0, 0, [0], [], [];
    }

    /** mat_shiftcols with delta 1 makes room for a column at `columns + 1`; the
        loop that moves later pointers to the right has nothing to move. */
    method Increment()
      requires Valid()
      modifies this
      ensures Valid() && levels == old(levels) + [[]]
    {
      activelevel := activelevel + 1;
      if columns + 1 == |colEnd| {
        colEnd := colEnd + [colEnd[columns]];    // inc_matcol_space
      }
      colEnd := colEnd[activelevel := colEnd[activelevel - 1]];
      columns := columns + 1;
      levels := levels + [[]];
    }

    /** Log the old value of an item in the last level and overwrite the item. */
    method Modify(itemno: nat, target: array<T>, newvalue: T)
      requires Valid() && activelevel > 0
      requires itemno < target.Length
      modifies this, target
      ensures Valid()
      ensures |levels| == |old(levels)|
      ensures levels == old(levels)[|levels| - 1 := old(levels)[|levels| - 1] + [(itemno - rows, old(target[itemno]))]]
      ensures target[..] == old(target[..])[itemno := newvalue]
    {
      hide Stored;
      StoredParts(levels, colEnd, entries);
      ghost var before := entries;
      var pos := colEnd[columns];
      var entry := (itemno - rows, target[itemno]);
      if pos < |entries| {
        entries := entries[pos := entry];
      } else {
        entries := entries + [entry];
      }
      colEnd := colEnd[columns := pos + 1];
      StoredOneMore(levels, old(colEnd), before, entry, entries);
      levels := levels[columns - 1 := levels[columns - 1] + [entry]];
      target[itemno] := newvalue;
    }

    /** At the last column ShiftCols changes nothing: no data lies behind the column
        and no pointer lies in base..columns-1. */
    method DropLastData()
      requires Valid() && activelevel > 0
      modifies `colEnd, `entries
      ensures Valid() && colEnd == old(colEnd) && entries == old(entries)
    {
      ShiftCols(activelevel);
      assert colEnd == old(colEnd);
      assert entries == old(entries);
    }

    method Counts() returns (n: nat)
      requires Valid()
      ensures n == if activelevel > 0 then |levels[activelevel - 1]| else 0
    {
      if activelevel > 0 {
        n := colEnd[activelevel] - colEnd[activelevel - 1];
      } else {
        n := 0;
      }
    }

    /** Write the last level back.  The closing call of mat_shiftcols is meant to
        drop the entries, but for the last column its pointer loop runs over an empty
        range, so the entries stay and a later restore writes them again. */
    method Restore(target: array<T>)
      requires Valid()
      requires activelevel > 0 ==>
        forall e :: e in levels[activelevel - 1] ==> 0 <= e.0 + rows < target.Length
      modifies this, target
      ensures Valid() && levels == old(levels)
      ensures target[..] == if activelevel > 0
                            then Restored(levels[activelevel - 1], rows, old(target[..]))
                            else old(target[..])
    {
      if activelevel > 0 {
        ghost var log := levels[activelevel - 1];
        assert log == entries[colEnd[activelevel - 1]..colEnd[activelevel]];
        Replay(colEnd[activelevel - 1], colEnd[activelevel], target);
        DropLastData();
      }
    }

    /** Writes the entries first..last back, in this order. */
    method Replay(first: nat, last: nat, target: array<T>)
      requires first <= last <= |entries| && forall e :: e in entries[first..last] ==> 0 <= e.0 + rows < target.Length
      modifies target
      ensures target[..] == Restored(entries[first..last], rows, old(target[..]))
    {
      var i := first;
      ghost var log, want := entries[first..last], Restored(entries[first..last], rows, target[..]);
      assert log[0..] == log;
      while i < last
        invariant first <= i <= last
        invariant want == Restored(log[i - first..], rows, target[..])
      {
        var (row, value) := entries[i];
        assert log[i - first] == entries[i] && log[i - first] in log;
        ghost var before := target[..];
        target[row + rows] := value;
        assert target[..] == before[row + rows := value];
        assert log[i - first..][1..] == log[i + 1 - first..];
        i := i + 1;
      }
    }

    method Decrement()
      requires Valid()
      modifies this
      ensures Valid()
      ensures levels == if old(activelevel) > 0 then old(levels)[..old(activelevel) - 1] else old(levels)
    {
      if activelevel > 0 {
        DropLastData();
        activelevel := activelevel - 1;
        columns := columns - 1;
        levels := levels[..columns];
      }
    }

    /** mat_shiftcols with delta -1 at column `base`: the data of the later columns
        moves down over the data of `base`, then the pointers base..columns-1 follow. */
    method ShiftCols(base: nat)
      requires 1 <= base <= columns < |colEnd|
      requires 0 <= colEnd[base - 1] <= colEnd[base] <= colEnd[columns] <= |entries|
      modifies `colEnd, `entries
      ensures |colEnd| == |old(colEnd)|
      ensures forall i :: base <= i < columns ==>
        colEnd[i] == old(colEnd)[i + 1] - (old(colEnd)[base] - old(colEnd)[base - 1])
      ensures forall i :: 0 <= i < base || columns <= i < |colEnd| ==> colEnd[i] == old(colEnd)[i]
      ensures entries == old(entries)[..old(colEnd)[base - 1]] + old(entries)[old(colEnd)[base]..old(colEnd)[columns]]
                         + old(entries)[old(colEnd)[base - 1] + old(colEnd)[columns] - old(colEnd)[base]..]
    {
      var start, end, n := colEnd[base - 1], colEnd[base], colEnd[columns];
      var k := end - start;
      assert k == 0 ==> entries == entries[..start] + entries[end..n] + entries[start + n - end..];
      if k > 0 && n > start {
        entries := entries[..start] + entries[end..n] + entries[start + n - end..];
      }
      ghost var was := colEnd;
      var i := base;
      while i <= columns - 1
        modifies `colEnd
        invariant base <= i <= columns && |colEnd| == |was|
        invariant forall j :: base <= j < i ==> colEnd[j] == was[j + 1] - k
        invariant forall j :: 0 <= j < base || i <= j < |was| ==> colEnd[j] == was[j]
      {
        colEnd := colEnd[i := colEnd[i + 1] - k];
        i := i + 1;
      }
    }
  }
}
