/** Writing a simplex basis to a basis file and reading it back (MPS_writeBAS and
    MPS_readBAS of lp_MPS.c), with the lines as records. */
module BasisFile {

  /** A line: a basic structural variable paired with a non-basic one, or a non-basic one
      alone; `lower` tells which bound the non-basic variable is at. */
  datatype Line =
    | Pair(lower: bool, basic: string, nonbasic: string)
    | Single(lower: bool, nonbasic: string)

  datatype Flags = Flags(basic: seq<bool>, lower: seq<bool>)

  ghost predicate FlagsOK(f: Flags, sum: nat) {
    |f.basic| == |f.lower| == sum + 1
  }

  // ----- what is written -----

  /** The basic structural variables behind i, in ascending order: those above `rows` when
      i starts there. */
  ghost function BasicFrom(f: Flags, sum: nat, i: nat): (s: seq<nat>)
    requires FlagsOK(f, sum)
    decreases if i < sum then sum - i else 0
  {
    if i >= sum then [] else (if f.basic[i + 1] then [i + 1] else []) + BasicFrom(f, sum, i + 1)
  }

  predicate Skipped(f: Flags, rows: nat, i: nat)
    requires i < |f.basic| && i < |f.lower|
  {
    f.basic[i] || (i > rows && f.lower[i])
  }

  /** The non-basic variables behind i that need a line: slacks, and structural variables
      at their upper bound. */
  ghost function NonBasicFrom(f: Flags, rows: nat, sum: nat, i: nat): (s: seq<nat>)
    requires FlagsOK(f, sum)
    decreases if i < sum then sum - i else 0
  {
    if i >= sum then []
    else (if Skipped(f, rows, i + 1) then [] else [i + 1]) + NonBasicFrom(f, rows, sum, i + 1)
  }

  ghost predicate InRange(s: seq<nat>, size: nat) {
    forall k :: 0 <= k < |s| ==> s[k] < size
  }

  /** The two lists side by side; basic variables without a partner are dropped. */
  ghost function Lines(f: Flags, names: seq<string>, b: seq<nat>, nb: seq<nat>): seq<Line>
    requires |f.lower| == |names| && InRange(b, |names|) && InRange(nb, |names|)
  {
    if nb == [] then []
    else
      [if b == [] then Single(f.lower[nb[0]], names[nb[0]]) else Pair(f.lower[nb[0]], names[b[0]], names[nb[0]])]
      + Lines(f, names, if b == [] then b else b[1..], nb[1..])
  }

  lemma {:induction false} BasicFromRange(f: Flags, sum: nat, i: nat)
    requires FlagsOK(f, sum)
    ensures forall k :: 0 <= k < |BasicFrom(f, sum, i)| ==> i < BasicFrom(f, sum, i)[k] <= sum
    ensures forall j :: j in BasicFrom(f, sum, i) <==> i < j <= sum && f.basic[j]
    decreases if i < sum then sum - i else 0
  {
    if i < sum {
      BasicFromRange(f, sum, i + 1);
    }
  }

  lemma {:induction false} NonBasicFromRange(f: Flags, rows: nat, sum: nat, i: nat)
    requires FlagsOK(f, sum)
    ensures forall k :: 0 <= k < |NonBasicFrom(f, rows, sum, i)| ==> i < NonBasicFrom(f, rows, sum, i)[k] <= sum
    ensures forall j :: j in NonBasicFrom(f, rows, sum, i) <==> i < j <= sum && !Skipped(f, rows, j)
    decreases if i < sum then sum - i else 0
  {
    if i < sum {
      NonBasicFromRange(f, rows, sum, i + 1);
    }
  }

  /** Which variables have a line of their own, and which are paired with them: non-basic
      slacks, non-basic structural variables that are not at their lower bound, and basic
      structural variables. */
  lemma ListedIff(f: Flags, rows: nat, sum: nat, k: nat)
    requires FlagsOK(f, sum) && rows <= sum
    ensures k in NonBasicFrom(f, rows, sum, 0) <==> 1 <= k <= sum && !f.basic[k] && (k <= rows || !f.lower[k])
    ensures k in BasicFrom(f, sum, rows) <==> rows < k <= sum && f.basic[k]
  {
    NonBasicFromRange(f, rows, sum, 0);
    BasicFromRange(f, sum, rows);
  }

  // ----- what reading does -----

  /** The index a name stands for, or -1. */
  function Resolve(names: seq<string>, name: string, i: nat): (k: int)
    requires i <= |names|
    ensures -1 <= k < i
    ensures k >= 0 ==> names[k] == name
    ensures k < 0 ==> name !in names[..i]
  {
    if i == 0 then -1 else if names[i - 1] == name then i - 1
    else
      var k := Resolve(names, name, i - 1);
      assert names[..i] == names[..i - 1] + [names[i - 1]];
      k
  }

  ghost predicate Distinct(names: seq<string>) {
    forall i, j :: 0 <= i < j < |names| ==> names[i] != names[j]
  }

  lemma ResolveName(names: seq<string>, i: nat)
    requires Distinct(names) && i < |names|
    ensures Resolve(names, names[i], |names|) == i
  {
    var k := Resolve(names, names[i], |names|);
    assert names[..|names|] == names;
  }

  /** One line; None when a name is unknown. */
  datatype Outcome = Failed(flags: Flags) | Done(flags: Flags)

  function ReadLine(f: Flags, names: seq<string>, line: Line): (r: Outcome)
    requires |f.basic| == |f.lower| == |names|
    ensures |r.flags.basic| == |r.flags.lower| == |names|
  {
    match line
    case Single(lower, nonbasic) =>
      var i := Resolve(names, nonbasic, |names|);
      if i < 0 then Failed(f) else Done(Flags(f.basic[i := false], f.lower[i := lower]))
    case Pair(lower, basic, nonbasic) =>
      var ib := Resolve(names, basic, |names|);
      if ib < 0 then Failed(f)
      else
        var i := Resolve(names, nonbasic, |names|);
        if i < 0 then Failed(f)
        else Done(Flags(f.basic[ib := true][i := false], f.lower[i := lower]))
  }

  /** What a line does, for the names of the basis: the second variable of a pair becomes
      non-basic after the first has become basic, and an unknown name changes nothing. */
  lemma ReadLineIs(f: Flags, names: seq<string>, lower: bool, ib: nat, i: nat, other: string)
    requires |f.basic| == |f.lower| == |names| && Distinct(names) && ib < |names| && i < |names| && other !in names
    ensures ReadLine(f, names, Single(lower, names[i])) == Done(Flags(f.basic[i := false], f.lower[i := lower]))
    ensures ReadLine(f, names, Pair(lower, names[ib], names[i]))
            == Done(Flags(f.basic[ib := true][i := false], f.lower[i := lower]))
    ensures ReadLine(f, names, Single(lower, other)) == Failed(f)
    ensures ReadLine(f, names, Pair(lower, other, names[i])) == Failed(f)
    ensures ReadLine(f, names, Pair(lower, names[ib], other)) == Failed(f)
  {
    ResolveName(names, i);
    ResolveName(names, ib);
    assert Resolve(names, other, |names|) < 0;
    hide Resolve;
  }

  /** The lines are read up to the first that fails. */
  lemma ReadLinesIs(f: Flags, names: seq<string>, line: Line, lines: seq<Line>)
    requires |f.basic| == |f.lower| == |names|
    ensures ReadLines(f, names, []) == Done(f)
    ensures var r := ReadLine(f, names, line);
            ReadLines(f, names, [line] + lines) == if r.Failed? then r else ReadLines(r.flags, names, lines)
  {
    assert ([line] + lines)[1..] == lines;
    hide ReadLine;
  }

  function ReadLines(f: Flags, names: seq<string>, lines: seq<Line>): (r: Outcome)
    requires |f.basic| == |f.lower| == |names|
    ensures |r.flags.basic| == |r.flags.lower| == |names|
    decreases |lines|
  {
    if lines == [] then Done(f)
    else
      var r := ReadLine(f, names, lines[0]);
      if r.Failed? then r else ReadLines(r.flags, names, lines[1..])
  }

  /** default_basis: all slacks basic, everything else at its lower bound. */
  function Default(rows: nat, sum: nat): (f: Flags)
    requires rows <= sum
    ensures |f.basic| == |f.lower| == sum + 1
  {
    Flags(seq(sum + 1, i => i <= rows), seq(sum + 1, _ => true))
  }

  lemma DefaultIs(rows: nat, sum: nat, j: nat)
    requires rows <= sum && j <= sum
    ensures (Default(rows, sum).basic[j] <==> j <= rows) && Default(rows, sum).lower[j]
  {
  }

  /** The basic variables that get a partner. */
  function Paired(b: seq<nat>, nb: seq<nat>): seq<nat> {
    if |b| <= |nb| then b else b[..|nb|]
  }

  /** What reading leaves at variable j. */
  ghost predicate ReadAt(f: Flags, g: Flags, b: seq<nat>, nb: seq<nat>, r: Flags, j: nat)
    requires j < |f.lower| == |g.lower| == |g.basic| == |r.basic| == |r.lower|
  {
    && r.basic[j] == (if j in nb then false else j in Paired(b, nb) || g.basic[j])
    && r.lower[j] == (if j in nb then f.lower[j] else g.lower[j])
  }

  /** Reading what was written changes exactly the listed variables. */
  lemma {:induction false} ReadWritten(f: Flags, names: seq<string>, b: seq<nat>, nb: seq<nat>, g: Flags, j: nat)
    requires j < |f.lower| == |g.lower| == |g.basic| == |names| && Distinct(names) && InRange(b, |names|)
    requires InRange(nb, |names|)
    requires forall i :: i in b ==> i !in nb
    ensures var r := ReadLines(g, names, Lines(f, names, b, nb));
            r.Done? && ReadAt(f, g, b, nb, r.flags, j)
    decreases |nb|
  {
    if nb != [] {
      var b' := if b == [] then b else b[1..];
      ReadFirst(f, names, b, nb, g);
      ReadNext(f, names, b, nb, g);
      var g' := ReadLine(g, names, Lines(f, names, b, nb)[0]).flags;
      Members(nb);
      Members(b);
      PairedTail(b, nb, j);
      hide Lines, Resolve, Paired, ReadLine, ReadLines, Distinct, InRange;
      RangeTail(b, nb, |names|);
      ReadWritten(f, names, b', nb[1..], g', j);
    }
  }

  lemma Members(s: seq<nat>)
    ensures s != [] ==> forall i :: i in s <==> i == s[0] || i in s[1..]
  {
  }

  lemma ReadNext(f: Flags, names: seq<string>, b: seq<nat>, nb: seq<nat>, g: Flags)
    requires |f.lower| == |g.lower| == |g.basic| == |names| && InRange(b, |names|) && InRange(nb, |names|)
    requires nb != [] && ReadLine(g, names, Lines(f, names, b, nb)[0]).Done?
    ensures ReadLines(g, names, Lines(f, names, b, nb))
            == ReadLines(ReadLine(g, names, Lines(f, names, b, nb)[0]).flags, names, Lines(f, names, b, nb)[1..])
  {
  }

  lemma RangeTail(b: seq<nat>, nb: seq<nat>, size: nat)
    requires InRange(b, size) && InRange(nb, size) && nb != []
    ensures InRange(if b == [] then b else b[1..], size) && InRange(nb[1..], size) && nb[0] < size
    ensures (b != [] ==> b[0] < size)
  {
  }

  lemma ReadFirst(f: Flags, names: seq<string>, b: seq<nat>, nb: seq<nat>, g: Flags)
    requires |f.lower| == |g.lower| == |g.basic| == |names| && Distinct(names) && InRange(b, |names|)
    requires InRange(nb, |names|)
    requires nb != []
    ensures var lines, i := Lines(f, names, b, nb), nb[0];
            && lines != [] && lines[1..] == Lines(f, names, if b == [] then b else b[1..], nb[1..])
            && ReadLine(g, names, lines[0])
               == Done(Flags(if b == [] then g.basic[i := false] else g.basic[b[0] := true][i := false],
                 g.lower[i := f.lower[i]]))
  {
    ResolveName(names, nb[0]);
    if b != [] {
      ResolveName(names, b[0]);
    }
    hide Resolve;
  }

  lemma PairedTail(b: seq<nat>, nb: seq<nat>, j: nat)
    requires nb != []
    ensures var b' := if b == [] then b else b[1..];
            j in Paired(b, nb) <==> (b != [] && j == b[0]) || j in Paired(b', nb[1..])
  {
    if b != [] {
      assert Paired(b, nb) == [b[0]] + Paired(b[1..], nb[1..]);
    }
  }

  // ----- the round trip -----

  ghost function Written(f: Flags, names: seq<string>, rows: nat, sum: nat): seq<Line>
    requires FlagsOK(f, sum) && |names| == sum + 1
  {
    BasicFromRange(f, sum, rows);
    NonBasicFromRange(f, rows, sum, 0);
    Lines(f, names, BasicFrom(f, sum, rows), NonBasicFrom(f, rows, sum, 0))
  }

  /** What reading the file of a basis leaves at variable j. */
  lemma ReadBack(f: Flags, names: seq<string>, rows: nat, sum: nat, j: nat)
    requires FlagsOK(f, sum) && |names| == sum + 1 && rows <= sum && Distinct(names) && 1 <= j <= sum
    ensures var r := ReadLines(Default(rows, sum), names, Written(f, names, rows, sum));
            var b, nb := BasicFrom(f, sum, rows), NonBasicFrom(f, rows, sum, 0);
            && r.Done?
            && r.flags.basic[j] == (f.basic[j] && (j <= rows || j in Paired(b, nb)))
            && r.flags.lower[j] == (f.basic[j] || f.lower[j])
  {
    var b, nb := BasicFrom(f, sum, rows), NonBasicFrom(f, rows, sum, 0);
    BasicFromRange(f, sum, rows);
    NonBasicFromRange(f, rows, sum, 0);
    assert j in Paired(b, nb) ==> j in b;
    ReadWritten(f, names, b, nb, Default(rows, sum), j);
    hide Lines, ReadLines, BasicFrom, NonBasicFrom, Paired;
  }

  /** Variables 1 to sum have the same flags. */
  ghost predicate Same(f: Flags, g: Flags, sum: nat)
    requires FlagsOK(f, sum) && FlagsOK(g, sum)
  {
    forall j :: 1 <= j <= sum ==> f.basic[j] == g.basic[j] && f.lower[j] == g.lower[j]
  }

  /** The condition under which a basis survives the file: no basic variable is flagged at
      its upper bound, and there are no more basic structural variables than lines. */
  ghost predicate Representable(f: Flags, rows: nat, sum: nat)
    requires FlagsOK(f, sum)
  {
    && (forall j :: 1 <= j <= sum && f.basic[j] ==> f.lower[j])
    && |BasicFrom(f, sum, rows)| <= |NonBasicFrom(f, rows, sum, 0)|
  }

  /** All basic structural variables get a partner exactly when there are enough lines. */
  lemma AllPairedIff(b: seq<nat>, nb: seq<nat>)
    requires forall k, l :: 0 <= k < l < |b| ==> b[k] < b[l]
    ensures |b| <= |nb| <==> forall j :: j in b ==> j in Paired(b, nb)
  {
    if |b| > |nb| {
      assert b[|nb|] in b && b[|nb|] !in Paired(b, nb);
    }
  }

  /** Writing and reading restores the basis if and only if it is representable. */
  lemma RoundTripIff(f: Flags, names: seq<string>, rows: nat, sum: nat)
    requires FlagsOK(f, sum) && |names| == sum + 1 && rows <= sum && Distinct(names)
    ensures var r := ReadLines(Default(rows, sum), names, Written(f, names, rows, sum));
            r.Done? && (Same(r.flags, f, sum) <==> Representable(f, rows, sum))
  {
    var r := ReadLines(Default(rows, sum), names, Written(f, names, rows, sum));
    var b, nb := BasicFrom(f, sum, rows), NonBasicFrom(f, rows, sum, 0);
    WrittenReads(f, names, rows, sum);
    BasicFromRange(f, sum, rows);
    BasicFromAscending(f, sum, rows);
    AllPairedIff(b, nb);
    hide ReadLines, Written, BasicFrom, NonBasicFrom, Paired, Distinct, Default;
    forall j | 1 <= j <= sum
      ensures r.flags.basic[j] == (f.basic[j] && (j <= rows || j in Paired(b, nb)))
      ensures r.flags.lower[j] == (f.basic[j] || f.lower[j])
    {
      ReadBack(f, names, rows, sum, j);
    }
  }

  /** Every line that is written can be read. */
  lemma WrittenReads(f: Flags, names: seq<string>, rows: nat, sum: nat)
    requires FlagsOK(f, sum) && |names| == sum + 1 && rows <= sum && Distinct(names)
    ensures ReadLines(Default(rows, sum), names, Written(f, names, rows, sum)).Done?
  {
    BasicFromRange(f, sum, rows);
    NonBasicFromRange(f, rows, sum, 0);
    hide ReadLines, Lines, BasicFrom, NonBasicFrom, Distinct, Default;
    ReadWritten(f, names, BasicFrom(f, sum, rows), NonBasicFrom(f, rows, sum, 0), Default(rows, sum), 0);
  }

  lemma {:induction false} BasicFromAscending(f: Flags, sum: nat, i: nat)
    requires FlagsOK(f, sum)
    ensures forall k, l :: 0 <= k < l < |BasicFrom(f, sum, i)| ==> BasicFrom(f, sum, i)[k] < BasicFrom(f, sum, i)[l]
    decreases if i < sum then sum - i else 0
  {
    if i < sum {
      BasicFromAscending(f, sum, i + 1);
      BasicFromRange(f, sum, i + 1);
    }
  }

  // ----- a basis with one basic variable for each row -----

  ghost function CountBasic(f: Flags, i: nat): nat
    requires i < |f.basic|
  {
    if i == 0 then 0 else CountBasic(f, i - 1) + if f.basic[i] then 1 else 0
  }

  lemma {:induction false} CountStructural(f: Flags, sum: nat, i: nat)
    requires FlagsOK(f, sum) && i <= sum
    ensures CountBasic(f, sum) == CountBasic(f, i) + |BasicFrom(f, sum, i)|
    decreases sum - i
  {
    if i < sum {
      CountStructural(f, sum, i + 1);
    }
  }

  lemma {:induction false} CountSlacks(f: Flags, rows: nat, sum: nat, i: nat)
    requires FlagsOK(f, sum) && i <= rows <= sum
    ensures |NonBasicFrom(f, rows, sum, i)| >= rows - i - (CountBasic(f, rows) - CountBasic(f, i))
    decreases rows - i
  {
    if i < rows {
      CountSlacks(f, rows, sum, i + 1);
    }
  }

  /** With exactly `rows` basic variables, basic structural variables never outnumber the
      slacks that are not basic, so none goes without a line. */
  lemma EveryBasicPaired(f: Flags, rows: nat, sum: nat)
    requires FlagsOK(f, sum) && rows <= sum && CountBasic(f, sum) == rows
    ensures |BasicFrom(f, sum, rows)| <= |NonBasicFrom(f, rows, sum, 0)|
  {
    CountStructural(f, sum, rows);
    CountSlacks(f, rows, sum, 0);
  }

  // ----- the two programs -----

  class Basis {
    const rows: nat
    const sum: nat
    const names: seq<string>
    const isBasic: array<bool>
    const isLower: array<bool>
    var varBasic: seq<nat>

    constructor (rows: nat, sum: nat, names: seq<string>)
      requires rows <= sum && |names| == sum + 1
      ensures Valid() && this.rows == rows && this.sum == sum && this.names == names && fresh(isBasic) && fresh(isLower)
    {
      this.rows, this.sum, this.names := rows, sum, names;
      isBasic, isLower, varBasic := new bool[sum + 1](_ => false), new bool[sum + 1](_ => false), [];
    }

    predicate Valid() {
      rows <= sum && isBasic.Length == isLower.Length == |names| == sum + 1 && isBasic != isLower
    }

    ghost function State(): (f: Flags)
      requires Valid()
      reads isBasic, isLower
      ensures FlagsOK(f, sum)
    {
      Flags(isBasic[..], isLower[..])
    }

    /** The next basic variable behind i, or an index past the end. */
    method NextBasic(i: nat) returns (ib: nat)
      requires Valid()
      ensures ib > i && (ib <= sum ==> isBasic[ib]) && (i < sum ==> ib <= sum + 1)
      ensures BasicFrom(State(), sum, i) == if ib <= sum then [ib] + BasicFrom(State(), sum, ib) else []
    {
      ib := i + 1;
      while ib <= sum && !isBasic[ib]
        invariant i < ib && (i < sum ==> ib <= sum + 1) && (i >= sum ==> ib == i + 1)
        invariant BasicFrom(State(), sum, i) == BasicFrom(State(), sum, ib - 1)
      {
        ib := ib + 1;
      }
    }

    /** The next non-basic variable that needs a line. */
    method NextNonBasic(i: nat) returns (inn: nat)
      requires Valid()
      ensures inn > i && (inn <= sum ==> !Skipped(State(), rows, inn)) && (i < sum ==> inn <= sum + 1)
      ensures NonBasicFrom(State(), rows, sum, i) == if inn <= sum then [inn] + NonBasicFrom(State(), rows, sum, inn)
                else []
    {
      inn := i + 1;
      while inn <= sum && (isBasic[inn] || (inn > rows && isLower[inn]))
        invariant i < inn && (i < sum ==> inn <= sum + 1) && (i >= sum ==> inn == i + 1)
        invariant NonBasicFrom(State(), rows, sum, i) == NonBasicFrom(State(), rows, sum, inn - 1)
      {
        inn := inn + 1;
      }
    }

    /** The loop of MPS_writeBAS: two cursors, advanced together. */
    method WriteBas() returns (lines: seq<Line>)
      requires Valid()
      ensures lines == Written(State(), names, rows, sum)
    {
      ghost var f := State();
      lines := [];
      var ib: nat, inn: nat := rows, 0;
      WritingStart(f, names, rows, sum);
      hide Writing, Written, BasicFrom, NonBasicFrom, Lines;
      while ib < sum || inn < sum
        invariant Writing(f, names, rows, sum, ib, inn, lines)
        decreases (if ib < sum then sum - ib else 0) + if inn < sum then sum - inn else 0
      {
        ghost var ib0, inn0 := ib, inn;
        ib := NextBasic(ib);
        inn := NextNonBasic(inn);
        WritingStep(f, names, rows, sum, ib0, inn0, ib, inn, lines);
        if ib <= sum && inn <= sum {
          lines := lines + [Pair(isLower[inn], names[ib], names[inn])];
        } else if inn <= sum {
          lines := lines + [Single(isLower[inn], names[inn])];
        }
      }
      WritingEnd(f, names, rows, sum, ib, inn, lines);
    }

    method DefaultBasis()
      requires Valid()
      modifies isBasic, isLower
      ensures State() == Default(rows, sum)
    {
      for i := 0 to sum + 1
        invariant forall j :: 0 <= j < i ==> isBasic[j] == (j <= rows) && isLower[j]
      {
        isBasic[i] := i <= rows;
        isLower[i] := true;
      }
      assert isBasic[..] == Default(rows, sum).basic && isLower[..] == Default(rows, sum).lower;
    }

    /** MPS_readBAS: reads until a name is unknown, then lists the basic variables. */
    method ReadBas(lines: seq<Line>) returns (ok: bool)
      requires Valid()
      modifies this, isBasic, isLower
      ensures var r := ReadLines(Default(rows, sum), names, lines); State() == r.flags && ok == r.Done?
      ensures varBasic == BasicFrom(State(), sum, 0)
    {
      hide *;
      DefaultBasis();
      ok := ApplyLines(lines);
      ListBasic();
    }

    method ApplyLines(lines: seq<Line>) returns (ok: bool)
      requires Valid()
      modifies isBasic, isLower
      ensures var r := ReadLines(old(State()), names, lines); State() == r.flags && ok == r.Done?
    {
      hide ReadLine;
      ok := true;
      var k := 0;
      while k < |lines| && ok
        invariant 0 <= k <= |lines|
        invariant var r := ReadLines(old(State()), names, lines);
                  r == if ok then ReadLines(State(), names, lines[k..]) else Failed(State())
      {
        assert lines[k..][1..] == lines[k + 1..];
        ok := ApplyLine(lines[k]);
        k := k + 1;
      }
    }

    /** The basis index-to-variable array. */
    method ListBasic()
      requires Valid()
      modifies this
      ensures varBasic == BasicFrom(State(), sum, 0)
    {
      varBasic := [];
      for i := 1 to sum + 1
        invariant BasicFrom(State(), sum, 0) == varBasic + BasicFrom(State(), sum, i - 1)
      {
        if isBasic[i] {
          varBasic := varBasic + [i];
        }
      }
    }

    method ApplyLine(line: Line) returns (ok: bool)
      requires Valid()
      modifies isBasic, isLower
      ensures var r := ReadLine(old(State()), names, line); State() == r.flags && ok == r.Done?
    {
      match line {
        case Pair(lower, basic, nonbasic) =>
          var ib := Resolve(names, basic, |names|);
          if ib < 0 {
            return false;
          }
          var i := Resolve(names, nonbasic, |names|);
          if i < 0 {
            return false;
          }
          isLower[i] := lower;
          isBasic[ib] := true;
          isBasic[i] := false;
        case Single(lower, nonbasic) =>
          var i := Resolve(names, nonbasic, |names|);
          if i < 0 {
            return false;
          }
          isLower[i] := lower;
          isBasic[i] := false;
      }
      ok := true;
    }
  }

  /** The lines written, and those still to be written from the two cursors on. */
  ghost predicate Writing(f: Flags, names: seq<string>, rows: nat, sum: nat, ib: nat, inn: nat, lines: seq<Line>) {
    && FlagsOK(f, sum) && |names| == sum + 1
    && InRange(BasicFrom(f, sum, ib), sum + 1) && InRange(NonBasicFrom(f, rows, sum, inn), sum + 1)
    && Written(f, names, rows, sum) == lines + Lines(f, names, BasicFrom(f, sum, ib), NonBasicFrom(f, rows, sum, inn))
  }

  lemma WritingStart(f: Flags, names: seq<string>, rows: nat, sum: nat)
    requires FlagsOK(f, sum) && |names| == sum + 1
    ensures Writing(f, names, rows, sum, rows, 0, [])
  {
    BasicFromRange(f, sum, rows);
    NonBasicFromRange(f, rows, sum, 0);
  }

  lemma WritingStep(f: Flags, names: seq<string>, rows: nat, sum: nat, ib: nat, inn: nat, ib': nat, inn': nat,
                    lines: seq<Line>)
    requires Writing(f, names, rows, sum, ib, inn, lines) && FlagsOK(f, sum) && |names| == sum + 1
    requires BasicFrom(f, sum, ib) == if ib' <= sum then [ib'] + BasicFrom(f, sum, ib') else []
    requires NonBasicFrom(f, rows, sum, inn) == if inn' <= sum then [inn'] + NonBasicFrom(f, rows, sum, inn') else []
    ensures Writing(f, names, rows, sum, ib', inn',
                    lines + if inn' > sum then []
                            else if ib' <= sum then [Pair(f.lower[inn'], names[ib'], names[inn'])]
                            else [Single(f.lower[inn'], names[inn'])])
  {
    BasicFromRange(f, sum, ib');
    NonBasicFromRange(f, rows, sum, inn');
    PastTheEnd(f, rows, sum, ib', inn');
    hide Written, Skipped, Lines, BasicFrom, NonBasicFrom;
    LinesCons(f, names, ib', BasicFrom(f, sum, ib'), ib' <= sum, inn', NonBasicFrom(f, rows, sum, inn'), inn' <= sum,
      lines);
  }

  lemma LinesCons(f: Flags, names: seq<string>, ib: nat, b: seq<nat>, more: bool, inn: nat, nb: seq<nat>, any: bool,
                  lines: seq<Line>)
    requires |f.lower| == |names| && InRange(b, |names|) && InRange(nb, |names|)
    requires (more ==> ib < |names|) && (any ==> inn < |names|) && (!more ==> b == []) && (!any ==> nb == [])
    ensures InRange(if more then [ib] + b else [], |names|) && InRange(if any then [inn] + nb else [], |names|)
    ensures lines + Lines(f, names, if more then [ib] + b else [], if any then [inn] + nb else [])
         == (lines + if !any then []
                     else if more then [Pair(f.lower[inn], names[ib], names[inn])]
                     else [Single(f.lower[inn], names[inn])])
            + Lines(f, names, b, nb)
  {
    hide Lines;
    if !any {
      LinesStep(f, names, if more then [ib] + b else [], nb);
      LinesStep(f, names, b, nb);
      assert lines + [] == lines;
    } else if more {
      LinesPair(f, names, ib, b, inn, nb);
      Regroup(lines, Pair(f.lower[inn], names[ib], names[inn]), Lines(f, names, b, nb));
    } else {
      LinesSingle(f, names, inn, nb);
      Regroup(lines, Single(f.lower[inn], names[inn]), Lines(f, names, b, nb));
    }
  }

  lemma Regroup(s: seq<Line>, x: Line, t: seq<Line>)
    ensures s + ([x] + t) == (s + [x]) + t
  {
  }

  lemma LinesPair(f: Flags, names: seq<string>, ib: nat, b: seq<nat>, inn: nat, nb: seq<nat>)
    requires |f.lower| == |names| && ib < |names| && inn < |names| && InRange(b, |names|) && InRange(nb, |names|)
    ensures InRange([ib] + b, |names|) && InRange([inn] + nb, |names|)
    ensures Lines(f, names, [ib] + b, [inn] + nb) == [Pair(f.lower[inn], names[ib], names[inn])]
              + Lines(f, names, b, nb)
  {
    assert ([ib] + b)[1..] == b && ([inn] + nb)[1..] == nb;
  }

  lemma LinesSingle(f: Flags, names: seq<string>, inn: nat, nb: seq<nat>)
    requires |f.lower| == |names| && inn < |names| && InRange(nb, |names|)
    ensures InRange([inn] + nb, |names|)
    ensures Lines(f, names, [], [inn] + nb) == [Single(f.lower[inn], names[inn])] + Lines(f, names, [], nb)
  {
    assert ([inn] + nb)[1..] == nb;
  }

  lemma PastTheEnd(f: Flags, rows: nat, sum: nat, ib: nat, inn: nat)
    requires FlagsOK(f, sum)
    ensures ib > sum ==> BasicFrom(f, sum, ib) == []
    ensures inn > sum ==> NonBasicFrom(f, rows, sum, inn) == []
  {
  }

  lemma LinesStep(f: Flags, names: seq<string>, b: seq<nat>, nb: seq<nat>)
    requires |f.lower| == |names| && InRange(b, |names|) && InRange(nb, |names|)
    ensures Lines(f, names, b, []) == [] && Lines(f, names, [], []) == []
    ensures nb != [] ==> Lines(f, names, b, nb)
                         == [if b == [] then Single(f.lower[nb[0]], names[nb[0]])
                           else Pair(f.lower[nb[0]], names[b[0]], names[nb[0]])]
                            + Lines(f, names, if b == [] then b else b[1..], nb[1..])
  {
  }

  lemma WritingEnd(f: Flags, names: seq<string>, rows: nat, sum: nat, ib: nat, inn: nat, lines: seq<Line>)
    requires Writing(f, names, rows, sum, ib, inn, lines) && ib >= sum && inn >= sum && FlagsOK(f, sum)
    requires |names| == sum + 1
    ensures lines == Written(f, names, rows, sum)
  {
    hide Written;
  }

  /** Saving a basis that is representable, and so every one with a basic variable for each
      row and none of them flagged at its upper bound, and loading it into the same model
      gives the same flags, and the ascending list of basic variables. */
  method SaveAndLoad(basis: Basis) returns (copy: Basis, ok: bool)
    requires basis.Valid() && Distinct(basis.names)
    ensures fresh(copy) && copy.Valid() && copy.sum == basis.sum && ok
    ensures Same(copy.State(), basis.State(), basis.sum) <==> Representable(basis.State(), basis.rows, basis.sum)
    ensures copy.varBasic == BasicFrom(copy.State(), basis.sum, 0)
  {
    var lines := basis.WriteBas();
    ghost var f := basis.State();
    copy := new Basis(basis.rows, basis.sum, basis.names);
    ok := copy.ReadBas(lines);
    RoundTripIff(f, basis.names, basis.rows, basis.sum);
  }
}
