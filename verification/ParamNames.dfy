/** Option values as sums of names (lp_params.c): write_params1 prints the largest listed
    values a number contains, read_params adds up the values of the names. */
module ParamNames {

  /** A number as the set of its one bits. */
  type Bits = set<nat>

  /** Wide enough for every option value. */
  const WIDTH := 31

  function Pow(i: nat): (p: nat)
    ensures p > 0
  {
    if i == 0 then 1 else 2 * Pow(i - 1)
  }

  /** The number with these bits below position n. */
  function Val(s: Bits, n: nat): (v: nat)
    ensures v < Pow(n)
  {
    if n == 0 then 0 else Val(s, n - 1) + if n - 1 in s then Pow(n - 1) else 0
  }

  lemma {:induction false} ValDisjoint(s: Bits, t: Bits, n: nat)
    requires s !! t
    ensures Val(s + t, n) == Val(s, n) + Val(t, n)
  {
    if n > 0 {
      ValDisjoint(s, t, n - 1);
    }
  }

  lemma {:induction false} ValSubset(s: Bits, t: Bits, n: nat)
    requires s <= t
    ensures Val(s, n) <= Val(t, n)
    ensures (exists i :: i in t && i !in s && i < n) ==> Val(s, n) < Val(t, n)
  {
    if n > 0 {
      ValSubset(s, t, n - 1);
      if i :| i in t && i !in s && i < n {
        if i < n - 1 {
          assert Val(s, n - 1) < Val(t, n - 1);
        }
      }
    }
  }

  datatype Entry = Entry(bits: Bits, name: string)

  /** A value table with the bits of its base mask: three or seven, or all of them. */
  datatype Table = Table(entries: seq<Entry>, mask: Bits)

  function Value(e: Entry): nat { Val(e.bits, WIDTH) }

  /** Codes below the base mask are compared with the masked value only. */
  function Compared(t: Table, ret: Bits, e: Entry): Bits {
    if Value(e) < Val(t.mask, WIDTH) then ret * t.mask else ret
  }

  /** Another listed value that is larger, contains value j, and is contained in the number. */
  ghost predicate Hidden(t: Table, ret2: Bits, j: nat, k: nat)
    requires j < |t.entries| && k < |t.entries|
  {
    k != j && Value(t.entries[k]) > Value(t.entries[j]) && t.entries[j].bits <= t.entries[k].bits <= ret2
  }

  /** In bits: a value is hidden by one that properly contains it. */
  lemma HiddenIff(t: Table, ret2: Bits, j: nat, k: nat)
    requires j < |t.entries| && k < |t.entries| && forall i :: i in t.entries[k].bits ==> i < WIDTH
    ensures Hidden(t, ret2, j, k) <==> t.entries[j].bits < t.entries[k].bits <= ret2
  {
    var small, large := t.entries[j].bits, t.entries[k].bits;
    if small == large {
      assert Value(t.entries[k]) == Value(t.entries[j]);
    } else if small <= large {
      ValSubset(small, large, WIDTH);
      var i :| i in large && i !in small;
    }
  }

  ghost predicate Shown(t: Table, ret: Bits, j: nat)
    requires j < |t.entries|
  {
    var e := t.entries[j];
    var ret2 := Compared(t, ret, e);
    if Value(e) == 0 then Val(ret2, WIDTH) == 0
    else e.bits <= ret2 && forall k :: 0 <= k < |t.entries| ==> !Hidden(t, ret2, j, k)
  }

  /** The names printed for the first n entries. */
  ghost function Names(t: Table, ret: Bits, n: nat): seq<string>
    requires n <= |t.entries|
  {
    if n == 0 then [] else Names(t, ret, n - 1) + if Shown(t, ret, n - 1) then [t.entries[n - 1].name] else []
  }

  /** The loop of write_params1. */
  method WriteNames(t: Table, ret: Bits) returns (names: seq<string>)
    ensures names == Names(t, ret, |t.entries|)
  {
    names := [];
    for j := 0 to |t.entries|
      invariant names == Names(t, ret, j)
    {
      var e := t.entries[j];
      var ret2 := Compared(t, ret, e);
      if Value(e) == 0 {
        if Val(ret2, WIDTH) == 0 {
          names := names + [e.name];
        }
      } else if e.bits <= ret2 {
        var k := 0;
        while k < |t.entries|
          && !(k != j && Value(t.entries[k]) > Value(e) && e.bits <= t.entries[k].bits && t.entries[k].bits <= ret2)
          invariant 0 <= k <= |t.entries|
          invariant forall i :: 0 <= i < k ==> !Hidden(t, ret2, j, i)
        {
          k := k + 1;
        }
        if k == |t.entries| {
          names := names + [e.name];
        } else {
          assert Hidden(t, ret2, j, k);
        }
      }
    }
  }

  datatype Option<T> = None | Some(value: T)

  /** The index of a name in the table, or its length. */
  function IndexOf(t: Table, name: string, n: nat): (j: nat)
    requires n <= |t.entries|
    ensures j < n ==> t.entries[j].name == name
    ensures j >= n ==> j == |t.entries| && forall i :: 0 <= i < n ==> t.entries[i].name != name
  {
    if n == 0 then |t.entries|
    else if t.entries[n - 1].name == name then n - 1
    else
      var j := IndexOf(t, name, n - 1);
      j
  }

  /** The sum of the named values; a name of at most one character ends the list, an unknown
      one is an error. */
  function SumOf(t: Table, names: seq<string>): Option<nat> {
    if names == [] then Some(0)
    else if |names[0]| <= 1 then Some(0)
    else
      var j := IndexOf(t, names[0], |t.entries|);
      if j == |t.entries| then None
      else
        var rest := SumOf(t, names[1..]);
        if rest.None? then None else Some(Value(t.entries[j]) + rest.value)
  }

  /** The loop of read_params. */
  method ReadNames(t: Table, names: seq<string>) returns (r: Option<nat>)
    ensures r == SumOf(t, names)
  {
    var intvalue, i := 0, 0;
    assert names[0..] == names;
    while i < |names| && |names[i]| > 1
      invariant 0 <= i <= |names| && intvalue >= 0
      invariant SumOf(t, names) == var rest := SumOf(t, names[i..]);
                if rest.None? then None else Some(intvalue + rest.value)
    {
      assert names[i..][1..] == names[i + 1..];
      var j := IndexOf(t, names[i], |t.entries|);
      if j == |t.entries| {
        return None;
      }
      intvalue := intvalue + Value(t.entries[j]);
      i := i + 1;
    }
    return Some(intvalue);
  }

  // ----- the round trip of one table -----

  /** Names of more than one character, each once. */
  ghost predicate WellNamed(t: Table) {
    && (forall j :: 0 <= j < |t.entries| ==> |t.entries[j].name| > 1)
    && forall j, k :: 0 <= j < k < |t.entries| ==> t.entries[j].name != t.entries[k].name
  }

  /** The bits of the values shown among the first n. */
  ghost function ShownBits(t: Table, ret: Bits, n: nat): Bits
    requires n <= |t.entries|
  {
    if n == 0 then {} else ShownBits(t, ret, n - 1) + if Shown(t, ret, n - 1) then t.entries[n - 1].bits else {}
  }

  ghost predicate ShownDisjoint(t: Table, ret: Bits) {
    forall j, k :: 0 <= j < k < |t.entries| && Shown(t, ret, j) && Shown(t, ret, k) ==>
      t.entries[j].bits !! t.entries[k].bits
  }

  lemma {:induction false} ShownBitsFrom(t: Table, ret: Bits, n: nat, i: nat)
    requires n <= |t.entries|
    ensures i in ShownBits(t, ret, n) <==> exists j :: 0 <= j < n && Shown(t, ret, j) && i in t.entries[j].bits
  {
    if n > 0 {
      ShownBitsFrom(t, ret, n - 1, i);
      hide Shown;
    }
  }

  lemma {:induction false} SumSnoc(t: Table, names: seq<string>, j: nat)
    requires WellNamed(t) && j < |t.entries| && forall i :: 0 <= i < |names| ==> |names[i]| > 1
    ensures SumOf(t, names).Some? ==>
              SumOf(t, names + [t.entries[j].name]) == Some(SumOf(t, names).value + Value(t.entries[j]))
  {
    var name := t.entries[j].name;
    if names == [] {
      IndexIs(t, j, |t.entries|);
      assert [name][1..] == [] && [] + [name] == [name];
    } else {
      SumSnoc(t, names[1..], j);
      assert (names + [name])[1..] == names[1..] + [name];
    }
  }

  lemma {:induction false} IndexIs(t: Table, j: nat, n: nat)
    requires WellNamed(t) && j < n <= |t.entries|
    ensures IndexOf(t, t.entries[j].name, n) == j
  {
  }

  lemma {:induction false} NamesLong(t: Table, ret: Bits, n: nat)
    requires WellNamed(t) && n <= |t.entries|
    ensures forall i :: 0 <= i < |Names(t, ret, n)| ==> |Names(t, ret, n)[i]| > 1
  {
    if n > 0 {
      NamesLong(t, ret, n - 1);
    }
  }

  /** When the shown values share no bits, reading adds up to the number with their bits. */
  lemma {:induction false} SumShown(t: Table, ret: Bits, n: nat)
    requires WellNamed(t) && ShownDisjoint(t, ret) && n <= |t.entries|
    ensures SumOf(t, Names(t, ret, n)) == Some(Val(ShownBits(t, ret, n), WIDTH))
  {
    hide SumOf, Names, Val, ShownBits, Shown, ShownDisjoint, WellNamed, Part;
    if n == 0 {
      NothingShown(t, ret);
      ValNone(WIDTH);
    } else {
      SumShown(t, ret, n - 1);
      NextSum(t, ret, n - 1);
      NextBits(t, ret, n - 1);
    }
  }

  /** What entry n adds. */
  ghost function Part(t: Table, ret: Bits, n: nat): nat
    requires n < |t.entries|
  {
    if Shown(t, ret, n) then Value(t.entries[n]) else 0
  }

  lemma NextSum(t: Table, ret: Bits, n: nat)
    requires WellNamed(t) && n < |t.entries| && SumOf(t, Names(t, ret, n)).Some?
    ensures SumOf(t, Names(t, ret, n + 1)) == Some(SumOf(t, Names(t, ret, n)).value + Part(t, ret, n))
  {
    hide SumOf, WellNamed, Shown, Names;
    NextShown(t, ret, n + 1);
    NamesLong(t, ret, n);
    SumSnoc(t, Names(t, ret, n), n);
  }

  lemma NextBits(t: Table, ret: Bits, n: nat)
    requires ShownDisjoint(t, ret) && n < |t.entries|
    ensures Val(ShownBits(t, ret, n + 1), WIDTH) == Val(ShownBits(t, ret, n), WIDTH) + Part(t, ret, n)
  {
    hide Val, ShownBits, Shown, ShownDisjoint;
    NextShown(t, ret, n + 1);
    if Shown(t, ret, n) {
      NewBits(t, ret, n);
      ValDisjoint(ShownBits(t, ret, n), t.entries[n].bits, WIDTH);
    }
  }

  lemma NothingShown(t: Table, ret: Bits)
    ensures Names(t, ret, 0) == [] && SumOf(t, []) == Some(0) && ShownBits(t, ret, 0) == {}
  {
  }

  lemma NextShown(t: Table, ret: Bits, n: nat)
    requires 0 < n <= |t.entries|
    ensures if Shown(t, ret, n - 1)
            then Names(t, ret, n) == Names(t, ret, n - 1) + [t.entries[n - 1].name]
                 && ShownBits(t, ret, n) == ShownBits(t, ret, n - 1) + t.entries[n - 1].bits
            else Names(t, ret, n) == Names(t, ret, n - 1) && ShownBits(t, ret, n) == ShownBits(t, ret, n - 1)
  {
    hide Shown;
  }

  lemma NewBits(t: Table, ret: Bits, n: nat)
    requires n < |t.entries| && ShownDisjoint(t, ret) && Shown(t, ret, n)
    ensures ShownBits(t, ret, n) !! t.entries[n].bits
  {
    hide *;
    forall i | i in ShownBits(t, ret, n)
      ensures i !in t.entries[n].bits
    {
      ShownBitsFrom(t, ret, n, i);
      DisjointFrom(t, ret, n, i);
    }
  }

  lemma DisjointFrom(t: Table, ret: Bits, n: nat, i: nat)
    requires ShownDisjoint(t, ret) && n < |t.entries| && Shown(t, ret, n)
    requires exists j :: 0 <= j < n && Shown(t, ret, j) && i in t.entries[j].bits
    ensures i !in t.entries[n].bits
  {
    hide Shown;
  }

  lemma {:induction false} ValNone(n: nat)
    ensures Val({}, n) == 0
  {
    if n > 0 {
      ValNone(n - 1);
    }
  }

  // ----- tables of codes and mode bits -----

  ghost predicate IsMode(e: Entry, codes: Bits, i: nat) {
    e.bits == {i} && i !in codes
  }

  /** As far as the number goes, every value of the table is a code, within the code bits,
      or one mode bit outside of them; no value is listed twice. */
  ghost predicate Structured(t: Table, codes: Bits, ret: Bits) {
    && WellNamed(t)
    && (forall j :: 0 <= j < |t.entries| ==> EntryOK(t, j, codes, ret))
    && (forall j, i :: 0 <= j < |t.entries| && i in t.entries[j].bits ==> i < WIDTH)
    && (forall j, k :: 0 <= j < k < |t.entries| ==> t.entries[j].bits != t.entries[k].bits)
    && forall i :: i in ret ==> i < WIDTH
  }

  /** A value that is not contained in the number plays no part.  Code bits are bits of the
      base mask, unless a larger value overrules the code anyway; a mode bit below the base
      mask is one of its bits. */
  ghost predicate EntryOK(t: Table, j: nat, codes: Bits, ret: Bits)
    requires j < |t.entries|
  {
    var e := t.entries[j];
    || !(e.bits <= ret) || e.bits == {}
    || (e.bits <= codes && (Value(e) < Val(t.mask, WIDTH) ==> codes <= t.mask || Overruled(t, j, ret)))
    || exists i :: IsMode(e, codes, i) && (Value(e) < Val(t.mask, WIDTH) ==> i in t.mask)
  }

  ghost predicate Overruled(t: Table, j: nat, ret: Bits)
    requires j < |t.entries|
  {
    Value(t.entries[j]) > 0 && exists k :: 0 <= k < |t.entries| && Hidden(t, Compared(t, ret, t.entries[j]), j, k)
  }

  /** The number is one listed code plus listed mode bits. */
  ghost predicate CodePlusModes(t: Table, codes: Bits, ret: Bits, c: nat) {
    && c < |t.entries| && t.entries[c].bits == ret * codes
    && (Value(t.entries[c]) < Val(t.mask, WIDTH) ==> codes <= t.mask)
    && forall i :: i in ret - codes ==> exists j :: 0 <= j < |t.entries| && t.entries[j].bits == {i}
  }

  lemma ComparedContains(t: Table, codes: Bits, ret: Bits, j: nat)
    requires Structured(t, codes, ret) && j < |t.entries| && t.entries[j].bits <= ret
    requires t.entries[j].bits <= codes && (Value(t.entries[j]) < Val(t.mask, WIDTH) ==> codes <= t.mask)
    ensures t.entries[j].bits <= Compared(t, ret, t.entries[j]) <= ret
    ensures ret * codes <= Compared(t, ret, t.entries[j])
  {
    hide Val;
  }

  /** Every other code is overruled, by the code of the number if by nothing else. */
  lemma OtherCodes(t: Table, codes: Bits, ret: Bits, c: nat, j: nat)
    requires Structured(t, codes, ret) && CodePlusModes(t, codes, ret, c) && j < |t.entries| && j != c
    requires {} != t.entries[j].bits <= ret && t.entries[j].bits <= codes
    ensures Overruled(t, j, ret)
  {
    hide Val, WellNamed;
    assert EntryOK(t, j, codes, ret);
    LargerIff(t.entries[j].bits, ret);
    if Value(t.entries[j]) < Val(t.mask, WIDTH) ==> codes <= t.mask {
      ComparedContains(t, codes, ret, j);
      LargerIff(t.entries[j].bits, t.entries[c].bits);
      assert Hidden(t, Compared(t, ret, t.entries[j]), j, c);
    }
  }

  lemma LargerIff(s: Bits, u: Bits)
    requires s <= u && forall i :: i in u ==> i < WIDTH
    ensures Val(s, WIDTH) < Val(u, WIDTH) <==> s != u
    ensures Val(s, WIDTH) == 0 <==> s == {}
  {
    ValSubset(s, u, WIDTH);
    ValNone(WIDTH);
    ValSubset({}, s, WIDTH);
    if s != u {
      var i :| i in u && i !in s;
    }
    if s != {} {
      var i :| i in s;
      assert i in s && i !in {} && i < WIDTH;
    }
    hide Val;
  }

  /** The entry with value zero is shown exactly when none of the bits it is compared with is
      set: those of the base mask, or all of them where the mask is empty. */
  lemma ZeroShownIff(t: Table, ret: Bits, j: nat)
    requires j < |t.entries| && t.entries[j].bits == {} && forall i :: i in ret || i in t.mask ==> i < WIDTH
    ensures Shown(t, ret, j) <==> (if t.mask == {} then ret == {} else ret !! t.mask)
  {
    hide Val;
    LargerIff({}, t.mask);
    LargerIff({}, ret);
    LargerIff({}, ret * t.mask);
    assert Value(t.entries[j]) == 0 by { ValNone(WIDTH); }
    if ret * t.mask == {} {
      assert forall i :: i in ret && i in t.mask ==> i in ret * t.mask;
    }
  }

  /** Exactly the code and the mode bits of the number are shown. */
  lemma ShownIff(t: Table, codes: Bits, ret: Bits, c: nat, j: nat)
    requires Structured(t, codes, ret) && CodePlusModes(t, codes, ret, c) && j < |t.entries| && t.entries[j].bits != {}
    ensures Shown(t, ret, j) <==> t.entries[j].bits <= ret && (j == c || !(t.entries[j].bits <= codes))
  {
    var e := t.entries[j];
    hide Val, WellNamed;
    if e.bits <= ret {
      LargerIff(e.bits, ret);
      var ret2 := Compared(t, ret, e);
      if e.bits <= codes && j != c {
        OtherCodes(t, codes, ret, c, j);
      } else {
        PlainContains(t, codes, ret, c, j);
        forall k | 0 <= k < |t.entries|
          ensures !Hidden(t, ret2, j, k)
        {
          NotHidden(t, codes, ret, c, j, k);
        }
      }
    } else {
      LargerIff({}, e.bits);
    }
  }

  /** The code and the mode bits are compared with a number that contains them. */
  lemma PlainContains(t: Table, codes: Bits, ret: Bits, c: nat, j: nat)
    requires Structured(t, codes, ret) && CodePlusModes(t, codes, ret, c) && j < |t.entries|
    requires {} != t.entries[j].bits <= ret && (j == c || !(t.entries[j].bits <= codes))
    ensures t.entries[j].bits <= Compared(t, ret, t.entries[j]) <= ret
  {
    assert EntryOK(t, j, codes, ret);
    hide Val, Overruled;
  }

  lemma NotHidden(t: Table, codes: Bits, ret: Bits, c: nat, j: nat, k: nat)
    requires Structured(t, codes, ret) && CodePlusModes(t, codes, ret, c) && j < |t.entries| && k < |t.entries|
    requires {} != t.entries[j].bits <= ret && (j == c || !(t.entries[j].bits <= codes))
    ensures !Hidden(t, Compared(t, ret, t.entries[j]), j, k)
  {
    hide Val, WellNamed;
    PlainContains(t, codes, ret, c, j);
    assert EntryOK(t, j, codes, ret) && EntryOK(t, k, codes, ret);
    var x, y := t.entries[j].bits, t.entries[k].bits;
    assert k != j ==> x != y;
    assert j == c && y <= codes && y <= ret ==> y <= x;
  }

  /** A number made of one listed code and any set of listed mode bits survives writing and
      reading. */
  lemma CodeAndModesRoundTrip(t: Table, codes: Bits, ret: Bits, c: nat)
    requires Structured(t, codes, ret) && CodePlusModes(t, codes, ret, c)
    ensures SumOf(t, Names(t, ret, |t.entries|)) == Some(Val(ret, WIDTH))
  {
    hide Val, Shown, SumOf, Names;
    forall j, k | 0 <= j < k < |t.entries| && Shown(t, ret, j) && Shown(t, ret, k)
      ensures t.entries[j].bits !! t.entries[k].bits
    {
      ShownApart(t, codes, ret, c, j, k);
    }
    forall i
      ensures i in ShownBits(t, ret, |t.entries|) <==> i in ret
    {
      ShownBitsFrom(t, ret, |t.entries|, i);
      BitShown(t, codes, ret, c, i);
    }
    assert ShownBits(t, ret, |t.entries|) == ret;
    SumShown(t, ret, |t.entries|);
  }

  lemma ShownApart(t: Table, codes: Bits, ret: Bits, c: nat, j: nat, k: nat)
    requires Structured(t, codes, ret) && CodePlusModes(t, codes, ret, c) && j < k < |t.entries|
    requires Shown(t, ret, j) && Shown(t, ret, k)
    ensures t.entries[j].bits !! t.entries[k].bits
  {
    hide Val, Shown, WellNamed;
    var x, y := t.entries[j].bits, t.entries[k].bits;
    if x != {} && y != {} {
      ShownIff(t, codes, ret, c, j);
      ShownIff(t, codes, ret, c, k);
      assert EntryOK(t, j, codes, ret) && EntryOK(t, k, codes, ret);
    }
  }

  lemma BitShown(t: Table, codes: Bits, ret: Bits, c: nat, i: nat)
    requires Structured(t, codes, ret) && CodePlusModes(t, codes, ret, c)
    ensures (exists j :: 0 <= j < |t.entries| && Shown(t, ret, j) && i in t.entries[j].bits) <==> i in ret
  {
    hide Val, Shown, WellNamed, Structured;
    if j :| 0 <= j < |t.entries| && Shown(t, ret, j) && i in t.entries[j].bits {
      ShownIff(t, codes, ret, c, j);
    }
    if i in ret {
      if i in codes {
        assert i in t.entries[c].bits;
        ShownIff(t, codes, ret, c, c);
      } else {
        assert i in ret - codes;
        var j :| 0 <= j < |t.entries| && t.entries[j].bits == {i};
        ShownIff(t, codes, ret, c, j);
      }
    }
  }

  // ----- the tables -----

  function Low(b: nat): (s: Bits)
    ensures forall i :: i in s <==> 0 <= i < b
  {
    if b == 0 then {} else Low(b - 1) + {b - 1}
  }

  /** A table from its values, in order, under distinct names. */
  function MakeTable(values: seq<Bits>, names: seq<string>, mask: Bits): (t: Table)
    requires |names| == |values|
    ensures |t.entries| == |values| && t.mask == mask
    ensures forall j :: 0 <= j < |values| ==> t.entries[j] == Entry(values[j], names[j])
  {
    Table(seq(|values|, j requires 0 <= j < |values| => Entry(values[j], names[j])), mask)
  }

  ghost predicate GoodNames(names: seq<string>, n: nat) {
    && |names| == n
    && (forall j :: 0 <= j < n ==> |names[j]| > 1)
    && forall j, k :: 0 <= j < k < n ==> names[j] != names[k]
  }

  function Singles(bits: seq<nat>): (values: seq<Bits>)
    ensures |values| == |bits| && forall j :: 0 <= j < |bits| ==> values[j] == {bits[j]}
  {
    seq(|bits|, j requires 0 <= j < |bits| => {bits[j]})
  }

  ghost predicate Listed(values: seq<Bits>, s: Bits) {
    exists j :: 0 <= j < |values| && values[j] == s
  }

  /** The values of a table: codes and single mode bits, apart from values the number does
      not contain; each listed once. */
  ghost predicate GoodValues(values: seq<Bits>, codes: Bits, ret: Bits) {
    && (forall j :: 0 <= j < |values| ==> ValueOK(values[j], codes, ret))
    && (forall j, k :: 0 <= j < k < |values| ==> values[j] != values[k])
  }

  ghost predicate ValueOK(s: Bits, codes: Bits, ret: Bits) {
    && s <= Low(WIDTH)
    && (!(s <= ret) || s <= codes || exists i :: s == {i} && i !in codes)
  }

  lemma {:induction false} ValBelow(s: Bits, b: nat, n: nat)
    requires s <= Low(b) && b <= n
    ensures Val(s, n) < Pow(b)
  {
    if b < n {
      ValBelow(s, b, n - 1);
    }
  }

  lemma {:induction false} ValAtLeast(s: Bits, i: nat, b: nat, n: nat)
    requires i in s && b <= i < n
    ensures Val(s, n) >= Pow(b)
  {
    if i < n - 1 {
      ValAtLeast(s, i, b, n - 1);
    } else {
      PowGrows(b, i);
    }
  }

  lemma {:induction false} PowGrows(b: nat, i: nat)
    requires b <= i
    ensures Pow(b) <= Pow(i)
  {
    if b < i {
      PowGrows(b, i - 1);
    }
  }

  /** The generic round trip for a table whose base mask is all bits below b. */
  lemma TableRoundTrip(values: seq<Bits>, names: seq<string>, b: nat, codes: Bits, ret: Bits)
    requires GoodNames(names, |values|) && GoodValues(values, codes, ret) && codes <= Low(b) && b <= WIDTH
    requires ret <= Low(WIDTH)
    requires Listed(values, ret * codes) && forall i :: i in ret - codes ==> Listed(values, {i})
    ensures var t := MakeTable(values, names, Low(b)); SumOf(t, Names(t, ret, |values|)) == Some(Val(ret, WIDTH))
  {
    var t := MakeTable(values, names, Low(b));
    TableStructured(values, names, b, codes, ret);
    var c :| 0 <= c < |values| && values[c] == ret * codes;
    assert forall i :: i in ret - codes ==> exists j :: 0 <= j < |t.entries| && t.entries[j].bits == {i};
    hide Val, SumOf, Names, Structured, Low, MakeTable, GoodNames, GoodValues;
    CodeAndModesRoundTrip(t, codes, ret, c);
  }

  lemma TableStructured(values: seq<Bits>, names: seq<string>, b: nat, codes: Bits, ret: Bits)
    requires GoodNames(names, |values|) && GoodValues(values, codes, ret) && codes <= Low(b) && b <= WIDTH
    requires ret <= Low(WIDTH)
    ensures Structured(MakeTable(values, names, Low(b)), codes, ret)
  {
    hide Val, EntryOK, ValueOK, Low, WellNamed;
    var t := MakeTable(values, names, Low(b));
    TableNames(values, names, Low(b));
    forall j | 0 <= j < |values|
      ensures EntryOK(t, j, codes, ret)
      ensures forall i :: i in t.entries[j].bits ==> i < WIDTH
    {
      assert ValueOK(values[j], codes, ret);
      ValueIsEntry(t, j, b, codes, ret);
    }
    LowBits(ret);
  }

  lemma TableNames(values: seq<Bits>, names: seq<string>, mask: Bits)
    requires GoodNames(names, |values|)
    ensures WellNamed(MakeTable(values, names, mask))
  {
  }

  lemma LowBits(s: Bits)
    requires s <= Low(WIDTH)
    ensures forall i :: i in s ==> i < WIDTH
  {
  }

  lemma ValueIsEntry(t: Table, j: nat, b: nat, codes: Bits, ret: Bits)
    requires j < |t.entries| && t.mask == Low(b) && ValueOK(t.entries[j].bits, codes, ret) && codes <= Low(b)
    requires b <= WIDTH
    ensures EntryOK(t, j, codes, ret)
    ensures forall i :: i in t.entries[j].bits ==> i < WIDTH
  {
    var e := t.entries[j];
    LowBits(e.bits);
    if i :| e.bits == {i} && i !in codes {
      assert IsMode(e, codes, i);
      if i >= b {
        ValAtLeast({i}, i, b, WIDTH);
        ValBelow(Low(b), b, WIDTH);
      }
    }
    hide Val, Low, Overruled;
  }

  ghost predicate DistinctBits(bits: seq<nat>, b: nat) {
    && (forall j :: 0 <= j < |bits| ==> b <= bits[j] < WIDTH)
    && forall j, k :: 0 <= j < k < |bits| ==> bits[j] != bits[k]
  }

  ghost predicate DistinctCodes(codes: seq<Bits>, b: nat) {
    && (forall j :: 0 <= j < |codes| ==> codes[j] <= Low(b))
    && forall j, k :: 0 <= j < k < |codes| ==> codes[j] != codes[k]
  }

  /** A table of codes below bit b, which is also the base mask, followed by mode bits. */
  lemma CodedTable(codes: seq<Bits>, bits: seq<nat>, names: seq<string>, b: nat, ret: Bits)
    requires b <= WIDTH && DistinctCodes(codes, b) && DistinctBits(bits, b) && GoodNames(names, |codes| + |bits|)
    requires Listed(codes, ret * Low(b)) && forall i :: i in ret && i >= b ==> i in bits
    ensures var t := MakeTable(codes + Singles(bits), names, Low(b));
            SumOf(t, Names(t, ret, |t.entries|)) == Some(Val(ret, WIDTH))
  {
    var values := codes + Singles(bits);
    hide Val, SumOf, Names, MakeTable, GoodNames;
    forall j | 0 <= j < |values|
      ensures ValueOK(values[j], Low(b), ret)
    {
      if j >= |codes| {
        assert values[j] == {bits[j - |codes|]} && bits[j - |codes|] !in Low(b);
      }
    }
    forall j, k | 0 <= j < k < |values|
      ensures values[j] != values[k]
    {
      if k >= |codes| {
        var i := bits[k - |codes|];
        assert i in values[k];
        if j >= |codes| {
          assert bits[j - |codes|] in values[j] && bits[j - |codes|] != i;
        } else {
          assert i !in values[j];
        }
      }
    }
    forall i | i in ret - Low(b)
      ensures Listed(values, {i})
    {
      var k :| 0 <= k < |bits| && bits[k] == i;
      assert values[|codes| + k] == {i};
    }
    var c :| 0 <= c < |codes| && codes[c] == ret * Low(b);
    assert values[c] == ret * Low(b);
    assert GoodValues(values, Low(b), ret) && Listed(values, ret * Low(b));
    LowMember(b);
    hide Low, GoodValues, Listed, ValueOK;
    BelowLow(ret, WIDTH);
    LowGrows(b, WIDTH);
    TableRoundTrip(values, names, b, Low(b), ret);
  }

  /** NODE_... : eight strategies and thirteen mode bits, under NODE_STRATEGYMASK. */
  lemma BBRuleRoundTrip(names: seq<string>, ret: Bits)
    requires GoodNames(names, 21) && ret <= Low(16)
    ensures var t := MakeTable([{}, {0}, {1}, {0, 1}, {2}, {0, 2}, {1, 2}, {0, 1, 2}] + Singles(seq(13, i => 3 + i)),
              names, Low(3));
            SumOf(t, Names(t, ret, |t.entries|)) == Some(Val(ret, WIDTH))
  {
    var codes: seq<Bits> := [{}, {0}, {1}, {0, 1}, {2}, {0, 2}, {1, 2}, {0, 1, 2}];
    var bits: seq<nat> := seq(13, i => 3 + i);
    var c := (if 0 in ret then 1 else 0) + (if 1 in ret then 2 else 0) + if 2 in ret then 4 else 0;
    assert codes[c] == ret * Low(3) by { LowThree(ret); }
    DistinctThree(codes);
    LowMember(16);
    forall i | i in ret && i >= 3
      ensures i in bits
    {
      assert bits[i - 3] == i;
    }
    hide Val, SumOf, Names, MakeTable, GoodNames, Low;
    assert Listed(codes, ret * Low(3)) && DistinctBits(bits, 3);
    CodedTable(codes, bits, names, 3, ret);
  }

  lemma LowThree(ret: Bits)
    ensures forall i :: i in ret * Low(3) <==> i in ret && (i == 0 || i == 1 || i == 2)
  {
  }

  lemma DistinctThree(codes: seq<Bits>)
    requires codes == [{}, {0}, {1}, {0, 1}, {2}, {0, 2}, {1, 2}, {0, 1, 2}]
    ensures DistinctCodes(codes, 3)
  {
    assert forall j :: 0 <= j < 8 ==>
      (0 in codes[j] <==> j % 2 == 1) && (1 in codes[j] <==> j / 2 % 2 == 1) && (2 in codes[j] <==> j / 4 == 1);
  }

  /** PRICE_... : four pricers and ten mode bits, under PRICER_LASTOPTION. */
  lemma PivotingRoundTrip(names: seq<string>, ret: Bits)
    requires GoodNames(names, 14) && forall i :: i in ret ==> i < 2 || i in [2, 3, 4, 5, 7, 8, 10, 11, 12, 14]
    ensures var t := MakeTable([{}, {0}, {1}, {0, 1}] + Singles([2, 3, 4, 5, 7, 8, 10, 11, 12, 14]), names, Low(2));
            SumOf(t, Names(t, ret, |t.entries|)) == Some(Val(ret, WIDTH))
  {
    var codes: seq<Bits> := [{}, {0}, {1}, {0, 1}];
    var c := (if 0 in ret then 1 else 0) + if 1 in ret then 2 else 0;
    assert codes[c] == ret * Low(2) by { LowThree(ret); }
    assert forall j :: 0 <= j < 4 ==> (0 in codes[j] <==> j % 2 == 1) && (1 in codes[j] <==> j / 2 == 1);
    assert DistinctCodes(codes, 2);
    hide Val, SumOf, Names, MakeTable, GoodNames, Low;
    CodedTable(codes, [2, 3, 4, 5, 7, 8, 10, 11, 12, 14], names, 2, ret);
  }

  /** Tables of zero and the first n powers of two, under an all-ones mask: PRESOLVE_...
      (21), ANTIDEGEN_... (10), IMPROVE_... (4) and BRANCH_... (2). */
  lemma PowersRoundTrip(n: nat, names: seq<string>, ret: Bits)
    requires n <= WIDTH && GoodNames(names, n + 1) && ret <= Low(n)
    ensures var t := MakeTable([{}] + Singles(seq(n, i => i)), names, Low(WIDTH));
            SumOf(t, Names(t, ret, |t.entries|)) == Some(Val(ret, WIDTH))
  {
    var values := [{}] + Singles(seq(n, i => i));
    hide Val, SumOf, Names, MakeTable, GoodNames, GoodValues, Low;
    PowerValues(n, ret);
    TableRoundTrip(values, names, WIDTH, {}, ret);
  }

  lemma PowerValues(n: nat, ret: Bits)
    requires n <= WIDTH && ret <= Low(n)
    ensures var values := [{}] + Singles(seq(n, i => i));
            && GoodValues(values, {}, ret) && Listed(values, ret * {}) && ret <= Low(WIDTH)
            && forall i :: i in ret - {} ==> Listed(values, {i})
  {
    var values: seq<Bits> := [{}] + Singles(seq(n, i => i));
    LowMember(n);
    LowMember(WIDTH);
    hide Low, GoodValues;
    PowersGood(n, ret);
    assert values[0] == ret * {};
    forall i | i in ret - {}
      ensures Listed(values, {i})
    {
      assert values[i + 1] == {i};
    }
  }

  lemma PowersGood(n: nat, ret: Bits)
    requires n <= WIDTH
    ensures GoodValues([{}] + Singles(seq(n, i => i)), {}, ret)
  {
    var values: seq<Bits> := [{}] + Singles(seq(n, i => i));
    LowMember(WIDTH);
    hide Low;
    forall j | 0 <= j < |values|
      ensures ValueOK(values[j], {}, ret)
    {
      assert j > 0 ==> values[j] == {j - 1} && j - 1 !in {};
    }
    hide ValueOK;
    forall j, k | 0 <= j < k < |values|
      ensures values[j] != values[k]
    {
      assert k - 1 in values[k] && k - 1 !in values[j];
    }
  }

  /** Tables of codes only, under an all-ones mask: every listed value survives. */
  lemma CodesRoundTrip(codes: seq<Bits>, names: seq<string>, c: nat)
    requires DistinctCodes(codes, WIDTH) && GoodNames(names, |codes|) && c < |codes|
    ensures var t := MakeTable(codes, names, Low(WIDTH));
            SumOf(t, Names(t, codes[c], |t.entries|)) == Some(Val(codes[c], WIDTH))
  {
    hide Val, SumOf, Names, MakeTable, GoodNames;
    var ret := codes[c];
    assert ret * Low(WIDTH) == ret;
    assert ret <= Low(WIDTH) && ret - Low(WIDTH) == {};
    assert forall j :: 0 <= j < |codes| ==> ValueOK(codes[j], Low(WIDTH), ret);
    TableRoundTrip(codes, names, WIDTH, Low(WIDTH), ret);
  }

  /** SCALE_...: six codes, mode bits from 3 to 10, and SCALE_USERWEIGHT (31), which covers
      the code 7 and two mode bits. */
  function ScalingValues(): (v: seq<Bits>)
    ensures |v| == 15
  {
    [{}, {0}, {1}, {0, 1}, {2}, {0, 1, 2}, {3}, {4}, {0, 1, 2, 3, 4}, {5}, {6}, {7}, {8}, {9}, {10}]
  }

  lemma ScalingAt(j: nat)
    requires j < 15
    ensures var s := ScalingValues()[j];
            && (j == 0 ==> s == {}) && (1 <= j <= 4 ==> s < Low(3) && s != {}) && (j == 5 ==> s == Low(3))
            && (j == 6 || j == 7 ==> s == {j - 3}) && (j == 8 ==> s == Low(5)) && (j > 8 ==> s == {j - 4})
            && forall i :: i in s ==> i < 11
  {
    assert Low(3) == {0, 1, 2} && Low(5) == {0, 1, 2, 3, 4};
    if 1 <= j <= 4 {
      assert 0 in ScalingValues()[j] || 1 in ScalingValues()[j] || 2 in ScalingValues()[j];
      assert !(0 in ScalingValues()[j] && 1 in ScalingValues()[j] && 2 in ScalingValues()[j]);
    }
  }

  lemma ScalingDistinct()
    ensures forall j, k :: 0 <= j < k < 15 ==> ScalingValues()[j] != ScalingValues()[k]
  {
    var v := ScalingValues();
    assert forall j :: 0 <= j < 15 ==>
      && (0 in v[j] <==> j == 1 || j == 3 || j == 5 || j == 8) && (1 in v[j] <==> j == 2 || j == 3 || j == 5 || j == 8)
      && (2 in v[j] <==> j == 4 || j == 5 || j == 8) && (3 in v[j] <==> j == 6 || j == 8)
         && (4 in v[j] <==> j == 7 || j == 8);
    assert forall j :: 9 <= j < 15 ==> v[j] == {j - 4};
  }

  lemma LowGrows(b: nat, n: nat)
    requires b <= n
    ensures Low(b) <= Low(n)
  {
    LowMember(b);
    LowMember(n);
    hide Low;
  }

  lemma BelowLow(s: Bits, b: nat)
    requires forall i :: i in s ==> i < b
    ensures s <= Low(b)
  {
  }

  /** The listed code of a number. */
  lemma ScalingCode(ret: Bits) returns (c: nat)
    requires 2 in ret ==> (0 in ret <==> 1 in ret)
    ensures c < 6 && ScalingValues()[c] == ret * Low(3)
  {
    LowThree(ret);
    c := if 2 in ret then if 0 in ret then 5 else 4 else (if 0 in ret then 1 else 0) + if 1 in ret then 2 else 0;
    hide Low;
  }

  /** A number without the five bits of SCALE_USERWEIGHT, on a listed code. */
  lemma ScalingRoundTrip(names: seq<string>, ret: Bits)
    requires GoodNames(names, 15) && (forall i :: i in ret ==> i < 11) && !(Low(5) <= ret)
    requires 2 in ret ==> (0 in ret <==> 1 in ret)
    ensures SumOf(MakeTable(ScalingValues(), names, Low(3)), Names(MakeTable(ScalingValues(), names, Low(3)), ret, 15))
              == Some(Val(ret, WIDTH))
  {
    var v := ScalingValues();
    hide Val, SumOf, Names, MakeTable, GoodNames, ScalingValues, Low, ValueOK;
    ScalingDistinct();
    forall j | 0 <= j < 15
      ensures ValueOK(v[j], Low(3), ret)
    {
      ScalingValueOK(ret, j);
    }
    var c := ScalingCode(ret);
    LowThree(ret);
    forall i | i in ret - Low(3)
      ensures Listed(v, {i})
    {
      ScalingMode(ret, i);
    }
    BelowLow(ret, WIDTH);
    TableRoundTrip(v, names, 3, Low(3), ret);
  }

  lemma ScalingMode(ret: Bits, i: nat)
    requires i in ret - Low(3) && forall i :: i in ret ==> i < 11
    ensures Listed(ScalingValues(), {i})
  {
    LowThree(ret);
    var j := if i < 5 then i + 3 else i + 4;
    ScalingAt(j);
    hide ScalingValues;
    assert ScalingValues()[j] == {i};
  }

  lemma ScalingValueOK(ret: Bits, j: nat)
    requires j < 15 && !(Low(5) <= ret)
    ensures ValueOK(ScalingValues()[j], Low(3), ret)
  {
    ScalingAt(j);
    LowMember(3);
    LowMember(5);
    hide ScalingValues, Low;
    BelowLow(ScalingValues()[j], WIDTH);
  }

  /** The entries are the scaling values, under the mask SCALE_CURTISREID. */
  ghost predicate ScalingTable(t: Table) {
    && |t.entries| == 15 && t.mask == Low(3) && WellNamed(t)
    && forall j :: 0 <= j < 15 ==> t.entries[j].bits == ScalingValues()[j]
  }

  lemma MakesScalingTable(names: seq<string>)
    requires GoodNames(names, 15)
    ensures ScalingTable(MakeTable(ScalingValues(), names, Low(3)))
  {
    hide ScalingValues, Low;
  }

  /** A number with the five bits of SCALE_USERWEIGHT: that one name stands for all of them. */
  lemma ScalingUserWeight(names: seq<string>, ret: Bits)
    requires GoodNames(names, 15) && (forall i :: i in ret ==> i < 11) && Low(5) <= ret
    ensures SumOf(MakeTable(ScalingValues(), names, Low(3)), Names(MakeTable(ScalingValues(), names, Low(3)), ret, 15))
              == Some(Val(ret, WIDTH))
  {
    var t := MakeTable(ScalingValues(), names, Low(3));
    MakesScalingTable(names);
    hide *;
    UserWeightStructured(t, ret);
    UserWeightModes(t, ret);
    CodeAndModesRoundTrip(t, Low(5), ret, 8);
  }

  lemma UserWeightStructured(t: Table, ret: Bits)
    requires ScalingTable(t) && Low(5) <= ret && forall i :: i in ret ==> i < 11
    ensures Structured(t, Low(5), ret)
  {
    hide Low, ScalingValues, EntryOK, Val, WellNamed;
    ScalingDistinct();
    forall j | 0 <= j < 15
      ensures EntryOK(t, j, Low(5), ret)
      ensures forall i :: i in t.entries[j].bits ==> i < WIDTH
    {
      UserWeightEntry(t, ret, j);
      ScalingAt(j);
    }
  }

  lemma UserWeightModes(t: Table, ret: Bits)
    requires ScalingTable(t) && Low(5) <= ret && forall i :: i in ret ==> i < 11
    ensures CodePlusModes(t, Low(5), ret, 8)
  {
    hide Low, ScalingValues, Val, WellNamed;
    ScalingAt(8);
    LowMember(3);
    LowMember(5);
    ValSubset(Low(3), Low(5), WIDTH);
    assert t.entries[8].bits == ret * Low(5);
    forall i | i in ret - Low(5)
      ensures exists j :: 0 <= j < 15 && t.entries[j].bits == {i}
    {
      ScalingAt(i + 4);
      assert t.entries[i + 4].bits == {i};
    }
  }

  lemma UserWeightEntry(t: Table, ret: Bits, j: nat)
    requires ScalingTable(t) && Low(5) <= ret && j < 15
    ensures EntryOK(t, j, Low(5), ret)
  {
    hide Val, Low, ScalingValues, WellNamed, ScalingTable;
    if 1 <= j <= 4 {
      SmallCodeOverruled(t, ret, j);
    } else if 6 <= j {
      LargeValue(t, ret, j);
    } else {
      EdgeCode(t, ret, j);
    }
  }

  /** The codes 1 to 4 are overruled by the code 7. */
  lemma SmallCodeOverruled(t: Table, ret: Bits, j: nat)
    requires ScalingTable(t) && Low(5) <= ret && 1 <= j <= 4
    ensures t.entries[j].bits <= Low(5) && Overruled(t, j, ret)
  {
    hide Val, Low, ScalingValues, WellNamed;
    ScalingAt(j);
    ScalingAt(5);
    LowMember(3);
    LowMember(5);
    LargerIff(t.entries[j].bits, Low(3));
    assert Hidden(t, Compared(t, ret, t.entries[j]), j, 5);
  }

  lemma EdgeCode(t: Table, ret: Bits, j: nat)
    requires ScalingTable(t) && (j == 0 || j == 5)
    ensures EntryOK(t, j, Low(5), ret)
  {
    ScalingAt(j);
    LowMember(3);
    assert j == 5 ==> t.entries[j].bits == Low(3);
    hide Val, Low, ScalingValues, WellNamed;
  }

  /** Larger values are compared as they are. */
  lemma LargeValue(t: Table, ret: Bits, j: nat)
    requires ScalingTable(t) && 6 <= j < 15
    ensures EntryOK(t, j, Low(5), ret)
  {
    hide Val, Low, ScalingValues, WellNamed, Overruled;
    var s := t.entries[j].bits;
    ScalingAt(j);
    LowMember(5);
    var i := if j < 8 then j - 3 else if j == 8 then 4 else j - 4;
    assert i in s && i >= 3;
    ValAtLeast(s, i, 3, WIDTH);
    ValBelow(Low(3), 3, WIDTH);
    if j > 8 {
      assert IsMode(t.entries[j], Low(5), i);
    }
  }

  lemma LowMember(b: nat)
    ensures forall i :: i in Low(b) <==> 0 <= i < b
  {
  }

  // ----- the tables that list codes only -----

  /** CRASH_...: 0, 2 and 3. */
  function CrashValues(): seq<Bits> { [{}, {1}, {0, 1}] }

  /** SIMPLEX_...: 5, 6, 9 and 10. */
  function SimplexValues(): seq<Bits> { [{0, 2}, {1, 2}, {0, 3}, {1, 3}] }

  /** The verbosity levels, 0 to 6. */
  function VerbosityValues(): seq<Bits> { [{}, {0}, {1}, {0, 1}, {2}, {0, 2}, {1, 2}] }

  lemma CrashCodes()
    ensures DistinctCodes(CrashValues(), WIDTH)
  {
    var crash := CrashValues();
    LowMember(WIDTH);
    hide Low;
    assert forall j :: 0 <= j < 3 ==> (1 in crash[j] <==> j > 0) && (0 in crash[j] <==> j == 2);
  }

  lemma SimplexCodes()
    ensures DistinctCodes(SimplexValues(), WIDTH)
  {
    var simplex := SimplexValues();
    LowMember(WIDTH);
    hide Low;
    assert forall j :: 0 <= j < 4 ==> (0 in simplex[j] <==> j % 2 == 0) && (2 in simplex[j] <==> j < 2);
  }

  lemma VerbosityCodes()
    ensures DistinctCodes(VerbosityValues(), WIDTH)
  {
    hide Low;
    forall j | 0 <= j < 7
      ensures VerbosityValues()[j] <= Low(WIDTH)
    {
      VerbosityAt(j);
    }
    forall j, k | 0 <= j < k < 7
      ensures VerbosityValues()[j] != VerbosityValues()[k]
    {
      VerbosityAt(j);
      VerbosityAt(k);
    }
  }

  lemma VerbosityAt(j: nat)
    requires j < 7
    ensures var level := VerbosityValues()[j];
            && level <= Low(WIDTH)
            && (0 in level <==> j % 2 == 1) && (1 in level <==> j / 2 % 2 == 1) && (2 in level <==> j >= 4)
  {
    LowMember(WIDTH);
    hide Low;
  }

  /** Each is written as its one name, zero included. */
  lemma CodeName(codes: seq<Bits>, names: seq<string>, c: nat)
    requires DistinctCodes(codes, WIDTH) && GoodNames(names, |codes|) && c < |codes|
    ensures Names(MakeTable(codes, names, Low(WIDTH)), codes[c], |codes|) == [names[c]]
  {
    var t, ret := MakeTable(codes, names, Low(WIDTH)), codes[c];
    CodesStructured(codes, names, c);
    forall j | 0 <= j < |codes|
      ensures Shown(t, ret, j) <==> j == c
    {
      assert codes[j] <= Low(WIDTH) && (j != c ==> codes[j] != codes[c]);
      hide Shown, Structured, CodePlusModes, Low;
      if codes[j] == {} {
        ZeroShownIff(t, ret, j);
        LowMember(WIDTH);
      } else {
        ShownIff(t, Low(WIDTH), ret, c, j);
      }
    }
    hide Shown, Names;
    OnlyName(t, ret, c, |codes|);
  }

  lemma CodesStructured(codes: seq<Bits>, names: seq<string>, c: nat)
    requires DistinctCodes(codes, WIDTH) && GoodNames(names, |codes|) && c < |codes|
    ensures var t, ret := MakeTable(codes, names, Low(WIDTH)), codes[c];
            Structured(t, Low(WIDTH), ret) && CodePlusModes(t, Low(WIDTH), ret, c)
  {
    hide Val, GoodNames, Structured;
    var ret := codes[c];
    assert ret * Low(WIDTH) == ret && ret <= Low(WIDTH) && ret - Low(WIDTH) == {};
    assert forall j :: 0 <= j < |codes| ==> ValueOK(codes[j], Low(WIDTH), ret);
    TableStructured(codes, names, WIDTH, Low(WIDTH), ret);
  }

  lemma {:induction false} OnlyName(t: Table, ret: Bits, c: nat, n: nat)
    requires c < |t.entries| && n <= |t.entries| && forall j :: 0 <= j < |t.entries| ==> (Shown(t, ret, j) <==> j == c)
    ensures Names(t, ret, n) == if c < n then [t.entries[c].name] else []
  {
    hide Shown;
    if n > 0 {
      OnlyName(t, ret, c, n - 1);
    }
  }

  /** The number of four bits. */
  lemma ValFour(s: Bits)
    requires s <= {0, 1, 2, 3}
    ensures Val(s, WIDTH) == (if 0 in s then 1 else 0) + (if 1 in s then 2 else 0) + (if 2 in s then 4 else 0)
                             + if 3 in s then 8 else 0
  {
    ValBeyond(s, WIDTH);
    assert Pow(0) == 1 && Pow(1) == 2 && Pow(2) == 4 && Pow(3) == 8;
    assert Val(s, 4) == Val(s, 3) + (if 3 in s then 8 else 0);
    assert Val(s, 3) == Val(s, 2) + (if 2 in s then 4 else 0);
    assert Val(s, 2) == Val(s, 1) + (if 1 in s then 2 else 0);
    assert Val(s, 1) == if 0 in s then 1 else 0;
  }

  lemma {:induction false} ValBeyond(s: Bits, n: nat)
    requires s <= {0, 1, 2, 3} && n >= 4
    ensures Val(s, n) == Val(s, 4)
  {
    if n > 4 {
      ValBeyond(s, n - 1);
    }
  }

  /** Every crash mode is written as its name and read back as its number. */
  lemma CrashRoundTrip(names: seq<string>, c: nat)
    requires GoodNames(names, 3) && c < 3
    ensures var t, number := MakeTable(CrashValues(), names, Low(WIDTH)), [0, 2, 3][c];
            && Val(CrashValues()[c], WIDTH) == number
            && Names(t, CrashValues()[c], 3) == [names[c]] && SumOf(t, [names[c]]) == Some(number)
  {
    CrashNumber(c);
    hide Val, SumOf, Names, MakeTable, GoodNames, DistinctCodes;
    CrashCodes();
    CodesRoundTrip(CrashValues(), names, c);
    CodeName(CrashValues(), names, c);
  }

  lemma CrashNumber(c: nat)
    requires c < 3
    ensures Val(CrashValues()[c], WIDTH) == [0, 2, 3][c]
  {
    hide Val;
    ValFour(CrashValues()[c]);
  }

  /** Every simplex type is. */
  lemma SimplexRoundTrip(names: seq<string>, c: nat)
    requires GoodNames(names, 4) && c < 4
    ensures var t, number := MakeTable(SimplexValues(), names, Low(WIDTH)), [5, 6, 9, 10][c];
            && Val(SimplexValues()[c], WIDTH) == number
            && Names(t, SimplexValues()[c], 4) == [names[c]] && SumOf(t, [names[c]]) == Some(number)
  {
    SimplexNumber(c);
    hide Val, SumOf, Names, MakeTable, GoodNames, DistinctCodes;
    SimplexCodes();
    CodesRoundTrip(SimplexValues(), names, c);
    CodeName(SimplexValues(), names, c);
  }

  lemma SimplexNumber(c: nat)
    requires c < 4
    ensures Val(SimplexValues()[c], WIDTH) == [5, 6, 9, 10][c]
  {
    hide Val;
    ValFour(SimplexValues()[c]);
  }

  /** Every verbosity level is. */
  lemma VerbosityRoundTrip(names: seq<string>, c: nat)
    requires GoodNames(names, 7) && c < 7
    ensures var t := MakeTable(VerbosityValues(), names, Low(WIDTH));
            && Val(VerbosityValues()[c], WIDTH) == c
            && Names(t, VerbosityValues()[c], 7) == [names[c]] && SumOf(t, [names[c]]) == Some(c)
  {
    VerbosityNumber(c);
    hide Val, SumOf, Names, MakeTable, GoodNames, DistinctCodes;
    VerbosityCodes();
    CodesRoundTrip(VerbosityValues(), names, c);
    CodeName(VerbosityValues(), names, c);
  }

  lemma VerbosityNumber(c: nat)
    requires c < 7
    ensures Val(VerbosityValues()[c], WIDTH) == c
  {
    hide Val, Low;
    VerbosityAt(c);
    var v := VerbosityValues()[c];
    assert v <= {0, 1, 2, 3};
    ValFour(v);
  }
}
