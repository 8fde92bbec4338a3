/** Options that take several values in one argument, separated by commas (cmdline.c): a
    comma behind a backslash does not separate, and the backslash is dropped. */
module MultipleArgs {

  datatype Option<T> = None | Some(value: T)

  // ----- the separating comma -----

  /** strchr(arg + k, ','), or the length. */
  function FindComma(arg: string, k: nat): (i: nat)
    requires k <= |arg|
    ensures k <= i <= |arg| && (i < |arg| ==> arg[i] == ',')
    ensures forall j :: k <= j < i ==> arg[j] != ','
    decreases |arg| - k
  {
    if k == |arg| || arg[k] == ',' then k else FindComma(arg, k + 1)
  }

  /** The character in front of position k; the code reads one byte before its argument. */
  function Previous(arg: string, before: char, k: nat): char
    requires k <= |arg|
  {
    if k == 0 then before else arg[k - 1]
  }

  /** The first comma from k on that is not escaped, or the length. */
  function Cut(arg: string, before: char, k: nat): (i: nat)
    requires k <= |arg|
    ensures k <= i <= |arg|
    ensures i < |arg| ==> arg[i] == ',' && Previous(arg, before, i) != '\\'
    decreases |arg| - k
  {
    if k == |arg| || (arg[k] == ',' && Previous(arg, before, k) != '\\') then k else Cut(arg, before, k + 1)
  }

  /** The commas passed over from k to i. */
  function Commas(arg: string, k: nat, i: nat): (n: nat)
    requires k <= i <= |arg|
    ensures n <= i - k
    decreases i - k
  {
    if k == i then 0 else (if arg[k] == ',' then 1 else 0) + Commas(arg, k + 1, i)
  }

  lemma {:induction false} NoCommas(arg: string, k: nat, i: nat, e: nat)
    requires k <= i <= e <= |arg| && forall j :: k <= j < i ==> arg[j] != ','
    ensures Commas(arg, k, e) == Commas(arg, i, e)
    decreases i - k
  {
    if k < i {
      NoCommas(arg, k + 1, i, e);
    }
  }

  lemma {:induction false} CutSkips(arg: string, before: char, k: nat, i: nat)
    requires k <= i <= |arg| && forall j :: k <= j < i ==> !(arg[j] == ',' && Previous(arg, before, j) != '\\')
    ensures Cut(arg, before, k) == Cut(arg, before, i)
    decreases i - k
  {
    if k < i {
      CutSkips(arg, before, k + 1, i);
    }
  }

  /** The search loop of both functions. */
  method FindSeparator(arg: string, before: char) returns (tok: nat, escapes: nat)
    ensures tok == Cut(arg, before, 0) && escapes == Commas(arg, 0, tok)
  {
    tok, escapes := FindComma(arg, 0), 0;
    NoCommas(arg, 0, tok, tok);
    CutSkips(arg, before, 0, tok);
    while tok < |arg| && Previous(arg, before, tok) == '\\'
      invariant tok <= |arg| && (tok < |arg| ==> arg[tok] == ',')
      invariant Cut(arg, before, 0) == Cut(arg, before, tok)
      invariant escapes == Commas(arg, 0, tok)
      decreases |arg| - tok
    {
      var next := FindComma(arg, tok + 1);
      CutSkips(arg, before, tok, next);
      CommasTo(arg, 0, tok, next);
      NoCommas(arg, tok + 1, next, next);
      tok, escapes := next, escapes + 1;
    }
  }

  lemma {:induction false} CommasTo(arg: string, k: nat, i: nat, e: nat)
    requires k <= i <= e <= |arg|
    ensures Commas(arg, k, e) == Commas(arg, k, i) + Commas(arg, i, e)
    decreases i - k
  {
    if k < i {
      CommasTo(arg, k + 1, i, e);
    }
  }

  // ----- one token -----

  /** Drops every backslash that stands before a comma. */
  function Unescape(s: string): (r: string)
    ensures |r| <= |s|
  {
    if s == "" then ""
    else if s[0] == '\\' && |s| > 1 && s[1] == ',' then "," + Unescape(s[2..])
    else [s[0]] + Unescape(s[1..])
  }

  /** As many characters are dropped as there are commas behind a backslash, so what is left
      of the first i characters is known by length. */
  lemma {:induction false} UnescapeLength(s: string)
    ensures |Unescape(s)| + Commas(s, 0, |s|) >= |s|
    ensures (forall i :: 0 <= i < |s| && s[i] == ',' ==> i > 0 && s[i - 1] == '\\') ==>
              |Unescape(s)| + Commas(s, 0, |s|) == |s|
  {
    if s == "" {
    } else if s[0] == '\\' && |s| > 1 && s[1] == ',' {
      UnescapeLength(s[2..]);
      CommasTail(s, 2);
      assert forall i :: 0 <= i < |s[2..]| ==> s[2..][i] == s[i + 2];
    } else {
      UnescapeLength(s[1..]);
      CommasTail(s, 1);
    }
  }

  lemma CommasTail(s: string, k: nat)
    requires k <= |s|
    ensures Commas(s, k, |s|) == Commas(s[k..], 0, |s| - k)
  {
    CommasShift(s, k, 0);
  }

  lemma {:induction false} CommasShift(s: string, k: nat, i: nat)
    requires k + i <= |s|
    ensures Commas(s, k + i, |s|) == Commas(s[k..], i, |s| - k)
    decreases |s| - i
  {
    if k + i < |s| {
      CommasShift(s, k, i + 1);
    }
  }

  lemma {:induction false} CommasPrefix(s: string, k: nat, e: nat)
    requires k <= e <= |s|
    ensures Commas(s[..e], k, e) == Commas(s, k, e)
    decreases e - k
  {
    if k < e {
      CommasPrefix(s, k + 1, e);
    }
  }

  /** What get_multiple_arg_token returns. */
  function TokenText(arg: string, before: char): (r: string)
  {
    var cut := Cut(arg, before, 0);
    LengthFits(arg, before);
    Unescape(arg)[..cut - Commas(arg, 0, cut)]
  }

  lemma LengthFits(arg: string, before: char)
    ensures var cut := Cut(arg, before, 0); 0 <= cut - Commas(arg, 0, cut) <= |Unescape(arg)|
  {
    var cut := Cut(arg, before, 0);
    UnescapeLength(arg);
    CommasTo(arg, 0, cut, |arg|);
  }

  /** get_multiple_arg_token */
  method GetToken(arg: string, before: char) returns (ret: string)
    ensures ret == TokenText(arg, before)
  {
    var tok, escapes := FindSeparator(arg, before);
    LengthFits(arg, before);
    var len := tok - escapes;
    var i, j := 0, 0;
    ret := "";
    assert arg[0..] == arg;
    hide Unescape, Commas, Cut;
    while i < |arg| && j < len
      invariant 0 <= i <= |arg| && j == |ret| <= len
      invariant Unescape(arg) == ret + Unescape(arg[i..])
      decreases len - j
    {
      ghost var from := arg[i..];
      UnescapeStep(from);
      if arg[i] == '\\' && i + 1 < |arg| && arg[i + 1] == ',' {
        i := i + 1;
        assert from[2..] == arg[i + 1..];
      } else {
        assert from[1..] == arg[i + 1..];
      }
      Regroup(ret, [arg[i]], Unescape(arg[i + 1..]));
      ret := ret + [arg[i]];
      i, j := i + 1, j + 1;
    }
    UnescapeNothing();
    assert Unescape(arg)[..len] == ret;
  }

  lemma UnescapeNothing()
    ensures Unescape("") == ""
  {
  }

  /** Text without a separator in front of one: what stands before it is unescaped on its
      own. */
  lemma {:induction false} UnescapeJoin(s: string, t: string)
    requires s == "" || t == "" || s[|s| - 1] != '\\' || t[0] != ','
    ensures Unescape(s + t) == Unescape(s) + Unescape(t)
    decreases |s|
  {
    hide Unescape;
    var st := s + t;
    if s == "" {
      UnescapeNothing();
      assert st == t;
    } else {
      UnescapeStep(s);
      UnescapeStep(st);
      if s[0] == '\\' && |s| > 1 && s[1] == ',' {
        UnescapeJoin(s[2..], t);
        assert st[2..] == s[2..] + t;
        Regroup(",", Unescape(s[2..]), Unescape(t));
      } else {
        UnescapeJoin(s[1..], t);
        assert st[1..] == s[1..] + t;
        Regroup([s[0]], Unescape(s[1..]), Unescape(t));
      }
    }
  }

  lemma Regroup<T>(x: seq<T>, y: seq<T>, z: seq<T>)
    ensures x + (y + z) == (x + y) + z
  {
  }

  lemma UnescapeStep(s: string)
    requires s != ""
    ensures Unescape(s) == if s[0] == '\\' && |s| > 1 && s[1] == ',' then "," + Unescape(s[2..])
              else [s[0]] + Unescape(s[1..])
  {
  }

  /** Unless the byte in front of the argument makes a leading comma look escaped, the
      token is the unescaped text up to the separator. */
  lemma TokenIsPrefix(arg: string, before: char)
    requires arg == "" || arg[0] != ',' || before != '\\'
    ensures TokenText(arg, before) == Unescape(arg[..Cut(arg, before, 0)])
  {
    var cut := Cut(arg, before, 0);
    var s, t := arg[..cut], arg[cut..];
    UnescapeJoin(s, t);
    assert s + t == arg;
    BeforeCut(arg, before, 0);
    UnescapeLength(s);
    CommasPrefix(arg, 0, cut);
  }

  lemma {:induction false} BeforeCut(arg: string, before: char, k: nat)
    requires k <= |arg|
    ensures forall i :: k <= i < Cut(arg, before, k) && arg[i] == ',' ==> Previous(arg, before, i) == '\\'
    decreases |arg| - k
  {
    if k < Cut(arg, before, k) {
      BeforeCut(arg, before, k + 1);
    }
  }

  /** get_multiple_arg_token_next: where the next token starts. */
  method GetTokenNext(arg: string, before: char) returns (next: Option<nat>)
    ensures next == NextToken(arg, before)
  {
    var tok, escapes := FindSeparator(arg, before);
    next := if tok == |arg| || tok == |arg| - 1 then None else Some(tok + 1);
  }

  /** A separator at the very end starts no further token. */
  function NextToken(arg: string, before: char): (next: Option<nat>)
    ensures next.Some? ==> 0 < next.value < |arg| && arg[next.value - 1] == ','
  {
    var tok := Cut(arg, before, 0);
    if tok >= |arg| - 1 then None else Some(tok + 1)
  }

  // ----- all tokens -----

  function Split(arg: string, before: char): (r: seq<string>)
    ensures |r| > 0
    decreases |arg|
  {
    var next := NextToken(arg, before);
    [TokenText(arg, before)] + if next.None? then [] else Split(arg[next.value..], ',')
  }

  function Escape(t: string): (r: string)
  {
    if t == "" then "" else (if t[0] == ',' then "\\," else [t[0]]) + Escape(t[1..])
  }

  /** The tokens as a caller writes them on the command line. */
  function Join(ts: seq<string>): string
    requires |ts| > 0
  {
    if |ts| == 1 then Escape(ts[0]) else Escape(ts[0]) + "," + Join(ts[1..])
  }

  lemma {:induction false} UnescapeEscape(t: string)
    ensures Unescape(Escape(t)) == t
    ensures t != "" ==> Escape(t) != "" && (Escape(t)[|Escape(t)| - 1] == t[|t| - 1])
    ensures t == "" <==> Escape(t) == ""
  {
    if t != "" {
      UnescapeEscape(t[1..]);
      if t[0] == ',' {
        assert Escape(t)[2..] == Escape(t[1..]);
      } else {
        assert Escape(t)[1..] == Escape(t[1..]);
        EscapeStart(t[1..]);
      }
    }
  }

  /** Escaped text never starts with a comma, and every comma in it follows a backslash. */
  lemma {:induction false} EscapeStart(t: string)
    ensures Escape(t) != "" ==> Escape(t)[0] != ','
    ensures forall i :: 0 <= i < |Escape(t)| && Escape(t)[i] == ',' ==> i > 0 && Escape(t)[i - 1] == '\\'
  {
    if t != "" {
      EscapeStart(t[1..]);
    }
  }

  // ----- the round trip -----

  /** Escaped text contains no separator. */
  lemma CutBehind(x: string, y: string, before: char)
    requires forall i :: 0 <= i < |x| && x[i] == ',' ==> Previous(x, before, i) == '\\'
    ensures Cut(x + y, before, 0) == Cut(x + y, before, |x|)
  {
    var s := x + y;
    forall j | 0 <= j < |x|
      ensures !(s[j] == ',' && Previous(s, before, j) != '\\')
    {
      assert s[j] == x[j] && (j > 0 ==> s[j - 1] == x[j - 1]);
    }
    CutSkips(s, before, 0, |x|);
  }

  /** Where the first separator of a joined list stands, with text already pending. */
  lemma CutAtSeparator(x: string, t: string, rest: string, before: char)
    requires forall i :: 0 <= i < |x| && x[i] == ',' ==> Previous(x, before, i) == '\\'
    requires x + Escape(t) == "" ==> before != '\\'
    requires x + Escape(t) != "" ==> (x + Escape(t))[|x + Escape(t)| - 1] != '\\'
    ensures Cut(x + Escape(t) + "," + rest, before, 0) == |x + Escape(t)|
  {
    var p := x + Escape(t);
    EscapeStart(t);
    EscapedAfter(x, t, before);
    var s := p + "," + rest;
    assert s == p + ("," + rest);
    CutBehind(p, "," + rest, before);
  }

  lemma EscapedAfter(x: string, t: string, before: char)
    requires forall i :: 0 <= i < |x| && x[i] == ',' ==> Previous(x, before, i) == '\\'
    ensures var p := x + Escape(t); Pending(p, before)
  {
    var p, e := x + Escape(t), Escape(t);
    EscapeStart(t);
    forall i | 0 <= i < |p| && p[i] == ','
      ensures Previous(p, before, i) == '\\'
    {
      if i < |x| {
        assert x[i] == ',';
      } else {
        assert e[i - |x|] == ',' && e[i - |x| - 1] == '\\';
      }
    }
  }

  /** The lists that survive: no token but the last ends in a backslash, the last one is not
      empty, unless it is the only one, and the first one is not empty when the byte in
      front of the argument is a backslash. */
  predicate Plain(ts: seq<string>, before: char)
    requires |ts| > 0
  {
    |ts| == 1 ||
    (&& (ts[0] == "" ==> before != '\\') && (ts[0] != "" ==> ts[0][|ts[0]| - 1] != '\\')
     && (|ts| == 2 ==> ts[1] != "")
     && Plain(ts[1..], ','))
  }

  lemma {:induction false} JoinOneLength(ts: seq<string>)
    requires |ts| > 0
    ensures Join(ts) == "" <==> ts == [""]
  {
    UnescapeEscape(ts[0]);
    if |ts| == 1 && ts[0] == "" {
      assert ts == [""];
    }
  }

  lemma JoinParts(ts: seq<string>, before: char)
    requires |ts| > 1 && Plain(ts, before)
    ensures Join(ts) == Escape(ts[0]) + "," + Join(ts[1..]) && Join(ts[1..]) != ""
    ensures (ts[0] == "" ==> before != '\\') && (ts[0] != "" ==> ts[0][|ts[0]| - 1] != '\\')
  {
    JoinOneLength(ts[1..]);
    hide Join, Escape;
    assert |ts| == 2 ==> ts[1..] == [ts[1]];
  }

  /** The token and the rest of a joined list of at least two. */
  lemma JoinCut(ts: seq<string>, before: char)
    requires |ts| > 1 && Plain(ts, before)
    ensures TokenText(Join(ts), before) == ts[0]
    ensures NextToken(Join(ts), before) == Some(|Escape(ts[0])| + 1)
    ensures Join(ts)[|Escape(ts[0])| + 1..] == Join(ts[1..])
  {
    hide Escape, Unescape, Join, Cut, Commas, TokenText, Plain;
    var t, e, rest := ts[0], Escape(ts[0]), Join(ts[1..]);
    var s := e + "," + rest;
    JoinParts(ts, before);
    UnescapeEscape(t);
    EscapeStart(t);
    HeadAndTail(e, rest);
    CutAtSeparator("", t, rest, before);
    TokenIsPrefix(s, before);
  }

  lemma HeadAndTail(e: string, rest: string)
    ensures var s := e + "," + rest;
            "" + e == e && |s| == |e| + 1 + |rest| && s[..|e|] == e && s[|e| + 1..] == rest
              && (e != "" ==> s[0] == e[0])
  {
  }

  /** Splitting undoes joining. */
  lemma {:induction false} SplitJoin(ts: seq<string>, before: char)
    requires |ts| > 0 && Plain(ts, before)
    ensures Split(Join(ts), before) == ts
    decreases |ts|
  {
    if |ts| == 1 {
      JoinOne(ts[0], before);
    } else {
      JoinCut(ts, before);
      SplitJoin(ts[1..], ',');
      assert ts == [ts[0]] + ts[1..];
    }
  }

  lemma JoinOne(t: string, before: char)
    ensures Split(Escape(t), before) == [t]
  {
    var e := Escape(t);
    UnescapeEscape(t);
    EscapeStart(t);
    EscapedAfter("", t, before);
    assert "" + e == e && e + "" == e;
    CutBehind(e, "", before);
    TokenIsPrefix(e, before);
    assert e[..|e|] == e;
  }

  ghost predicate Pending(x: string, before: char) {
    forall i :: 0 <= i < |x| && x[i] == ',' ==> Previous(x, before, i) == '\\'
  }

  /** Whether the comma behind the first of several tokens is taken for an escaped one. */
  predicate Swallowed(p: string, before: char) {
    Previous(p, before, |p|) == '\\'
  }

  lemma JoinSplit(x: string, ts: seq<string>, before: char)
    requires |ts| > 1 && Pending(x, before)
    ensures var p, s := x + Escape(ts[0]), x + Join(ts);
            && Pending(p, before) && s == p + "," + Join(ts[1..])
            && (Swallowed(p, before) ==> Pending(p + ",", before) && s == (p + ",") + Join(ts[1..]))
            && (!Swallowed(p, before) ==> Cut(s, before, 0) == |p| && s[|p| + 1..] == Join(ts[1..]))
  {
    var p, rest := x + Escape(ts[0]), Join(ts[1..]);
    var s := p + "," + rest;
    assert x + Join(ts) == s;
    EscapedAfter(x, ts[0], before);
    assert Pending(p, before);
    hide Escape, Join;
    if Swallowed(p, before) {
      var q := p + ",";
      forall i | 0 <= i < |q| && q[i] == ','
        ensures Previous(q, before, i) == '\\'
      {
        assert Previous(q, before, i) == Previous(p, before, i);
        if i < |p| {
          assert p[i] == ',';
        } else {
          assert i == |p|;
        }
      }
    } else {
      CutAtSeparator(x, ts[0], rest, before);
    }
  }

  /** Splitting never gives more tokens than were joined. */
  lemma {:induction false} SplitCount(x: string, ts: seq<string>, before: char)
    requires |ts| > 0 && Pending(x, before)
    ensures |Split(x + Join(ts), before)| <= |ts|
    decreases |ts|
  {
    var s := x + Join(ts);
    if |ts| == 1 {
      EscapedAfter(x, ts[0], before);
      assert s == x + Escape(ts[0]);
      CutBehind(s, "", before);
      assert s + "" == s;
    } else {
      JoinSplit(x, ts, before);
      var p := x + Escape(ts[0]);
      if Swallowed(p, before) {
        SplitCount(p + ",", ts[1..], before);
      } else {
        SplitCount("", ts[1..], ',');
        assert "" + Join(ts[1..]) == Join(ts[1..]);
      }
    }
  }

  lemma {:induction false} SplitFewer(ts: seq<string>, before: char)
    requires |ts| > 0 && !Plain(ts, before)
    ensures |Split(Join(ts), before)| < |ts|
    decreases |ts|
  {
    hide *;
    var p := Escape(ts[0]);
    NotPlain(ts, before);
    JoinSplit("", ts, before);
    assert "" + p == p && "" + Join(ts) == Join(ts);
    SplitLength(Join(ts), before);
    if Swallowed(p, before) {
      SplitCount(p + ",", ts[1..], before);
    } else if ts[1..] == [""] {
      JoinOneLength(ts[1..]);
    } else {
      SplitFewer(ts[1..], ',');
    }
  }

  /** Where a list fails to be plain. */
  lemma NotPlain(ts: seq<string>, before: char)
    requires |ts| > 0 && !Plain(ts, before)
    ensures |ts| > 1 && Pending("", before)
    ensures Swallowed(Escape(ts[0]), before) || ts[1..] == [""] || !Plain(ts[1..], ',')
  {
    UnescapeEscape(ts[0]);
    assert |ts| == 2 && ts[1] == "" ==> ts[1..] == [""];
    hide Escape, Unescape;
  }

  /** The number of tokens, from where the first separator stands. */
  lemma SplitLength(arg: string, before: char)
    ensures var tok := Cut(arg, before, 0);
            |Split(arg, before)| == if tok >= |arg| - 1 then 1 else 1 + |Split(arg[tok + 1..], ',')|
  {
    hide Cut, TokenText, Split;
    SplitStep(arg, before);
  }

  /** Exactly which lists of tokens come back as they were. */
  lemma SplitJoinIff(ts: seq<string>, before: char)
    requires |ts| > 0
    ensures Split(Join(ts), before) == ts <==> Plain(ts, before)
  {
    if Plain(ts, before) {
      SplitJoin(ts, before);
    } else {
      SplitFewer(ts, before);
    }
  }

  // ----- collecting the values -----

  /** update_multiple_arg_temp: every token is put in front of the list. */
  method CollectTokens(val: string, before: char, list: seq<string>) returns (longer: seq<string>)
    ensures longer == Reversed(Split(val, before)) + list
  {
    longer := list;
    var arg, prev := val, before;
    var done := false;
    ghost var taken := [];
    hide *;
    ReversedNothing();
    while !done
      invariant longer == Reversed(taken) + list
      invariant Split(val, before) == taken + if done then [] else Split(arg, prev)
      decreases !done, |arg|
    {
      var token := GetToken(arg, prev);
      var next := GetTokenNext(arg, prev);
      SplitStep(arg, prev);
      ReversedSnoc(taken, token);
      Regroup([token], Reversed(taken), list);
      Regroup(taken, [token], if next.None? then [] else Split(arg[next.value..], ','));
      longer := [token] + longer;
      taken := taken + [token];
      if next.None? {
        done := true;
      } else {
        arg, prev := arg[next.value..], ',';
      }
    }
    assert taken + [] == taken;
  }

  lemma SplitStep(arg: string, before: char)
    ensures var next := NextToken(arg, before);
            Split(arg, before) == [TokenText(arg, before)] + if next.None? then [] else Split(arg[next.value..], ',')
  {
  }

  lemma ReversedNothing()
    ensures Reversed([]) == []
  {
  }

  function Reversed(s: seq<string>): (r: seq<string>)
    ensures |r| == |s| && forall i :: 0 <= i < |s| ==> r[i] == s[|s| - 1 - i]
  {
    if s == [] then [] else Reversed(s[1..]) + [s[0]]
  }

  lemma ReversedSnoc(s: seq<string>, x: string)
    ensures Reversed(s + [x]) == [x] + Reversed(s)
  {
  }

  /** update_multiple_arg: the list is drained into the array from its end on. */
  method FillField(field: array<string>, given: nat, list: seq<string>)
    requires field.Length == given + |list|
    modifies field
    ensures field[..] == old(field[..given]) + Reversed(list)
  {
    var tmp := list;
    var i := |list| - 1;
    while i >= 0
      invariant -1 <= i < |list| && tmp == list[|list| - 1 - i..]
      invariant field[..given] == old(field[..given])
      invariant forall k :: i < k < |list| ==> field[given + k] == Reversed(list)[k]
    {
      field[given + i] := tmp[0];
      tmp := tmp[1..];
      i := i - 1;
    }
  }

  function Flatten(vals: seq<seq<string>>): (r: seq<string>)
  {
    if vals == [] then [] else Flatten(vals[..|vals| - 1]) + vals[|vals| - 1]
  }

  /** Every occurrence of the option adds its tokens; at the end the array holds the earlier
      values and then all tokens in the order of the command line. */
  method CollectOption(vals: seq<string>, before: seq<char>, field: array<string>) returns (values: array<string>)
    requires |before| == |vals|
    ensures values[..] == field[..] + Flatten(seq(|vals|, i requires 0 <= i < |vals| => Split(vals[i], before[i])))
  {
    var list: seq<string> := [];
    ghost var parts := seq(|vals|, i requires 0 <= i < |vals| => Split(vals[i], before[i]));
    for i := 0 to |vals|
      invariant Reversed(list) == Flatten(parts[..i])
    {
      ghost var was := list;
      list := CollectTokens(vals[i], before[i], list);
      ReversedJoin(parts[i], was);
      assert parts[..i + 1][..i] == parts[..i];
    }
    assert parts[..|vals|] == parts;
    values := new string[field.Length + |list|];
    for i := 0 to field.Length
      invariant values[..i] == field[..i]
    {
      values[i] := field[i];
    }
    FillField(values, field.Length, list);
  }

  lemma ReversedJoin(s: seq<string>, t: seq<string>)
    ensures Reversed(Reversed(s) + t) == Reversed(t) + s
  {
    hide *;
    var u, r := Reversed(s) + t, Reversed(t) + s;
    forall i | 0 <= i < |u|
      ensures Reversed(u)[i] == r[i]
    {
    }
  }

  /** When every occurrence is a joined list of tokens, the values collected are those tokens
      in order. */
  lemma SplitsOfJoins(lists: seq<seq<string>>, vals: seq<string>, before: seq<char>)
    requires |vals| == |lists| == |before|
    requires forall i :: 0 <= i < |lists| ==> |lists[i]| > 0 && Plain(lists[i], before[i]) && vals[i] == Join(lists[i])
    ensures seq(|vals|, i requires 0 <= i < |vals| => Split(vals[i], before[i])) == lists
  {
    hide Split, Join, Plain;
    forall i | 0 <= i < |lists|
      ensures Split(vals[i], before[i]) == lists[i]
    {
      SplitJoin(lists[i], before[i]);
    }
  }
}
