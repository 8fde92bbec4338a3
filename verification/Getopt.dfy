/** The getopt scanner of cmdline.c: argv is permuted in place while options are handed
    out one by one, a cluster of short options over several calls.  `Parse` says what one
    left-to-right reading of the arguments means, without any permutation. */
module Getopt {
  import opened Exchange

  datatype Option<T> = None | Some(value: T)

  datatype Arg = NoArgument | RequiredArgument | OptionalArgument

  datatype LongOption = LongOption(name: string, arg: Arg, flag: int, val: int)

  /** Whether a short option exists and takes an argument. */
  datatype Kind = Unknown | Known(arg: Arg)

  /** What one call hands out. */
  datatype Event =
    | Short(c: char, arg: Option<string>)
    | InvalidShort(c: char)
    | MissingShort(c: char)
    | Long(index: nat, arg: Option<string>)
    | AmbiguousLong
    | UnknownLong
    | MissingLong(index: nat)
    | UnwantedLong(index: nat)

  /** The options a program accepts; `longopts` is None for plain getopt. */
  datatype Options = Options(optstring: string, longopts: Option<seq<LongOption>>)

  // ----- short options -----

  /** strchr, and the colons that follow the character it finds. */
  function ShortKind(optstring: string, c: char): Kind {
    if optstring == "" then Unknown
    else if optstring[0] == c then
      if c == ':' then Unknown
      else if |optstring| > 1 && optstring[1] == ':' then
        if |optstring| > 2 && optstring[2] == ':' then Known(OptionalArgument) else Known(RequiredArgument)
      else Known(NoArgument)
    else ShortKind(optstring[1..], c)
  }

  /** What a cluster of option characters means when `next` is the argument after it, and
      whether it takes that argument. */
  function Cluster(optstring: string, text: string, next: Option<string>): (r: (seq<Event>, bool))
    requires text != ""
    ensures r.1 ==> next.Some?
  {
    var c, rest := text[0], text[1..];
    match ShortKind(optstring, c)
    case Unknown => Before(InvalidShort(c), if rest == "" then ([], false) else Cluster(optstring, rest, next))
    case Known(NoArgument) => Before(Short(c, None), if rest == "" then ([], false) else Cluster(optstring, rest, next))
    case Known(OptionalArgument) => ([Short(c, if rest == "" then None else Some(rest))], false)
    case Known(RequiredArgument) =>
      if rest != "" then ([Short(c, Some(rest))], false)
      else if next.None? then ([MissingShort(c)], false)
      else ([Short(c, next)], true)
  }

  function Before(e: Event, r: (seq<Event>, bool)): (seq<Event>, bool) {
    ([e] + r.0, r.1)
  }

  /** Where an option is first listed decides what it takes. */
  lemma {:induction false} ShortKindIs(optstring: string, c: char, i: nat)
    requires i < |optstring| && optstring[i] == c != ':' && forall k :: 0 <= k < i ==> optstring[k] != c
    ensures ShortKind(optstring, c) ==
              if i + 1 < |optstring| && optstring[i + 1] == ':'
              then Known(if i + 2 < |optstring| && optstring[i + 2] == ':' then OptionalArgument else RequiredArgument)
              else Known(NoArgument)
  {
    if i > 0 {
      ShortKindIs(optstring[1..], c, i - 1);
    }
  }

  lemma {:induction false} ShortUnknown(optstring: string, c: char)
    requires c == ':' || c !in optstring
    ensures ShortKind(optstring, c) == Unknown
  {
    if optstring != "" && optstring[0] != c {
      ShortUnknown(optstring[1..], c);
    }
  }

  /** A listed option without a colon behind it takes nothing; with one it takes the rest of
      the element, else the next element, else it is an error; with two only the rest. */
  lemma ClusterListed(optstring: string, i: nat, text: string, next: Option<string>)
    requires text != "" && i < |optstring| && optstring[i] == text[0] != ':'
    requires forall k :: 0 <= k < i ==> optstring[k] != text[0]
    ensures var c, rest := text[0], text[1..];
            var one := i + 1 < |optstring| && optstring[i + 1] == ':';
            var two := one && i + 2 < |optstring| && optstring[i + 2] == ':';
            var tail := if rest == "" then ([], false) else Cluster(optstring, rest, next);
            && (!one ==> Cluster(optstring, text, next) == ([Short(c, None)] + tail.0, tail.1))
            && (one && rest != "" ==> Cluster(optstring, text, next) == ([Short(c, Some(rest))], false))
            && (two && rest == "" ==> Cluster(optstring, text, next) == ([Short(c, None)], false))
            && (one && !two && rest == "" && next.Some? ==> Cluster(optstring, text, next) == ([Short(c, next)], true))
            && (one && !two && rest == "" && next.None? ==>
                  Cluster(optstring, text, next) == ([MissingShort(c)], false))
  {
    ShortKindIs(optstring, text[0], i);
    hide ShortKind;
  }

  /** A colon, and what is not listed, is an error, and the cluster goes on. */
  lemma ClusterUnlisted(optstring: string, text: string, next: Option<string>)
    requires text != "" && (text[0] == ':' || text[0] !in optstring)
    ensures var tail := if text[1..] == "" then ([], false) else Cluster(optstring, text[1..], next);
            Cluster(optstring, text, next) == ([InvalidShort(text[0])] + tail.0, tail.1)
  {
    ShortUnknown(optstring, text[0]);
    hide ShortKind;
  }

  // ----- long options -----

  function NameLength(text: string): (n: nat)
    ensures n <= |text| && '=' !in text[..n] && (n < |text| ==> text[n] == '=')
  {
    if text == "" || text[0] == '=' then 0
    else
      var n := 1 + NameLength(text[1..]);
      assert text[..n] == [text[0]] + text[1..][..n - 1];
      n
  }

  predicate IsPrefix(name: string, full: string) {
    |name| <= |full| && full[..|name|] == name
  }

  predicate Differ(p: LongOption, o: LongOption) {
    p.arg != o.arg || p.flag != o.flag || p.val != o.val
  }

  datatype Found = NotFound | Ambiguous | At(index: nat)

  ghost predicate FirstExact(name: string, opts: seq<LongOption>, i: int) {
    0 <= i < |opts| && opts[i].name == name && forall k :: 0 <= k < i ==> opts[k].name != name
  }

  ghost predicate FirstPrefixed(name: string, opts: seq<LongOption>, i: int) {
    0 <= i < |opts| && IsPrefix(name, opts[i].name) && forall k :: 0 <= k < i ==> !IsPrefix(name, opts[k].name)
  }

  ghost predicate Clash(name: string, opts: seq<LongOption>, i: int) {
    0 <= i < |opts| && exists k :: i < k < |opts| && IsPrefix(name, opts[k].name) && Differ(opts[i], opts[k])
  }

  /** An exact name wins; an abbreviation must not fit two options that differ. */
  ghost predicate Finds(name: string, opts: seq<LongOption>, f: Found) {
    match f
    case NotFound => forall k :: 0 <= k < |opts| ==> !IsPrefix(name, opts[k].name)
    case Ambiguous =>
      && (forall k :: 0 <= k < |opts| ==> opts[k].name != name)
      && exists i :: FirstPrefixed(name, opts, i) && Clash(name, opts, i)
    case At(i) =>
      || FirstExact(name, opts, i)
      || ((forall k :: 0 <= k < |opts| ==> opts[k].name != name) && FirstPrefixed(name, opts, i)
        && !Clash(name, opts, i))
  }

  /** The three outcomes exclude each other: the search has one right answer. */
  lemma FindsOne(name: string, opts: seq<LongOption>, f: Found, g: Found)
    requires Finds(name, opts, f) && Finds(name, opts, g)
    ensures f == g
  {
    assert forall k :: 0 <= k < |opts| && opts[k].name == name ==> IsPrefix(name, opts[k].name);
  }

  /** The search in terms of the names and fields alone. */
  lemma FindsIff(name: string, opts: seq<LongOption>, i: nat)
    requires i < |opts|
    ensures Finds(name, opts, At(i)) <==>
              || (opts[i].name == name && forall k :: 0 <= k < i ==> opts[k].name != name)
              || (&& (forall k :: 0 <= k < |opts| ==> opts[k].name != name)
                  && (forall k :: 0 <= k < i ==> !(name <= opts[k].name)) && name <= opts[i].name
                  && forall k :: i < k < |opts| && name <= opts[k].name ==>
                       opts[k].arg == opts[i].arg && opts[k].flag == opts[i].flag && opts[k].val == opts[i].val)
    ensures Finds(name, opts, NotFound) <==> forall k :: 0 <= k < |opts| ==> !(name <= opts[k].name)
  {
    assert forall k :: 0 <= k < |opts| ==> (name <= opts[k].name <==> IsPrefix(name, opts[k].name));
  }

  ghost function Lookup(name: string, opts: seq<LongOption>): (f: Found)
    ensures Finds(name, opts, f)
  {
    LookupExists(name, opts);
    var f :| Finds(name, opts, f);
    f
  }

  lemma LookupExists(name: string, opts: seq<LongOption>)
    ensures exists f :: Finds(name, opts, f)
  {
    if k :| 0 <= k < |opts| && opts[k].name == name {
      var i := LeastExact(name, opts, k);
      assert Finds(name, opts, At(i));
    } else if k :| 0 <= k < |opts| && IsPrefix(name, opts[k].name) {
      var i := LeastPrefixed(name, opts, k);
      assert Finds(name, opts, if Clash(name, opts, i) then Ambiguous else At(i));
    } else {
      assert Finds(name, opts, NotFound);
    }
  }

  lemma LeastExact(name: string, opts: seq<LongOption>, k: nat) returns (i: nat)
    requires k < |opts| && opts[k].name == name
    ensures FirstExact(name, opts, i)
  {
    i := 0;
    while opts[i].name != name
      invariant i <= k && forall j :: 0 <= j < i ==> opts[j].name != name
      decreases k - i
    {
      i := i + 1;
    }
  }

  lemma LeastPrefixed(name: string, opts: seq<LongOption>, k: nat) returns (i: nat)
    requires k < |opts| && IsPrefix(name, opts[k].name)
    ensures FirstPrefixed(name, opts, i)
  {
    i := 0;
    while !IsPrefix(name, opts[i].name)
      invariant i <= k && forall j :: 0 <= j < i ==> !IsPrefix(name, opts[j].name)
      decreases k - i
    {
      i := i + 1;
    }
  }

  /** The search loop of check_long_opt. */
  method FindLong(name: string, opts: seq<LongOption>) returns (f: Found)
    ensures Finds(name, opts, f)
  {
    var found: Option<nat> := None;
    var exact, ambig := false, false;
    var k := 0;
    while k < |opts|
      invariant 0 <= k <= |opts| && !exact
      invariant forall j :: 0 <= j < k ==> opts[j].name != name
      invariant found.None? ==> !ambig && forall j :: 0 <= j < k ==> !IsPrefix(name, opts[j].name)
      invariant found.Some? ==> found.value < k && FirstPrefixed(name, opts, found.value)
      invariant found.Some? ==>
                (ambig <==> exists j ::
                  found.value < j < k && IsPrefix(name, opts[j].name) && Differ(opts[found.value], opts[j]))
    {
      if IsPrefix(name, opts[k].name) {
        if |name| == |opts[k].name| {
          found, exact := Some(k), true;
          break;
        } else if found.None? {
          found := Some(k);
        } else if Differ(opts[found.value], opts[k]) {
          ambig := true;
        }
      }
      k := k + 1;
    }
    if ambig && !exact {
      assert FirstPrefixed(name, opts, found.value) && Clash(name, opts, found.value);
      return Ambiguous;
    }
    return if found.Some? then At(found.value) else NotFound;
  }

  /** What a long option means, and whether it takes the next argument. */
  function LongEvent(opts: seq<LongOption>, f: Found, text: string, next: Option<string>): (r: (Event, bool))
    requires f.At? ==> f.index < |opts|
    ensures r.1 ==> next.Some?
  {
    var n := NameLength(text);
    match f
    case Ambiguous => (AmbiguousLong, false)
    case NotFound => (UnknownLong, false)
    case At(i) =>
      if n < |text| then
        if opts[i].arg != NoArgument then (Long(i, Some(text[n + 1..])), false) else (UnwantedLong(i), false)
      else if opts[i].arg == RequiredArgument then
        if next.None? then (MissingLong(i), false) else (Long(i, next), true)
      else (Long(i, None), false)
  }

  // ----- one reading of the whole command line -----

  predicate NonOption(e: string) {
    e == "" || e[0] != '-' || |e| == 1
  }

  predicate IsLong(o: Options, e: string) {
    o.longopts.Some? && |e| > 1 && e[1] == '-'
  }

  /** The text of an option element behind its punctuation. */
  function TextOf(o: Options, e: string): string
    requires !NonOption(e)
  {
    e[(if IsLong(o, e) then 2 else 1)..]
  }

  /** What the rest of an option element means, with `text` still unread; an exhausted
      text stands for an element already left behind. */
  ghost function Meaning(o: Options, e: string, text: string, next: Option<string>): (r: (seq<Event>, bool))
    requires IsLong(o, e) || text != ""
    ensures r.1 ==> next.Some?
  {
    if IsLong(o, e) then
      var f := Lookup(text[..NameLength(text)], o.longopts.value);
      var r := LongEvent(o.longopts.value, f, text, next);
      ([r.0], r.1)
    else Cluster(o.optstring, text, next)
  }

  datatype Parsed = Parsed(events: seq<Event>, options: seq<string>, operands: seq<string>)

  function Next(args: seq<string>): (n: Option<string>)
    requires |args| > 0
    ensures n.Some? <==> |args| > 1
  {
    if |args| > 1 then Some(args[1]) else None
  }

  /** The command line is read from left to right: an option takes the element it stands
      in, and the one after it as its argument when it needs one. */
  ghost function Parse(o: Options, args: seq<string>): Parsed
    decreases |args|, 1
  {
    if args == [] then Parsed([], [], [])
    else if args[0] == "--" then Parsed([], args[..1], args[1..])
    else if NonOption(args[0]) then
      var p := Parse(o, args[1..]);
      Parsed(p.events, p.options, [args[0]] + p.operands)
    else ParseElement(o, args, TextOf(o, args[0]))
  }

  ghost function ParseElement(o: Options, args: seq<string>, text: string): Parsed
    requires |args| > 0 && (IsLong(o, args[0]) || text != "")
    decreases |args|, 0
  {
    var r := Meaning(o, args[0], text, Next(args));
    var w := if r.1 then 2 else 1;
    var p := Parse(o, args[w..]);
    Parsed(r.0 + p.events, args[..w] + p.options, p.operands)
  }

  /** What a reading makes of the element "-c": with one colon behind c in the option string
      the next element is its argument and is gone, otherwise it stays to be read. */
  lemma ParseShort(o: Options, args: seq<string>, i: nat)
    requires args != [] && |args[0]| == 2 && args[0][0] == '-' && args[0][1] != '-'
    requires i < |o.optstring| && o.optstring[i] == args[0][1] != ':'
    requires forall k :: 0 <= k < i ==> o.optstring[k] != args[0][1]
    ensures var c := args[0][1];
            var one := i + 1 < |o.optstring| && o.optstring[i + 1] == ':';
            var two := one && i + 2 < |o.optstring| && o.optstring[i + 2] == ':';
            var p, behind := Parse(o, args), Parse(o, args[1..]);
            if one && !two && |args| > 1 then
              var after := Parse(o, args[2..]);
              p == Parsed([Short(c, Some(args[1]))] + after.events, args[..2] + after.options, after.operands)
            else
              p == Parsed([if one && !two then MissingShort(c) else Short(c, None)] + behind.events,
                          args[..1] + behind.options, behind.operands)
  {
    var text := args[0][1..];
    assert TextOf(o, args[0]) == text && text[1..] == "" && text[0] == args[0][1];
    ClusterListed(o.optstring, i, text, Next(args));
    assert Parse(o, args) == ParseElement(o, args, text);
    hide Parse, Cluster;
    assert [Short(text[0], None)] + [] == [Short(text[0], None)];
  }

  /** What looks like an operand: anything that does not start with a dash, and the dash
      alone. */
  lemma NonOptionIff(e: string)
    ensures NonOption(e) <==> !(|e| >= 2 && e[0] == '-')
  {
  }

  lemma {:induction false} NameEnds(name: string, rest: string)
    requires '=' !in name && (rest == "" || rest[0] == '=')
    ensures NameLength(name + rest) == |name|
  {
    if name == "" {
      assert name + rest == rest;
    } else {
      NameEnds(name[1..], rest);
      assert (name + rest)[1..] == name[1..] + rest && name[0] in name;
    }
  }

  /** What a reading makes of "--name", for the first option of that name: the next element
      is its argument, and gone, exactly when it requires one. */
  lemma ParseLong(o: Options, args: seq<string>, name: string, i: nat)
    requires args != [] && name != "" && '=' !in name && args[0] == "--" + name
    requires o.longopts.Some? && i < |o.longopts.value| && o.longopts.value[i].name == name
    requires forall k :: 0 <= k < i ==> o.longopts.value[k].name != name
    ensures var required := o.longopts.value[i].arg == RequiredArgument;
            var p, behind := Parse(o, args), Parse(o, args[1..]);
            if required && |args| > 1 then
              var after := Parse(o, args[2..]);
              p == Parsed([Long(i, Some(args[1]))] + after.events, args[..2] + after.options, after.operands)
            else
              p == Parsed([if required then MissingLong(i) else Long(i, None)] + behind.events,
                          args[..1] + behind.options, behind.operands)
  {
    LongMeaning(o, args, name, "", i);
    assert name + "" == name;
    hide Parse, LongEvent, Lookup;
  }

  /** And of "--name=value". */
  lemma ParseLongValue(o: Options, args: seq<string>, name: string, value: string, i: nat)
    requires args != [] && '=' !in name && args[0] == "--" + name + "=" + value
    requires o.longopts.Some? && i < |o.longopts.value| && o.longopts.value[i].name == name
    requires forall k :: 0 <= k < i ==> o.longopts.value[k].name != name
    ensures var behind := Parse(o, args[1..]);
            var e := if o.longopts.value[i].arg == NoArgument then UnwantedLong(i) else Long(i, Some(value));
            Parse(o, args) == Parsed([e] + behind.events, args[..1] + behind.options, behind.operands)
  {
    assert args[0] == "--" + (name + ("=" + value));
    LongMeaning(o, args, name, "=" + value, i);
    assert (name + ("=" + value))[|name| + 1..] == value;
    hide Parse, LongEvent, Lookup;
  }

  lemma LongMeaning(o: Options, args: seq<string>, name: string, rest: string, i: nat)
    requires args != [] && '=' !in name && (rest == "" || rest[0] == '=') && name + rest != ""
    requires args[0] == "--" + (name + rest)
    requires o.longopts.Some? && i < |o.longopts.value| && o.longopts.value[i].name == name
    requires forall k :: 0 <= k < i ==> o.longopts.value[k].name != name
    ensures var opts, text := o.longopts.value, name + rest;
            var arg, next := opts[i].arg, if |args| > 1 then Some(args[1]) else None;
            var e := if rest != "" then if arg == NoArgument then UnwantedLong(i) else Long(i, Some(text[|name| + 1..]))
                     else if arg != RequiredArgument then Long(i, None)
                     else if next.None? then MissingLong(i) else Long(i, next);
            var takes := rest == "" && arg == RequiredArgument && |args| > 1;
            var w := if takes then 2 else 1;
            var after := Parse(o, args[w..]);
            Parse(o, args) == Parsed([e] + after.events, args[..w] + after.options, after.operands)
  {
    var opts, text := o.longopts.value, name + rest;
    assert args[0][..2] == "--" && args[0][2..] == text && |args[0]| > 2;
    NameEnds(name, rest);
    assert text[..|name|] == name;
    FindsIff(name, opts, i);
    FindsOne(name, opts, Found.At(i), Lookup(name, opts));
    assert TextOf(o, args[0]) == text;
    assert Parse(o, args) == ParseElement(o, args, text);
    hide Parse;
  }

  // ----- what the reading says -----

  /** s is a and b put together, the order kept within each. */
  ghost predicate Merges(s: seq<string>, a: seq<string>, b: seq<string>) {
    if s == [] then a == [] && b == []
    else
      || (a != [] && a[0] == s[0] && Merges(s[1..], a[1..], b))
      || (b != [] && b[0] == s[0] && Merges(s[1..], a, b[1..]))
  }

  lemma {:induction false} MergesAfter(w: seq<string>, s: seq<string>, a: seq<string>, b: seq<string>)
    requires Merges(s, a, b)
    ensures Merges(w + s, w + a, b)
  {
    if w != [] {
      MergesAfter(w[1..], s, a, b);
      assert (w + s)[1..] == w[1..] + s && (w + a)[1..] == w[1..] + a;
    } else {
      assert w + s == s && w + a == a;
    }
  }

  lemma {:induction false} MergesOne(b: seq<string>)
    ensures Merges(b, [], b)
  {
    if b != [] {
      MergesOne(b[1..]);
    }
  }

  lemma {:induction false} MergesCounts(s: seq<string>, a: seq<string>, b: seq<string>)
    requires Merges(s, a, b)
    ensures multiset(s) == multiset(a) + multiset(b)
  {
    if s != [] {
      assert s == [s[0]] + s[1..];
      if a != [] && a[0] == s[0] && Merges(s[1..], a[1..], b) {
        MergesCounts(s[1..], a[1..], b);
        assert a == [a[0]] + a[1..];
      } else {
        MergesCounts(s[1..], a, b[1..]);
        assert b == [b[0]] + b[1..];
      }
    }
  }

  lemma OptionMerges(args: seq<string>, w: nat, p: Parsed)
    requires w <= |args| && Merges(args[w..], p.options, p.operands)
    ensures Merges(args, args[..w] + p.options, p.operands)
  {
    hide Merges;
    MergesAfter(args[..w], args[w..], p.options, p.operands);
    assert args[..w] + args[w..] == args;
  }

  /** Options and operands both keep their order, and nothing is lost. */
  lemma {:induction false} ParseMerges(o: Options, args: seq<string>)
    ensures Merges(args, Parse(o, args).options, Parse(o, args).operands)
    decreases |args|
  {
    if args == [] {
    } else if args[0] == "--" {
      MergesOne(args[1..]);
      MergesAfter(args[..1], args[1..], [], args[1..]);
      assert args[..1] + args[1..] == args;
    } else if NonOption(args[0]) {
      ParseMerges(o, args[1..]);
    } else {
      var r := Meaning(o, args[0], TextOf(o, args[0]), Next(args));
      var w := if r.1 then 2 else 1;
      ParseMerges(o, args[w..]);
      OptionMerges(args, w, Parse(o, args[w..]));
    }
  }

  /** The operands are what looks like an operand, followed by everything behind the
      first "--" that is not the argument of an option. */
  ghost predicate OperandsOf(args: seq<string>, p: Parsed, plain: nat, tail: nat) {
    && plain <= |p.operands| && tail <= |args|
    && (forall k :: 0 <= k < plain ==> NonOption(p.operands[k]))
    && p.operands[plain..] == args[tail..]
    && (tail < |args| ==> tail > 0 && args[tail - 1] == "--" && p.options != [] && p.options[|p.options| - 1] == "--")
  }

  lemma OneOperand(args: seq<string>, q: Parsed, plain: nat, tail: nat)
    requires args != [] && NonOption(args[0]) && OperandsOf(args[1..], q, plain, tail)
    ensures OperandsOf(args, Parsed(q.events, q.options, [args[0]] + q.operands), plain + 1, tail + 1)
  {
    hide NonOption;
    assert ([args[0]] + q.operands)[plain + 1..] == q.operands[plain..];
    assert args[tail + 1..] == args[1..][tail..];
  }

  lemma OneOption(args: seq<string>, w: nat, q: Parsed, events: seq<Event>, plain: nat, tail: nat)
    requires w <= |args| && OperandsOf(args[w..], q, plain, tail)
    ensures OperandsOf(args, Parsed(events + q.events, args[..w] + q.options, q.operands), plain, tail + w)
  {
    hide NonOption;
    assert args[tail + w..] == args[w..][tail..];
  }

  lemma {:induction false} ParseOperands(o: Options, args: seq<string>) returns (plain: nat, tail: nat)
    ensures OperandsOf(args, Parse(o, args), plain, tail)
    decreases |args|
  {
    if args == [] {
      plain, tail := 0, 0;
    } else if args[0] == "--" {
      plain, tail := 0, 1;
    } else if NonOption(args[0]) {
      plain, tail := ParseOperands(o, args[1..]);
      OneOperand(args, Parse(o, args[1..]), plain, tail);
      plain, tail := plain + 1, tail + 1;
    } else {
      var r := Meaning(o, args[0], TextOf(o, args[0]), Next(args));
      var w := if r.1 then 2 else 1;
      plain, tail := ParseOperands(o, args[w..]);
      OneOption(args, w, Parse(o, args[w..]), r.0, plain, tail);
      tail := tail + w;
    }
  }

  // ----- the state between two calls -----

  ghost function Rest(o: Options, args: seq<string>, text: string): Parsed
    requires text != "" ==> |args| > 0
  {
    if text == "" then Parse(o, args) else ParseElement(o, args, text)
  }

  /** The elements before optind are known to be options, except those from first to last,
      which are the operands skipped so far; the elements from optind on are as they
      were; `events` have been handed out. */
  ghost predicate Scanning(o: Options, orig: seq<string>, argv: seq<string>, first: int, last: int, optind: int,
                           text: string, events: seq<Event>)
  {
    && |argv| == |orig| && 1 <= first <= last <= optind <= |argv|
    && argv[0] == orig[0] && argv[optind..] == orig[optind..]
    && (text != "" ==> optind < |orig| && !NonOption(orig[optind]))
    && var p, q := Parse(o, orig[1..]), Rest(o, orig[optind..], text);
       && p.events == events + q.events
       && p.options == argv[1..first] + argv[last..optind] + q.options
       && p.operands == argv[first..last] + q.operands
  }

  /** The scan is over: options first, then the operands, and optind says where. */
  ghost predicate Finished(o: Options, orig: seq<string>, argv: seq<string>, optind: int, events: seq<Event>) {
    && |argv| == |orig| > 0 && argv[0] == orig[0]
    && var p := Parse(o, orig[1..]);
       && events == p.events
       && argv[1..] == p.options + p.operands
       && optind == 1 + |p.options|
  }

  lemma ScanStart(o: Options, argv: seq<string>)
    requires |argv| > 0
    ensures Scanning(o, argv, argv, 1, 1, 1, "", [])
  {
    hide Parse;
  }

  lemma ScanNoOperands(o: Options, orig: seq<string>, argv: seq<string>, first: int, optind: int, events: seq<Event>)
    requires Scanning(o, orig, argv, first, first, optind, "", events)
    ensures Scanning(o, orig, argv, optind, optind, optind, "", events)
  {
    hide Parse;
    assert argv[1..first] + argv[first..optind] == argv[1..optind] + argv[optind..optind];
  }

  lemma ScanExchange(o: Options, orig: seq<string>, argv: seq<string>, first: int, last: int, optind: int,
                     events: seq<Event>)
    requires Scanning(o, orig, argv, first, last, optind, "", events)
    ensures Scanning(o, orig, Rotated(argv, first, last, optind), first + optind - last, optind, optind, "", events)
  {
    hide Parse;
    RotatedParts(argv, first, last, optind);
  }

  lemma RotatedParts(argv: seq<string>, first: int, last: int, optind: int)
    requires 1 <= first <= last <= optind <= |argv|
    ensures var r, f := Rotated(argv, first, last, optind), first + optind - last;
            && r[0] == argv[0] && r[optind..] == argv[optind..]
            && r[1..f] + r[optind..optind] == argv[1..first] + argv[last..optind]
            && r[f..optind] == argv[first..last] && r[1..] == r[1..f] + r[f..optind] + r[optind..]
  {
  }

  lemma OperandFirst(o: Options, args: seq<string>)
    requires args != [] && NonOption(args[0])
    ensures var q := Parse(o, args[1..]); Parse(o, args) == Parsed(q.events, q.options, [args[0]] + q.operands)
  {
  }

  lemma ScanSkip(o: Options, orig: seq<string>, argv: seq<string>, first: int, optind: int, events: seq<Event>)
    requires Scanning(o, orig, argv, first, optind, optind, "", events) && optind < |argv|
    requires NonOption(argv[optind])
    ensures Scanning(o, orig, argv, first, optind + 1, optind + 1, "", events)
  {
    var args := orig[optind..];
    var q := Parse(o, args[1..]);
    SkipParts(orig, argv, first, optind, q.operands);
    OperandFirst(o, args);
    hide Parse, NonOption;
  }

  /** How the pieces of argv regroup when the element at optind joins the operands. */
  lemma SkipParts(orig: seq<string>, argv: seq<string>, first: int, optind: int, operands: seq<string>)
    requires 1 <= first <= optind < |argv| == |orig| && argv[optind..] == orig[optind..]
    ensures orig[optind..][0] == argv[optind] && orig[optind..][1..] == orig[optind + 1..] == argv[optind + 1..]
    ensures argv[1..first] + argv[optind..optind] == argv[1..first] + argv[optind + 1..optind + 1]
    ensures argv[first..optind] + ([argv[optind]] + operands) == argv[first..optind + 1] + operands
  {
    assert orig[optind..][0] == argv[optind..][0];
    assert argv[first..optind + 1] == argv[first..optind] + [argv[optind]];
  }

  lemma ScanEnd(o: Options, orig: seq<string>, argv: seq<string>, first: int, events: seq<Event>)
    requires |argv| > 0 && Scanning(o, orig, argv, first, |argv|, |argv|, "", events)
    ensures Finished(o, orig, argv, first, events)
  {
    assert orig[|argv|..] == [];
    assert argv[1..] == argv[1..first] + argv[first..];
  }

  /** The "--" is an option like any other; what follows joins the operands. */
  lemma ScanDashes(o: Options, orig: seq<string>, argv: seq<string>, first: int, optind: int, events: seq<Event>)
    requires Scanning(o, orig, argv, first, optind, optind, "", events) && optind < |argv| && argv[optind] == "--"
    ensures Finished(o, orig, Rotated(argv, first, optind, optind + 1), first + 1, events)
  {
    var args := orig[optind..];
    assert args[0] == argv[optind] && args == argv[optind..];
    assert Parse(o, args) == Parsed([], args[..1], args[1..]);
    hide Parse, Rotated;
    DashesMoved(argv, first, optind);
    assert args[..1] == argv[optind..optind + 1] && args[1..] == argv[optind + 1..];
  }

  lemma DashesMoved(argv: seq<string>, first: int, optind: int)
    requires 1 <= first <= optind < |argv|
    ensures var r := Rotated(argv, first, optind, optind + 1);
            && r[0] == argv[0] && |argv[1..first]| == first - 1
            && r[1..] == (argv[1..first] + argv[optind..optind] + argv[optind..optind + 1])
               + (argv[first..optind] + argv[optind + 1..])
  {
    RotatedParts(argv, first, optind, optind + 1);
    hide Rotated;
  }

  lemma RotateNothing(argv: seq<string>, first: int, optind: int)
    requires 1 <= first == optind < |argv|
    ensures Rotated(argv, first, optind, optind + 1) == argv
  {
    NothingToRotate(argv, first, optind, optind + 1);
  }

  lemma ScanEnter(o: Options, orig: seq<string>, argv: seq<string>, first: int, optind: int, events: seq<Event>)
    requires Scanning(o, orig, argv, first, optind, optind, "", events) && optind < |argv|
    requires !NonOption(argv[optind]) && argv[optind] != "--"
    ensures TextOf(o, argv[optind]) != ""
    ensures Scanning(o, orig, argv, first, optind, optind, TextOf(o, argv[optind]), events)
  {
    var args := orig[optind..];
    assert args[0] == argv[optind] && args == argv[optind..];
    assert |args[0]| > 1 && args[0][0] == '-';
    assert |args[0]| == 2 ==> args[0] == ['-', args[0][1]];
    hide ParseElement, TextOf;
  }

  lemma ScanCluster(o: Options, orig: seq<string>, argv: seq<string>, first: int, last: int, optind: int, text: string,
                    events: seq<Event>, e: Event)
    requires Scanning(o, orig, argv, first, last, optind, text, events) && |text| > 1 && !IsLong(o, argv[optind])
    requires || (ShortKind(o.optstring, text[0]) == Unknown && e == InvalidShort(text[0]))
             || (ShortKind(o.optstring, text[0]) == Known(NoArgument) && e == Short(text[0], None))
    ensures Scanning(o, orig, argv, first, last, optind, text[1..], events + [e])
  {
    var args := orig[optind..];
    assert args == argv[optind..] && args[0] == argv[optind];
    var r := Cluster(o.optstring, text[1..], Next(args));
    assert Cluster(o.optstring, text, Next(args)) == ([e] + r.0, r.1);
    hide Parse, Cluster;
  }

  lemma ScanElement(o: Options, orig: seq<string>, argv: seq<string>, first: int, last: int, optind: int, text: string,
                    events: seq<Event>, e: Event, takes: bool)
    requires Scanning(o, orig, argv, first, last, optind, text, events) && text != ""
    requires Meaning(o, argv[optind], text, Next(argv[optind..])) == ([e], takes)
    ensures var after := optind + if takes then 2 else 1;
            after <= |argv| && Scanning(o, orig, argv, first, last, after, "", events + [e])
  {
    var args, w := orig[optind..], if takes then 2 else 1;
    assert args == argv[optind..] && args[0] == argv[optind];
    assert args[w..] == orig[optind + w..];
    assert argv[optind + w..] == args[w..];
    var q := Parse(o, args[w..]);
    assert Rest(o, args, text) == Parsed([e] + q.events, args[..w] + q.options, q.operands);
    hide Parse, Meaning, ParseElement, Rest;
    assert argv[last..optind + w] == argv[last..optind] + args[..w];
    assert Rest(o, args[w..], "") == q by { RestOfNothing(o, args[w..]); }
  }

  lemma RestOfNothing(o: Options, args: seq<string>)
    ensures Rest(o, args, "") == Parse(o, args)
  {
  }

  // ----- the scanner -----

  function AtMost(x: int, limit: int): (r: int)
    ensures r <= x && r <= limit && (r == x || r == limit)
  {
    if x > limit then limit else x
  }

  class GetoptData {
    var optind: int
    var nextchar: string
    var firstNonopt: int
    var lastNonopt: int
    var initialized: bool

    constructor ()
      ensures optind == 1 && !initialized && nextchar == ""
    {
      optind, nextchar, firstNonopt, lastNonopt, initialized := 1, "", 0, 0, false;
    }

    /** The state after `events` have been handed out of `orig`. */
    ghost predicate At(o: Options, orig: seq<string>, argv: array<string>, events: seq<Event>)
      reads this, argv
    {
      if initialized then Scanning(o, orig, argv[..], firstNonopt, lastNonopt, optind, nextchar, events)
      else orig == argv[..] && events == [] && 0 <= optind <= 1 && optind <= argv.Length
    }

    method Exchange(argv: array<string>)
      requires 0 <= firstNonopt <= lastNonopt <= optind <= argv.Length
      modifies this, argv
      ensures argv[..] == Rotated(old(argv[..]), old(firstNonopt), old(lastNonopt), old(optind))
      ensures firstNonopt == old(firstNonopt) + (optind - old(lastNonopt)) && lastNonopt == optind
      ensures optind == old(optind) && nextchar == old(nextchar) && initialized == old(initialized)
    {
      ExchangeBlocks(argv, firstNonopt, lastNonopt, optind);
      firstNonopt := firstNonopt + (optind - lastNonopt);
      lastNonopt := optind;
    }

    /** The first half of shuffle_argv: options processed since operands were skipped go
        in front of them, and further operands are skipped. */
    method SkipOperands(argv: array<string>, o: Options, ghost orig: seq<string>, ghost events: seq<Event>)
      requires Scanning(o, orig, argv[..], firstNonopt, lastNonopt, optind, "", events)
      modifies this, argv
      ensures initialized == old(initialized) && lastNonopt == optind
      ensures Scanning(o, orig, argv[..], firstNonopt, optind, optind, "", events)
      ensures 1 <= firstNonopt <= optind <= argv.Length
      ensures optind < argv.Length ==> !NonOption(argv[optind])
    {
      hide *;
      ScanLengths(o, orig, argv[..], firstNonopt, lastNonopt, optind, "", events);
      lastNonopt := AtMost(lastNonopt, optind);
      firstNonopt := AtMost(firstNonopt, optind);
      ghost var was := argv[..];
      if firstNonopt != lastNonopt && lastNonopt != optind {
        ScanExchange(o, orig, was, firstNonopt, lastNonopt, optind, events);
        Exchange(argv);
      } else if lastNonopt != optind {
        ScanNoOperands(o, orig, was, firstNonopt, optind, events);
        firstNonopt := optind;
      }
      while optind < argv.Length && NonOption(argv[optind])
        invariant Scanning(o, orig, argv[..], firstNonopt, optind, optind, "", events)
        invariant initialized == old(initialized) && 1 <= firstNonopt <= optind <= argv.Length
        decreases argv.Length - optind
        modifies this
      {
        ScanSkip(o, orig, argv[..], firstNonopt, optind, events);
        optind := optind + 1;
      }
      lastNonopt := optind;
    }

    /** shuffle_argv: move on to the next option element, or end the scan. */
    method ShuffleArgv(argv: array<string>, o: Options, ghost orig: seq<string>, ghost events: seq<Event>)
      returns (done: bool)
      requires argv.Length > 0
      requires Scanning(o, orig, argv[..], firstNonopt, lastNonopt, optind, "", events)
      modifies this, argv
      ensures initialized == old(initialized)
      ensures done ==> Finished(o, orig, argv[..], optind, events)
      ensures !done ==> nextchar != ""
      ensures !done ==> Scanning(o, orig, argv[..], firstNonopt, lastNonopt, optind, nextchar, events)
    {
      hide *;
      SkipOperands(argv, o, orig, events);
      if optind != argv.Length && argv[optind] == "--" {
        ghost var was := argv[..];
        ScanDashes(o, orig, was, firstNonopt, optind, events);
        optind := optind + 1;
        if firstNonopt != lastNonopt && lastNonopt != optind {
          Exchange(argv);
        } else if firstNonopt == lastNonopt {
          RotateNothing(was, firstNonopt, lastNonopt);
          firstNonopt := optind;
        }
        lastNonopt := argv.Length;
        optind := argv.Length;
      } else if optind == argv.Length {
        ScanEnd(o, orig, argv[..], firstNonopt, events);
      }
      if optind == argv.Length {
        if firstNonopt != lastNonopt {
          optind := firstNonopt;
        }
        return true;
      }
      ScanEnter(o, orig, argv[..], firstNonopt, optind, events);
      nextchar := TextOf(o, argv[optind]);
      return false;
    }

    /** check_long_opt */
    method CheckLongOpt(argv: array<string>, o: Options, ghost orig: seq<string>, ghost events: seq<Event>)
      returns (e: Event)
      requires nextchar != "" && Scanning(o, orig, argv[..], firstNonopt, lastNonopt, optind, nextchar, events)
      requires optind < argv.Length && IsLong(o, argv[optind])
      modifies this
      ensures initialized == old(initialized)
      ensures Scanning(o, orig, argv[..], firstNonopt, lastNonopt, optind, nextchar, events + [e])
    {
      hide Scanning, Finished, Parse, Finds;
      ScanLengths(o, orig, argv[..], firstNonopt, lastNonopt, optind, nextchar, events);
      ghost var args := argv[..][optind..];
      assert args[0] == argv[optind] && Next(args) == if optind + 1 < argv.Length then Some(argv[optind + 1]) else None;
      ghost var was, text := optind, nextchar;
      var opts, n := o.longopts.value, NameLength(nextchar);
      var f := FindLong(nextchar[..n], opts);
      FindsOne(nextchar[..n], opts, f, Lookup(nextchar[..n], opts));
      ghost var takes := false;
      match f {
        case Ambiguous =>
          optind := optind + 1;
          e := AmbiguousLong;
        case NotFound =>
          optind := optind + 1;
          e := UnknownLong;
        case At(i) =>
          FoundInRange(nextchar[..n], opts, i);
          optind := optind + 1;
          if n < |nextchar| {
            e := if opts[i].arg != NoArgument then Long(i, Some(nextchar[n + 1..])) else UnwantedLong(i);
          } else if opts[i].arg == RequiredArgument {
            if optind < argv.Length {
              e := Long(i, Some(argv[optind]));
              optind := optind + 1;
              takes := true;
            } else {
              e := MissingLong(i);
            }
          } else {
            e := Long(i, None);
          }
      }
      nextchar := "";
      ScanElement(o, orig, argv[..], firstNonopt, lastNonopt, was, text, events, e, takes);
    }

    /** check_short_opt */
    method CheckShortOpt(argv: array<string>, o: Options, ghost orig: seq<string>, ghost events: seq<Event>)
      returns (e: Event)
      requires nextchar != "" && Scanning(o, orig, argv[..], firstNonopt, lastNonopt, optind, nextchar, events)
      requires optind < argv.Length && !IsLong(o, argv[optind])
      modifies this
      ensures initialized == old(initialized)
      ensures Scanning(o, orig, argv[..], firstNonopt, lastNonopt, optind, nextchar, events + [e])
    {
      hide Scanning, Finished, Parse;
      ScanLengths(o, orig, argv[..], firstNonopt, lastNonopt, optind, nextchar, events);
      ghost var args := argv[..][optind..];
      assert args[0] == argv[optind] && Next(args) == if optind + 1 < argv.Length then Some(argv[optind + 1]) else None;
      ghost var was, text := optind, nextchar;
      ghost var takes := false;
      var c := nextchar[0];
      nextchar := nextchar[1..];
      if nextchar == "" {
        optind := optind + 1;
      }
      var kind := ShortKind(o.optstring, c);
      match kind {
        case Unknown =>
          e := InvalidShort(c);
        case Known(NoArgument) =>
          e := Short(c, None);
        case Known(OptionalArgument) =>
          if nextchar != "" {
            e := Short(c, Some(nextchar));
            optind := optind + 1;
          } else {
            e := Short(c, None);
          }
          nextchar := "";
        case Known(RequiredArgument) =>
          if nextchar != "" {
            e := Short(c, Some(nextchar));
            optind := optind + 1;
          } else if optind == argv.Length {
            e := MissingShort(c);
          } else {
            e := Short(c, Some(argv[optind]));
            optind := optind + 1;
            takes := true;
          }
          nextchar := "";
      }
      if nextchar == "" {
        assert [e] + [] == [e];
        ScanElement(o, orig, argv[..], firstNonopt, lastNonopt, was, text, events, e, takes);
      } else {
        ScanCluster(o, orig, argv[..], firstNonopt, lastNonopt, was, text, events, e);
      }
    }

    /** getopt_internal_r: one call hands out the next event, or None (-1) at the end. */
    method GetoptInternal(argv: array<string>, o: Options, ghost orig: seq<string>, ghost events: seq<Event>)
      returns (r: Option<Event>)
      requires At(o, orig, argv, events)
      modifies this, argv
      ensures r.Some? ==> initialized && At(o, orig, argv, events + [r.value])
      ensures r.None? && |orig| > 0 ==> Finished(o, orig, argv[..], optind, events)
      ensures |orig| == 0 ==> r.None?
    {
      hide Scanning, Finished, Parse, TextOf;
      ScanLengths(o, orig, argv[..], firstNonopt, lastNonopt, optind, nextchar, events);
      if argv.Length < 1 {
        return None;
      }
      if optind == 0 || !initialized {
        if optind == 0 {
          optind := 1;
        }
        firstNonopt, lastNonopt := optind, optind;
        nextchar := "";
        initialized := true;
        ScanStart(o, argv[..]);
      }
      if nextchar == "" {
        var done := ShuffleArgv(argv, o, orig, events);
        if done {
          return None;
        }
      }
      ScanLengths(o, orig, argv[..], firstNonopt, lastNonopt, optind, nextchar, events);
      var e;
      if IsLong(o, argv[optind]) {
        e := CheckLongOpt(argv, o, orig, events);
      } else {
        e := CheckShortOpt(argv, o, orig, events);
      }
      return Some(e);
    }
  }

  lemma FoundInRange(name: string, opts: seq<LongOption>, i: nat)
    requires Finds(name, opts, Found.At(i))
    ensures i < |opts|
  {
  }

  lemma ScanLengths(o: Options, orig: seq<string>, argv: seq<string>, first: int, last: int, optind: int, text: string,
                    events: seq<Event>)
    ensures Scanning(o, orig, argv, first, last, optind, text, events) ==>
              && |argv| == |orig| && 1 <= first <= last <= optind <= |argv|
              && (text != "" ==> optind < |argv|)
              && |events| <= |Parse(o, orig[1..]).events|
  {
    hide Parse, Rest;
  }

  /** The caller's loop: getopt is called until it returns -1.  The options come out as
      one reading of the untouched command line would give them; argv ends with all
      options first, then the operands, each in their order. */
  method ScanAll(argv: array<string>, o: Options) returns (d: GetoptData, events: seq<Event>)
    requires argv.Length > 0
    modifies argv
    ensures fresh(d) && Finished(o, old(argv[..]), argv[..], d.optind, events)
    ensures multiset(argv[..]) == multiset(old(argv[..]))
  {
    ghost var orig := argv[..];
    d := new GetoptData();
    events := [];
    var r := d.GetoptInternal(argv, o, orig, events);
    while r.Some?
      invariant fresh(d)
      invariant r.Some? ==> d.initialized && d.At(o, orig, argv, events + [r.value])
      invariant r.None? ==> Finished(o, orig, argv[..], d.optind, events)
      decreases r.Some?, |Parse(o, orig[1..]).events| - |events|
    {
      hide Scanning, Finished, Parse;
      ScanLengths(o, orig, argv[..], d.firstNonopt, d.lastNonopt, d.optind, d.nextchar, events + [r.value]);
      events := events + [r.value];
      r := d.GetoptInternal(argv, o, orig, events);
    }
    FinishedPermutes(o, orig, argv[..], d.optind, events);
  }

  lemma FinishedPermutes(o: Options, orig: seq<string>, argv: seq<string>, optind: int, events: seq<Event>)
    requires Finished(o, orig, argv, optind, events)
    ensures multiset(argv) == multiset(orig)
    ensures Merges(orig[1..], argv[1..optind], argv[optind..])
  {
    hide Parse;
    ParseMerges(o, orig[1..]);
    var p := Parse(o, orig[1..]);
    MergesCounts(orig[1..], p.options, p.operands);
    assert orig == [orig[0]] + orig[1..] && argv == [argv[0]] + argv[1..];
    assert argv[1..optind] == argv[1..][..|p.options|] && argv[optind..] == argv[1..][|p.options|..];
  }
}
