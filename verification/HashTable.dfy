/** The name table of lp_Hash.c: hash buckets and a list in insertion order, over the same
    nodes. */
module HashTables {

  type Name = string

  const TWO4 := 0x10
  const TWO28 := 0x1000_0000
  const TWO32 := 0x1_0000_0000

  // ----- the hash function, on 32-bit numbers -----

  /** A signed char as it enters unsigned arithmetic. */
  function Widened(c: char): (n: nat) {
    var code := c as int % 0x100;
    if code < 0x80 then code else TWO32 - 0x100 + code
  }

  /** Exclusive or of numbers of so many bits. */
  function Xor(x: nat, y: nat, bits: nat): (z: nat)
    ensures bits == 4 ==> z < 16
    ensures bits <= 4 ==>
              z < if bits == 0 then 1 else if bits == 1 then 2 else if bits == 2 then 4 else if bits == 3 then 8 else 16
  {
    if bits == 0 then 0
    else (if x % 2 == y % 2 then 0 else 1) + 2 * Xor(x / 2, y / 2, bits - 1)
  }

  /** Bit i of the result is set exactly where it is set in one of the two. */
  lemma {:induction false} XorBit(x: nat, y: nat, bits: nat, i: nat)
    requires i < bits
    ensures Bit(Xor(x, y, bits), i) <==> Bit(x, i) != Bit(y, i)
  {
    if i > 0 {
      XorBit(x / 2, y / 2, bits - 1, i - 1);
    }
  }

  predicate Bit(x: nat, i: nat) {
    if i == 0 then x % 2 == 1 else Bit(x / 2, i - 1)
  }

  /** Shift by four and add; the four most significant bits are folded into bits 4 to 7 and
      cleared. */
  function HashStep(result: nat, c: char): (r: nat)
  {
    var shifted := (result * TWO4 + Widened(c)) % TWO32;
    var top, low := shifted / TWO28, shifted % TWO28;
    var bits := low / TWO4 % TWO4;
    low - bits * TWO4 + Xor(bits, top, 4) * TWO4
  }

  /** The hash of a string before it is reduced to the table size. */
  function HashBits(name: Name): (r: nat) {
    if name == "" then 0 else HashStep(HashBits(name[..|name| - 1]), name[|name| - 1])
  }

  /** After every step the number has 28 bits, so the next shift loses none, and the result
      is a non-negative C int. */
  lemma {:induction false} HashBitsRange(name: Name)
    ensures HashBits(name) < TWO28
  {
    if name != "" {
      StepRange(HashBits(name[..|name| - 1]), name[|name| - 1]);
    }
  }

  lemma StepRange(result: nat, c: char)
    ensures HashStep(result, c) < TWO28
  {
    var shifted := (result * TWO4 + Widened(c)) % TWO32;
    var low := shifted % TWO28;
    var bits, tail, head := low / TWO4 % TWO4, low % TWO4, low / 0x100;
    assert low == head * 0x100 + bits * TWO4 + tail && head < 0x10_0000;
  }

  /** A signed char: codes from 128 on are negative. */
  lemma WidenedIs(c: char)
    requires c as int < 256
    ensures Widened(c) == if c as int < 128 then c as int else c as int + 0xFFFF_FF00
  {
  }

  /** As long as the sum has 28 bits nothing is folded. */
  lemma StepPlain(result: nat, c: char)
    requires c as int < 128 && 16 * result + c as int < 0x1000_0000
    ensures HashStep(result, c) == 16 * result + c as int
  {
    hide Xor;
    var sum := 16 * result + c as int;
    XorZero(sum / 16 % 16);
    SmallSum(sum);
  }

  lemma SmallSum(n: nat)
    requires n < TWO28
    ensures n % TWO32 == n && n / TWO28 == 0 && n % TWO28 == n
  {
  }

  lemma XorZero(x: nat)
    requires x < 16
    ensures Xor(x, 0, 4) == x
  {
    XorNothing(x, 4);
  }

  lemma {:induction false} XorNothing(x: nat, bits: nat)
    requires bits <= 4 && x < if bits == 0 then 1 else if bits == 1 then 2 else if bits == 2 then 4
                              else if bits == 3 then 8 else 16
    ensures Xor(x, 0, bits) == x
  {
    if bits > 0 {
      XorNothing(x / 2, bits - 1);
    }
  }

  /** The top four bits are taken off and folded into bits 4 to 7. */
  lemma StepFolded(result: nat, c: char)
    requires c as int < 128 && result < 0x1000_0000
    ensures var sum := (16 * result + c as int) % 0x1_0000_0000;
            var kept, top := sum % 0x1000_0000, sum / 0x1000_0000;
            && HashStep(result, c) % 16 == kept % 16 && HashStep(result, c) / 256 == kept / 256
            && HashStep(result, c) / 16 % 16 == Xor(kept / 16 % 16, top, 4)
  {
    hide Xor;
    var sum := (16 * result + c as int) % TWO32;
    var kept, top := sum % TWO28, sum / TWO28;
    Nibbles(kept, Xor(kept / 16 % 16, top, 4));
  }

  /** A number with its second digit to the base sixteen replaced. */
  lemma Nibbles(n: nat, x: nat)
    requires x < 16
    ensures var m := n - n / 16 % 16 * 16 + x * 16;
            m >= 0 && m % 16 == n % 16 && m / 256 == n / 256 && m / 16 % 16 == x
  {
    var h, d, t := n / 256, n / 16 % 16, n % 16;
    assert n == h * 256 + d * 16 + t;
    NibblesOf(h, x, t);
  }

  lemma NibblesOf(h: nat, x: nat, t: nat)
    requires x < 16 && t < 16
    ensures var m := h * 256 + x * 16 + t; m % 16 == t && m / 256 == h && m / 16 % 16 == x
  {
    var m := h * 256 + x * 16 + t;
    assert m / 16 == h * 16 + x;
  }

  /** A name of up to six plain characters is its digits to the base sixteen. */
  lemma {:induction false} ShortNames(name: Name)
    requires |name| <= 6 && forall i :: 0 <= i < |name| ==> name[i] as int < 128
    ensures HashBits(name) == Digits(name) && Digits(name) <= Most(|name|)
  {
    if name != "" {
      ShortNames(name[..|name| - 1]);
      StepPlain(HashBits(name[..|name| - 1]), name[|name| - 1]);
    }
  }

  function Digits(name: Name): nat {
    if name == "" then 0 else 16 * Digits(name[..|name| - 1]) + name[|name| - 1] as int
  }

  function Most(n: nat): nat { if n == 0 then 0 else 16 * Most(n - 1) + 127 }

  function HashVal(name: Name, size: nat): (h: nat)
    requires size > 0
    ensures h < size
  {
    HashBits(name) % size
  }

  /** hashval */
  method ComputeHash(name: Name, size: nat) returns (h: nat)
    requires size > 0
    ensures h == HashVal(name, size) < size
  {
    var result: nat := 0;
    for i := 0 to |name|
      invariant result == HashBits(name[..i])
    {
      assert name[..i + 1][..i] == name[..i];
      result := HashStep(result, name[i]);
    }
    assert name[..|name|] == name;
    h := result % size;
  }

  // ----- nodes and lists -----

  class HashElem {
    const name: Name
    const index: int
    var next: HashElem?
    var nextelem: HashElem?

    constructor (name: Name, index: int)
      ensures this.name == name && this.index == index && next == null && nextelem == null
    {
      this.name, this.index, next, nextelem := name, index, null, null;
    }
  }

  /** Element i of a list, or its null end. */
  function Elem(s: seq<HashElem>, i: nat): (e: HashElem?) {
    if i < |s| then s[i] else null
  }

  /** The bucket list from `head` is s. */
  ghost predicate Chain(head: HashElem?, s: seq<HashElem>)
    reads s`next
  {
    head == Elem(s, 0) && forall i {:trigger s[i].next} :: 0 <= i < |s| ==> s[i].next == Elem(s, i + 1)
  }

  /** The insertion-order list from `head` is s. */
  ghost predicate Order(head: HashElem?, s: seq<HashElem>)
    reads s`nextelem
  {
    head == Elem(s, 0) && forall i {:trigger s[i].nextelem} :: 0 <= i < |s| ==> s[i].nextelem == Elem(s, i + 1)
  }

  /** The elements of one bucket: every new element goes in front. */
  ghost function Bucket(elems: seq<HashElem>, size: nat, b: nat): (s: seq<HashElem>)
    requires size > 0
  {
    if elems == [] then []
    else
      var e := elems[|elems| - 1];
      (if HashVal(e.name, size) == b then [e] else []) + Bucket(elems[..|elems| - 1], size, b)
  }

  lemma {:induction false} BucketMembers(elems: seq<HashElem>, size: nat, b: nat)
    requires size > 0
    ensures forall i :: 0 <= i < |Bucket(elems, size, b)| ==>
              Bucket(elems, size, b)[i] in elems && HashVal(Bucket(elems, size, b)[i].name, size) == b
    ensures forall i :: 0 <= i < |elems| && HashVal(elems[i].name, size) == b ==> elems[i] in Bucket(elems, size, b)
  {
    hide HashVal, HashBits, HashStep, Xor, Widened;
    if elems != [] {
      BucketMembers(elems[..|elems| - 1], size, b);
    }
  }

  lemma Regroup(x: seq<HashElem>, y: seq<HashElem>, z: seq<HashElem>)
    ensures x + (y + z) == (x + y) + z
  {
  }

  lemma BucketSnoc(x: seq<HashElem>, e: HashElem, size: nat, b: nat)
    requires size > 0
    ensures Bucket(x + [e], size, b) == (if HashVal(e.name, size) == b then [e] else []) + Bucket(x, size, b)
  {
    hide HashVal, HashBits, HashStep, Xor, Widened;
    assert (x + [e])[..|x|] == x;
  }

  lemma {:induction false} BucketJoin(x: seq<HashElem>, y: seq<HashElem>, size: nat, b: nat)
    requires size > 0
    ensures Bucket(x + y, size, b) == Bucket(y, size, b) + Bucket(x, size, b)
  {
    if y == [] {
      assert x + y == x;
    } else {
      hide *;
      var init, e := y[..|y| - 1], y[|y| - 1];
      BucketJoin(x, init, size, b);
      BucketSnoc(x + init, e, size, b);
      BucketSnoc(init, e, size, b);
      Regroup(x, init, [e]);
      Regroup(if HashVal(e.name, size) == b then [e] else [], Bucket(init, size, b), Bucket(x, size, b));
      assert y == init + [e];
    }
  }

  lemma BucketAround(elems: seq<HashElem>, j: nat, size: nat, b: nat)
    requires size > 0 && j < |elems|
    ensures Bucket(elems, size, b)
         == Bucket(elems[j + 1..], size, b) + (if HashVal(elems[j].name, size) == b then [elems[j]] else [])
           + Bucket(elems[..j], size, b)
    ensures Bucket(elems[..j] + elems[j + 1..], size, b) == Bucket(elems[j + 1..], size, b)
              + Bucket(elems[..j], size, b)
  {
    hide HashVal, HashBits, HashStep, Xor, Widened;
    assert elems == elems[..j + 1] + elems[j + 1..];
    BucketJoin(elems[..j + 1], elems[j + 1..], size, b);
    assert elems[..j + 1][..j] == elems[..j];
    BucketJoin(elems[..j], elems[j + 1..], size, b);
  }

  ghost predicate DistinctNames(elems: seq<HashElem>) {
    forall i, j :: 0 <= i < j < |elems| ==> elems[i].name != elems[j].name
  }

  ghost predicate Chained(table: seq<HashElem?>, elems: seq<HashElem>)
    reads elems`next
  {
    |table| > 0 && forall b :: 0 <= b < |table| ==> BucketChained(table, elems, b)
  }

  ghost predicate BucketChained(table: seq<HashElem?>, elems: seq<HashElem>, b: nat)
    requires b < |table|
    reads elems`next
  {
    BucketMembers(elems, |table|, b);
    Chain(table[b], Bucket(elems, |table|, b))
  }

  /** The element with this name, or null. */
  ghost function Named(elems: seq<HashElem>, name: Name): (e: HashElem?)
    ensures e != null ==> e in elems && e.name == name
    ensures e == null ==> forall i :: 0 <= i < |elems| ==> elems[i].name != name
  {
    if elems == [] then null
    else if elems[|elems| - 1].name == name then elems[|elems| - 1]
    else Named(elems[..|elems| - 1], name)
  }

  lemma NamedIs(elems: seq<HashElem>, e: HashElem)
    requires DistinctNames(elems) && e in elems
    ensures Named(elems, e.name) == e
  {
    var n := Named(elems, e.name);
    var i :| 0 <= i < |elems| && elems[i] == e;
    assert n != null;
    var j :| 0 <= j < |elems| && elems[j] == n;
    assert i == j;
  }

  class HashTable {
    const table: array<HashElem?>
    const base: int
    var count: int
    var first: HashElem?
    var last: HashElem?
    ghost var elems: seq<HashElem>

    /** Buckets, order list and count agree on the same elements. */
    ghost predicate Core()
      reads this, table, elems`next, elems`nextelem
    {
      && DistinctNames(elems) && Chained(table[..], elems) && Order(first, elems)
      && count == base - 1 + |elems|
    }

    ghost predicate Valid()
      reads this, table, elems`next, elems`nextelem
    {
      Core() && last == if elems == [] then null else elems[|elems| - 1]
    }

    /** findhash */
    method FindHash(name: Name) returns (h: HashElem?)
      requires Core()
      ensures h == Named(elems, name) && table.Length > 0
    {
      hide HashVal, HashBits, HashStep, Xor, Widened;
      var b := ComputeHash(name, table.Length);
      ghost var s := Bucket(elems, table.Length, b);
      BucketMembers(elems, table.Length, b);
      assert BucketChained(table[..], elems, b);
      h := table[b];
      ghost var k := 0;
      while h != null && h.name != name
        invariant k <= |s| && h == Elem(s, k)
        invariant forall i :: 0 <= i < k ==> s[i].name != name
        decreases |s| - k
      {
        h := h.next;
        k := k + 1;
      }
      if h != null {
        NamedIs(elems, h);
      }
    }

    /** create_hash_table */
    constructor (size: int, base: int)
      ensures Valid() && elems == [] && this.base == base && fresh(table)
      ensures GoodSize(size, table.Length)
    {
      var n := PickSize(size);
      table := new HashElem?[n](_ => null);
      this.base, count, first, last, elems := base, base - 1, null, null, [];
      new;
      hide GoodSize;
      assert forall b :: 0 <= b < n ==> BucketChained(table[..], [], b);
    }

    /** puthash: a name that is known keeps its element; `list` maps indices to elements. */
    method PutHash(name: Name, index: int, list: array?<HashElem?>) returns (hp: HashElem?)
      requires Valid() && (list != null ==> 0 <= index < list.Length && list != table)
      modifies this, table, list, elems`nextelem
      ensures Valid() && hp != null && hp in elems
      ensures var found := Named(old(elems), name);
              && (found != null ==> hp == found && elems == old(elems))
              && (found == null ==> fresh(hp) && hp.name == name && hp.index == index && elems == old(elems) + [hp])
              && (list != null ==> list[..] == old(list[..])[index := if found != null then null else hp])
    {
      hide HashVal, HashBits, HashStep, Xor, Widened;
      hide Core, Chained, Order, DistinctNames, Named, Elem, Bucket;
      if list != null && list[index] != null {
        list[index] := null;
      }
      hp := FindHash(name);
      if hp == null {
        var b := ComputeHash(name, table.Length);
        hp := new HashElem(name, index);
        if list != null {
          list[index] := hp;
        }
        AddElem(hp, b);
      }
    }

    /** A new element goes to the front of its bucket and to the end of the list. */
    method AddElem(hp: HashElem, b: nat)
      requires Valid() && Named(elems, hp.name) == null && hp.nextelem == null && hp !in elems
      requires table.Length > 0 && b == HashVal(hp.name, table.Length)
      modifies this, table, hp, elems`nextelem
      ensures Valid() && elems == old(elems) + [hp]
    {
      hide HashVal, HashBits, HashStep, Xor, Widened;
      ghost var was := elems;
      NotNamed(elems, hp);
      hide Chained, Named, DistinctNames, Order;
      count := count + 1;
      PutInBucket(hp, b);
      assert Order(first, elems);
      AppendElem(hp);
    }

    method PutInBucket(hp: HashElem, b: nat)
      requires Chained(table[..], elems) && b < table.Length && b == HashVal(hp.name, table.Length) && hp !in elems
      modifies table, hp`next
      ensures Chained(table[..], elems + [hp])
    {
      hide HashVal, HashBits, HashStep, Xor, Widened, Chained;
      ghost var before := table[..];
      hp.next := table[b];
      table[b] := hp;
      ChainedPut(before, elems, hp, b);
    }

    method AppendElem(hp: HashElem)
      requires Order(first, elems) && hp.nextelem == null && hp !in elems
      requires last == if elems == [] then null else elems[|elems| - 1]
      requires forall i, j :: 0 <= i < j < |elems| ==> elems[i] != elems[j]
      modifies this`first, this`last, this`elems, elems`nextelem
      ensures elems == old(elems) + [hp] && last == hp && Order(first, elems)
    {
      OrderParts(first, elems);
      hide Order;
      if first == null {
        first := hp;
      }
      if last != null {
        last.nextelem := hp;
      }
      OrderPut(first, elems, hp);
      last := hp;
      elems := elems + [hp];
    }

    /** The search loop for the element in front of hp in its bucket. */
    method Predecessor(hp: HashElem, b: nat, ghost s: seq<HashElem>, ghost at: nat) returns (hp2: HashElem?)
      requires b < table.Length && Chain(table[b], s) && DistinctNames(s) && at < |s| && s[at] == hp
      ensures hp2 == if at == 0 then null else s[at - 1]
    {
      var hp1: HashElem?;
      hp1, hp2 := table[b], null;
      ghost var k := 0;
      while hp1 != null && hp1 != hp
        invariant k <= at && hp1 == Elem(s, k) && hp2 == (if k == 0 then null else s[k - 1])
        decreases at - k
      {
        hp2 := hp1;
        hp1 := hp1.next;
        k := k + 1;
      }
    }

    /** Takes hp out of its bucket, given the element in front of it; other buckets do not
        hold that element and stay as they are. */
    method Relink(hp: HashElem, hp2: HashElem?, b: nat, ghost s: seq<HashElem>, ghost at: nat)
      requires b < table.Length && Chain(table[b], s) && DistinctNames(s) && at < |s| && s[at] == hp && s[at] in elems
      requires hp2 == (if at == 0 then null else s[at - 1]) && (hp2 != null ==> hp2 in elems)
      requires forall c :: 0 <= c < table.Length && c != b ==> OtherBucket(table[..], elems, c, hp2)
      modifies table, elems`next
      ensures Chain(table[b], s[..at] + s[at + 1..])
      ensures forall c :: 0 <= c < table.Length && c != b ==> OtherBucket(table[..], elems, c, hp2)
    {
      DistinctElems(s);
      hide Bucket, DistinctNames;
      if hp2 != null {
        hp2.next := hp.next;
      } else {
        table[b] := hp.next;
      }
      ChainUnlinked(table[b], s, at);
      hide Chain;
      forall c | 0 <= c < table.Length && c != b
        ensures OtherBucket(table[..], elems, c, hp2)
      {
        ghost var t := Bucket(elems, table.Length, c);
        assert old(OtherBucket(table[..], elems, c, hp2));
        assert old(Chain(table[c], t)) && hp2 !in t;
      }
    }

    /** The first part of drophash: element j leaves its bucket. */
    method UnlinkBucket(hp: HashElem, b: nat, ghost j: nat)
      requires Chained(table[..], elems) && DistinctNames(elems) && j < |elems| && elems[j] == hp
      requires table.Length > 0 && b == HashVal(hp.name, table.Length)
      modifies table, elems`next
      ensures Chained(table[..], elems[..j] + elems[j + 1..])
    {
      hide *;
      ghost var s := Bucket(elems, table.Length, b);
      ghost var at := UnlinkFacts(elems, table[..], hp, b, j);
      var hp2 := Predecessor(hp, b, s, at);
      OthersHold(elems, table[..], b, hp2);
      Relink(hp, hp2, b, s, at);
      ChainedWithout(table[..], elems, j, b, hp2);
    }

    /** The second part of drophash: element j leaves the order list.  `last` only changes
        when the list becomes empty. */
    method UnlinkOrder(hp: HashElem, ghost j: nat)
      requires Order(first, elems) && DistinctNames(elems) && j < |elems| && elems[j] == hp
      modifies this`first, this`last, elems`nextelem
      ensures Order(first, elems[..j] + elems[j + 1..])
      ensures last == if |elems| == 1 then null else old(last)
    {
      DistinctElems(elems);
      hide DistinctNames;
      var hp1, hp2: HashElem? := first, null;
      ghost var k := 0;
      while hp1 != null && hp1 != hp
        invariant k <= j && hp1 == Elem(elems, k) && hp2 == (if k == 0 then null else elems[k - 1])
        decreases j - k
      {
        hp2 := hp1;
        hp1 := hp1.nextelem;
        k := k + 1;
      }
      if hp2 != null {
        hp2.nextelem := hp.nextelem;
      } else {
        first := hp.nextelem;
        if first == null {
          last := null;
        }
      }
      OrderUnlinked(first, elems, j);
    }

    /** drophash: an unknown name is ignored.  The dropped element keeps its place as `last`
        when it was the tail of a longer list, and then the table is no longer valid. */
    method DropHash(name: Name, list: array?<HashElem?>) returns (ghost j: nat)
      requires Valid()
      requires list != null ==> list != table && forall i :: 0 <= i < |elems| ==> 0 <= elems[i].index < list.Length
      modifies this, table, list, elems`next, elems`nextelem
      ensures var found := Named(old(elems), name);
              && (found == null ==> Valid() && elems == old(elems) && (list != null ==> list[..] == old(list[..])))
              && (found != null ==>
                    && Core() && j < |old(elems)| && old(elems)[j] == found
                       && elems == old(elems)[..j] + old(elems)[j + 1..]
                    && (Valid() <==> found != old(last) || |old(elems)| == 1)
                    && (list != null ==> list[..] == old(list[..])[found.index := null]))
    {
      hide Core, Chained, Order, DistinctNames, Named, Elem, Bucket, HashVal, HashBits;
      var hp := FindHash(name);
      j := 0;
      if hp != null {
        j := NamedAt(elems, name);
        var b := ComputeHash(name, table.Length);
        RemoveElem(hp, b, j);
        if list != null {
          list[hp.index] := null;
        }
      }
    }

    method RemoveElem(hp: HashElem, b: nat, ghost j: nat)
      requires Valid() && j < |elems| && elems[j] == hp && table.Length > 0 && b == HashVal(hp.name, table.Length)
      modifies this, table, elems`next, elems`nextelem
      ensures Core() && elems == old(elems)[..j] + old(elems)[j + 1..]
      ensures Valid() <==> hp != old(last) || |old(elems)| == 1
    {
      hide Core, Chained, Order, DistinctNames, Elem, Bucket, HashVal, HashBits;
      CoreParts();
      UnlinkBucket(hp, b, j);
      UnlinkOrder(hp, j);
      count := count - 1;
      LastStays(elems, j);
      elems := elems[..j] + elems[j + 1..];
      CoreFrom();
    }

    lemma CoreParts()
      requires Core()
      ensures DistinctNames(elems) && Chained(table[..], elems) && Order(first, elems) && count == base - 1 + |elems|
    {
    }

    lemma CoreFrom()
      requires DistinctNames(elems) && Chained(table[..], elems) && Order(first, elems) && count == base - 1 + |elems|
      ensures Core()
    {
    }
  }

  lemma OrderUnlinked(head: HashElem?, s: seq<HashElem>, k: nat)
    requires k < |s|
    requires forall i {:trigger s[i].nextelem} :: 0 <= i < |s| && i != k - 1 ==> s[i].nextelem == Elem(s, i + 1)
    requires if k == 0 then head == Elem(s, 1) else head == Elem(s, 0) && s[k - 1].nextelem == Elem(s, k + 1)
    ensures Order(head, s[..k] + s[k + 1..])
  {
    var r := s[..k] + s[k + 1..];
    forall i {:trigger r[i].nextelem} | 0 <= i < |r|
      ensures r[i].nextelem == Elem(r, i + 1)
    {
      assert r[i] == if i < k then s[i] else s[i + 1];
    }
  }

  lemma {:induction false} NamedAt(elems: seq<HashElem>, name: Name) returns (j: nat)
    requires Named(elems, name) != null
    ensures j < |elems| && elems[j] == Named(elems, name)
  {
    if elems[|elems| - 1].name == name {
      j := |elems| - 1;
    } else {
      j := NamedAt(elems[..|elems| - 1], name);
    }
  }

  /** What is left has distinct names, and its last element is the old one unless that is
      the one that went. */
  lemma LastStays(elems: seq<HashElem>, j: nat)
    requires DistinctNames(elems) && j < |elems|
    ensures var rest := elems[..j] + elems[j + 1..];
            && DistinctNames(rest)
            && (rest == [] <==> |elems| == 1)
            && (rest != [] ==> (rest[|rest| - 1] == elems[|elems| - 1] <==> elems[j] != elems[|elems| - 1]))
            && (|elems| == 1 ==> elems[j] == elems[|elems| - 1])
  {
    var rest := elems[..j] + elems[j + 1..];
    assert forall i :: 0 <= i < |rest| ==> rest[i] == elems[if i < j then i else i + 1];
  }

  /** A bucket other than that of the changed element, with its list. */
  ghost predicate OtherBucket(table: seq<HashElem?>, elems: seq<HashElem>, c: nat, changed: HashElem?)
    requires c < |table|
    reads Bucket(elems, |table|, c)`next
  {
    var s := Bucket(elems, |table|, c);
    changed !in s && Chain(table[c], s)
  }

  lemma OthersHold(elems: seq<HashElem>, table: seq<HashElem?>, b: nat, changed: HashElem?)
    requires Chained(table, elems) && (changed != null ==> HashVal(changed.name, |table|) == b)
    ensures forall c :: 0 <= c < |table| && c != b ==> OtherBucket(table, elems, c, changed)
  {
    hide HashVal, HashBits, HashStep, Xor, Widened, Chain;
    forall c | 0 <= c < |table| && c != b
      ensures OtherBucket(table, elems, c, changed)
    {
      assert BucketChained(table, elems, c);
      BucketMembers(elems, |table|, c);
    }
  }

  lemma UnlinkFacts(elems: seq<HashElem>, table: seq<HashElem?>, hp: HashElem, b: nat, j: nat) returns (at: nat)
    requires Chained(table, elems) && DistinctNames(elems) && j < |elems| && elems[j] == hp
    requires |table| > 0 && b == HashVal(hp.name, |table|)
    ensures b < |table|
    ensures var s := Bucket(elems, |table|, b);
            && Chain(table[b], s) && DistinctNames(s) && at < |s| && s[at] == hp
            && (forall i :: 0 <= i < |s| ==> s[i] in elems && HashVal(s[i].name, |table|) == b)
            && Bucket(elems[..j] + elems[j + 1..], |table|, b) == s[..at] + s[at + 1..]
  {
    hide HashVal, HashBits, HashStep, Xor, Widened;
    assert BucketChained(table, elems, b);
    at := BucketPlace(elems, j, |table|, b);
    BucketDistinct(elems, |table|, b);
    BucketMembers(elems, |table|, b);
    hide Bucket, DistinctNames, Chain, Chained;
  }

  /** With one bucket relinked, the table is that of the elements without element j. */
  lemma ChainedWithout(table: seq<HashElem?>, elems: seq<HashElem>, j: nat, b: nat, changed: HashElem?)
    requires j < |elems| && b < |table| && HashVal(elems[j].name, |table|) == b
    requires forall c :: 0 <= c < |table| && c != b ==> OtherBucket(table, elems, c, changed)
    requires Chain(table[b], Bucket(elems[..j] + elems[j + 1..], |table|, b))
    ensures Chained(table, elems[..j] + elems[j + 1..])
  {
    hide HashVal, HashBits, HashStep, Xor, Widened, Bucket, Chain;
    var rest := elems[..j] + elems[j + 1..];
    forall c | 0 <= c < |table|
      ensures BucketChained(table, rest, c)
    {
      if c != b {
        BucketOther(elems, j, |table|, c);
        assert OtherBucket(table, elems, c, changed);
      }
    }
  }

  lemma DistinctElems(s: seq<HashElem>)
    requires DistinctNames(s)
    ensures forall i, j :: 0 <= i < j < |s| ==> s[i] != s[j]
  {
  }

  lemma NotNamed(elems: seq<HashElem>, e: HashElem)
    requires Named(elems, e.name) == null && DistinctNames(elems)
    ensures DistinctNames(elems + [e]) && forall i, j :: 0 <= i < j < |elems| ==> elems[i] != elems[j]
  {
  }

  lemma OrderParts(head: HashElem?, s: seq<HashElem>)
    requires Order(head, s)
    ensures head == Elem(s, 0)
    ensures forall i {:trigger s[i].nextelem} :: 0 <= i < |s| - 1 ==> s[i].nextelem == Elem(s, i + 1)
  {
  }

  lemma OrderPut(head: HashElem?, s: seq<HashElem>, e: HashElem)
    requires head == (if s == [] then e else s[0]) && e.nextelem == null
    requires forall i {:trigger s[i].nextelem} :: 0 <= i < |s| - 1 ==> s[i].nextelem == Elem(s, i + 1)
    requires s != [] ==> s[|s| - 1].nextelem == e
    ensures Order(head, s + [e])
  {
    var r := s + [e];
    forall i {:trigger r[i].nextelem} | 0 <= i < |r|
      ensures r[i].nextelem == Elem(r, i + 1)
    {
      assert i < |s| ==> r[i] == s[i];
    }
  }

  lemma ChainUnlinked(head: HashElem?, s: seq<HashElem>, k: nat)
    requires k < |s| && forall i {:trigger s[i].next} :: 0 <= i < |s| && i != k - 1 ==> s[i].next == Elem(s, i + 1)
    requires if k == 0 then head == Elem(s, 1) else head == Elem(s, 0) && s[k - 1].next == Elem(s, k + 1)
    ensures Chain(head, s[..k] + s[k + 1..])
  {
    var r := s[..k] + s[k + 1..];
    forall i {:trigger r[i].next} | 0 <= i < |r|
      ensures r[i].next == Elem(r, i + 1)
    {
      assert r[i] == if i < k then s[i] else s[i + 1];
    }
  }

  lemma BucketOther(elems: seq<HashElem>, j: nat, size: nat, c: nat)
    requires size > 0 && j < |elems| && HashVal(elems[j].name, size) != c
    ensures Bucket(elems[..j] + elems[j + 1..], size, c) == Bucket(elems, size, c)
  {
    hide HashVal, HashBits, HashStep, Xor, Widened;
    BucketAround(elems, j, size, c);
  }

  /** Where element j stands in its bucket, and the buckets without it. */
  lemma BucketPlace(elems: seq<HashElem>, j: nat, size: nat, b: nat) returns (at: nat)
    requires j < |elems| && size > 0 && DistinctNames(elems) && HashVal(elems[j].name, size) == b
    ensures var s := Bucket(elems, size, b);
            && at < |s| && s[at] == elems[j]
            && Bucket(elems[..j] + elems[j + 1..], size, b) == s[..at] + s[at + 1..]
  {
    hide HashVal, HashBits, HashStep, Xor, Widened;
    BucketAround(elems, j, size, b);
    at := |Bucket(elems[j + 1..], size, b)|;
  }

  lemma {:induction false} BucketDistinct(elems: seq<HashElem>, size: nat, b: nat)
    requires size > 0 && DistinctNames(elems)
    ensures DistinctNames(Bucket(elems, size, b))
  {
    hide HashVal, HashBits, HashStep, Xor, Widened;
    if elems != [] {
      BucketDistinct(elems[..|elems| - 1], size, b);
      BucketMembers(elems[..|elems| - 1], size, b);
    }
  }

  const START_SIZE := 5000

  const PRIMES := 45

  function Prime(i: nat): nat
    requires i < PRIMES
  {
    var primes: seq<nat> := [
      29, 229, 883, 1671, 2791, 4801, 8629, 10007, 15289, 25303, 34843, 65269, 99709, 129403,
      147673, 166669, 201403, 222163, 242729, 261431, 303491, 320237, 402761, 501131, 602309,
      701507, 800999, 900551, 1000619, 1100837, 1200359, 1300021, 1400017, 1500007, 1750009,
      2000003, 2500009, 3000017, 4000037, 5000011, 6000011, 7000003, 8000009, 9000011, 9999991];
    primes[i]
  }

  /** n is the first prime of the list above the wanted size, or the last of the list. */
  ghost predicate GoodSize(size: int, n: nat) {
    var wanted := if size < START_SIZE then START_SIZE else size;
    exists i: nat :: i < PRIMES && n == Prime(i) && (i < PRIMES - 1 ==> Prime(i) > wanted) && forall k: nat :: k < i ==>
      Prime(k) <= wanted
  }

  /** A table is never smaller than 8629 buckets: the wanted size is raised to 5000 first. */
  lemma StartsAt(size: int)
    requires size <= 5000
    ensures GoodSize(size, 8629)
  {
    var primes: seq<nat> := [29, 229, 883, 1671, 2791, 4801, 8629];
    assert forall k: nat :: k < 7 ==> Prime(k) == primes[k];
    assert Prime(6) == 8629;
  }

  /** Up to the last prime of the list, a table is larger than asked for. */
  lemma GoodSizeIsLarger(size: int, n: nat)
    requires GoodSize(size, n)
    ensures n > START_SIZE && (size < 9999991 ==> n > size)
  {
    assert Prime(PRIMES - 1) == 9999991;
    hide Prime;
  }

  /** The search loop of create_hash_table. */
  method PickSize(size: int) returns (n: nat)
    ensures n > 0 && GoodSize(size, n)
  {
    hide Prime;
    var wanted := if size < START_SIZE then START_SIZE else size;
    var i := 0;
    while i < PRIMES - 1 && Prime(i) <= wanted
      invariant 0 <= i < PRIMES
      invariant forall k :: 0 <= k < i ==> Prime(k) <= wanted
    {
      i := i + 1;
    }
    n := Prime(i);
    GoodSizeIsLarger(size, n);
  }

  lemma ChainedPut(table: seq<HashElem?>, elems: seq<HashElem>, e: HashElem, b: nat)
    requires Chained(table, elems) && e !in elems && b < |table| && HashVal(e.name, |table|) == b && e.next == table[b]
    ensures Chained(table[b := e], elems + [e])
  {
    hide HashVal, HashBits, HashStep, Xor, Widened;
    var after, longer := table[b := e], elems + [e];
    assert longer[..|elems|] == elems;
    forall c | 0 <= c < |after|
      ensures BucketChained(after, longer, c)
    {
      assert BucketChained(table, elems, c);
      BucketMembers(elems, |table|, c);
    }
  }

  // ----- copying -----

  /** The same names with the same indices, in the same order. */
  ghost predicate SameContents(x: seq<HashElem>, y: seq<HashElem>) {
    |x| == |y| && forall i :: 0 <= i < |x| ==> x[i].name == y[i].name && x[i].index == y[i].index
  }

  lemma SameContentsStep(x: seq<HashElem>, y: seq<HashElem>, k: nat)
    requires k < |x| && DistinctNames(x) && SameContents(x[..k], y)
    ensures Named(y, x[k].name) == null
    ensures forall e: HashElem :: e.name == x[k].name && e.index == x[k].index ==> SameContents(x[..k + 1], y + [e])
  {
  }

  ghost predicate Disjoint(x: seq<HashElem>, y: seq<HashElem>) {
    forall i, j :: 0 <= i < |x| && 0 <= j < |y| ==> x[i] != y[j]
  }

  /** The index list after the elements have been put in, one after the other. */
  ghost function Refilled(list: seq<HashElem?>, elems: seq<HashElem>): (r: seq<HashElem?>)
    requires forall i :: 0 <= i < |elems| ==> 0 <= elems[i].index < |list|
    ensures |r| == |list|
  {
    if elems == [] then list
    else
      var e := elems[|elems| - 1];
      Refilled(list, elems[..|elems| - 1])[e.index := e]
  }

  /** Where an index is used the list holds an element with that index, the last one put in;
      everywhere else it is what it was. */
  lemma {:induction false} RefilledAt(list: seq<HashElem?>, elems: seq<HashElem>, j: nat)
    requires (forall i :: 0 <= i < |elems| ==> 0 <= elems[i].index < |list|) && j < |list|
    ensures (forall i :: 0 <= i < |elems| ==> elems[i].index != j) ==> Refilled(list, elems)[j] == list[j]
    ensures forall i ::
              0 <= i < |elems| && elems[i].index == j && (forall k :: i < k < |elems| ==> elems[k].index != j) ==>
              Refilled(list, elems)[j] == elems[i]
  {
    if elems != [] {
      RefilledAt(list, elems[..|elems| - 1], j);
    }
  }

  lemma RefilledNext(list: seq<HashElem?>, elems: seq<HashElem>, e: HashElem)
    requires forall i :: 0 <= i < |elems| ==> 0 <= elems[i].index < |list|
    requires 0 <= e.index < |list|
    ensures Refilled(list, elems + [e]) == Refilled(list, elems)[e.index := e]
  {
    assert (elems + [e])[..|elems|] == elems;
  }

  ghost predicate IndicesFit(elems: seq<HashElem>, size: nat) {
    forall i :: 0 <= i < |elems| ==> 0 <= elems[i].index < size
  }

  lemma CopiedFit(x: seq<HashElem>, y: seq<HashElem>, k: nat, size: nat)
    requires IndicesFit(x, size) && k <= |x| && SameContents(x[..k], y)
    ensures IndicesFit(y, size)
  {
  }

  /** copy_hash_table: the elements are put into a new table one after the other. */
  method CopyHashTable(ht: HashTable, list: array?<HashElem?>, newsize: int) returns (copy: HashTable)
    requires ht.Valid()
    requires list != null ==> list != ht.table && IndicesFit(ht.elems, list.Length)
    modifies list
    ensures fresh(copy) && copy.Valid() && copy.base == ht.base && SameContents(ht.elems, copy.elems)
    ensures GoodSize(if newsize < ht.table.Length then ht.table.Length else newsize, copy.table.Length)
    ensures ht.Valid() && copy.count == ht.count
    ensures list != null ==> IndicesFit(copy.elems, list.Length) && list[..] == Refilled(old(list[..]), copy.elems)
  {
    var size := if newsize < ht.table.Length then ht.table.Length else newsize;
    ht.CoreParts();
    copy := new HashTable(size, ht.base);
    var elem := ht.first;
    assert elem == Elem(ht.elems, 0) && SameContents(ht.elems[..0], copy.elems) && Disjoint(ht.elems, copy.elems);
    hide HashTable.Core, GoodSize, HashTable.Valid, SameContents, Chained, Order, DistinctNames, Disjoint, IndicesFit,
      Refilled, ListHolds;
    ghost var k := 0;
    while elem != null
      invariant k <= |ht.elems| && elem == Elem(ht.elems, k)
      invariant fresh(copy) && fresh(copy.table) && fresh(copy.elems) && copy.Valid() && copy.base == ht.base
      invariant ht.Valid() && SameContents(ht.elems[..k], copy.elems) && Disjoint(ht.elems, copy.elems)
      invariant ListHolds(list, old(if list != null then list[..] else []), copy.elems)
      decreases |ht.elems| - k
    {
      elem := CopyNext(ht, elem, k, copy, list, old(if list != null then list[..] else []));
      k := k + 1;
    }
    assert ht.elems[..k] == ht.elems;
    SameCount(ht, copy);
  }

  lemma SameCount(ht: HashTable, copy: HashTable)
    requires ht.Core() && copy.Core() && copy.base == ht.base && SameContents(ht.elems, copy.elems)
    ensures copy.count == ht.count
  {
  }

  ghost predicate ListHolds(list: array?<HashElem?>, was: seq<HashElem?>, elems: seq<HashElem>)
    reads list
  {
    list != null ==> |was| == list.Length && IndicesFit(elems, |was|) && list[..] == Refilled(was, elems)
  }

  method CopyNext(ht: HashTable, elem: HashElem, ghost k: nat, copy: HashTable, list: array?<HashElem?>,
                  ghost was: seq<HashElem?>)
    returns (next: HashElem?)
    requires ht.Valid() && copy.Valid() && k < |ht.elems| && elem == ht.elems[k]
    requires SameContents(ht.elems[..k], copy.elems)
    requires list != null ==> list != ht.table && list != copy.table && IndicesFit(ht.elems, list.Length)
    requires ht != copy && ht.table != copy.table && Disjoint(ht.elems, copy.elems) && ListHolds(list, was, copy.elems)
    modifies copy, copy.table, list, copy.elems`nextelem
    ensures ht.Valid() && copy.Valid() && SameContents(ht.elems[..k + 1], copy.elems)
    ensures next == Elem(ht.elems, k + 1) && ListHolds(list, was, copy.elems)
    ensures Disjoint(ht.elems, copy.elems)
    ensures forall i :: 0 <= i < |copy.elems| ==> copy.elems[i] in old(copy.elems) || fresh(copy.elems[i])
  {
    hide HashTable.Core, HashTable.Valid, GoodSize, SameContents, Chained, Order, DistinctNames, Disjoint, Refilled;
    ghost var before := copy.elems;
    next := CopyElem(ht, elem, k, copy, list);
    if list != null {
      CopiedFit(ht.elems, copy.elems, k + 1, list.Length);
      RefilledNext(was, before, copy.elems[|before|]);
    }
  }

  /** One element is put into the copy; the next one is returned. */
  method CopyElem(ht: HashTable, elem: HashElem, ghost k: nat, copy: HashTable, list: array?<HashElem?>)
    returns (next: HashElem?)
    requires ht.Valid() && copy.Valid() && k < |ht.elems| && elem == ht.elems[k]
    requires SameContents(ht.elems[..k], copy.elems)
    requires list != null ==> list != ht.table && list != copy.table && 0 <= elem.index < list.Length
    requires ht != copy && ht.table != copy.table && Disjoint(ht.elems, copy.elems)
    modifies copy, copy.table, list, copy.elems`nextelem
    ensures ht.Valid() && copy.Valid() && SameContents(ht.elems[..k + 1], copy.elems)
    ensures next == Elem(ht.elems, k + 1)
    ensures |copy.elems| == |old(copy.elems)| + 1 && copy.elems == old(copy.elems) + [copy.elems[|old(copy.elems)|]]
    ensures copy.elems[|old(copy.elems)|].index == elem.index
    ensures list != null ==> list[..] == old(list[..])[elem.index := copy.elems[|old(copy.elems)|]]
    ensures Disjoint(ht.elems, copy.elems)
    ensures forall i :: 0 <= i < |copy.elems| ==> copy.elems[i] in old(copy.elems) || fresh(copy.elems[i])
  {
    hide Chained, Named, Bucket, HashVal, HashBits;
    ht.CoreParts();
    hide HashTable.Core;
    SameContentsStep(ht.elems, copy.elems, k);
    var e := copy.PutHash(elem.name, elem.index, list);
    next := elem.nextelem;
  }
}
