/** The guarded allocator of fortify.c: every block has a checksummed header on a doubly
    linked list, and guard bytes on both sides of the user's memory. */
module Fortify {

  // ----- the header checksum -----

  const WORD := 0x1_0000_0000

  type Word = w: int | 0 <= w < 0x1_0000_0000 witness 0

  /** The sum of the words modulo 2^32. */
  function Sum(words: seq<Word>): (s: Word) {
    if words == [] then 0 else Wrap(Sum(words[..|words| - 1]) + words[|words| - 1])
  }

  function Wrap(x: int): Word { x % WORD }

  lemma {:induction false} SumUpdate(words: seq<Word>, i: nat, x: Word)
    requires i < |words|
    ensures Sum(words[i := x]) == Wrap(Sum(words) + x - words[i])
  {
    hide Wrap, Sum;
    var last := |words| - 1;
    var changed := words[i := x];
    SumLast(words);
    SumLast(changed);
    if i == last {
      assert changed[..last] == words[..last];
      WrapLast(Sum(words[..last]), words[last], x);
    } else {
      SumUpdate(words[..last], i, x);
      assert changed[..last] == words[..last][i := x];
      WrapInner(Sum(words[..last]), words[i], x, words[last]);
    }
  }

  lemma SumLast(words: seq<Word>)
    requires words != []
    ensures Sum(words) == Wrap(Sum(words[..|words| - 1]) + words[|words| - 1])
  {
  }

  lemma WrapLast(s: Word, was: Word, x: Word)
    ensures Wrap(s + x) == Wrap(Wrap(s + was) + x - was)
  {
  }

  lemma WrapInner(s: Word, was: Word, x: Word, last: Word)
    ensures Wrap(Wrap(s + x - was) + last) == Wrap(Wrap(s + last) + x - was)
  {
    var q, r := (s + x - was) / WORD, (s + last) / WORD;
    var y, z := (s + x - was) % WORD + last, (s + last) % WORD + x - was;
    assert y == z + (r - q) * WORD;
    Shift(z, r - q);
  }

  lemma Shift(y: int, k: int)
    ensures (y + k * WORD) % WORD == y % WORD
  {
    var q, r := y / WORD, y % WORD;
    assert y + k * WORD == (q + k) * WORD + r;
  }

  /** A change of any single word of a valid header is noticed. */
  lemma OneWordDetected(words: seq<Word>, i: nat, x: Word)
    requires i < |words| && Sum(words) == 0
    ensures Sum(words[i := x]) == 0 <==> x == words[i]
  {
    SumUpdate(words, i, x);
  }

  /** Two words that have changed places are not. */
  lemma ExchangeUndetected(words: seq<Word>, i: nat, j: nat)
    requires i < j < |words|
    ensures Sum(words[i := words[j]][j := words[i]]) == Sum(words)
  {
    SumUpdate(words, i, words[j]);
    SumUpdate(words[i := words[j]], j, words[i]);
    WrapBack(Sum(words), words[i], words[j]);
  }

  lemma WrapBack(s: Word, x: Word, y: Word)
    ensures Wrap(Wrap(s + y - x) + x - y) == s
  {
  }

  /** The sum of a header of seven words, without the wrapping in between. */
  lemma SumOfSeven(words: seq<Word>)
    requires |words| == 7
    ensures var total: int := words[0] as int + words[1] + words[2] + words[3] + words[4] + words[5] + words[6];
            Sum(words) == total % 0x1_0000_0000
  {
    hide Sum, Total;
    SumIsTotal(words);
    assert words[..7] == words;
    TotalEmpty();
    assert words[..0] == [];
    TotalNext(words, 0);
    TotalNext(words, 1);
    TotalNext(words, 2);
    TotalNext(words, 3);
    TotalNext(words, 4);
    TotalNext(words, 5);
    TotalNext(words, 6);
  }

  lemma TotalEmpty()
    ensures Total([]) == 0
  {
  }

  lemma TotalNext(words: seq<Word>, k: nat)
    requires k < |words|
    ensures Total(words[..k + 1]) == Total(words[..k]) + words[k]
  {
    assert words[..k + 1][..k] == words[..k];
  }

  function Total(words: seq<Word>): nat {
    if words == [] then 0 else Total(words[..|words| - 1]) + words[|words| - 1]
  }

  lemma {:induction false} SumIsTotal(words: seq<Word>)
    ensures Sum(words) == Total(words) % WORD
  {
    if words != [] {
      SumIsTotal(words[..|words| - 1]);
    }
  }

  lemma Cancels(s: Word)
    ensures (s + (WORD - s) % WORD) % WORD == 0
  {
  }

  // ----- blocks -----

  const BEFORE_SIZE := 16
  const BEFORE_VALUE := 0xA3
  const AFTER_SIZE := 16
  const AFTER_VALUE := 0xA5
  const FILL_VALUE := 0xA7

  class Block {
    const address: Word
    const file: Word
    const line: Word
    const size: Word
    var prev: Block?
    var next: Block?
    var checksum: Word
    var scope: Word
    const data: array<int>
    ghost const depth: nat

    /** A new block: the guards set, the user's memory filled with a known value. */
    constructor (address: Word, file: Word, line: Word, size: Word, scope: Word, ghost depth: nat)
      ensures this.address == address && this.size == size && this.scope == scope && this.depth == depth
      ensures this.file == file && this.line == line
      ensures prev == null && next == null && fresh(data) && Intact() && Filled()
    {
      this.address, this.file, this.line, this.size, this.scope, this.depth := address, file, line, size, scope, depth;
      prev, next, checksum := null, null, 0;
      data := new int[BEFORE_SIZE + size + AFTER_SIZE](i => if i < BEFORE_SIZE then BEFORE_VALUE
        else if i < BEFORE_SIZE + size then FILL_VALUE else AFTER_VALUE);
    }

    /** The header as the words the checksum runs over. */
    function Words(): (w: seq<Word>)
      reads this
    {
      [file, line, size, AddressOf(prev), AddressOf(next), checksum, scope]
    }

    predicate HeaderValid()
      reads this
    {
      Sum(Words()) == 0
    }

    /** A header is valid exactly when its seven fields, the links as addresses, add up to
        zero: so a change of any one of them alone is noticed. */
    lemma HeaderValidIff()
      ensures HeaderValid() <==>
                (file as int + line + size + (if prev == null then 0 else prev.address)
                 + (if next == null then 0 else next.address) + checksum + scope) % 0x1_0000_0000 == 0
    {
      SumOfSeven(Words());
    }

    /** The guards are the sixteen bytes on either side of the user's memory. */
    lemma IntactIff()
      ensures Intact() <==>
                && data.Length == 32 + size
                && (forall i :: 0 <= i < 16 ==> data[i] == 0xA3)
                && (forall i :: 16 + size <= i < 32 + size ==> data[i] == 0xA5)
    {
    }

    /** The guard bytes are untouched. */
    ghost predicate Intact()
      reads data
    {
      && data.Length == BEFORE_SIZE + size + AFTER_SIZE
      && (forall i :: 0 <= i < BEFORE_SIZE ==> data[i] == BEFORE_VALUE)
      && forall i :: BEFORE_SIZE + size <= i < data.Length ==> data[i] == AFTER_VALUE
    }

    /** All of the user's memory has the value it is filled with. */
    ghost predicate Filled()
      reads data
    {
      data.Length == BEFORE_SIZE + size + AFTER_SIZE && forall i :: BEFORE_SIZE <= i < BEFORE_SIZE + size ==>
        data[i] == FILL_VALUE
    }

    lemma FilledIff()
      ensures Filled() <==> data.Length == 32 + size && forall i :: 16 <= i < 16 + size ==> data[i] == 0xA7
    {
    }

    /** ChecksumHeader */
    method ChecksumHeader() returns (checksum: Word)
      ensures checksum == Sum(Words())
    {
      checksum := 0;
      var words := Words();
      for c := 0 to |words|
        invariant checksum == Sum(words[..c])
      {
        assert words[..c + 1][..c] == words[..c];
        checksum := (checksum + words[c]) % WORD;
      }
      assert words[..|words|] == words;
    }

    method MakeHeaderValid()
      modifies this`checksum
      ensures HeaderValid()
    {
      checksum := 0;
      ghost var words := Words();
      var sum := ChecksumHeader();
      checksum := (WORD - sum) % WORD;
      assert Words() == words[5 := checksum] && words[5] == 0;
      hide Sum;
      SumUpdate(words, 5, checksum);
      Cancels(sum);
    }

    /** CheckFortification on the bytes from..to. */
    method CheckFortification(from: nat, to: nat, value: int) returns (ok: bool)
      requires from <= to <= data.Length
      ensures ok <==> forall i :: from <= i < to ==> data[i] == value
    {
      for i := from to to
        invariant forall k :: from <= k < i ==> data[k] == value
      {
        if data[i] != value {
          return false;
        }
      }
      return true;
    }

    /** CheckBlock: a header that is not valid is not looked at any further. */
    method CheckBlock() returns (ok: bool)
      requires data.Length == BEFORE_SIZE + size + AFTER_SIZE
      ensures ok <==> HeaderValid() && Intact()
    {
      var sum := ChecksumHeader();
      if sum != 0 {
        return false;
      }
      var before := CheckFortification(0, BEFORE_SIZE, BEFORE_VALUE);
      var after := CheckFortification(BEFORE_SIZE + size, data.Length, AFTER_VALUE);
      ok := before && after;
    }
  }

  /** A link as the word that is stored. */
  function AddressOf(b: Block?): Word { if b == null then 0 else b.address }

  // ----- the list of live blocks -----

  function At(s: seq<Block>, i: int): Block? {
    if 0 <= i < |s| then s[i] else null
  }

  function Before(s: seq<Block>, i: int): Block? {
    At(s, i - 1)
  }

  function Behind(s: seq<Block>, i: int): Block? {
    At(s, i + 1)
  }

  ghost predicate Distinct(s: seq<Block>) {
    && (forall i, j :: 0 <= i < j < |s| ==> s[i] != s[j])
    && forall i, j :: 0 <= i < j < |s| ==> s[i].data != s[j].data
  }

  /** The blocks are linked in both directions, in this order. */
  ghost predicate Linked(head: Block?, s: seq<Block>)
    reads s`prev, s`next
  {
    && head == At(s, 0)
    && (forall i {:trigger s[i].next} :: 0 <= i < |s| ==> s[i].next == Behind(s, i))
    && forall i {:trigger s[i].prev} :: 0 <= i < |s| ==> s[i].prev == Before(s, i)
  }

  ghost predicate HeadersValid(s: seq<Block>)
    reads s
  {
    forall i {:trigger s[i]} :: 0 <= i < |s| ==> s[i].HeaderValid()
  }

  /** Scopes are stored in one byte. */
  ghost predicate ScopesMatch(s: seq<Block>)
    reads s`scope
  {
    forall i {:trigger s[i]} :: 0 <= i < |s| ==> s[i].scope == s[i].depth % 256
  }

  class Allocator {
    var head: Block?
    var scope: Word
    ghost var depth: nat
    ghost var live: seq<Block>

    ghost predicate Valid()
      reads this, live
    {
      && Distinct(live) && Linked(head, live) && HeadersValid(live) && ScopesMatch(live)
      && scope == depth % 256
    }

    constructor ()
      ensures Valid() && live == [] && depth == 0
    {
      head, scope, depth, live := null, 0, 0, [];
    }

    /** IsOnList */
    method IsOnList(h: Block) returns (found: bool)
      requires Distinct(live) && Linked(head, live)
      ensures found <==> h in live
    {
      var curr := head;
      ghost var k := 0;
      while curr != null
        invariant 0 <= k <= |live| && curr == At(live, k)
        invariant forall i :: 0 <= i < k ==> live[i] != h
        decreases |live| - k
      {
        if curr == h {
          return true;
        }
        curr := curr.next;
        k := k + 1;
      }
      return false;
    }

    /** _Fortify_malloc, where `address` is the memory the system finds, if it finds any.
        Nothing is allocated for size zero. */
    method Malloc(size: Word, file: Word, line: Word, available: bool, address: Word) returns (h: Block?)
      requires Valid()
      modifies this`head, this`live, live`prev, live`checksum
      ensures Valid() && depth == old(depth) && scope == old(scope)
      ensures size == 0 || !available ==> h == null && live == old(live)
      ensures size > 0 && available ==>
                fresh(h) && fresh(h.data) && h.Intact() && h.Filled() && h.file == file && h.line == line
                  && h.size == size && h.depth == depth && live == [h] + old(live)
    {
      hide *;
      if size == 0 || !available {
        return null;
      }
      var b := new Block(address, file, line, size, scope, depth);
      ScopeOfDepth();
      Insert(b);
      h := b;
    }

    /** _Fortify_free.  The block must be on the list, and it and its neighbours must pass
        the check.  A neighbour behind it that fails is only noticed when the block has
        already been taken out of the forward links. */
    method Free(h: Block?) returns (ok: bool, ghost j: nat)
      requires Valid() && LengthsOK(live)
      modifies this`head, this`live, live`prev, live`next, live`checksum
      ensures depth == old(depth) && scope == old(scope)
      ensures h == null || h !in old(live) ==> !ok && Valid() && live == old(live)
      ensures h != null && h in old(live) ==> j < |old(live)| && old(live)[j] == h
      ensures h != null && h in old(live) ==>
                var front, back := Before(old(live), j), Behind(old(live), j);
                && (ok <==> h.Intact() && Passes(front) && Passes(back))
                && (ok ==> Valid() && live == old(live)[..j] + old(live)[j + 1..])
                && (!h.Intact() || !Passes(front) ==> Valid() && live == old(live))
                && (Valid() <==> !(h.Intact() && Passes(front) && !Passes(back)))
                && (h.Intact() && Passes(front) && !Passes(back) ==>
                      live == old(live) && back != null && back.prev == h
                        && if front == null then head == back else front.next == back)
    {
      hide *;
      j := 0;
      ok := false;
      if h == null {
        return;
      }
      ListParts();
      var found := IsOnList(h);
      if !found {
        return;
      }
      j :| j < |live| && live[j] == h;
      ok := Remove(h, j);
    }

    /** The checks and the unlinking of _Fortify_free. */
    method Remove(h: Block, ghost j: nat) returns (ok: bool)
      requires Valid() && LengthsOK(live)
      requires j < |live| && live[j] == h
      modifies this`head, this`live, live`prev, live`next, live`checksum
      ensures var front, back := Before(old(live), j), Behind(old(live), j);
              && (ok <==> h.Intact() && Passes(front) && Passes(back))
              && (ok ==> Valid() && live == old(live)[..j] + old(live)[j + 1..])
              && (!h.Intact() || !Passes(front) ==> Valid() && live == old(live))
              && (Valid() <==> !(h.Intact() && Passes(front) && !Passes(back)))
              && (h.Intact() && Passes(front) && !Passes(back) ==>
                    live == old(live) && back != null && back.prev == h
                      && if front == null then head == back else front.next == back)
    {
      hide *;
      ListParts();
      var front, back := Neighbours(h, j);
      ok := h.CheckBlock();
      if !ok {
        return;
      }
      if front != null {
        ok := front.CheckBlock();
        if !ok {
          return;
        }
      }
      UnlinkFront(h, front, back, j);
      if back != null {
        ok := back.CheckBlock();
        if !ok {
          NotValid(j);
          return;
        }
      }
      ScopesRest(live, j);
      UnlinkBack(h, front, back, j);
      ValidFrom();
    }

    /** Between the two halves of the unlinking the list is broken. */
    lemma NotValid(j: nat)
      requires j + 1 < |live| && Distinct(live) && HalfLinked(head, live, j)
      ensures !Valid()
    {
      assert j > 0 ==> live[j - 1].next == live[j + 1];
      hide HeadersValid, ScopesMatch;
    }

    lemma ValidFrom()
      requires Distinct(live) && Linked(head, live) && HeadersValid(live) && ScopesMatch(live) && scope == depth % 256
      ensures Valid()
    {
    }

    method Neighbours(h: Block, ghost j: nat) returns (front: Block?, back: Block?)
      requires Distinct(live) && Linked(head, live) && HeadersValid(live) && j < |live| && live[j] == h
      requires LengthsOK(live)
      ensures front == Before(live, j) && back == Behind(live, j)
      ensures h.data.Length == BEFORE_SIZE + h.size + AFTER_SIZE
      ensures h.HeaderValid() && (front != null ==> front.HeaderValid()) && (back != null ==> back.HeaderValid())
      ensures front != null ==>
                front.data.Length == BEFORE_SIZE + front.size + AFTER_SIZE && (Passes(front) <==> front.Intact())
      ensures back != null ==>
                back.data.Length == BEFORE_SIZE + back.size + AFTER_SIZE && (Passes(back) <==> back.Intact())
      ensures Passes(null) && (back != null ==> j + 1 < |live| && back in live && back != h)
    {
      hide Block.HeaderValid, Block.Intact;
      front, back := h.prev, h.next;
      assert live[j].HeaderValid();
      assert j > 0 ==> live[j - 1].HeaderValid();
      assert j + 1 < |live| ==> live[j + 1].HeaderValid();
    }

    method UnlinkFront(h: Block, front: Block?, back: Block?, ghost j: nat)
      requires Distinct(live) && Linked(head, live) && HeadersValid(live) && j < |live| && live[j] == h
      requires front == Before(live, j) && back == Behind(live, j)
      modifies this`head, live`next, live`checksum
      ensures back != null ==> back.HeaderValid()
      ensures HalfLinked(head, live, j) && HeadersValid(live)
      ensures if front == null then head == back else front.next == back
      ensures back != null ==> back.prev == h
    {
      hide Block.HeaderValid;
      if front != null {
        front.next := h.next;
        front.MakeHeaderValid();
      } else {
        head := h.next;
      }
      assert j + 1 < |live| ==> live[j + 1].HeaderValid();
    }

    method UnlinkBack(h: Block, front: Block?, back: Block?, ghost j: nat)
      requires j < |live| && live[j] == h && Distinct(live) && HalfLinked(head, live, j) && HeadersValid(live)
      requires front == Before(live, j) && back == Behind(live, j)
      modifies this`live, live`prev, live`checksum
      ensures live == old(live)[..j] + old(live)[j + 1..]
      ensures Distinct(live) && Linked(head, live) && HeadersValid(live)
    {
      hide Block.HeaderValid;
      if back != null {
        back.prev := h.prev;
        back.MakeHeaderValid();
      }
      ghost var rest := live[..j] + live[j + 1..];
      RestLinked(head, live, rest, j);
      live := rest;
    }

    /** _Fortify_EnterScope */
    method EnterScope() returns (level: int)
      requires Valid()
      modifies this`scope, this`depth
      ensures Valid() && depth == old(depth) + 1 && live == old(live) && level == scope
    {
      hide Distinct, Linked, HeadersValid, ScopesMatch;
      scope := (scope + 1) % 256;
      depth := depth + 1;
      level := scope;
    }

    /** _Fortify_LeaveScope: lists the blocks whose scope is larger than the one returned to. */
    method LeaveScope() returns (reported: seq<Block>)
      requires Valid() && depth > 0
      modifies this`scope, this`depth
      ensures Valid() && depth == old(depth) - 1 && live == old(live)
      ensures old(depth) < 256 && DepthsBelow(live, 256) ==>
                forall b :: b in reported <==> b in live && b.depth >= old(depth)
      ensures forall b :: b in reported <==> b in live && b.depth % 256 > (old(depth) - 1) % 256
    {
      hide Distinct, HeadersValid, ScopesMatch, Linked, Above;
      scope := (scope + 255) % 256;
      depth := depth - 1;
      reported := Report(scope);
      ReportedBlocks(live, depth);
    }

    method Report(level: int) returns (reported: seq<Block>)
      requires Linked(head, live)
      ensures reported == Above(live, level)
    {
      hide Above;
      var curr := head;
      ghost var k := 0;
      reported := [];
      NoneAbove(level);
      while curr != null
        invariant 0 <= k <= |live| && curr == At(live, k)
        invariant reported == Above(live[..k], level)
        decreases |live| - k
      {
        AboveSnoc(live[..k], live[k], level);
        assert live[..k + 1] == live[..k] + [live[k]];
        if curr.scope > level {
          reported := reported + [curr];
        }
        curr := curr.next;
        k := k + 1;
      }
      assert live[..k] == live;
    }

    /** _Fortify_CheckAllMemory: the number of blocks that fail the check. */
    method CheckAllMemory() returns (count: nat)
      requires Valid() && LengthsOK(live)
      ensures count == |set i | 0 <= i < |live| && !live[i].Intact()|
    {
      hide Block.Intact, Block.HeaderValid;
      var curr := head;
      ghost var k := 0;
      count := 0;
      while curr != null
        invariant 0 <= k <= |live| && curr == At(live, k)
        invariant count == Damaged(live[..k])
        decreases |live| - k
      {
        assert live[k].HeaderValid();
        assert live[..k + 1][..k] == live[..k];
        var ok := curr.CheckBlock();
        if !ok {
          count := count + 1;
        }
        curr := curr.next;
        k := k + 1;
      }
      assert live[..k] == live;
      DamagedIs(live);
    }

    /** _Fortify_realloc: an intact block is copied to a new one, up to the smaller of the two
        sizes, and freed.  When a neighbour keeps it from being freed the new block is handed
        out all the same and the old one stays; the list is then broken exactly when it is
        the neighbour behind that fails. */
    method Realloc(h: Block?, newSize: Word, file: Word, line: Word, available: bool, address: Word)
      returns (r: Block?, ghost j: nat)
      requires Valid() && LengthsOK(live)
      modifies this`head, this`live, live`prev, live`next, live`checksum
      ensures depth == old(depth) && scope == old(scope)
      ensures h == null ==> Valid() && (r != null <==> newSize > 0 && available)
      ensures h == null && r == null ==> live == old(live)
      ensures h == null && r != null ==> fresh(r) && r.size == newSize && live == [r] + old(live)
      ensures h != null && h !in old(live) ==> r == null && Valid() && live == old(live)
      ensures h != null && h in old(live) ==> j < |old(live)| && old(live)[j] == h
      ensures h != null && h in old(live) && newSize > 0 && !available ==> r == null && Valid() && live == old(live)
      ensures h != null && h in old(live) && (newSize == 0 || available) ==>
                && (r != null <==> newSize > 0 && h.Intact())
                && (r != null ==> fresh(r) && Copied(h, newSize, r))
                && live == Fronted(r, Freed(old(live), j))
                && (Valid() <==> !Breaks(old(live), j))
      ensures old(AllIntact(live)) ==> Valid() && AllIntact(live)
    {
      hide *;
      r, j := null, 0;
      if newSize == 0 {
        var ok;
        ok, j := Free(h);
        FreedCases(old(live), h, ok, j, live);
        return;
      }
      if h == null {
        r := Malloc(newSize, file, line, available, address);
        IntactFront(old(live), r, live);
        return;
      }
      ListParts();
      var found := IsOnList(h);
      if !found {
        return;
      }
      j :| j < |live| && live[j] == h;
      r := Move(h, j, newSize, file, line, available, address);
    }

    /** The part of _Fortify_realloc that allocates, copies and frees. */
    method Move(h: Block, ghost j: nat, newSize: Word, file: Word, line: Word, available: bool, address: Word)
      returns (r: Block?)
      requires Valid() && LengthsOK(live) && j < |live| && live[j] == h && newSize > 0
      modifies this`head, this`live, live`prev, live`next, live`checksum
      ensures depth == old(depth) && scope == old(scope)
      ensures !available ==> r == null && Valid() && live == old(live)
      ensures available ==>
                && (r != null <==> h.Intact())
                && (r != null ==> fresh(r) && Copied(h, newSize, r))
                && live == Fronted(r, Freed(old(live), j))
                && (Valid() <==> !Breaks(old(live), j))
      ensures old(AllIntact(live)) ==> Valid() && AllIntact(live)
    {
      hide *;
      BlockKnown(h);
      var checked := h.CheckBlock();
      r := null;
      if !checked {
        NotFreed(live, j);
        return;
      }
      r := AllocateCopy(h, newSize, file, line, available, address);
      if r == null {
        FrontedIs(r, old(live));
        return;
      }
      ghost var longer, i := live, 0;
      var ok;
      ok, i := Free(h);
      MovedCases(old(live), h, newSize, r, j, longer, ok, i, live);
    }

    /** A new block in front of the list, with the contents of an intact one. */
    method AllocateCopy(h: Block, newSize: Word, file: Word, line: Word, available: bool, address: Word)
      returns (r: Block?)
      requires Valid() && LengthsOK(live) && h in live && newSize > 0 && h.Intact()
      modifies this`head, this`live, live`prev, live`checksum
      ensures depth == old(depth) && scope == old(scope) && Valid() && LengthsOK(live) && Distinct(live)
      ensures (r != null <==> available) && live == Fronted(r, old(live))
      ensures r != null ==> fresh(r) && fresh(r.data) && r.Intact() && Copied(h, newSize, r) && live == [r] + old(live)
    {
      hide *;
      r := Malloc(newSize, file, line, available, address);
      IntactFront(old(live), r, live);
      FrontedIs(r, old(live));
      ListParts();
      if r != null {
        CopyPrefix(h, r);
        CopiedIs(h, newSize, r);
      }
    }

    lemma BlockKnown(h: Block)
      requires Valid() && LengthsOK(live) && h in live
      ensures h.HeaderValid() && h.data.Length == BEFORE_SIZE + h.size + AFTER_SIZE && (AllIntact(live) ==> h.Intact())
    {
    }

    method CopyPrefix(h: Block, r: Block)
      requires h.Intact() && r.Intact() && r.Filled() && h.data != r.data
      modifies r.data
      ensures r.Intact() && KeepsPrefix(h, r)
      ensures forall k {:trigger r.data[k]} :: BEFORE_SIZE + h.size <= k < BEFORE_SIZE + r.size ==>
                r.data[k] == FILL_VALUE
    {
      var n := if h.size < r.size then h.size else r.size;
      for i := 0 to n
        invariant r.Intact() && forall k :: BEFORE_SIZE <= k < BEFORE_SIZE + i ==> r.data[k] == h.data[k]
        invariant forall k {:trigger r.data[k]} :: BEFORE_SIZE + h.size <= k < BEFORE_SIZE + r.size ==>
                    r.data[k] == FILL_VALUE
      {
        r.data[BEFORE_SIZE + i] := h.data[BEFORE_SIZE + i];
      }
    }

    lemma ListParts()
      requires Valid()
      ensures Distinct(live) && Linked(head, live) && HeadersValid(live) && ScopesMatch(live) && scope == depth % 256
    {
    }

    lemma ScopeOfDepth()
      requires Valid()
      ensures scope == depth % 256
    {
    }

    method Insert(b: Block)
      requires Valid() && b !in live && b.scope == b.depth % 256
      requires forall i :: 0 <= i < |live| ==> live[i].data != b.data
      modifies this`head, this`live, b`prev, b`next, b`checksum, live`prev, live`checksum
      ensures Valid() && live == [b] + old(live)
    {
      hide Distinct, Linked, HeadersValid, ScopesMatch, Block.HeaderValid, Sum;
      DistinctFront(live, b);
      PushFront(b);
      live := [b] + live;
      head := b;
    }

    /** The new block becomes the head of the list, and the headers are made valid again. */
    method PushFront(b: Block)
      requires Distinct(live) && Linked(head, live) && HeadersValid(live) && ScopesMatch(live)
      requires b !in live && b.scope == b.depth % 256
      modifies b`prev, b`next, b`checksum, live`prev, live`checksum
      ensures Linked(b, [b] + live) && HeadersValid([b] + live) && ScopesMatch([b] + live)
    {
      hide Sum, Block.HeaderValid;
      b.next := head;
      b.prev := null;
      if head != null {
        head.prev := b;
        head.MakeHeaderValid();
      }
      b.MakeHeaderValid();
      LinkedFront([b] + live, live, b);
      HeadersFront(live, b);
    }
  }

  ghost predicate AllIntact(s: seq<Block>)
    reads set i | 0 <= i < |s| :: s[i].data
  {
    forall i {:trigger s[i]} :: 0 <= i < |s| ==> s[i].Intact()
  }

  /** The user's bytes both blocks have room for are the same. */
  ghost predicate KeepsPrefix(h: Block, r: Block)
    reads h.data, r.data
  {
    var n := if h.size < r.size then h.size else r.size;
    && BEFORE_SIZE + n <= h.data.Length && BEFORE_SIZE + n <= r.data.Length
    && forall k :: BEFORE_SIZE <= k < BEFORE_SIZE + n ==> r.data[k] == h.data[k]
  }

  ghost predicate LengthsOK(s: seq<Block>) {
    forall i {:trigger s[i]} :: 0 <= i < |s| ==> s[i].data.Length == BEFORE_SIZE + s[i].size + AFTER_SIZE
  }

  /** A new block with what there is room for of the contents. */
  ghost predicate Copied(h: Block, newSize: Word, r: Block)
    reads h.data, r.data
  {
    && r.size == newSize && r.Intact() && KeepsPrefix(h, r)
    && forall k {:trigger r.data[k]} :: BEFORE_SIZE + h.size <= k < BEFORE_SIZE + r.size ==> r.data[k] == FILL_VALUE
  }

  /** In numbers: the new block has the old contents in front, the value new memory is filled
      with behind them, and untouched guards. */
  lemma CopiedBytes(h: Block, newSize: Word, r: Block)
    requires Copied(h, newSize, r)
    ensures r.size == newSize && r.data.Length == 32 + newSize
    ensures forall k {:trigger r.data[k]} :: 0 <= k < 16 || 16 + newSize <= k < 32 + newSize ==>
              r.data[k] == if k < 16 then 0xA3 else 0xA5
    ensures forall k {:trigger r.data[k]} :: 16 <= k < 16 + newSize && k < 16 + h.size && k < h.data.Length ==>
              r.data[k] == h.data[k]
    ensures forall k {:trigger r.data[k]} :: 16 + h.size <= k < 16 + newSize ==> r.data[k] == 0xA7
  {
  }

  /** The block and its neighbours pass the check. */
  ghost predicate Freeable(s: seq<Block>, j: nat)
    reads set i | 0 <= i < |s| :: s[i].data
  {
    j < |s| && s[j].Intact() && PassesAt(s, j - 1) && PassesAt(s, j + 1)
  }

  /** All but the one behind pass. */
  ghost predicate Breaks(s: seq<Block>, j: nat)
    reads set i | 0 <= i < |s| :: s[i].data
  {
    j < |s| && s[j].Intact() && PassesAt(s, j - 1) && !PassesAt(s, j + 1)
  }

  ghost predicate PassesAt(s: seq<Block>, i: int)
    reads set k | 0 <= k < |s| :: s[k].data
  {
    0 <= i < |s| ==> s[i].Intact()
  }

  /** What is left of the list when block j is to be freed. */
  ghost function Freed(s: seq<Block>, j: nat): seq<Block>
    reads set i | 0 <= i < |s| :: s[i].data
  {
    if Freeable(s, j) then s[..j] + s[j + 1..] else s
  }

  ghost function Fronted(r: Block?, s: seq<Block>): seq<Block> {
    if r == null then s else [r] + s
  }

  /** Which blocks decide whether block j leaves the list, and whether the list breaks. */
  lemma FreedIff(s: seq<Block>, j: nat)
    requires j < |s|
    ensures var front, back := j == 0 || s[j - 1].Intact(), j + 1 == |s| || s[j + 1].Intact();
            && (Passes(Before(s, j)) <==> front) && (Passes(Behind(s, j)) <==> back)
            && Freed(s, j) == (if s[j].Intact() && front && back then s[..j] + s[j + 1..] else s)
            && (Breaks(s, j) <==> s[j].Intact() && front && !back)
  {
    hide Block.Intact;
  }

  lemma FrontedIs(r: Block?, s: seq<Block>)
    ensures Fronted(r, s) == if r == null then s else [r] + s
  {
  }

  lemma NotFreed(s: seq<Block>, j: nat)
    requires j < |s| && !s[j].Intact()
    ensures Freed(s, j) == Fronted(null, s) == s && !Breaks(s, j) && !AllIntact(s)
  {
  }

  lemma IntactFront(s: seq<Block>, r: Block?, longer: seq<Block>)
    requires (r == null ==> longer == s) && (r != null ==> r.Intact() && longer == [r] + s)
    ensures AllIntact(s) ==> AllIntact(longer)
    ensures LengthsOK(s) ==> LengthsOK(longer)
  {
  }

  /** What freeing a block means for the list. */
  lemma FreedCases(s: seq<Block>, h: Block?, ok: bool, j: nat, rest: seq<Block>)
    requires h == null || h !in s ==> rest == s
    requires h != null && h in s ==>
              j < |s| && s[j] == h && (ok <==> h.Intact() && Passes(Before(s, j)) && Passes(Behind(s, j)))
    requires h != null && h in s ==> rest == if ok then s[..j] + s[j + 1..] else s
    ensures h != null && h in s ==> rest == Fronted(null, Freed(s, j))
    ensures h != null && h in s ==> (Breaks(s, j) <==> h.Intact() && Passes(Before(s, j)) && !Passes(Behind(s, j)))
    ensures AllIntact(s) ==> AllIntact(rest) && (h != null && h in s ==> !Breaks(s, j))
  {
    hide Block.Intact;
  }

  /** And with the new block in front of it. */
  lemma MovedCases(s: seq<Block>, h: Block, newSize: Word, r: Block, j: nat, longer: seq<Block>, ok: bool, i: nat,
                   rest: seq<Block>)
    requires j < |s| && s[j] == h && longer == [r] + s && Distinct(longer) && r.Intact()
    requires i < |longer| && longer[i] == h
    requires (ok <==> h.Intact() && Passes(Before(longer, i)) && Passes(Behind(longer, i)))
    requires rest == if ok then longer[..i] + longer[i + 1..] else longer
    ensures rest == Fronted(r, Freed(s, j))
    ensures Breaks(s, j) <==> h.Intact() && Passes(Before(longer, i)) && !Passes(Behind(longer, i))
    ensures AllIntact(s) ==> AllIntact(rest) && !Breaks(s, j)
  {
    assert longer[j + 1] == h && i == j + 1;
    LongerList(s, r, j);
    hide Distinct, Block.Intact, Before, Behind, AllIntact, Freeable, Breaks;
    FreedIs(s, r, j, Before(longer, i));
    if AllIntact(s) {
      AllFreed(s, r, j);
    }
  }

  lemma LongerList(s: seq<Block>, r: Block, j: nat)
    requires j < |s|
    ensures var longer := [r] + s;
            && Before(longer, j + 1) == (if j == 0 then r else Before(s, j)) && Behind(longer, j + 1) == Behind(s, j)
            && longer[..j + 1] + longer[j + 2..] == [r] + (s[..j] + s[j + 1..])
  {
    assert ([r] + s)[..j + 1] == [r] + s[..j] && ([r] + s)[j + 2..] == s[j + 1..];
  }

  lemma FreedIs(s: seq<Block>, r: Block, j: nat, front: Block?)
    requires j < |s| && r.Intact() && front == if j == 0 then r else Before(s, j)
    ensures Freeable(s, j) <==> s[j].Intact() && Passes(front) && Passes(Behind(s, j))
    ensures Breaks(s, j) <==> s[j].Intact() && Passes(front) && !Passes(Behind(s, j))
  {
    hide Block.Intact;
  }

  lemma AllFreed(s: seq<Block>, r: Block, j: nat)
    requires j < |s| && AllIntact(s) && r.Intact()
    ensures !Breaks(s, j) && AllIntact([r] + (s[..j] + s[j + 1..])) && AllIntact([r] + s)
  {
    hide Block.Intact;
  }

  lemma CopiedIs(h: Block, newSize: Word, r: Block)
    requires r.size == newSize && r.Intact() && KeepsPrefix(h, r)
    requires forall k {:trigger r.data[k]} :: BEFORE_SIZE + h.size <= k < BEFORE_SIZE + r.size ==>
               r.data[k] == FILL_VALUE
    ensures Copied(h, newSize, r)
  {
  }

  /** How many blocks have a guard that was overwritten. */
  ghost function Damaged(s: seq<Block>): nat
    reads set i | 0 <= i < |s| :: s[i].data
  {
    if s == [] then 0 else Damaged(s[..|s| - 1]) + if s[|s| - 1].Intact() then 0 else 1
  }

  lemma {:induction false} DamagedIs(s: seq<Block>)
    ensures Damaged(s) == |set i | 0 <= i < |s| && !s[i].Intact()|
  {
    hide Block.Intact;
    if s != [] {
      var rest := s[..|s| - 1];
      DamagedIs(rest);
      var before := set i | 0 <= i < |rest| && !rest[i].Intact();
      var after := set i | 0 <= i < |s| && !s[i].Intact();
      assert after == if s[|s| - 1].Intact() then before else before + {|s| - 1};
    }
  }

  /** The blocks with a scope above the level, in list order. */
  function Above(s: seq<Block>, level: int): (r: seq<Block>)
    reads s`scope
  {
    if s == [] then [] else Above(s[..|s| - 1], level) + if s[|s| - 1].scope > level then [s[|s| - 1]] else []
  }

  lemma NoneAbove(level: int)
    ensures Above([], level) == []
  {
  }

  lemma AboveSnoc(s: seq<Block>, b: Block, level: int)
    ensures Above(s + [b], level) == Above(s, level) + if b.scope > level then [b] else []
  {
    assert (s + [b])[..|s|] == s;
  }

  ghost predicate DepthsBelow(s: seq<Block>, limit: nat) {
    forall i :: 0 <= i < |s| ==> s[i].depth < limit
  }

  lemma {:induction false} AboveMembers(s: seq<Block>, level: int, b: Block)
    ensures b in Above(s, level) <==> b in s && b.scope > level
  {
    if s != [] {
      AboveMembers(s[..|s| - 1], level, b);
    }
  }

  /** Every block above the level is reported once, in the order of the list. */
  lemma {:induction false} AboveInOrder(s: seq<Block>, t: seq<Block>, level: int)
    ensures Above(s + t, level) == Above(s, level) + Above(t, level)
  {
    if t == [] {
      assert s + t == s;
    } else {
      AboveInOrder(s, t[..|t| - 1], level);
      assert (s + t)[..|s + t| - 1] == s + t[..|t| - 1];
    }
  }

  lemma AboveOne(b: Block, level: int)
    ensures Above([b], level) == if b.scope > level then [b] else []
  {
    AboveSnoc([], b, level);
  }

  /** What is reported on return to a level, in terms of the scopes the blocks were allocated
      in. */
  lemma ReportedBlocks(s: seq<Block>, level: nat)
    requires ScopesMatch(s)
    ensures forall b :: b in Above(s, level % 256) <==> b in s && b.depth % 256 > level % 256
    ensures level < 255 && DepthsBelow(s, 256) ==> forall b :: b in Above(s, level % 256) <==> b in s && b.depth > level
  {
    forall b
      ensures b in Above(s, level % 256) <==> b in s && b.depth % 256 > level % 256
    {
      AboveMembers(s, level % 256, b);
    }
    hide Above;
  }

  /** Exactly when the report is right for every block allocated up to scope D: when D fits
      the byte.  Otherwise a block of scope 256 is missed, or an outer block reported. */
  lemma ReportIsExactIff(d: nat, D: nat)
    requires 1 <= d <= D
    ensures (forall x: nat :: x <= D ==> (x % 256 > (d - 1) % 256 <==> x >= d)) <==> D < 256
  {
    if D >= 256 {
      if d <= 256 {
        assert 256 % 256 == 0;
      } else if (d - 1) % 256 == 255 {
        assert d % 256 == 0;
      } else {
        assert 255 % 256 == 255 && 255 < d;
      }
    }
  }

  /** Leaving every 256th scope reports nothing at all: the level wraps to 255. */
  lemma {:induction false} WrappedScopeReportsNothing(d: nat, s: seq<Block>)
    requires d > 0 && d % 256 == 0 && ScopesMatch(s)
    ensures Above(s, (d % 256 + 255) % 256) == []
  {
    if s != [] {
      assert s[|s| - 1].scope == s[|s| - 1].depth % 256;
      assert ScopesMatch(s[..|s| - 1]);
      WrappedScopeReportsNothing(d, s[..|s| - 1]);
    }
  }

  /** Block j has left the forward links only. */
  ghost predicate HalfLinked(head: Block?, s: seq<Block>, j: nat)
    requires j < |s|
    reads s`prev, s`next
  {
    && head == (if j == 0 then Behind(s, 0) else s[0])
    && (forall i {:trigger s[i].next} :: 0 <= i < |s| && i != j - 1 ==> s[i].next == Behind(s, i))
    && (j > 0 ==> s[j - 1].next == Behind(s, j))
    && forall i {:trigger s[i].prev} :: 0 <= i < |s| ==> s[i].prev == Before(s, i)
  }

  lemma RestLinked(head: Block?, s: seq<Block>, rest: seq<Block>, j: nat)
    requires j < |s| && rest == s[..j] + s[j + 1..] && Distinct(s)
    requires head == (if j == 0 then Behind(s, 0) else s[0])
    requires forall i {:trigger s[i].next} :: 0 <= i < |s| && i != j - 1 ==> s[i].next == Behind(s, i)
    requires j > 0 ==> s[j - 1].next == Behind(s, j)
    requires forall i {:trigger s[i].prev} :: 0 <= i < |s| && i != j + 1 ==> s[i].prev == Before(s, i)
    requires j + 1 < |s| ==> s[j + 1].prev == Before(s, j)
    requires forall i {:trigger s[i]} :: 0 <= i < |s| ==> s[i].HeaderValid()
    ensures Distinct(rest) && Linked(head, rest) && HeadersValid(rest)
  {
    hide Block.HeaderValid;
    assert forall i {:trigger rest[i]} :: 0 <= i < |rest| ==> rest[i] == s[if i < j then i else i + 1];
  }

  lemma ScopesRest(s: seq<Block>, j: nat)
    requires ScopesMatch(s) && j < |s|
    ensures ScopesMatch(s[..j] + s[j + 1..])
  {
  }

  /** A neighbour that is not there passes. */
  ghost predicate Passes(b: Block?)
    reads if b == null then {} else {b.data}
  {
    b == null || b.Intact()
  }

  lemma DistinctFront(s: seq<Block>, b: Block)
    requires Distinct(s) && b !in s && forall i :: 0 <= i < |s| ==> s[i].data != b.data
    ensures Distinct([b] + s)
  {
  }

  lemma HeadersFront(s: seq<Block>, b: Block)
    requires b.HeaderValid() && b.scope == b.depth % 256
    requires forall i {:trigger s[i]} :: 0 <= i < |s| ==> s[i].HeaderValid() && s[i].scope == s[i].depth % 256
    ensures HeadersValid([b] + s) && ScopesMatch([b] + s)
  {
  }

  lemma LinkedFront(s: seq<Block>, before: seq<Block>, b: Block)
    requires s == [b] + before && b.prev == null && b.next == At(before, 0)
    requires forall i {:trigger before[i].next} :: 0 <= i < |before| ==> before[i].next == Behind(before, i)
    requires forall i {:trigger before[i].prev} :: 1 <= i < |before| ==> before[i].prev == Before(before, i)
    requires before != [] ==> before[0].prev == b
    ensures Linked(b, s)
  {
    forall i {:trigger s[i].next} | 0 <= i < |s|
      ensures s[i].next == Behind(s, i)
    {
      assert i > 0 ==> s[i] == before[i - 1];
    }
    forall i {:trigger s[i].prev} | 0 <= i < |s|
      ensures s[i].prev == Before(s, i)
    {
      assert i > 0 ==> s[i] == before[i - 1];
    }
  }
}
