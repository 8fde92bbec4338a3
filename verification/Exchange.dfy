/** The in-place exchange of two adjacent blocks of argv (cmdline.c). */
module Exchange {

  /** The elements from b to t with the blocks X = s[b..m] and Y = s[m..t] in the order
      Y X, everything else in place. */
  function Rotated<T>(s: seq<T>, b: nat, m: nat, t: nat): (r: seq<T>)
    requires b <= m <= t <= |s|
    ensures |r| == |s|
  {
    s[..b] + s[m..t] + s[b..m] + s[t..]
  }

  lemma RotatedAt<T>(s: seq<T>, b: nat, m: nat, t: nat, k: nat)
    requires b <= m <= t <= |s| && k < |s|
    ensures Rotated(s, b, m, t)[k] ==
            if k < b || t <= k then s[k] else if k < b + t - m then s[k + m - b] else s[k + m - t]
  {
  }

  /** s with the blocks of the given length at x and y swapped. */
  ghost predicate BlocksSwapped<T>(s: seq<T>, s': seq<T>, x: nat, y: nat, len: nat) {
    && |s'| == |s| && x + len <= y && y + len <= |s|
    && (forall k {:trigger s'[k]} :: 0 <= k < |s| && !(x <= k < x + len) && !(y <= k < y + len) ==> s'[k] == s[k])
    && (forall k {:trigger s'[k]} :: x <= k < x + len ==> s'[k] == s[k + (y - x)])
    && (forall k {:trigger s'[k]} :: y <= k < y + len ==> s'[k] == s[k - (y - x)])
  }

  /** Swapping the short block X into the far end of Y leaves a smaller exchange. */
  lemma BottomShort<T>(s: seq<T>, s': seq<T>, b: nat, m: nat, t: nat)
    requires b < m < t <= |s| && m - b < t - m
    requires BlocksSwapped(s, s', b, t - (m - b), m - b)
    ensures Rotated(s', b, m, t - (m - b)) == Rotated(s, b, m, t)
  {
    forall k | 0 <= k < |s|
      ensures Rotated(s', b, m, t - (m - b))[k] == Rotated(s, b, m, t)[k]
    {
      RotatedAt(s', b, m, t - (m - b), k);
      RotatedAt(s, b, m, t, k);
    }
  }

  /** Swapping the short block Y with the near end of X leaves a smaller exchange. */
  lemma TopShort<T>(s: seq<T>, s': seq<T>, b: nat, m: nat, t: nat)
    requires b < m < t <= |s| && t - m <= m - b
    requires BlocksSwapped(s, s', b, m, t - m)
    ensures Rotated(s', b + (t - m), m, t) == Rotated(s, b, m, t)
  {
    forall k | 0 <= k < |s|
      ensures Rotated(s', b + (t - m), m, t)[k] == Rotated(s, b, m, t)[k]
    {
      RotatedAt(s', b + (t - m), m, t, k);
      RotatedAt(s, b, m, t, k);
    }
  }

  lemma NothingToRotate<T>(s: seq<T>, b: nat, m: nat, t: nat)
    requires b <= m <= t <= |s| && (b == m || m == t)
    ensures Rotated(s, b, m, t) == s
  {
    forall k | 0 <= k < |s|
      ensures Rotated(s, b, m, t)[k] == s[k]
    {
      RotatedAt(s, b, m, t, k);
    }
  }

  method SwapBlocks<T>(a: array<T>, x: nat, y: nat, len: nat)
    requires x + len <= y && y + len <= a.Length
    modifies a
    ensures BlocksSwapped(old(a[..]), a[..], x, y, len)
  {
    for i := 0 to len
      invariant BlocksSwapped(old(a[..]), a[..], x, y, i)
    {
      var tem := a[x + i];
      a[x + i] := a[y + i];
      a[y + i] := tem;
    }
  }

  /** The loop of `exchange`: the shorter block goes to its final place, what is left is
      a smaller exchange of the same kind. */
  method ExchangeBlocks<T>(a: array<T>, first: nat, middle: nat, last: nat)
    requires first <= middle <= last <= a.Length
    modifies a
    ensures a[..] == Rotated(old(a[..]), first, middle, last)
  {
    hide *;
    var bottom, top := first, last;
    while top > middle && middle > bottom
      invariant first <= bottom <= middle <= top <= last
      invariant Rotated(a[..], bottom, middle, top) == Rotated(old(a[..]), first, middle, last)
      decreases top - bottom
    {
      ghost var s := a[..];
      if top - middle > middle - bottom {
        var len := middle - bottom;
        SwapBlocks(a, bottom, top - len, len);
        BottomShort(s, a[..], bottom, middle, top);
        top := top - len;
      } else {
        var len := top - middle;
        SwapBlocks(a, bottom, middle, len);
        TopShort(s, a[..], bottom, middle, top);
        bottom := bottom + len;
      }
    }
    NothingToRotate(a[..], bottom, middle, top);
  }
}
