/** The server's in-place byte swapping of element lists, for clients of the other byte order. */
module ElementSwap {
  import opened Bytes
  import opened Elements

  // What swapping means -----------------------------------------------------------------------

  /** A number of `width` bytes that starts at index `at`. */
  datatype Spot = Spot(at: nat, width: nat)

  predicate Inside(i: int, x: Spot)
  {
    x.at <= i < x.at + x.width
  }

  ghost predicate Touched(i: int, xs: set<Spot>)
  {
    exists x :: x in xs && Inside(i, x)
  }

  /** The number at `x` is mirrored in `s'`. */
  ghost predicate Mirrored(s: seq<byte>, s': seq<byte>, x: Spot)
  {
    |s| == |s'| && x.at + x.width <= |s| && forall i :: Inside(i, x) ==> s'[i] == s[2 * x.at + x.width - 1 - i]
  }

  /** `s'` is `s` with exactly the numbers at `xs` mirrored. */
  ghost predicate IsSwap(s: seq<byte>, s': seq<byte>, xs: set<Spot>)
  {
    |s| == |s'| && (forall x :: x in xs ==> Mirrored(s, s', x)) &&
    forall i :: 0 <= i < |s| && !Touched(i, xs) ==> s'[i] == s[i]
  }

  /** Swapping twice restores every byte. */
  lemma SwapUndone(s: seq<byte>, s': seq<byte>, s'': seq<byte>, xs: set<Spot>)
    requires IsSwap(s, s', xs) && IsSwap(s', s'', xs)
    ensures s'' == s
  {
    forall i | 0 <= i < |s|
      ensures s''[i] == s[i]
    {
      if Touched(i, xs) {
        var x :| x in xs && Inside(i, x);
        assert Mirrored(s, s', x) && Mirrored(s', s'', x);
        assert Inside(2 * x.at + x.width - 1 - i, x);
      }
    }
  }

  /** No spot reaches into the bytes from `lo` to `hi`. */
  ghost predicate Clear(xs: set<Spot>, lo: int, hi: int)
  {
    forall x :: x in xs ==> x.at + x.width <= lo || hi <= x.at
  }

  lemma ClearKept(s: seq<byte>, s': seq<byte>, xs: set<Spot>, lo: nat, hi: nat)
    requires IsSwap(s, s', xs) && Clear(xs, lo, hi) && lo <= hi <= |s|
    ensures s'[lo..hi] == s[lo..hi]
  {
    forall i | lo <= i < hi
      ensures s'[i] == s[i]
    {
      assert !Touched(i, xs);
    }
  }

  /** `s''` differs from `s'` at most at `x`. */
  ghost predicate OnlyAt(s': seq<byte>, s'': seq<byte>, x: Spot)
  {
    |s'| == |s''| && forall i :: 0 <= i < |s'| && !Inside(i, x) ==> s''[i] == s'[i]
  }

  lemma ApartMirrored(s: seq<byte>, s': seq<byte>, s'': seq<byte>, y: Spot, x: Spot)
    requires Mirrored(s, s', y) && OnlyAt(s', s'', x) && (y.at + y.width <= x.at || x.at + x.width <= y.at)
    ensures Mirrored(s, s'', y)
  {
    forall i | Inside(i, y)
      ensures s''[i] == s[2 * y.at + y.width - 1 - i]
    {
      assert !Inside(i, x) && s'[i] == s[2 * y.at + y.width - 1 - i];
    }
  }

  lemma FreshMirrored(s: seq<byte>, s': seq<byte>, s'': seq<byte>, x: Spot)
    requires |s| == |s'| && Mirrored(s', s'', x) && s'[x.at..x.at + x.width] == s[x.at..x.at + x.width]
    ensures Mirrored(s, s'', x)
  {
    forall i | Inside(i, x)
      ensures s''[i] == s[2 * x.at + x.width - 1 - i]
    {
      var m := 2 * x.at + x.width - 1 - i;
      assert s'[m] == s'[x.at..x.at + x.width][m - x.at] == s[x.at..x.at + x.width][m - x.at] == s[m];
    }
  }

  lemma OneMoreSpot(s: seq<byte>, s': seq<byte>, s'': seq<byte>, xs: set<Spot>, x: Spot)
    requires IsSwap(s, s', xs) && Clear(xs, x.at, x.at + x.width) && Mirrored(s', s'', x) && OnlyAt(s', s'', x)
    requires x.at + x.width <= |s|
    ensures IsSwap(s, s'', xs + {x})
  {
    hide Mirrored, Inside;
    ClearKept(s, s', xs, x.at, x.at + x.width);
    FreshMirrored(s, s', s'', x);
    forall y | y in xs
      ensures Mirrored(s, s'', y)
    {
      ApartMirrored(s, s', s'', y, x);
    }
    forall i | 0 <= i < |s| && !Touched(i, xs + {x})
      ensures s''[i] == s[i]
    {
      assert x in xs + {x} && !Inside(i, x);
      assert forall y :: y in xs ==> y in xs + {x};
      assert !Touched(i, xs);
    }
  }

  lemma NothingSwapped(s: seq<byte>)
    ensures IsSwap(s, s, {})
  {
  }

  /** Mirroring a number is reading it in the other byte order. */
  lemma MirroredReads(big: bool, s: seq<byte>, s': seq<byte>, x: Spot)
    requires Mirrored(s, s', x) && (x.width == 2 || x.width == 4)
    ensures GetField(big, s', x.at, x.width) == GetField(!big, s, x.at, x.width)
  {
    var b, c := s'[x.at..x.at + x.width], s[x.at..x.at + x.width];
    assert b[0] == c[x.width - 1] && b[1] == c[x.width - 2];
    if x.width == 4 {
      assert b[2] == c[1] && b[3] == c[0];
    }
  }

  // The fields of an element ------------------------------------------------------------------

  predicate HasActionList(t: int)
  {
    0 <= t <= 3 || 9 <= t <= 11
  }

  /** Where the number of actions is. */
  function CountAt(t: int): (o: nat)
    ensures o == 12 || o == 16 || o == 20
  {
    if t == 1 then 12 else if t == 9 then 20 else 16
  }

  /** The type of the element that starts at `at`, in the byte order it is in. */
  function KindOf(order: bool, s: seq<byte>, at: nat): u16
    requires at + FIXED_SIZE <= |s|
  {
    GetField(order, s, at, 2)
  }

  /** The number of entries in its variable part. */
  function CountOf(order: bool, s: seq<byte>, at: nat): (n: u32)
    requires at + FIXED_SIZE <= |s|
  {
    var t := KindOf(order, s, at);
    if HasActionList(t) then GetField(order, s, at + CountAt(t), 4)
    else if t == 5 || t == 8 then GetField(order, s, at + 2, 2)
    else 0
  }

  /** The numbers in the fixed part after the type, in the order they lie; a number of actions comes last. */
  function FieldList(t: int): (fs: seq<Spot>)
    requires Supported(t)
    ensures forall i :: 0 <= i < |fs| ==> 2 <= fs[i].at && fs[i].at + fs[i].width <= FIXED_SIZE
  {
    if t == 0 then [Spot(2, 2), Spot(8, 4), Spot(12, 4), Spot(16, 4)]
    else if t == 1 then [Spot(2, 2), Spot(4, 4), Spot(8, 4), Spot(12, 4)]
    else if t == 2 then [Spot(2, 2), Spot(4, 4), Spot(8, 4), Spot(12, 4), Spot(16, 4)]
    else if t == 3 then [Spot(2, 2), Spot(4, 4), Spot(12, 4), Spot(16, 4)]
    else if t == 5 || t == 8 then [Spot(2, 2)]
    else if t == 6 || t == 7 then [Spot(2, 2), Spot(4, 4)]
    else if t == 9 then [Spot(2, 2), Spot(4, 2), Spot(12, 4), Spot(16, 4), Spot(20, 4)]
    else if t == 10 then [Spot(2, 2), Spot(4, 2), Spot(8, 4), Spot(12, 4), Spot(16, 4)]
    else if t == 11 then [Spot(2, 2), Spot(4, 4), Spot(8, 4), Spot(12, 4), Spot(16, 4)]
    else [Spot(2, 2), Spot(4, 2)]
  }

  /** The first `k` of these numbers, for an element that starts at `at`. */
  ghost function FieldSpots(t: int, k: nat, at: nat): (xs: set<Spot>)
    requires Supported(t) && k <= |FieldList(t)|
    ensures forall x :: x in xs ==> at + 2 <= x.at && x.at + x.width <= at + FIXED_SIZE
  {
    set i: nat | i < k :: Spot(at + FieldList(t)[i].at, FieldList(t)[i].width)
  }

  /** The numbers in the first `n` entries of the variable part, which starts at `at`. */
  ghost function EntrySpots(t: int, n: nat, at: nat): (xs: set<Spot>)
    ensures forall x :: x in xs ==> at <= x.at && x.at + x.width <= at + EntryAt(t, n)
  {
    if HasActionList(t) then set j: nat | j < n :: Spot(at + 12 * j, 4)
    else if t == 8 then set j: nat | j < n :: Spot(at + 2 * j, 2)
    else {}
  }

  /** All the numbers of an element of type `t` with `n` entries. */
  ghost function ElementSpots(t: int, n: nat, at: nat): (xs: set<Spot>)
    requires Supported(t)
    ensures forall x :: x in xs ==> at <= x.at && x.at + x.width <= at + Span(t, n)
  {
    {Spot(at, 2)} + FieldSpots(t, |FieldList(t)|, at) + EntrySpots(t, n, at + FIXED_SIZE)
  }

  function Span(t: int, n: nat): (size: nat)
    ensures size >= FIXED_SIZE + EntryAt(t, n)
  {
    FIXED_SIZE + Pad4(EntryAt(t, n))
  }

  /** An element of a known type that starts at `at` is wholly in `s`, and its counts are C `int`s. */
  predicate Whole(order: bool, s: seq<byte>, at: nat)
  {
    at + FIXED_SIZE <= |s| &&
    (Supported(KindOf(order, s, at)) ==>
       at + Span(KindOf(order, s, at), CountOf(order, s, at)) <= |s| && CountOf(order, s, at) < 0x8000_0000)
  }

  // Swapping in place -------------------------------------------------------------------------

  /** `swaps`. */
  method FlipShort(a: array<byte>, p: nat, ghost s: seq<byte>, ghost xs: set<Spot>)
    requires p + 2 <= a.Length && IsSwap(s, a[..], xs) && Clear(xs, p, p + 2)
    modifies a
    ensures IsSwap(s, a[..], xs + {Spot(p, 2)})
  {
    var n := a[p];
    a[p] := a[p + 1];
    a[p + 1] := n;
    OneMoreSpot(s, old(a[..]), a[..], xs, Spot(p, 2));
  }

  /** `swapl`. */
  method FlipLong(a: array<byte>, p: nat, ghost s: seq<byte>, ghost xs: set<Spot>)
    requires p + 4 <= a.Length && IsSwap(s, a[..], xs) && Clear(xs, p, p + 4)
    modifies a
    ensures IsSwap(s, a[..], xs + {Spot(p, 4)})
  {
    var n := a[p];
    a[p] := a[p + 3];
    a[p + 3] := n;
    n := a[p + 1];
    a[p + 1] := a[p + 2];
    a[p + 2] := n;
    OneMoreSpot(s, old(a[..]), a[..], xs, Spot(p, 4));
  }

  /** A count is read while it is in the server's own byte order. */
  method SwapCount(a: array<byte>, p: nat, width: nat, incoming: bool, big: bool, ghost s: seq<byte>,
                   ghost xs: set<Spot>)
    returns (na: u32)
    requires (width == 2 || width == 4) && p + width <= a.Length
    requires |s| == a.Length && IsSwap(s, a[..], xs) && Clear(xs, p, p + width)
    modifies a
    ensures IsSwap(s, a[..], xs + {Spot(p, width)})
    ensures na == GetField(if incoming then !big else big, s, p, width)
  {
    hide IsSwap;
    ClearKept(s, a[..], xs, p, p + width);
    na := GetField(big, a[..], p, width);
    if width == 2 {
      FlipShort(a, p, s, xs);
    } else {
      FlipLong(a, p, s, xs);
    }
    if incoming {
      SpotMirrored(s, a[..], xs + {Spot(p, width)}, Spot(p, width));
      MirroredReads(big, s, a[..], Spot(p, width));
      na := GetField(big, a[..], p, width);
    }
  }

  lemma SpotMirrored(s: seq<byte>, s': seq<byte>, xs: set<Spot>, x: Spot)
    requires IsSwap(s, s', xs) && x in xs
    ensures Mirrored(s, s', x)
  {
  }

  /** Besides `xs`, the first `k` numbers of the element at `at` have been swapped; none reaches past `end`. */
  ghost predicate SwappedTo(s: seq<byte>, s': seq<byte>, xs: set<Spot>, t: int, k: nat, at: nat, end: nat)
    requires Supported(t) && k <= |FieldList(t)|
  {
    IsSwap(s, s', xs + FieldSpots(t, k, at)) && at + FIXED_SIZE <= |s| && end <= FIXED_SIZE &&
    Clear(xs + FieldSpots(t, k, at), at + end, at + FIXED_SIZE)
  }

  lemma NextField(s: seq<byte>, s': seq<byte>, xs: set<Spot>, t: int, k: nat, at: nat, end: nat)
    requires Supported(t) && k < |FieldList(t)| && SwappedTo(s, s', xs, t, k, at, end) && end <= FieldList(t)[k].at
    ensures var f := FieldList(t)[k];
            Clear(xs + FieldSpots(t, k, at), at + f.at, at + f.at + f.width) &&
            xs + FieldSpots(t, k, at) + {Spot(at + f.at, f.width)} == xs + FieldSpots(t, k + 1, at) &&
            Clear(xs + FieldSpots(t, k + 1, at), at + f.at + f.width, at + FIXED_SIZE)
  {
    hide IsSwap, FieldList;
  }

  method FlipField(a: array<byte>, at: nat, offset: nat, width: nat,
                   ghost s: seq<byte>, ghost xs: set<Spot>, ghost t: int, ghost k: nat, ghost end: nat)
    requires Supported(t) && k < |FieldList(t)| && FieldList(t)[k] == Spot(offset, width) && (width == 2 || width == 4)
    requires |s| == a.Length && SwappedTo(s, a[..], xs, t, k, at, end) && end <= offset
    modifies a
    ensures SwappedTo(s, a[..], xs, t, k + 1, at, offset + width)
  {
    hide IsSwap, FieldList, FieldSpots, Clear;
    NextField(s, a[..], xs, t, k, at, end);
    if width == 2 {
      FlipShort(a, at + offset, s, xs + FieldSpots(t, k, at));
    } else {
      FlipLong(a, at + offset, s, xs + FieldSpots(t, k, at));
    }
  }

  /** A count is read while it is in the server's own byte order. */
  method FlipCount(a: array<byte>, at: nat, offset: nat, width: nat, incoming: bool, big: bool,
                   ghost s: seq<byte>, ghost xs: set<Spot>, ghost t: int, ghost k: nat, ghost end: nat)
    returns (na: u32)
    requires Supported(t) && k < |FieldList(t)| && FieldList(t)[k] == Spot(offset, width) && (width == 2 || width == 4)
    requires |s| == a.Length && SwappedTo(s, a[..], xs, t, k, at, end) && end <= offset
    modifies a
    ensures SwappedTo(s, a[..], xs, t, k + 1, at, offset + width)
    ensures na == GetField(if incoming then !big else big, s, at + offset, width)
  {
    hide IsSwap, FieldList, FieldSpots, Clear, GetField;
    NextField(s, a[..], xs, t, k, at, end);
    na := SwapCount(a, at + offset, width, incoming, big, s, xs + FieldSpots(t, k, at));
  }

  // The cases of `SwapElement`. `xs` is what has been swapped already: the type, if incoming.

  method SwapImport(a: array<byte>, at: nat, t: u16, incoming: bool, big: bool, ghost s: seq<byte>, ghost xs: set<Spot>)
    returns (na: u32)
    requires t <= 3 && a.Length == |s| && SwappedTo(s, a[..], xs, t, 0, at, 2)
    modifies a
    ensures SwappedTo(s, a[..], xs, t, |FieldList(t)|, at, FIXED_SIZE)
    ensures na == GetField(if incoming then !big else big, s, at + CountAt(t), 4)
  {
    hide SwappedTo, GetField;
    ghost var k := |FieldList(t)| - 1;
    FlipField(a, at, 2, 2, s, xs, t, 0, 2);
    if t == 0 {
      FlipField(a, at, 8, 4, s, xs, t, 1, 4);
      FlipField(a, at, 12, 4, s, xs, t, 2, 12);
      na := FlipCount(a, at, 16, 4, incoming, big, s, xs, t, 3, 16);
    } else if t == 1 {
      FlipField(a, at, 4, 4, s, xs, t, 1, 4);
      FlipField(a, at, 8, 4, s, xs, t, 2, 8);
      na := FlipCount(a, at, 12, 4, incoming, big, s, xs, t, 3, 12);
    } else if t == 2 {
      FlipField(a, at, 4, 4, s, xs, t, 1, 4);
      FlipField(a, at, 8, 4, s, xs, t, 2, 8);
      FlipField(a, at, 12, 4, s, xs, t, 3, 12);
      na := FlipCount(a, at, 16, 4, incoming, big, s, xs, t, 4, 16);
    } else {
      FlipField(a, at, 4, 4, s, xs, t, 1, 4);
      FlipField(a, at, 12, 4, s, xs, t, 2, 8);
      na := FlipCount(a, at, 16, 4, incoming, big, s, xs, t, 3, 16);
    }
    FieldsDone(s, a[..], xs, t, at, CountAt(t) + 4);
  }

  lemma FieldsDone(s: seq<byte>, s': seq<byte>, xs: set<Spot>, t: int, at: nat, end: nat)
    requires Supported(t) && SwappedTo(s, s', xs, t, |FieldList(t)|, at, end)
    ensures SwappedTo(s, s', xs, t, |FieldList(t)|, at, FIXED_SIZE)
  {
    hide IsSwap, FieldList;
  }

  method SwapExport(a: array<byte>, at: nat, t: u16, incoming: bool, big: bool, ghost s: seq<byte>, ghost xs: set<Spot>)
    returns (na: u32)
    requires 9 <= t <= 11 && a.Length == |s| && SwappedTo(s, a[..], xs, t, 0, at, 2)
    modifies a
    ensures SwappedTo(s, a[..], xs, t, |FieldList(t)|, at, FIXED_SIZE)
    ensures na == GetField(if incoming then !big else big, s, at + CountAt(t), 4)
  {
    hide SwappedTo, GetField;
    FlipField(a, at, 2, 2, s, xs, t, 0, 2);
    if t == 9 {
      FlipField(a, at, 4, 2, s, xs, t, 1, 4);
      FlipField(a, at, 12, 4, s, xs, t, 2, 6);
      FlipField(a, at, 16, 4, s, xs, t, 3, 16);
      na := FlipCount(a, at, 20, 4, incoming, big, s, xs, t, 4, 20);
    } else if t == 10 {
      FlipField(a, at, 4, 2, s, xs, t, 1, 4);
      FlipField(a, at, 8, 4, s, xs, t, 2, 6);
      FlipField(a, at, 12, 4, s, xs, t, 3, 12);
      na := FlipCount(a, at, 16, 4, incoming, big, s, xs, t, 4, 16);
    } else {
      FlipField(a, at, 4, 4, s, xs, t, 1, 4);
      FlipField(a, at, 8, 4, s, xs, t, 2, 8);
      FlipField(a, at, 12, 4, s, xs, t, 3, 12);
      na := FlipCount(a, at, 16, 4, incoming, big, s, xs, t, 4, 16);
    }
    FieldsDone(s, a[..], xs, t, at, CountAt(t) + 4);
  }

  /** The elements without actions; `n` is the number of entries of a bundle or a sum. */
  method SwapOther(a: array<byte>, at: nat, t: u16, incoming: bool, big: bool, ghost s: seq<byte>, ghost xs: set<Spot>)
    returns (n: u32)
    requires (5 <= t <= 8 || t == 13) && a.Length == |s| && SwappedTo(s, a[..], xs, t, 0, at, 2)
    modifies a
    ensures SwappedTo(s, a[..], xs, t, |FieldList(t)|, at, FIXED_SIZE)
    ensures n == if t == 5 || t == 8 then GetField(if incoming then !big else big, s, at + 2, 2) else 0
  {
    hide SwappedTo, GetField;
    n := 0;
    if t == 5 || t == 8 {
      n := FlipCount(a, at, 2, 2, incoming, big, s, xs, t, 0, 2);
      FieldsDone(s, a[..], xs, t, at, 4);
    } else {
      FlipField(a, at, 2, 2, s, xs, t, 0, 2);
      if t == 13 {
        FlipField(a, at, 4, 2, s, xs, t, 1, 4);
        FieldsDone(s, a[..], xs, t, at, 6);
      } else {
        FlipField(a, at, 4, 4, s, xs, t, 1, 4);
        FieldsDone(s, a[..], xs, t, at, 8);
      }
    }
  }

  /** Swaps the number in the next entry of the variable part. */
  method FlipEntry(a: array<byte>, t: int, n: nat, p: nat, ghost s: seq<byte>, ghost xs: set<Spot>)
    requires (t == 8 || HasActionList(t)) && p + EntryAt(t, n + 1) <= a.Length
    requires IsSwap(s, a[..], xs + EntrySpots(t, n, p)) && Clear(xs, p, p + EntryAt(t, n + 1))
    modifies a
    ensures IsSwap(s, a[..], xs + EntrySpots(t, n + 1, p))
  {
    hide IsSwap, EntrySpots;
    NextEntry(t, n, p, xs);
    if t == 8 {
      FlipShort(a, p + 2 * n, s, xs + EntrySpots(t, n, p));
    } else {
      FlipLong(a, p + 12 * n, s, xs + EntrySpots(t, n, p));
    }
  }

  lemma ClearWithin(xs: set<Spot>, lo: int, hi: int, hi': int)
    requires Clear(xs, lo, hi) && hi' <= hi
    ensures Clear(xs, lo, hi')
  {
  }

  /** `SwapShorts`: sixteen at a time, then one by one. */
  method SwapShorts(a: array<byte>, p: nat, count: nat, ghost s: seq<byte>, ghost xs: set<Spot>)
    requires p + 2 * count <= a.Length && IsSwap(s, a[..], xs) && Clear(xs, p, p + 2 * count)
    modifies a
    ensures IsSwap(s, a[..], xs + EntrySpots(8, count, p))
  {
    hide IsSwap, Clear, EntrySpots;
    NoEntrySpots(8, p, xs);
    var done := 0;
    while count - done >= 16
      invariant done <= count && IsSwap(s, a[..], xs + EntrySpots(8, done, p))
    {
      for k := 0 to 16
        invariant IsSwap(s, a[..], xs + EntrySpots(8, done + k, p))
      {
        ClearWithin(xs, p, p + 2 * count, p + 2 * (done + k + 1));
        FlipEntry(a, 8, done + k, p, s, xs);
      }
      done := done + 16;
    }
    while done < count
      invariant done <= count && IsSwap(s, a[..], xs + EntrySpots(8, done, p))
    {
      ClearWithin(xs, p, p + 2 * count, p + 2 * (done + 1));
      FlipEntry(a, 8, done, p, s, xs);
      done := done + 1;
    }
  }

  /** Swaps the flow of every action. */
  method SwapActions(a: array<byte>, p: nat, na: nat, ghost s: seq<byte>, ghost xs: set<Spot>, t: int)
    requires HasActionList(t) && p + 12 * na <= a.Length && IsSwap(s, a[..], xs) && Clear(xs, p, p + 12 * na)
    modifies a
    ensures IsSwap(s, a[..], xs + EntrySpots(t, na, p))
  {
    hide IsSwap, Clear, EntrySpots;
    NoEntrySpots(t, p, xs);
    for i := 0 to na
      invariant IsSwap(s, a[..], xs + EntrySpots(t, i, p))
    {
      ClearWithin(xs, p, p + 12 * na, p + 12 * (i + 1));
      FlipEntry(a, t, i, p, s, xs);
    }
  }

  lemma NoEntrySpots(t: int, p: nat, xs: set<Spot>)
    ensures xs + EntrySpots(t, 0, p) == xs
  {
  }

  lemma NextEntry(t: int, n: nat, p: nat, xs: set<Spot>)
    requires HasActionList(t) || t == 8
    ensures var x := if t == 8 then Spot(p + 2 * n, 2) else Spot(p + 12 * n, 4);
            xs + EntrySpots(t, n + 1, p) == xs + EntrySpots(t, n, p) + {x}
    ensures Clear(EntrySpots(t, n, p), p + EntryAt(t, n), p + EntryAt(t, n + 1))
  {
    var x := if t == 8 then Spot(p + 2 * n, 2) else Spot(p + 12 * n, 4);
    forall y | y in EntrySpots(t, n + 1, p)
      ensures y in EntrySpots(t, n, p) + {x}
    {
    }
  }

  /** The variable part, and where it ends. */
  method SwapEntries(a: array<byte>, p: nat, t: u16, n: u32, ghost s: seq<byte>, ghost xs: set<Spot>)
    returns (next: nat)
    requires Supported(t) && p + Pad4(EntryAt(t, n)) <= a.Length && IsSwap(s, a[..], xs) &&
             Clear(xs, p, p + EntryAt(t, n))
    requires n > 0 ==> t == 5 || t == 8 || HasActionList(t)
    modifies a
    ensures next == p + Pad4(EntryAt(t, n)) && IsSwap(s, a[..], xs + EntrySpots(t, n, p))
  {
    hide IsSwap, Clear, EntrySpots;
    next := p;
    if t == 5 {
      next := next + 4 * n;
      NoEntryNumbers(t, n, p, xs);
    } else if t == 8 {
      SwapShorts(a, p, n, s, xs);
      next := next + Pad4(2 * n);
    } else if HasActionList(t) {
      SwapActions(a, p, n, s, xs, t);
      next := next + 12 * n;
    } else {
      NoEntryNumbers(t, n, p, xs);
    }
  }

  /** Tracks hold only bytes, and the other elements have no entries. */
  lemma NoEntryNumbers(t: int, n: nat, p: nat, xs: set<Spot>)
    requires t != 8 && !HasActionList(t)
    ensures xs + EntrySpots(t, n, p) == xs
  {
  }

  lemma TypeDone(s: seq<byte>, s': seq<byte>, xs: set<Spot>, t: int, at: nat)
    requires Supported(t) && at + FIXED_SIZE <= |s| && IsSwap(s, s', xs) && xs <= {Spot(at, 2)}
    ensures SwappedTo(s, s', xs, t, 0, at, 2)
  {
    hide IsSwap, FieldList;
    assert xs + FieldSpots(t, 0, at) == xs;
  }

  /** What is left to do when the fixed part, and then the variable part, have been swapped. */
  lemma AllSwapped(s: seq<byte>, s': seq<byte>, t: int, n: nat, at: nat, xs: set<Spot>)
    requires Supported(t) && SwappedTo(s, s', xs, t, |FieldList(t)|, at, FIXED_SIZE) && xs <= {Spot(at, 2)}
    ensures var fixed := xs + FieldSpots(t, |FieldList(t)|, at);
            var all := fixed + EntrySpots(t, n, at + FIXED_SIZE);
            IsSwap(s, s', fixed) && Clear(fixed, at + FIXED_SIZE, at + FIXED_SIZE + EntryAt(t, n)) &&
            (xs == {} ==> Clear(all, at, at + 2)) && all + {Spot(at, 2)} == ElementSpots(t, n, at) &&
            (xs == {Spot(at, 2)} ==> all == ElementSpots(t, n, at))
  {
    hide IsSwap, FieldList;
  }

  /**
   * `SwapElement`, for requests coming in and replies going out. `ok` is false for a type it does not
   * know. Which bytes are swapped, and where the next element starts, depends only on the type and
   * the counts, read in the byte order the element was in before.
   */
  method SwapElement(a: array<byte>, at: nat, incoming: bool, big: bool) returns (ok: bool, next: nat)
    requires Whole(if incoming then !big else big, a[..], at)
    modifies a
    ensures var order, was := if incoming then !big else big, old(a[..]);
            var t, n := KindOf(order, was, at), CountOf(order, was, at);
            ok == Supported(t) &&
            (ok ==> next == at + Span(t, n) && IsSwap(was, a[..], ElementSpots(t, n, at))) &&
            (!ok ==> IsSwap(was, a[..], if incoming then {Spot(at, 2)} else {}))
  {
    hide IsSwap, GetField, FieldSpots, EntrySpots, FieldList, Mirrored, SwappedTo;
    ghost var s, order := a[..], if incoming then !big else big;
    ghost var xs: set<Spot> := {};
    NothingSwapped(s);
    if incoming {
      FlipShort(a, at, s, {});
      xs := {Spot(at, 2)};
      assert {} + xs == xs;
      SpotMirrored(s, a[..], xs, Spot(at, 2));
      MirroredReads(big, s, a[..], Spot(at, 2));
    }
    var t := GetField(big, a[..], at, 2);
    if !Supported(t) {
      return false, at;
    }
    TypeDone(s, a[..], xs, t, at);
    var varData: nat, na := at + FIXED_SIZE, 0;
    if t <= 3 {
      na := SwapImport(a, at, t, incoming, big, s, xs);
    } else if 9 <= t <= 11 {
      na := SwapExport(a, at, t, incoming, big, s, xs);
    } else {
      na := SwapOther(a, at, t, incoming, big, s, xs);
    }
    assert na == CountOf(order, s, at);
    AllSwapped(s, a[..], t, na, at, xs);
    next := SwapEntries(a, varData, t, na, s, xs + FieldSpots(t, |FieldList(t)|, at));
    if !incoming {
      FlipShort(a, at, s, xs + FieldSpots(t, |FieldList(t)|, at) + EntrySpots(t, na, at + FIXED_SIZE));
    }
    ok := true;
  }
}
