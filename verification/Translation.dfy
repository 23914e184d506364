/** SetElements requests from clients of the other byte order: what swapping makes of them. */
module Translation {
  import opened Bytes
  import opened Elements
  import opened ElementSwap
  import opened Requests
  import opened Sequences
  import opened ElementCodec

  // Swapping in several steps ------------------------------------------------------------------

  /** Between `lo` and `hi`, `s'` is `s` with exactly the numbers at `xs` mirrored. */
  ghost predicate SwapsWithin(s: seq<byte>, s': seq<byte>, xs: set<Spot>, lo: nat, hi: nat)
  {
    |s| == |s'| && lo <= hi <= |s| && (forall x :: x in xs ==> Mirrored(s, s', x)) &&
    forall i :: lo <= i < hi && !Touched(i, xs) ==> s'[i] == s[i]
  }

  lemma SwapRestricted(s: seq<byte>, s': seq<byte>, xs: set<Spot>, others: set<Spot>, lo: nat, hi: nat)
    requires IsSwap(s, s', xs + others) && Clear(others, lo, hi) && lo <= hi <= |s|
    ensures SwapsWithin(s, s', xs, lo, hi)
  {
    forall i | lo <= i < hi && !Touched(i, xs)
      ensures s'[i] == s[i]
    {
      assert !Touched(i, xs + others);
    }
  }

  lemma MirroredStays(s: seq<byte>, s': seq<byte>, s'': seq<byte>, x: Spot)
    requires Mirrored(s, s', x) && |s''| == |s'| && s''[x.at..x.at + x.width] == s'[x.at..x.at + x.width]
    ensures Mirrored(s, s'', x)
  {
    forall i | Inside(i, x)
      ensures s''[i] == s[2 * x.at + x.width - 1 - i]
    {
      assert s''[i] == s''[x.at..x.at + x.width][i - x.at] == s'[x.at..x.at + x.width][i - x.at] == s'[i];
    }
  }

  /** Two swaps at places that do not overlap are one swap. */
  lemma SwapMore(s: seq<byte>, s': seq<byte>, s'': seq<byte>, xs: set<Spot>, ys: set<Spot>, middle: nat)
    requires IsSwap(s, s', xs) && IsSwap(s', s'', ys)
    requires forall x :: x in xs ==> x.at + x.width <= middle
    requires forall y :: y in ys ==> middle <= y.at
    ensures IsSwap(s, s'', xs + ys)
  {
    hide Mirrored, Inside, Touched;
    forall x | x in xs
      ensures Mirrored(s, s'', x)
    {
      SpotFits(s, s', x);
      ClearKept(s', s'', ys, x.at, x.at + x.width);
      MirroredStays(s, s', s'', x);
    }
    forall y | y in ys
      ensures Mirrored(s, s'', y)
    {
      SpotFits(s', s'', y);
      ClearKept(s, s', xs, y.at, y.at + y.width);
      FreshMirrored(s, s', s'', y);
    }
    forall i | 0 <= i < |s| && !Touched(i, xs + ys)
      ensures s''[i] == s[i]
    {
      TouchedParts(i, xs, ys);
    }
  }

  lemma SpotFits(s: seq<byte>, s': seq<byte>, x: Spot)
    requires Mirrored(s, s', x)
    ensures x.at + x.width <= |s| == |s'|
  {
  }

  lemma TouchedParts(i: int, xs: set<Spot>, ys: set<Spot>)
    ensures Touched(i, xs + ys) <==> Touched(i, xs) || Touched(i, ys)
  {
    assert (forall x :: x in xs ==> x in xs + ys) && forall y :: y in ys ==> y in xs + ys;
  }

  // Walking a list -----------------------------------------------------------------------------

  /** Up to the first element of an unknown type, the `n` elements from `at` on are wholly in `s`. */
  ghost predicate Walkable(order: bool, s: seq<byte>, n: nat, at: nat)
    decreases n
  {
    n == 0 ||
    (Whole(order, s, at) &&
     (Supported(KindOf(order, s, at)) ==> Walkable(order, s, n - 1, After(order, s, at))))
  }

  function After(order: bool, s: seq<byte>, at: nat): (next: nat)
    requires at + FIXED_SIZE <= |s|
    ensures next > at
  {
    at + Span(KindOf(order, s, at), CountOf(order, s, at))
  }

  /** Where the walk ends and whether it met known types only. */
  ghost function WalkEnd(order: bool, s: seq<byte>, n: nat, at: nat): (r: (bool, nat))
    requires Walkable(order, s, n, at)
    ensures r.1 >= at
    decreases n
  {
    if n == 0 then (true, at)
    else if !Supported(KindOf(order, s, at)) then (false, at)
    else WalkEnd(order, s, n - 1, After(order, s, at))
  }

  /** The walk over the bytes `s` reaches an `i`th element, counted from `at`, and its type is unknown. */
  predicate UnknownAt(order: bool, s: seq<byte>, at: nat, i: nat)
    decreases i
  {
    at + FIXED_SIZE <= |s| &&
    if i == 0 then !Supported(KindOf(order, s, at))
    else Supported(KindOf(order, s, at)) && UnknownAt(order, s, After(order, s, at), i - 1)
  }

  /** Among the first `n` elements that the walk reaches there is one of unknown type. */
  ghost predicate MeetsUnknown(order: bool, s: seq<byte>, n: nat, at: nat)
  {
    exists i: nat :: i < n && UnknownAt(order, s, at, i)
  }

  /** The walk gives up exactly if one of the elements it reaches has an unknown type. */
  lemma {:induction false} WalkFails(order: bool, s: seq<byte>, n: nat, at: nat)
    requires Walkable(order, s, n, at)
    ensures !WalkEnd(order, s, n, at).0 <==> MeetsUnknown(order, s, n, at)
    decreases n
  {
    hide KindOf, CountOf, Span;
    if n > 0 && Supported(KindOf(order, s, at)) {
      var next := After(order, s, at);
      WalkFails(order, s, n - 1, next);
      if MeetsUnknown(order, s, n, at) {
        var i: nat :| i < n && UnknownAt(order, s, at, i);
        assert i > 0 && UnknownAt(order, s, next, i - 1);
      }
      if MeetsUnknown(order, s, n - 1, next) {
        var i: nat :| i < n - 1 && UnknownAt(order, s, next, i);
        assert UnknownAt(order, s, at, i + 1);
      }
    } else if n > 0 {
      assert UnknownAt(order, s, at, 0);
    }
  }

  /** All the numbers swapped in an incoming list. */
  ghost function ListSpots(order: bool, s: seq<byte>, n: nat, at: nat): (xs: set<Spot>)
    requires Walkable(order, s, n, at)
    ensures forall x :: x in xs ==> at <= x.at
    decreases n
  {
    if n == 0 then {}
    else if !Supported(KindOf(order, s, at)) then {Spot(at, 2)}
    else ElementSpots(KindOf(order, s, at), CountOf(order, s, at), at) + ListSpots(order, s, n - 1, After(order, s, at))
  }

  /** Of `n` elements the first have been swapped, at `xs`; `left` of them remain, from `next` on. */
  ghost predicate WalkedTo(order: bool, s: seq<byte>, s': seq<byte>, n: nat, at: nat, xs: set<Spot>, left: nat,
                           next: nat)
  {
    Walkable(order, s, n, at) && Walkable(order, s, left, next) && IsSwap(s, s', xs) &&
    (forall x :: x in xs ==> x.at + x.width <= next) &&
    xs + ListSpots(order, s, left, next) == ListSpots(order, s, n, at) &&
    WalkEnd(order, s, left, next) == WalkEnd(order, s, n, at)
  }

  lemma SameElement(order: bool, s: seq<byte>, s': seq<byte>, xs: set<Spot>, next: nat)
    requires IsSwap(s, s', xs) && (forall x :: x in xs ==> x.at + x.width <= next) && Whole(order, s, next)
    ensures Whole(order, s', next)
    ensures KindOf(order, s', next) == KindOf(order, s, next) && CountOf(order, s', next) == CountOf(order, s, next)
  {
    var h := next + FIXED_SIZE;
    ClearKept(s, s', xs, next, h);
    FieldKept(order, s, s', next, h, 0, 2);
    FieldKept(order, s, s', next, h, 2, 2);
    FieldKept(order, s, s', next, h, CountAt(KindOf(order, s, next)), 4);
  }

  lemma FieldKept(order: bool, s: seq<byte>, s': seq<byte>, lo: nat, hi: nat, offset: nat, width: nat)
    requires |s| == |s'| && lo + offset + width <= hi <= |s| && s'[lo..hi] == s[lo..hi] && (width == 2 || width == 4)
    ensures GetField(order, s', lo + offset, width) == GetField(order, s, lo + offset, width)
  {
    SliceWithin(s, lo, hi, offset, offset + width);
    SliceWithin(s', lo, hi, offset, offset + width);
  }

  lemma WalkedFurther(order: bool, s: seq<byte>, s': seq<byte>, s'': seq<byte>, n: nat, at: nat, xs: set<Spot>,
                      left: nat, next: nat)
    requires WalkedTo(order, s, s', n, at, xs, left, next) && left > 0
    requires var t := KindOf(order, s, next);
             IsSwap(s', s'', if Supported(t) then ElementSpots(t, CountOf(order, s, next), next) else {Spot(next, 2)})
    ensures var t := KindOf(order, s, next);
            if Supported(t) then
              WalkedTo(order, s, s'', n, at, xs + ElementSpots(t, CountOf(order, s, next), next), left - 1,
                       After(order, s, next))
            else IsSwap(s, s'', ListSpots(order, s, n, at)) && WalkEnd(order, s, n, at) == (false, next)
  {
    hide IsSwap, KindOf, CountOf, ElementSpots, Span;
    var t := KindOf(order, s, next);
    if Supported(t) {
      var ys := ElementSpots(t, CountOf(order, s, next), next);
      SwapMore(s, s', s'', xs, ys, next);
      assert xs + ys + ListSpots(order, s, left - 1, After(order, s, next)) ==
             xs + (ys + ListSpots(order, s, left - 1, After(order, s, next)));
    } else {
      SwapMore(s, s', s'', xs, {Spot(next, 2)}, next);
    }
  }

  lemma WalkStarts(order: bool, s: seq<byte>, n: nat, at: nat)
    requires Walkable(order, s, n, at)
    ensures WalkedTo(order, s, s, n, at, {}, n, at)
  {
    NothingSwapped(s);
  }

  /** The loop of `SProcAuSetElements`. */
  method SwapList(a: array<byte>, at: nat, n: nat, big: bool) returns (ok: bool, next: nat)
    requires Walkable(!big, a[..], n, at)
    modifies a
    ensures (ok, next) == WalkEnd(!big, old(a[..]), n, at)
    ensures IsSwap(old(a[..]), a[..], ListSpots(!big, old(a[..]), n, at))
  {
    hide IsSwap, KindOf, CountOf, ElementSpots, Span;
    ghost var s, xs := a[..], {};
    next := at;
    WalkStarts(!big, s, n, at);
    for i := 0 to n
      invariant WalkedTo(!big, s, a[..], n, at, xs, n - i, next)
    {
      ghost var was := a[..];
      SameElement(!big, s, was, xs, next);
      var known, further := SwapElement(a, next, true, big);
      WalkedFurther(!big, s, was, a[..], n, at, xs, n - i, next);
      if !known {
        return false, next;
      }
      xs := xs + ElementSpots(KindOf(!big, s, next), CountOf(!big, s, next), next);
      next := further;
    }
    ok := true;
    assert xs + {} == xs;
  }

  // Swapping translates encodings --------------------------------------------------------------

  /** A field is swapped as a whole, or is a single byte that no swap touches. */
  predicate Covered(f: Field, t: int)
    requires Supported(t)
  {
    if f.width == 1 then
      f.offset >= 2 && forall i :: 0 <= i < |FieldList(t)| ==> !Inside(f.offset, FieldList(t)[i])
    else (f.width == 2 || f.width == 4) &&
         (Spot(f.offset, f.width) == Spot(0, 2) || Spot(f.offset, f.width) in FieldList(t))
  }

  predicate HasField(fs: seq<Field>, k: nat, x: Spot)
  {
    k < |fs| && fs[k].offset == x.at && fs[k].width == x.width
  }

  /** What `SwapElement` swaps is exactly the fields that the client lays out in more than one byte. */
  lemma FieldsCovered(e: Element)
    requires Sendable(e)
    ensures forall k :: 0 <= k < |Fields(e)| ==> Covered(Fields(e)[k], TypeCode(e))
    ensures forall x :: x in FieldList(TypeCode(e)) ==> exists k: nat :: HasField(Fields(e), k, x)
  {
    var fs := Fields(e);
    forall x | x in FieldList(TypeCode(e))
      ensures exists k: nat :: HasField(fs, k, x)
    {
      assert HasField(fs, 1, x) || HasField(fs, 2, x) || HasField(fs, 3, x) || HasField(fs, 4, x) ||
             HasField(fs, 5, x) || HasField(fs, 6, x) || HasField(fs, 7, x) || HasField(fs, 8, x);
    }
  }

  lemma PutMirrored(big: bool, f: Field, s: seq<byte>, s': seq<byte>, at: nat)
    requires WfField(f, FIXED_SIZE) && at + f.offset + f.width <= |s|
    requires s[at + f.offset..at + f.offset + f.width] == Put(!big, f)
    requires f.width > 1 ==> Mirrored(s, s', Spot(at + f.offset, f.width))
    requires |s| == |s'| && (f.width == 1 ==> s'[at + f.offset] == s[at + f.offset])
    ensures s'[at + f.offset..at + f.offset + f.width] == Put(big, f)
  {
    var p := at + f.offset;
    var b, c := s[p..p + f.width], s'[p..p + f.width];
    if f.width > 1 {
      var x := Spot(p, f.width);
      assert Inside(p, x) && Inside(p + 1, x);
      assert c[0] == b[f.width - 1] && c[1] == b[f.width - 2];
      if f.width == 4 {
        assert Inside(p + 2, x) && Inside(p + 3, x);
        assert c[2] == b[1] && c[3] == b[0];
      }
    } else {
      assert c[0] == b[0];
    }
  }

  lemma FixedTranslated(big: bool, e: Element, n: nat, s: seq<byte>, s': seq<byte>, at: nat)
    requires Sendable(e) && at + FIXED_SIZE <= |s| && Lays(!big, s[at..at + FIXED_SIZE], Fields(e))
    requires SwapsWithin(s, s', ElementSpots(TypeCode(e), n, at), at, at + FIXED_SIZE)
    ensures Lays(big, s'[at..at + FIXED_SIZE], Fields(e))
  {
    hide Put, FieldList, Fields, Covered, SwapsWithin;
    var fs, h := Fields(e), at + FIXED_SIZE;
    FieldsCovered(e);
    assert |s'| == |s| by { SameLength(s, s', ElementSpots(TypeCode(e), n, at), at, h); }
    forall k | 0 <= k < |fs|
      ensures WfField(fs[k], FIXED_SIZE) && s'[at..h][fs[k].offset..fs[k].offset + fs[k].width] == Put(big, fs[k])
    {
      assert WfField(fs[k], FIXED_SIZE);
      FieldTranslated(big, TypeCode(e), n, s, s', at, fs[k]);
    }
  }

  lemma SameLength(s: seq<byte>, s': seq<byte>, xs: set<Spot>, lo: nat, hi: nat)
    requires SwapsWithin(s, s', xs, lo, hi)
    ensures |s'| == |s|
  {
  }

  /** A number that is swapped, or a byte that is not, reads the same in the other byte order. */
  lemma PartTranslated(big: bool, s: seq<byte>, s': seq<byte>, xs: set<Spot>, lo: nat, hi: nat, p: nat, q: nat,
                       f: Field)
    requires SwapsWithin(s, s', xs, lo, hi) && lo <= p <= q <= hi && WfField(f, q - p) && q - p <= FIXED_SIZE
    requires s[p..q][f.offset..f.offset + f.width] == Put(!big, f)
    requires if f.width > 1 then Spot(p + f.offset, f.width) in xs else !Touched(p + f.offset, xs)
    ensures s'[p..q][f.offset..f.offset + f.width] == Put(big, f)
  {
    hide Put, Touched, Mirrored;
    SliceWithin(s, p, q, f.offset, f.offset + f.width);
    SliceWithin(s', p, q, f.offset, f.offset + f.width);
    PutMirrored(big, f, s, s', p);
  }

  lemma FieldTranslated(big: bool, t: int, n: nat, s: seq<byte>, s': seq<byte>, at: nat, f: Field)
    requires Supported(t) && Covered(f, t) && WfField(f, FIXED_SIZE) && at + FIXED_SIZE <= |s|
    requires s[at..at + FIXED_SIZE][f.offset..f.offset + f.width] == Put(!big, f)
    requires SwapsWithin(s, s', ElementSpots(t, n, at), at, at + FIXED_SIZE)
    ensures |s'| == |s| && s'[at..at + FIXED_SIZE][f.offset..f.offset + f.width] == Put(big, f)
  {
    hide Put, FieldList, Touched, ElementSpots, Mirrored, Covered;
    assert f.width == 1 || f.width == 2 || f.width == 4;
    if f.width > 1 {
      FieldSpotted(t, n, at, f);
    } else {
      ByteUntouched(t, n, at, f);
    }
    PartTranslated(big, s, s', ElementSpots(t, n, at), at, at + FIXED_SIZE, at, at + FIXED_SIZE, f);
  }

  lemma FieldSpotted(t: int, n: nat, at: nat, f: Field)
    requires Supported(t) && Covered(f, t) && f.width > 1
    ensures Spot(at + f.offset, f.width) in ElementSpots(t, n, at)
  {
    hide FieldList;
    if Spot(f.offset, f.width) != Spot(0, 2) {
      var i: nat :| i < |FieldList(t)| && FieldList(t)[i] == Spot(f.offset, f.width);
      assert Spot(at + FieldList(t)[i].at, FieldList(t)[i].width) in FieldSpots(t, |FieldList(t)|, at);
    }
  }

  lemma ByteUntouched(t: int, n: nat, at: nat, f: Field)
    requires Supported(t) && Covered(f, t) && f.width == 1 && f.offset < FIXED_SIZE
    ensures !Touched(at + f.offset, ElementSpots(t, n, at))
  {
    hide FieldList;
  }

  /** Where the flow, or the number, of entry `j` is. */
  lemma EntrySpotted(t: int, n: nat, at: nat, j: nat)
    requires Supported(t) && j < n && (HasActionList(t) || t == 8)
    ensures Spot(at + FIXED_SIZE + EntryAt(t, j), if t == 8 then 2 else 4) in ElementSpots(t, n, at)
  {
  }

  lemma EntryByteUntouched(t: int, n: nat, at: nat, j: nat, c: nat)
    requires Supported(t) && j < n && ((HasActionList(t) && 4 <= c < 12) || (t == 5 && c < 4))
    ensures !Touched(at + FIXED_SIZE + EntryAt(t, j) + c, ElementSpots(t, n, at))
  {
    hide FieldList, EntrySpots;
    var i := at + FIXED_SIZE + EntryAt(t, j) + c;
    forall x | x in EntrySpots(t, n, at + FIXED_SIZE)
      ensures !Inside(i, x)
    {
      NotInside(t, n, at + FIXED_SIZE, j, c, x);
    }
  }

  lemma NotInside(t: int, n: nat, at: nat, j: nat, c: nat, x: Spot)
    requires j < n && ((HasActionList(t) && 4 <= c < 12) || (t == 5 && c < 4)) && x in EntrySpots(t, n, at)
    ensures !Inside(at + EntryAt(t, j) + c, x)
  {
    var k: nat :| k < n && x == Spot(at + 12 * k, 4);
  }

  lemma EntryTranslated(big: bool, e: Element, j: nat, s: seq<byte>, s': seq<byte>, at: nat)
    requires Sendable(e) && j < Entries(e) && at + WireSize(e) <= |s|
    requires var p := at + FIXED_SIZE + EntryAt(TypeCode(e), j);
             Lays(!big, s[p..p + Stride(TypeCode(e))], EntryFields(e, j))
    requires SwapsWithin(s, s', ElementSpots(TypeCode(e), Entries(e), at), at, at + WireSize(e))
    ensures var p := at + FIXED_SIZE + EntryAt(TypeCode(e), j);
            Lays(big, s'[p..p + Stride(TypeCode(e))], EntryFields(e, j))
  {
    hide Put, FieldList, ElementSpots, Touched, SwapsWithin, EntryFields, Pad4;
    var t, fs, xs := TypeCode(e), EntryFields(e, j), ElementSpots(TypeCode(e), Entries(e), at);
    var p := at + FIXED_SIZE + EntryAt(t, j);
    SameLength(s, s', xs, at, at + WireSize(e));
    EntryEnds(e, j);
    forall k | 0 <= k < |fs|
      ensures WfField(fs[k], Stride(t))
      ensures s'[p..p + Stride(t)][fs[k].offset..fs[k].offset + fs[k].width] == Put(big, fs[k])
    {
      var f := fs[k];
      assert WfField(f, Stride(t));
      EntryFieldCovered(e, j, k, at);
      PartTranslated(big, s, s', xs, at, at + WireSize(e), p, p + Stride(t), f);
    }
  }

  lemma EntryEnds(e: Element, j: nat)
    requires j < Entries(e)
    ensures EntryAt(TypeCode(e), j + 1) == EntryAt(TypeCode(e), j) + Stride(TypeCode(e)) <= TailSize(e)
  {
  }

  lemma EntryFieldCovered(e: Element, j: nat, k: nat, at: nat)
    requires j < Entries(e) && k < |EntryFields(e, j)|
    ensures var f, xs := EntryFields(e, j)[k], ElementSpots(TypeCode(e), Entries(e), at);
            var p := at + FIXED_SIZE + EntryAt(TypeCode(e), j);
            if f.width > 1 then Spot(p + f.offset, f.width) in xs else !Touched(p + f.offset, xs)
  {
    hide FieldList, ElementSpots, Touched;
    var f, t, n := EntryFields(e, j)[k], TypeCode(e), Entries(e);
    if f.width > 1 {
      EntrySpotted(t, n, at, j);
    } else {
      EntryByteUntouched(t, n, at, j, f.offset);
    }
  }

  /** An encoding of `e` starts at index `at` of `s`. */
  ghost predicate EncodedAt(big: bool, e: Element, s: seq<byte>, at: nat)
  {
    Sendable(e) && at + WireSize(e) <= |s| && Lays(big, s[at..at + FIXED_SIZE], Fields(e)) &&
    forall j :: 0 <= j < Entries(e) ==> EntryLaidAt(big, e, j, s, at)
  }

  ghost predicate EntryLaidAt(big: bool, e: Element, j: nat, s: seq<byte>, at: nat)
    requires j < Entries(e) && at + WireSize(e) <= |s|
  {
    var p := at + FIXED_SIZE + EntryAt(TypeCode(e), j);
    Lays(big, s[p..p + Stride(TypeCode(e))], EntryFields(e, j))
  }

  lemma EncodesWhere(big: bool, e: Element, s: seq<byte>, at: nat)
    requires at + WireSize(e) <= |s|
    ensures EncodedAt(big, e, s, at) <==> Encodes(big, e, s[at..at + WireSize(e)])
  {
    hide Lays, Fields, EntryFields, Sendable, TailSize, EncodesTail;
    var b := s[at..at + WireSize(e)];
    SliceWithin(s, at, at + WireSize(e), 0, FIXED_SIZE);
    TailWhere(big, e, s, at);
  }

  lemma TailWhere(big: bool, e: Element, s: seq<byte>, at: nat)
    requires at + WireSize(e) <= |s|
    ensures EncodesTail(big, e, s[at..at + WireSize(e)][FIXED_SIZE..]) <==>
            forall j :: 0 <= j < Entries(e) ==> EntryLaidAt(big, e, j, s, at)
  {
    hide Lays, EntryFields, TailSize, EntryOf;
    var b := s[at..at + WireSize(e)][FIXED_SIZE..];
    forall j | 0 <= j < Entries(e)
      ensures EntryLaidAt(big, e, j, s, at) <==> Lays(big, EntryOf(e, b, j), EntryFields(e, j))
    {
      EntryWhere(e, s, at, j);
    }
  }

  lemma EntryWhere(e: Element, s: seq<byte>, at: nat, j: nat)
    requires at + WireSize(e) <= |s| && j < Entries(e)
    ensures var p := at + FIXED_SIZE + EntryAt(TypeCode(e), j);
            p + Stride(TypeCode(e)) <= |s| &&
            EntryOf(e, s[at..at + WireSize(e)][FIXED_SIZE..], j) == s[p..p + Stride(TypeCode(e))]
  {
    var t := TypeCode(e);
    assert EntryAt(t, j + 1) == EntryAt(t, j) + Stride(t) <= TailSize(e);
    assert s[at..at + WireSize(e)][FIXED_SIZE..] == s[at + FIXED_SIZE..at + WireSize(e)];
    SliceWithin(s, at + FIXED_SIZE, at + WireSize(e), EntryAt(t, j), EntryAt(t, j + 1));
  }

  /** The walk reads the type and the number of entries that the client wrote. */
  lemma EncodedCounts(order: bool, e: Element, s: seq<byte>, at: nat)
    requires EncodedAt(order, e, s, at)
    ensures Whole(order, s, at) && KindOf(order, s, at) == TypeCode(e) && CountOf(order, s, at) == Entries(e)
    ensures After(order, s, at) == at + WireSize(e)
  {
    hide Lays, EntryFields, GetField, EntryLaidAt;
    var b, fs, t := s[at..at + FIXED_SIZE], Fields(e), TypeCode(e);
    FieldsRead(order, b, fs);
    FieldInSlice(order, s, at, 0, 2);
    assert fs[0] == Field(0, 2, t);
    FieldInSlice(order, s, at, 2, 2);
    FieldInSlice(order, s, at, CountAt(t), 4);
    if HasActions(e) {
      assert Field(CountAt(t), 4, |e.actions|) == fs[|fs| - 1];
    } else if e.Bundle? || e.Sum? {
      assert Field(2, 2, Entries(e)) == fs[1];
    }
  }

  lemma FieldInSlice(order: bool, s: seq<byte>, at: nat, offset: nat, width: nat)
    requires at + FIXED_SIZE <= |s| && offset + width <= FIXED_SIZE && (width == 2 || width == 4)
    ensures GetField(order, s[at..at + FIXED_SIZE], offset, width) == GetField(order, s, at + offset, width)
  {
    SliceWithin(s, at, at + FIXED_SIZE, offset, offset + width);
  }

  lemma ElementTranslated(big: bool, e: Element, s: seq<byte>, s': seq<byte>, at: nat)
    requires EncodedAt(!big, e, s, at)
    requires SwapsWithin(s, s', ElementSpots(TypeCode(e), Entries(e), at), at, at + WireSize(e))
    ensures EncodedAt(big, e, s', at)
  {
    hide Lays, EntryFields, ElementSpots, Touched;
    FixedTranslated(big, e, Entries(e), s, s', at);
    forall j | 0 <= j < Entries(e)
      ensures EntryLaidAt(big, e, j, s', at)
    {
      assert EntryLaidAt(!big, e, j, s, at);
      EntryTranslated(big, e, j, s, s', at);
    }
  }

  /** The elements' encodings lie end to end from index `at` on. */
  ghost predicate ListAt(big: bool, es: seq<Element>, s: seq<byte>, at: nat)
    decreases |es|
  {
    es == [] || (EncodedAt(big, es[0], s, at) && ListAt(big, es[1..], s, at + WireSize(es[0])))
  }

  lemma {:induction false} EncodesAllWhere(big: bool, es: seq<Element>, s: seq<byte>, at: nat)
    requires at + TotalSize(es) == |s|
    ensures ListAt(big, es, s, at) <==> EncodesAll(big, es, s[at..])
    decreases |es|
  {
    hide Encodes, EncodedAt, WireSize;
    if es != [] {
      TotalSizeFirst(es);
      var n := WireSize(es[0]);
      EncodesWhere(big, es[0], s, at);
      assert s[at..][..n] == s[at..at + n] && s[at..][n..] == s[at + n..];
      EncodesAllWhere(big, es[1..], s, at + n);
    }
  }

  /** The walk over a well-formed list ends exactly at its end. */
  lemma {:induction false} ListWalks(order: bool, es: seq<Element>, s: seq<byte>, at: nat)
    requires ListAt(order, es, s, at)
    ensures Walkable(order, s, |es|, at) && WalkEnd(order, s, |es|, at) == (true, at + TotalSize(es))
    decreases |es|
  {
    hide EncodedAt, WireSize, KindOf, CountOf, Span;
    if es != [] {
      EncodedCounts(order, es[0], s, at);
      ListWalks(order, es[1..], s, at + WireSize(es[0]));
      TotalSizeFirst(es);
    }
  }

  /** Swapping a list encoded in the foreign byte order leaves the same list encoded in the host's. */
  lemma {:induction false} ListTranslated(big: bool, es: seq<Element>, s: seq<byte>, s': seq<byte>, at: nat,
                                          before: set<Spot>)
    requires ListAt(!big, es, s, at) && Walkable(!big, s, |es|, at) && |s| == |s'|
    requires IsSwap(s, s', before + ListSpots(!big, s, |es|, at))
    requires forall x :: x in before ==> x.at + x.width <= at
    ensures ListAt(big, es, s', at)
    decreases |es|
  {
    hide IsSwap, EncodedAt, KindOf, CountOf, Span, ElementSpots, EntryAt, EntrySpots, FieldSpots;
    if es != [] {
      var e, next := es[0], at + WireSize(es[0]);
      EncodedCounts(!big, e, s, at);
      EncodedFits(!big, e, s, at);
      var xs := ElementSpots(TypeCode(e), Entries(e), at);
      var later := ListSpots(!big, s, |es| - 1, next);
      assert before + ListSpots(!big, s, |es|, at) == xs + (before + later) == before + xs + later;
      SwapRestricted(s, s', xs, before + later, at, next);
      ElementTranslated(big, e, s, s', at);
      ListTranslated(big, es[1..], s, s', next, before + xs);
    }
  }

  lemma EncodedFits(order: bool, e: Element, s: seq<byte>, at: nat)
    requires EncodedAt(order, e, s, at)
    ensures at + WireSize(e) <= |s|
    ensures forall x :: x in ElementSpots(TypeCode(e), Entries(e), at) ==> x.at + x.width <= at + WireSize(e)
  {
  }

  // Requests and replies -----------------------------------------------------------------------

  /** How `SProcAuSetElements` ends. */
  datatype Outcome =
    | Passed                              // the handler proper is called
    | TooShort                            // the request is refused with `AuBadLength`
    | NullRead                            // the type of an element is read through a null pointer

  /** The numbers in the fixed part of a SetElements request: length, flow and number of elements. */
  ghost function HeaderSpots(): set<Spot>
  {
    {Spot(2, 2), Spot(4, 4), Spot(8, 4)}
  }

  /** The number of elements, in the byte order of the request. */
  function RequestedCount(order: bool, s: seq<byte>): (n: u32)
    requires |s| >= 12
  {
    GetField(order, s, 8, 4)
  }

  /** The request has an element of unknown type among those the walk reaches. */
  ghost predicate HasUnknown(order: bool, s: seq<byte>)
    requires |s| >= 12
  {
    MeetsUnknown(order, s, RequestedCount(order, s), 12)
  }

  /**
   * `SProcAuSetElements` up to the call of the handler proper: `words` is the length of the request
   * as the dispatcher has read it. The numbers of the request are swapped where they lie. For an
   * element of unknown type `SwapElement` returns null, through which the code then reads the type
   * it means to report: no error is ever sent.
   */
  method SwapSetElements(a: array<byte>, words: nat, big: bool) returns (outcome: Outcome)
    requires a.Length >= 12 && (words >= 3 ==> Walkable(!big, a[..], RequestedCount(!big, a[..]), 12))
    modifies a
    ensures outcome == TooShort <==> words < 3
    ensures outcome == NullRead <==> words >= 3 && HasUnknown(!big, old(a[..]))
    ensures IsSwap(old(a[..]), a[..], HeaderSpots() + if words < 3 then {}
                                                      else
                                                        var s := old(a[..]);
                                                        ListSpots(!big, s, RequestedCount(!big, s), 12))
  {
    hide IsSwap, GetField, ListSpots, Walkable, MeetsUnknown;
    ghost var s := a[..];
    SwapHeader(a);
    ghost var was := a[..];
    assert |was| == |s|;
    assert HeaderSpots() + {} == HeaderSpots();
    if words < 3 {
      return TooShort;
    }
    SpotMirrored(s, was, HeaderSpots(), Spot(8, 4));
    MirroredReads(big, s, was, Spot(8, 4));
    var n := GetField(big, a[..], 8, 4);
    SameList(!big, s, was, HeaderSpots(), n, 12);
    assert n == RequestedCount(!big, s);
    WalkFails(!big, s, n, 12);
    var ok, next := SwapList(a, 12, n, big);
    SwapMore(s, was, a[..], HeaderSpots(), ListSpots(!big, s, n, 12), 12);
    outcome := if ok then Passed else NullRead;
  }

  /** A request in which the walk meets an unknown type at once: one element, of type 4. */
  function RadioRequest(): (s: seq<byte>)
  {
    [19, 0, 9, 0, 1, 0, 0, 0, 1, 0, 0, 0] + [4] + Zeros(23)
  }

  lemma RadioRequestFaults()
    ensures var s := RadioRequest();
            |s| == 36 && Walkable(false, s, RequestedCount(false, s), 12) && HasUnknown(false, s)
  {
    var s := RadioRequest();
    assert s[8..12] == [1, 0, 0, 0] && [1, 0, 0, 0][..2] == [1, 0] && [1, 0, 0, 0][2..] == [0, 0];
    assert s[12..14] == [4, 0];
    assert RequestedCount(false, s) == 1;
    assert KindOf(false, s, 12) == 4;
    assert UnknownAt(false, s, 12, 0);
  }

  method SwapHeader(a: array<byte>)
    requires a.Length >= 12
    modifies a
    ensures |old(a[..])| == |a[..]| && IsSwap(old(a[..]), a[..], HeaderSpots())
  {
    hide IsSwap;
    ghost var s := a[..];
    NothingSwapped(s);
    FlipShort(a, 2, s, {});
    FlipLong(a, 4, s, {} + {Spot(2, 2)});
    FlipLong(a, 8, s, {} + {Spot(2, 2)} + {Spot(4, 4)});
    assert {} + {Spot(2, 2)} + {Spot(4, 4)} + {Spot(8, 4)} == HeaderSpots();
  }

  /** Swaps before a list do not change how it is walked. */
  lemma {:induction false} SameList(order: bool, s: seq<byte>, s': seq<byte>, xs: set<Spot>, n: nat, at: nat)
    requires IsSwap(s, s', xs) && (forall x :: x in xs ==> x.at + x.width <= at) && Walkable(order, s, n, at)
    ensures Walkable(order, s', n, at) && WalkEnd(order, s', n, at) == WalkEnd(order, s, n, at)
    ensures ListSpots(order, s', n, at) == ListSpots(order, s, n, at)
    decreases n
  {
    hide IsSwap, KindOf, CountOf, ElementSpots, Span;
    if n > 0 {
      SameElement(order, s, s', xs, at);
      if Supported(KindOf(order, s, at)) {
        SameList(order, s, s', xs, n - 1, After(order, s, at));
      }
    }
  }

  /** The walk over what a client of the other byte order sends for `es` ends exactly at its end. */
  lemma ForeignWalk(order: bool, s: seq<byte>, flow: u32, clocked: byte, es: seq<Element>)
    requires IsSetElements(order, s, flow, clocked, es)
    ensures RequestedCount(order, s) == |es| && ListAt(order, es, s, 12)
    ensures Walkable(order, s, |es|, 12) && WalkEnd(order, s, |es|, 12) == (true, |s|)
  {
    hide EncodesAll, Put32, Get32, ListAt, Walkable;
    WordRoundTrip(order, 0, |es|);
    EncodedTotal(order, es, s[12..]);
    EncodesAllWhere(order, es, s, 12);
    ListWalks(order, es, s, 12);
  }

  /**
   * The endianness bridge: what a client of the other byte order sends for `es` becomes, in place, a
   * request for `es` in the server's order.
   */
  lemma ForeignRequest(big: bool, s: seq<byte>, s': seq<byte>, flow: u32, clocked: byte, es: seq<Element>)
    requires WfRequest(!big, s) && IsSetElements(!big, s, flow, clocked, es) && Walkable(!big, s, |es|, 12)
    requires IsSwap(s, s', HeaderSpots() + ListSpots(!big, s, |es|, 12))
    ensures WfRequest(big, s') && IsSetElements(big, s', flow, clocked, es)
  {
    hide IsSwap, EncodesAll, Put32, WfRequest, Walkable, ListAt, ListSpots;
    ForeignWalk(!big, s, flow, clocked, es);
    HeaderTranslated(big, s, s', flow, |es|, ListSpots(!big, s, |es|, 12));
    ListTranslated(big, es, s, s', 12, HeaderSpots());
    EncodedTotal(!big, es, s[12..]);
    EncodesAllWhere(big, es, s', 12);
    assert s'[0] == s'[..2][0] && s'[1] == s'[..2][1];
  }

  lemma HeaderTranslated(big: bool, s: seq<byte>, s': seq<byte>, flow: u32, n: u32, later: set<Spot>)
    requires WfRequest(!big, s) && |s| >= 12 && s[4..8] == Put32(!big, flow) && s[8..12] == Put32(!big, n)
    requires IsSwap(s, s', HeaderSpots() + later) && forall x :: x in later ==> 12 <= x.at
    ensures |s| == |s'| && WfRequest(big, s') && s'[..2] == s[..2]
    ensures s'[4..8] == Put32(big, flow) && s'[8..12] == Put32(big, n)
  {
    hide Put32, Get16, Mirrored;
    ClearKept(s, s', HeaderSpots() + later, 0, 2);
    assert Spot(2, 2) in HeaderSpots() && Spot(4, 4) in HeaderSpots() && Spot(8, 4) in HeaderSpots();
    SpotMirrored(s, s', HeaderSpots() + later, Spot(2, 2));
    SpotMirrored(s, s', HeaderSpots() + later, Spot(4, 4));
    SpotMirrored(s, s', HeaderSpots() + later, Spot(8, 4));
    MirroredReads(big, s, s', Spot(2, 2));
    PutMirrored(big, Field(4, 4, flow), s, s', 0);
    PutMirrored(big, Field(8, 4, n), s, s', 0);
  }

  /** The request handler a client of the other byte order reaches, on whatever it sends for `es`. */
  method ReceiveSetElements(a: array<byte>, big: bool, ghost flow: u32, ghost clocked: byte, ghost es: seq<Element>)
    returns (outcome: Outcome)
    requires WfRequest(!big, a[..]) && IsSetElements(!big, a[..], flow, clocked, es)
    modifies a
    ensures outcome == Passed && WfRequest(big, a[..]) && IsSetElements(big, a[..], flow, clocked, es)
  {
    hide IsSwap, WfRequest, IsSetElements, ListSpots, Walkable, ListAt, HasUnknown, RequestedCount;
    ghost var s := a[..];
    assert a.Length >= 12 by { RequestLong(!big, s, flow, clocked, es); }
    ForeignWalk(!big, s, flow, clocked, es);
    assert !HasUnknown(!big, s) by { KnownOnly(!big, s, |es|); }
    outcome := SwapSetElements(a, a.Length / 4, big);
    ForeignRequest(big, s, a[..], flow, clocked, es);
  }

  lemma KnownOnly(order: bool, s: seq<byte>, n: nat)
    requires |s| >= 12 && RequestedCount(order, s) == n && Walkable(order, s, n, 12) && WalkEnd(order, s, n, 12).0
    ensures !HasUnknown(order, s)
  {
    WalkFails(order, s, n, 12);
  }

  lemma RequestLong(big: bool, s: seq<byte>, flow: u32, clocked: byte, es: seq<Element>)
    requires IsSetElements(big, s, flow, clocked, es)
    ensures |s| >= 12
  {
  }

  /** `AuCopySwapElementWrite`: an element goes out to a client of the other byte order; `p` itself stays. */
  method CopySwapElementWrite(p: array<byte>, big: bool) returns (written: seq<byte>)
    requires Whole(big, p[..], 0) && Supported(KindOf(big, p[..], 0))
    ensures IsSwap(p[..], written, ElementSpots(KindOf(big, p[..], 0), CountOf(big, p[..], 0), 0))
  {
    hide IsSwap, ElementSpots, KindOf, CountOf, Whole;
    var e := new byte[p.Length](i requires 0 <= i < p.Length reads p => p[i]);
    assert e[..] == p[..];
    var ok, next := SwapElement(e, 0, false, big);
    written := e[..];
  }

  /** An element sent out reads, to a client of the other byte order, as the same element. */
  lemma ForeignReply(big: bool, e: Element, s: seq<byte>, s': seq<byte>)
    requires Encodes(big, e, s)
    requires Whole(big, s, 0) && Supported(KindOf(big, s, 0)) ==>
               IsSwap(s, s', ElementSpots(KindOf(big, s, 0), CountOf(big, s, 0), 0))
    ensures Whole(big, s, 0) && Supported(KindOf(big, s, 0)) && Encodes(!big, e, s')
  {
    hide EncodedAt, Encodes, KindOf, CountOf, Whole, IsSwap, ElementSpots;
    EncodedSize(big, e, s);
    assert s[0..0 + WireSize(e)] == s;
    EncodesWhere(big, e, s, 0);
    EncodedCounts(big, e, s, 0);
    var xs := ElementSpots(TypeCode(e), Entries(e), 0);
    assert xs + {} == xs;
    SwapRestricted(s, s', xs, {}, 0, WireSize(e));
    SameLength(s, s', xs, 0, WireSize(e));
    assert !!big == big;
    ElementTranslated(!big, e, s, s', 0);
    EncodesWhere(!big, e, s', 0);
    assert s'[0..0 + WireSize(e)] == s';
  }

  /**
   * Swapping an element out and in again restores every byte, and both directions step over the
   * same number of bytes, whatever the element holds.
   */
  lemma OutAndBack(big: bool, s: seq<byte>, s': seq<byte>, at: nat)
    requires Whole(big, s, at) && Supported(KindOf(big, s, at))
    requires IsSwap(s, s', ElementSpots(KindOf(big, s, at), CountOf(big, s, at), at))
    ensures Whole(!big, s', at) && KindOf(!big, s', at) == KindOf(big, s, at)
    ensures CountOf(!big, s', at) == CountOf(big, s, at) && After(!big, s', at) == After(big, s, at)
    ensures forall s'' :: IsSwap(s', s'', ElementSpots(KindOf(big, s, at), CountOf(big, s, at), at)) ==> s'' == s
  {
    hide Mirrored, FieldList, EntrySpots;
    var t, n := KindOf(big, s, at), CountOf(big, s, at);
    var xs := ElementSpots(t, n, at);
    assert Spot(at, 2) in xs;
    MirroredReads(!big, s, s', Spot(at, 2));
    if HasActionList(t) {
      CountSpotted(t, n, at);
      MirroredReads(!big, s, s', Spot(at + CountAt(t), 4));
    } else if t == 5 || t == 8 {
      CountSpotted(t, n, at);
      MirroredReads(!big, s, s', Spot(at + 2, 2));
    }
    forall s'' | IsSwap(s', s'', xs)
      ensures s'' == s
    {
      SwapUndone(s, s', s'', xs);
    }
  }

  lemma CountSpotted(t: int, n: nat, at: nat)
    requires Supported(t) && (HasActionList(t) || t == 5 || t == 8)
    ensures (if HasActionList(t) then Spot(at + CountAt(t), 4) else Spot(at + 2, 2)) in ElementSpots(t, n, at)
  {
    var k := |FieldList(t)| - 1;
    assert Spot(at + FieldList(t)[k].at, FieldList(t)[k].width) in FieldSpots(t, |FieldList(t)|, at);
  }

  /** An element that encodes `e` is whole, and its type is known. */
  lemma EncodedIsWhole(big: bool, e: Element, s: seq<byte>)
    requires Encodes(big, e, s)
    ensures Whole(big, s, 0) && Supported(KindOf(big, s, 0))
  {
    hide EncodedAt, Encodes, KindOf, CountOf, Whole;
    EncodedSize(big, e, s);
    assert s[0..0 + WireSize(e)] == s;
    EncodesWhere(big, e, s, 0);
    EncodedCounts(big, e, s, 0);
  }

  /**
   * The loop of `ProcAuGetElements`: the elements are written one behind the other, each swapped on
   * its own for a client of the other byte order. What arrives there is the same list of elements.
   */
  method WriteElements(raw: seq<array<byte>>, big: bool, swapped: bool, ghost es: seq<Element>)
    returns (written: seq<byte>)
    requires |raw| == |es| && forall i :: 0 <= i < |es| ==> Encodes(big, es[i], raw[i][..])
    ensures EncodesAll(if swapped then !big else big, es, written)
  {
    hide Encodes, EncodesAll, KindOf, CountOf, Whole, IsSwap, ElementSpots;
    ghost var order := if swapped then !big else big;
    written := [];
    NothingEncoded(order);
    for i := 0 to |raw|
      invariant EncodesAll(order, es[..i], written)
    {
      var bytes := raw[i][..];
      if swapped {
        EncodedIsWhole(big, es[i], bytes);
        var foreign := CopySwapElementWrite(raw[i], big);
        ForeignReply(big, es[i], bytes, foreign);
        bytes := foreign;
      }
      EncodesAllAppend(order, es[..i], written, es[i], bytes);
      assert es[..i] + [es[i]] == es[..i + 1];
      written := written + bytes;
    }
    assert es[..|es|] == es;
  }
}
