/** `SProcAuSetElementParameters`: swapping the entries of a request that changes parameters. */
module Parameters {
  import opened Bytes
  import opened Sequences

  /** New parameters for one element of a flow. */
  datatype Entry = Entry(flow: u32, elementNum: byte, values: seq<u32>)

  const ENTRY_HEADER := 8

  /** The size of an entry on the wire; the number of values is sent in one byte. */
  function Size(e: Entry): (n: nat)
  {
    ENTRY_HEADER + 4 * |e.values|
  }

  /** Entry `e` lies at `at`. */
  ghost predicate EntryAt(big: bool, e: Entry, s: seq<byte>, at: nat)
  {
    |e.values| < 0x100 && at + Size(e) <= |s| && s[at..at + 4] == Put32(big, e.flow) &&
    s[at + 4] == e.elementNum && s[at + 5] == |e.values| &&
    forall j :: 0 <= j < |e.values| ==> LongAt(s, at + ENTRY_HEADER + 4 * j, Put32(big, e.values[j]))
  }

  predicate LongAt(s: seq<byte>, p: nat, b: seq<byte>)
  {
    p + 4 <= |s| && s[p..p + 4] == b
  }

  /** From `at` to the end lie the entries `es`. */
  ghost predicate EntriesAt(big: bool, es: seq<Entry>, s: seq<byte>, at: nat)
    decreases |es|
  {
    if es == [] then at == |s| else EntryAt(big, es[0], s, at) && EntriesAt(big, es[1..], s, at + Size(es[0]))
  }

  // What the code does ----------------------------------------------------------------------------

  /** `swapl`. */
  function Flip(s: seq<byte>, p: nat): (r: seq<byte>)
    requires p + 4 <= |s|
    ensures |r| == |s|
  {
    s[p := s[p + 3]][p + 1 := s[p + 2]][p + 2 := s[p + 1]][p + 3 := s[p]]
  }

  /** The number of values of the entry at `at`; one byte, which no swapping changes. */
  function CountAt(s: seq<byte>, at: nat): (n: nat)
    requires at + ENTRY_HEADER <= |s|
  {
    s[at + 5]
  }

  function FlipMany(s: seq<byte>, p: nat, n: nat): (r: seq<byte>)
    requires p + 4 * n <= |s|
    ensures |r| == |s|
    decreases n
  {
    if n == 0 then s else FlipMany(Flip(s, p), p + 4, n - 1)
  }

  /** One turn of the loop: the numbers of the entry at `at`. */
  function SwapEntry(s: seq<byte>, at: nat): (r: seq<byte>)
    requires at + ENTRY_HEADER <= |s| && at + ENTRY_HEADER + 4 * CountAt(Flip(s, at), at) <= |s|
    ensures |r| == |s|
  {
    FlipMany(Flip(s, at), at + ENTRY_HEADER, CountAt(Flip(s, at), at))
  }

  /** All `n` turns stay inside the request. The step is the size of the values, without the entry's header. */
  predicate Walks(s: seq<byte>, at: nat, n: nat)
    decreases n
  {
    n == 0 ||
    (at + ENTRY_HEADER <= |s| && at + ENTRY_HEADER + 4 * CountAt(Flip(s, at), at) <= |s| &&
     Walks(SwapEntry(s, at), at + 4 * CountAt(SwapEntry(s, at), at), n - 1))
  }

  function Swapped(s: seq<byte>, at: nat, n: nat): (r: seq<byte>)
    requires Walks(s, at, n)
    ensures |r| == |s|
    decreases n
  {
    if n == 0 then s else Swapped(SwapEntry(s, at), at + 4 * CountAt(SwapEntry(s, at), at), n - 1)
  }

  method FlipLong(a: array<byte>, p: nat)
    requires p + 4 <= a.Length
    modifies a
    ensures a[..] == Flip(old(a[..]), p)
  {
    var n := a[p];
    a[p] := a[p + 3];
    a[p + 3] := n;
    n := a[p + 1];
    a[p + 1] := a[p + 2];
    a[p + 2] := n;
  }

  /** `SwapLongs`: eight at a time, then one by one. */
  method SwapLongs(a: array<byte>, p: nat, n: nat)
    requires p + 4 * n <= a.Length
    modifies a
    ensures a[..] == FlipMany(old(a[..]), p, n)
  {
    hide Flip, FlipMany;
    ghost var all := FlipMany(a[..], p, n);
    var at: nat, count: nat := p, n;
    while count >= 8
      invariant 0 <= count && at + 4 * count <= a.Length && FlipMany(a[..], at, count) == all
    {
      ghost var left := count;
      for i := 0 to 8
        invariant count == left && FlipMany(a[..], at + 4 * i, count - i) == all
      {
        FlipNext(a[..], at + 4 * i, count - i);
        FlipLong(a, at + 4 * i);
      }
      at, count := at + 32, count - 8;
    }
    while count != 0
      invariant 0 <= count && at + 4 * count <= a.Length && FlipMany(a[..], at, count) == all
    {
      FlipNext(a[..], at, count);
      FlipLong(a, at);
      at, count := at + 4, count - 1;
    }
    FlipNone(a[..], at);
  }

  lemma FlipNext(s: seq<byte>, p: nat, n: nat)
    requires p + 4 * n <= |s| && n > 0
    ensures FlipMany(s, p, n) == FlipMany(Flip(s, p), p + 4, n - 1)
  {
  }

  lemma FlipNone(s: seq<byte>, p: nat)
    requires p <= |s|
    ensures FlipMany(s, p, 0) == s
  {
  }

  /** The loop of `SProcAuSetElementParameters` over the `n` entries that start at `first`. */
  method SwapParameters(a: array<byte>, first: nat, n: nat)
    requires Walks(a[..], first, n)
    modifies a
    ensures a[..] == Swapped(old(a[..]), first, n)
  {
    hide Flip, FlipMany, SwapEntry;
    var at: nat, i := first, 0;
    while i < n
      invariant 0 <= i <= n && Walks(a[..], at, n - i)
      invariant Swapped(a[..], at, n - i) == Swapped(old(a[..]), first, n)
    {
      ghost var s := a[..];
      EntrySteps(s, at);
      FlipLong(a, at);
      var count: nat := a[at + 5];
      SwapLongs(a, at + ENTRY_HEADER, count);
      count := a[at + 5];
      at := at + 4 * count;
      i := i + 1;
    }
  }

  lemma EntrySteps(s: seq<byte>, at: nat)
    requires at + ENTRY_HEADER <= |s| && at + ENTRY_HEADER + 4 * CountAt(Flip(s, at), at) <= |s|
    ensures SwapEntry(s, at) == FlipMany(Flip(s, at), at + ENTRY_HEADER, CountAt(Flip(s, at), at))
  {
  }

  // When it is right ------------------------------------------------------------------------------

  /** A number that is flipped is in the other byte order. */
  lemma FlipTranslates(big: bool, s: seq<byte>, p: nat, x: u32)
    requires LongAt(s, p, Put32(!big, x))
    ensures LongAt(Flip(s, p), p, Put32(big, x))
  {
    var b, r := s[p..p + 4], Flip(s, p);
    assert r[p..p + 4] == [b[3], b[2], b[1], b[0]];
  }

  lemma FlipElsewhere(s: seq<byte>, p: nat, i: nat)
    requires p + 4 <= |s| && i < |s| && !(p <= i < p + 4)
    ensures Flip(s, p)[i] == s[i]
  {
  }

  /** Of the bytes only those of the `n` numbers change, and each number by itself. */
  lemma {:induction false} FlipManyIs(s: seq<byte>, p: nat, n: nat)
    requires p + 4 * n <= |s|
    ensures forall i :: 0 <= i < |s| && !(p <= i < p + 4 * n) ==> FlipMany(s, p, n)[i] == s[i]
    ensures forall j :: 0 <= j < n ==>
              FlipMany(s, p, n)[p + 4 * j..p + 4 * j + 4] == Flip(s, p + 4 * j)[p + 4 * j..p + 4 * j + 4]
    decreases n
  {
    hide Flip;
    if n > 0 {
      var t := Flip(s, p);
      var r := FlipMany(t, p + 4, n - 1);
      FlipManyIs(t, p + 4, n - 1);
      forall i | 0 <= i < |s| && !(p <= i < p + 4)
        ensures t[i] == s[i]
      {
        FlipElsewhere(s, p, i);
      }
      assert r[p..p + 4] == t[p..p + 4];
      forall j | 0 <= j < n
        ensures r[p + 4 * j..p + 4 * j + 4] == Flip(s, p + 4 * j)[p + 4 * j..p + 4 * j + 4]
      {
        if j > 0 {
          LaterFlip(s, t, r, p, j, p + 4 + 4 * (j - 1));
        }
      }
    }
  }

  lemma LaterFlip(s: seq<byte>, t: seq<byte>, r: seq<byte>, p: nat, j: nat, q: nat)
    requires j > 0 && q == p + 4 + 4 * (j - 1) && q + 4 <= |s| == |t| == |r|
    requires forall i :: q <= i < q + 4 ==> t[i] == s[i]
    requires r[q..q + 4] == Flip(t, q)[q..q + 4]
    ensures q == p + 4 * j && r[q..q + 4] == Flip(s, q)[q..q + 4]
  {
    hide Flip;
    assert t[q..q + 4] == s[q..q + 4];
    SameFlip(s, t, q);
  }

  lemma SameFlip(s: seq<byte>, t: seq<byte>, q: nat)
    requires q + 4 <= |s| == |t| && s[q..q + 4] == t[q..q + 4]
    ensures Flip(t, q)[q..q + 4] == Flip(s, q)[q..q + 4]
  {
    var a, b := s[q..q + 4], t[q..q + 4];
    assert a[0] == s[q] && a[1] == s[q + 1] && a[2] == s[q + 2] && a[3] == s[q + 3];
    assert b[0] == t[q] && b[1] == t[q + 1] && b[2] == t[q + 2] && b[3] == t[q + 3];
  }

  /** A single entry ends up in the server's byte order. */
  lemma OneEntrySwaps(big: bool, e: Entry, s: seq<byte>)
    requires EntriesAt(!big, [e], s, 0)
    ensures Walks(s, 0, 1) && EntriesAt(big, [e], Swapped(s, 0, 1), 0)
  {
    hide Put32, Flip, FlipMany;
    assert [e][1..] == [] && |s| == Size(e);
    var t, n := Flip(s, 0), |e.values|;
    FlipTranslates(big, s, 0, e.flow);
    FlipElsewhere(s, 0, 4);
    FlipElsewhere(s, 0, 5);
    var r := FlipMany(t, ENTRY_HEADER, n);
    FlipManyIs(t, ENTRY_HEADER, n);
    assert r[0..4] == t[0..4];
    forall j | 0 <= j < n
      ensures LongAt(r, ENTRY_HEADER + 4 * j, Put32(big, e.values[j]))
    {
      var q := ENTRY_HEADER + 4 * j;
      assert LongAt(s, q, Put32(!big, e.values[j]));
      forall i | q <= i < q + 4
        ensures t[i] == s[i]
      {
        FlipElsewhere(s, 0, i);
      }
      assert t[q..q + 4] == s[q..q + 4];
      FlipTranslates(big, t, q, e.values[j]);
    }
    assert r == SwapEntry(s, 0);
  }

  /** An entry without values for flow 1. */
  function Bare(big: bool): (b: seq<byte>)
    ensures |b| == ENTRY_HEADER
  {
    Put32(big, 1) + [0, 0, 0, 0]
  }

  function Bares(big: bool, n: nat): (b: seq<byte>)
    ensures |b| == ENTRY_HEADER * n
  {
    if n == 0 then [] else Bare(big) + Bares(big, n - 1)
  }

  const NO_VALUES := Entry(1, 0, [])

  lemma {:induction false} BaresAreEntries(big: bool, s: seq<byte>, at: nat, n: nat)
    requires at <= |s| && s[at..] == Bares(big, n)
    ensures EntriesAt(big, seq(n, _ => NO_VALUES), s, at)
    decreases n
  {
    hide Put32;
    if n > 0 {
      var es := seq(n, _ => NO_VALUES);
      var b := s[at..];
      assert b[0..4] == Put32(big, 1) && b[4] == 0 && b[5] == 0;
      assert s[at..at + 4] == b[0..4] && s[at + 4] == b[4] && s[at + 5] == b[5];
      SliceTwice(s, at, ENTRY_HEADER);
      assert b[ENTRY_HEADER..] == Bares(big, n - 1);
      BaresAreEntries(big, s, at + ENTRY_HEADER, n - 1);
      assert es[1..] == seq(n - 1, _ => NO_VALUES);
    }
  }

  /** Without values in the first entry the walk never leaves it. */
  lemma {:induction false} WalkStuck(s: seq<byte>, n: nat)
    requires |s| >= ENTRY_HEADER && s[5] == 0
    ensures Walks(s, 0, n) && Swapped(s, 0, n)[4..] == s[4..]
    decreases n
  {
    if n > 0 {
      var t := SwapEntry(s, 0);
      assert Flip(s, 0)[5] == 0 && t == Flip(s, 0) && t[5] == 0;
      assert t[4..] == s[4..];
      WalkStuck(t, n - 1);
    }
  }

  /** Every request of so many entries is swapped right exactly if there is at most one. */
  lemma SwapsExactly(big: bool, n: nat)
    ensures (forall es, s :: |es| == n && EntriesAt(!big, es, s, 0) && Walks(s, 0, n) ==>
               EntriesAt(big, es, Swapped(s, 0, n), 0)) <==> n <= 1
  {
    hide Put32, Flip, FlipMany, SwapEntry;
    if n == 1 {
      forall es, s | |es| == 1 && EntriesAt(!big, es, s, 0)
        ensures Walks(s, 0, 1) && EntriesAt(big, es, Swapped(s, 0, 1), 0)
      {
        assert es == [es[0]];
        OneEntrySwaps(big, es[0], s);
      }
    } else if n >= 2 {
      SecondUnswapped(big, n);
    }
  }

  /** The counterexample: entries without values, of which only the first is ever looked at. */
  lemma SecondUnswapped(big: bool, n: nat)
    requires n >= 2
    ensures var es, s := seq(n, _ => NO_VALUES), Bares(!big, n);
            EntriesAt(!big, es, s, 0) && Walks(s, 0, n) && !EntriesAt(big, es, Swapped(s, 0, n), 0)
  {
    var es, s := seq(n, _ => NO_VALUES), Bares(!big, n);
    assert s[0..] == s;
    BaresAreEntries(!big, s, 0, n);
    assert s[..ENTRY_HEADER] == Bare(!big) && s[ENTRY_HEADER..] == Bares(!big, n - 1);
    assert s[ENTRY_HEADER..][..4] == Put32(!big, 1) && s[5] == Bare(!big)[5] == 0;
    WalkStuck(s, n);
    var r := Swapped(s, 0, n);
    assert r[4..][4..8] == s[4..][4..8] && r[8..12] == r[4..][4..8] && s[8..12] == s[4..][4..8] == s[8..][..4];
    OtherOrder(big);
    if EntriesAt(big, es, r, 0) {
      SecondEntry(big, es, r);
      assert false;
    }
  }

  lemma OtherOrder(big: bool)
    ensures Put32(big, 1) != Put32(!big, 1)
  {
    assert Put32(true, 1)[3] == 1 && Put32(false, 1)[3] == 0;
  }

  lemma SecondEntry(big: bool, es: seq<Entry>, s: seq<byte>)
    requires |es| >= 2 && es[0] == es[1] == NO_VALUES && EntriesAt(big, es, s, 0)
    ensures |s| >= 16 && s[8..12] == Put32(big, 1)
  {
    hide Put32;
    assert es[1..][0] == es[1];
    assert EntriesAt(big, es[1..], s, 8);
  }
}
