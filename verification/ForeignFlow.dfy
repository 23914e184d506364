/** A flow set and read back by a client of the other byte order: all stations of its elements. */
module ForeignFlow {
  import opened Bytes
  import opened Packets
  import opened Elements
  import opened ElementCodec
  import opened ElementReader
  import opened ElementSwap
  import opened Requests
  import opened Sequences
  import opened Translation

  /**
   * The loop of `ProcAuSetElements` that keeps the elements of a request, in the server's byte order:
   * each where it starts, as long as its type and count say.
   */
  method KeepElements(a: array<byte>, big: bool, ghost flow: u32, ghost clocked: byte, ghost es: seq<Element>)
    returns (raw: seq<array<byte>>)
    requires IsSetElements(big, a[..], flow, clocked, es)
    ensures |raw| == |es| && forall i :: 0 <= i < |es| ==> Encodes(big, es[i], raw[i][..])
  {
    hide Encodes, EncodesAll, EncodedAt, IsSetElements, KindOf, CountOf, Whole, Span, WireSize, ListAt;
    ghost var s := a[..];
    KeptList(big, s, flow, clocked, es);
    var n := Get32(big, a[8..12]);
    assert a[8..12] == s[8..12];
    raw := [];
    var at: nat := 12;
    for i := 0 to n
      invariant |raw| == i <= |es| && at <= |s| && ListAt(big, es[i..], s, at)
      invariant forall j :: 0 <= j < i ==> Encodes(big, es[j], raw[j][..])
    {
      SliceFirst(es, i);
      FirstKept(big, es[i..], s, at);
      var size := Span(KindOf(big, a[..], at), CountOf(big, a[..], at));
      var piece := Copy(a, at, size);
      assert Encodes(big, es[i], piece[..]);
      raw := raw + [piece];
      at := at + size;
    }
  }

  method Copy(a: array<byte>, at: nat, size: nat) returns (piece: array<byte>)
    requires at + size <= a.Length
    ensures fresh(piece) && piece[..] == a[..][at..at + size]
  {
    piece := new byte[size];
    forall j | 0 <= j < size {
      piece[j] := a[at + j];
    }
  }

  lemma KeptList(big: bool, s: seq<byte>, flow: u32, clocked: byte, es: seq<Element>)
    requires IsSetElements(big, s, flow, clocked, es)
    ensures |s| >= 12 && Get32(big, s[8..12]) == |es| && ListAt(big, es, s, 12)
  {
    hide EncodesAll, ListAt, Put32, Get32;
    WordRoundTrip(big, 0, |es|);
    EncodedTotal(big, es, s[12..]);
    EncodesAllWhere(big, es, s, 12);
  }

  /** The first element of a list is as long as its type and count say. */
  lemma FirstKept(big: bool, es: seq<Element>, s: seq<byte>, at: nat)
    requires es != [] && ListAt(big, es, s, at)
    ensures at + FIXED_SIZE <= |s|
    ensures var size := Span(KindOf(big, s, at), CountOf(big, s, at));
            at + size <= |s| && Encodes(big, es[0], s[at..at + size]) && ListAt(big, es[1..], s, at + size)
  {
    hide Encodes, EncodedAt, KindOf, CountOf, Span, WireSize;
    EncodedSpan(big, es[0], s, at);
    EncodesWhere(big, es[0], s, at);
  }

  lemma EncodedSpan(big: bool, e: Element, s: seq<byte>, at: nat)
    requires EncodedAt(big, e, s, at)
    ensures at + FIXED_SIZE <= |s| && at + WireSize(e) <= |s|
    ensures Span(KindOf(big, s, at), CountOf(big, s, at)) == WireSize(e)
  {
    hide KindOf, CountOf;
    EncodedCounts(big, e, s, at);
  }

  /** The numbers in the header of the reply. */
  ghost function ReplySpots(): set<Spot>
  {
    {Spot(2, 2), Spot(4, 4), Spot(8, 4), Spot(12, 4)}
  }

  /** The header of the reply for `n` elements that take `words` words. */
  ghost predicate IsReplyHeader(big: bool, h: seq<byte>, sequence: u16, words: u32, flow: u32, clocked: byte, n: u32)
  {
    |h| == HEADER && h[0] == REPLY_TYPE && h[1] == clocked && h[2..4] == Put16(big, sequence) &&
    h[4..8] == Put32(big, words) && h[8..12] == Put32(big, flow) && h[12..16] == Put32(big, n)
  }

  /** `SAuGetElementsReply`. */
  method SwapReply(a: array<byte>, big: bool, ghost sequence: u16, ghost words: u32, ghost flow: u32,
                   ghost clocked: byte, ghost n: u32)
    requires IsReplyHeader(big, a[..], sequence, words, flow, clocked, n)
    modifies a
    ensures IsReplyHeader(!big, a[..], sequence, words, flow, clocked, n)
  {
    hide IsSwap, Put16, Put32;
    ghost var s := a[..];
    NothingSwapped(s);
    FlipShort(a, 2, s, {});
    FlipLong(a, 4, s, {} + {Spot(2, 2)});
    FlipLong(a, 8, s, {} + {Spot(2, 2)} + {Spot(4, 4)});
    FlipLong(a, 12, s, {} + {Spot(2, 2)} + {Spot(4, 4)} + {Spot(8, 4)});
    assert {} + {Spot(2, 2)} + {Spot(4, 4)} + {Spot(8, 4)} + {Spot(12, 4)} == ReplySpots();
    ReplyTranslated(big, s, a[..], sequence, words, flow, clocked, n);
  }

  lemma ReplyTranslated(big: bool, s: seq<byte>, s': seq<byte>, sequence: u16, words: u32, flow: u32, clocked: byte,
                        n: u32)
    requires IsReplyHeader(big, s, sequence, words, flow, clocked, n) && IsSwap(s, s', ReplySpots())
    ensures IsReplyHeader(!big, s', sequence, words, flow, clocked, n)
  {
    hide Put32, Put16, Mirrored;
    var xs := ReplySpots();
    assert |s| == |s'|;
    ClearKept(s, s', xs, 0, 2);
    assert s'[0] == s'[0..2][0] && s'[1] == s'[0..2][1] && s[0] == s[0..2][0] && s[1] == s[0..2][1];
    assert Spot(2, 2) in xs && Spot(4, 4) in xs && Spot(8, 4) in xs && Spot(12, 4) in xs;
    PutMirrored(!big, Field(2, 2, sequence), s, s', 0);
    PutMirrored(!big, Field(4, 4, words), s, s', 0);
    PutMirrored(!big, Field(8, 4, flow), s, s', 0);
    PutMirrored(!big, Field(12, 4, n), s, s', 0);
  }

  /** The reply of `ProcAuGetElements` for the elements it keeps, as it is sent. */
  method WriteReply(raw: seq<array<byte>>, big: bool, swapped: bool, sequence: u16, flow: u32, clocked: byte,
                    ghost es: seq<Element>)
    returns (p: seq<byte>)
    requires |raw| == |es| && forall i :: 0 <= i < |es| ==> Encodes(big, es[i], raw[i][..])
    requires HEADER + TotalSize(es) <= MAX_PACKET
    ensures var order := if swapped then !big else big;
            WfPacket(order, p) && IsElementsReply(order, p, clocked, es) && Seq16(order, p) == sequence
  {
    hide Encodes, EncodesAll, IsReplyHeader, WfPacket, IsElementsReply;
    ghost var order := if swapped then !big else big;
    var body := WriteElements(raw, big, swapped, es);
    EncodedTotal(order, es, body);
    WholeWords(es);
    EnoughBytes(es);
    var h := new byte[HEADER](_ => 0);
    FillReply(h, big, sequence, |body| / 4, flow, clocked, |raw|);
    if swapped {
      SwapReply(h, big, sequence, |body| / 4, flow, clocked, |raw|);
    }
    p := h[..] + body;
    ReplyComplete(order, h[..], body, sequence, flow, clocked, es);
  }

  method FillReply(h: array<byte>, big: bool, sequence: u16, words: u32, flow: u32, clocked: byte, n: u32)
    requires h.Length == HEADER
    modifies h
    ensures IsReplyHeader(big, h[..], sequence, words, flow, clocked, n)
  {
    hide Put16, Put32;
    var b := [REPLY_TYPE, clocked] + Put16(big, sequence) + Put32(big, words) + Put32(big, flow) +
             Put32(big, n) + Zeros(16);
    HeaderLaid(big, b, sequence, words, flow, clocked, n);
    forall i | 0 <= i < HEADER {
      h[i] := b[i];
    }
    assert h[..] == b;
  }

  lemma HeaderLaid(big: bool, b: seq<byte>, sequence: u16, words: u32, flow: u32, clocked: byte, n: u32)
    requires b == [REPLY_TYPE, clocked] + Put16(big, sequence) + Put32(big, words) + Put32(big, flow) +
                  Put32(big, n) + Zeros(16)
    ensures IsReplyHeader(big, b, sequence, words, flow, clocked, n)
  {
    hide Put16, Put32, Zeros;
  }

  /** Encodings take whole words. */
  lemma {:induction false} WholeWords(es: seq<Element>)
    ensures TotalSize(es) % 4 == 0
    decreases |es|
  {
    hide WireSize, TotalSize;
    if es == [] {
      NoSize();
    } else {
      TotalSizeFirst(es);
      WholeSize(es[0]);
      WholeWords(es[1..]);
      SumOfFours(WireSize(es[0]), TotalSize(es[1..]));
    }
  }

  lemma NoSize()
    ensures TotalSize([]) == 0
  {
  }

  lemma SumOfFours(a: nat, b: nat)
    requires a % 4 == 0 && b % 4 == 0
    ensures (a + b) % 4 == 0
  {
  }

  lemma WholeSize(e: Element)
    ensures WireSize(e) % 4 == 0 && WireSize(e) > 0
  {
    hide Pad4, EntryAt, TypeCode, Entries;
    SumOfFours(FIXED_SIZE, TailSize(e));
  }

  lemma {:induction false} EnoughBytes(es: seq<Element>)
    ensures |es| <= TotalSize(es)
    decreases |es|
  {
    if es != [] {
      hide WireSize, TotalSize;
      TotalSizeFirst(es);
      WholeSize(es[0]);
      EnoughBytes(es[1..]);
    }
  }

  lemma ReplyComplete(order: bool, h: seq<byte>, body: seq<byte>, sequence: u16, flow: u32, clocked: byte,
                      es: seq<Element>)
    requires |es| < 0x1_0000_0000 && |body| % 4 == 0 && HEADER + |body| <= MAX_PACKET && EncodesAll(order, es, body)
    requires IsReplyHeader(order, h, sequence, |body| / 4, flow, clocked, |es|)
    ensures WfPacket(order, h + body) && IsElementsReply(order, h + body, clocked, es) &&
            Seq16(order, h + body) == sequence
  {
    hide Put16, Put32, Get16, Get32, EncodesAll;
    var p := h + body;
    assert p[2..4] == h[2..4] && p[4..8] == h[4..8] && p[12..16] == h[12..16] && p[HEADER..] == body;
    WordRoundTrip(order, sequence, |body| / 4);
    WordRoundTrip(order, 0, |es|);
  }

  /**
   * All the way round. A client of byte order `!big` has sent `request` for the elements `es`; the
   * server translates it in place, keeps the elements, and answers a later request for them. The
   * client reads back the elements it sent, a wave form number cut to its last byte, and takes exactly
   * the reply off the connection.
   */
  method ForeignRoundTrip(request: array<byte>, big: bool, sequence: u16, flow: u32, clocked: byte,
                          ghost es: seq<Element>, ghost later: seq<Packet>)
    returns (p: seq<byte>)
    requires WfRequest(!big, request[..]) && IsSetElements(!big, request[..], flow, clocked, es)
    modifies request
    ensures WfPacket(!big, p) && IsReply(p) && p[1] == clocked
    ensures FetchFrom(!big, p, later) == Fetched(Returned(es), Concat(later))
  {
    hide WfRequest, IsSetElements, WfPacket, IsElementsReply, Encodes, EncodesAll, FetchFrom, Concat;
    RequestSize(!big, request[..], flow, clocked, es);
    var outcome := ReceiveSetElements(request, big, flow, clocked, es);
    var raw := KeepElements(request, big, flow, clocked, es);
    p := WriteReply(raw, big, true, sequence, flow, clocked, es);
    ReplyOf(!big, p, clocked, es);
    StaysInStep(!big, p, later, clocked, es);
  }

  lemma ReplyOf(order: bool, p: Packet, clocked: byte, es: seq<Element>)
    requires IsElementsReply(order, p, clocked, es)
    ensures |p| >= HEADER && IsReply(p) && p[1] == clocked
  {
  }

  lemma RequestSize(big: bool, s: seq<byte>, flow: u32, clocked: byte, es: seq<Element>)
    requires WfRequest(big, s) && IsSetElements(big, s, flow, clocked, es)
    ensures TotalSize(es) <= 0x4_0000
  {
    hide EncodesAll, Get16;
    EncodedTotal(big, es, s[12..]);
  }
}
