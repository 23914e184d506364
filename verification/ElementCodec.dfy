/** `AuSetElements`: sending the elements of a flow. */
module ElementCodec {
  import opened Bytes
  import opened Packets
  import opened Engine
  import opened Requests
  import opened Sequences
  import opened Elements
  import opened Client
  import ErrorWatches
  import Q = EventQueue

  const SET_ELEMENTS: byte := 19

  /** The first `k` of the fields `fs` are laid out in `b`, and none of them reaches past `end`. */
  ghost predicate LaysUpTo(big: bool, b: seq<byte>, fs: seq<Field>, k: nat, end: nat)
    requires k <= |fs|
  {
    Lays(big, b, fs[..k]) && forall i :: 0 <= i < k ==> fs[i].offset + fs[i].width <= end
  }

  lemma NothingLaid(big: bool, b: seq<byte>, fs: seq<Field>)
    ensures LaysUpTo(big, b, fs, 0, 0)
  {
  }

  lemma AllLaid(big: bool, b: seq<byte>, fs: seq<Field>, end: nat)
    requires LaysUpTo(big, b, fs, |fs|, end)
    ensures Lays(big, b, fs)
  {
    assert fs[..|fs|] == fs;
  }

  /** An assignment to field `k` of a wire structure, which lies behind those already assigned. */
  method Store(big: bool, s: array<byte>, offset: nat, width: nat, value: u32, ghost fs: seq<Field>, ghost k: nat)
    requires k < |fs| && fs[k] == Field(offset, width, value) && WfField(fs[k], s.Length)
    requires LaysUpTo(big, s[..], fs, k, offset)
    modifies s
    ensures LaysUpTo(big, s[..], fs, k + 1, offset + width)
  {
    var bytes := Put(big, Field(offset, width, value));
    forall i | 0 <= i < width {
      s[offset + i] := bytes[i];
    }
    assert s[..][offset..offset + width] == bytes;
    forall i | 0 <= i < k
      ensures s[..][fs[i].offset..fs[i].offset + fs[i].width] == Put(big, fs[i])
    {
      assert fs[..k][i] == fs[i];
      assert s[..][fs[i].offset..fs[i].offset + fs[i].width] == old(s[..])[fs[i].offset..fs[i].offset + fs[i].width];
    }
  }

  // The structure is reused from element to element, so bytes between fields keep what they had.

  method FillImport(big: bool, s: array<byte>, e: Element)
    requires s.Length == FIXED_SIZE && Sendable(e) && TypeCode(e) <= 3
    modifies s
    ensures Lays(big, s[..], Fields(e))
  {
    hide Lays, LaysUpTo, Put;
    ghost var fs := Fields(e);
    NothingLaid(big, s[..], fs);
    Store(big, s, 0, 2, TypeCode(e), fs, 0);
    match e {
      case ImportClient(rate, format, tracks, discard, max, low, actions) =>
        Store(big, s, 2, 2, rate, fs, 1);
        Store(big, s, 4, 1, format, fs, 2);
        Store(big, s, 5, 1, tracks, fs, 3);
        Store(big, s, 6, 1, discard, fs, 4);
        Store(big, s, 8, 4, max, fs, 5);
        Store(big, s, 12, 4, low, fs, 6);
        Store(big, s, 16, 4, |actions|, fs, 7);
        AllLaid(big, s[..], fs, 20);
      case ImportDevice(rate, device, samples, actions) =>
        Store(big, s, 2, 2, rate, fs, 1);
        Store(big, s, 4, 4, samples, fs, 2);
        Store(big, s, 8, 4, device, fs, 3);
        Store(big, s, 12, 4, |actions|, fs, 4);
        AllLaid(big, s[..], fs, 16);
      case ImportBucket(rate, bucket, samples, offset, actions) =>
        Store(big, s, 2, 2, rate, fs, 1);
        Store(big, s, 4, 4, samples, fs, 2);
        Store(big, s, 8, 4, bucket, fs, 3);
        Store(big, s, 12, 4, offset, fs, 4);
        Store(big, s, 16, 4, |actions|, fs, 5);
        AllLaid(big, s[..], fs, 20);
      case ImportWaveForm(rate, wave, frequency, samples, actions) =>
        Store(big, s, 2, 2, rate, fs, 1);
        Store(big, s, 4, 4, samples, fs, 2);
        Store(big, s, 8, 1, wave % 0x100, fs, 3);
        Store(big, s, 12, 4, frequency, fs, 4);
        Store(big, s, 16, 4, |actions|, fs, 5);
        AllLaid(big, s[..], fs, 20);
    }
  }

  method FillOperator(big: bool, s: array<byte>, e: Element)
    requires s.Length == FIXED_SIZE && Sendable(e) && 5 <= TypeCode(e) <= 8
    modifies s
    ensures Lays(big, s[..], Fields(e))
  {
    hide Lays, LaysUpTo, Put;
    ghost var fs := Fields(e);
    NothingLaid(big, s[..], fs);
    Store(big, s, 0, 2, TypeCode(e), fs, 0);
    match e {
      case Bundle(tracks) =>
        Store(big, s, 2, 2, |tracks|, fs, 1);
        AllLaid(big, s[..], fs, 4);
      case MultiplyConstant(input, constant) =>
        Store(big, s, 2, 2, input, fs, 1);
        Store(big, s, 4, 4, constant, fs, 2);
        AllLaid(big, s[..], fs, 8);
      case AddConstant(input, constant) =>
        Store(big, s, 2, 2, input, fs, 1);
        Store(big, s, 4, 4, constant, fs, 2);
        AllLaid(big, s[..], fs, 8);
      case Sum(inputs) =>
        Store(big, s, 2, 2, |inputs|, fs, 1);
        AllLaid(big, s[..], fs, 4);
    }
  }

  method FillClientOrDeviceExport(big: bool, s: array<byte>, e: Element)
    requires s.Length == FIXED_SIZE && Sendable(e) && 9 <= TypeCode(e) <= 10
    modifies s
    ensures Lays(big, s[..], Fields(e))
  {
    hide Lays, LaysUpTo, Put;
    ghost var fs := Fields(e);
    NothingLaid(big, s[..], fs);
    Store(big, s, 0, 2, TypeCode(e), fs, 0);
    match e {
      case ExportClient(rate, input, format, tracks, discard, max, high, actions) =>
        Store(big, s, 2, 2, rate, fs, 1);
        Store(big, s, 4, 2, input, fs, 2);
        Store(big, s, 8, 1, format, fs, 3);
        Store(big, s, 9, 1, tracks, fs, 4);
        Store(big, s, 10, 1, discard, fs, 5);
        Store(big, s, 12, 4, max, fs, 6);
        Store(big, s, 16, 4, high, fs, 7);
        Store(big, s, 20, 4, |actions|, fs, 8);
        AllLaid(big, s[..], fs, 24);
      case ExportDevice(rate, input, device, samples, actions) =>
        Store(big, s, 2, 2, rate, fs, 1);
        Store(big, s, 4, 2, input, fs, 2);
        Store(big, s, 8, 4, samples, fs, 3);
        Store(big, s, 12, 4, device, fs, 4);
        Store(big, s, 16, 4, |actions|, fs, 5);
        AllLaid(big, s[..], fs, 20);
    }
  }

  method FillBucketOrMonitorExport(big: bool, s: array<byte>, e: Element)
    requires s.Length == FIXED_SIZE && Sendable(e) && 11 <= TypeCode(e)
    modifies s
    ensures Lays(big, s[..], Fields(e))
  {
    hide Lays, LaysUpTo, Put;
    ghost var fs := Fields(e);
    NothingLaid(big, s[..], fs);
    Store(big, s, 0, 2, TypeCode(e), fs, 0);
    match e {
      case ExportBucket(input, bucket, samples, offset, actions) =>
        Store(big, s, 2, 2, input, fs, 1);
        Store(big, s, 4, 4, samples, fs, 2);
        Store(big, s, 8, 4, bucket, fs, 3);
        Store(big, s, 12, 4, offset, fs, 4);
        Store(big, s, 16, 4, |actions|, fs, 5);
        AllLaid(big, s[..], fs, 20);
      case ExportMonitor(input, rate, format, tracks) =>
        Store(big, s, 2, 2, rate, fs, 1);
        Store(big, s, 4, 2, input, fs, 2);
        Store(big, s, 8, 1, format, fs, 3);
        Store(big, s, 9, 1, tracks, fs, 4);
        AllLaid(big, s[..], fs, 10);
    }
  }

  method FillFixed(big: bool, s: array<byte>, e: Element)
    requires s.Length == FIXED_SIZE && Sendable(e)
    modifies s
    ensures Lays(big, s[..], Fields(e))
  {
    hide Lays;
    if TypeCode(e) <= 3 {
      FillImport(big, s, e);
    } else if TypeCode(e) <= 8 {
      FillOperator(big, s, e);
    } else if TypeCode(e) <= 10 {
      FillClientOrDeviceExport(big, s, e);
    } else {
      FillBucketOrMonitorExport(big, s, e);
    }
  }

  /** `writeActions`: sends the actions of an element, each through the same 12-byte structure. */
  method WriteActions(aud: AuServer, e: Element, ghost st0: State, ghost ps0: seq<Packet>, ghost k0: nat)
    returns (ghost tail: seq<byte>, ghost k: nat)
    requires aud.Sending(st0, ps0, k0) && HasActions(e)
    modifies aud`lastRead, aud`reported, aud`inbound, aud`incoming, aud`readScript
    modifies aud.q, aud.q.Repr, aud.async`watches, aud.async.nodes
    modifies aud`bufptr, aud`sent, aud`writeScript, aud`open, aud.buffer
    ensures aud.Sending(st0, ps0, k) && aud.QueueGrew() && aud.async.nodes == old(aud.async.nodes)
    ensures aud.open == old(aud.open) + tail && EncodesTail(aud.big, e, tail)
  {
    hide Lays, EncodesTail, LaidEntries, AuServer.Sending;
    var s := new byte[12];
    tail, k := [], k0;
    NothingSent(aud.big, e);
    var i := 0;
    while i < |e.actions|
      invariant 0 <= i <= |e.actions| && aud.Sending(st0, ps0, k)
      invariant aud.QueueGrew() && aud.async.nodes == old(aud.async.nodes)
      invariant aud.open == old(aud.open) + tail && LaidEntries(aud.big, e, tail, i)
    {
      FillAction(aud.big, s, e, i);
      ghost var pad;
      pad, k := aud.SendMore(s[..], st0, ps0, k);
      EntryLaid(aud.big, e, tail, i, s[..]);
      AppendAssociative(old(aud.open), tail, s[..]);
      tail := tail + s[..];
      i := i + 1;
    }
    WholeEntries(aud.big, e, tail);
  }

  method FillAction(big: bool, s: array<byte>, e: Element, i: nat)
    requires s.Length == 12 && HasActions(e) && i < |e.actions|
    modifies s
    ensures Lays(big, s[..], EntryFields(e, i))
  {
    hide Lays, LaysUpTo, Put;
    var action := e.actions[i];
    ghost var fs := EntryFields(e, i);
    NothingLaid(big, s[..], fs);
    Store(big, s, 0, 4, action.flow, fs, 0);
    Store(big, s, 4, 1, action.elementNum, fs, 1);
    Store(big, s, 5, 1, action.triggerState, fs, 2);
    Store(big, s, 6, 1, action.triggerPrevState, fs, 3);
    Store(big, s, 7, 1, action.triggerReason, fs, 4);
    Store(big, s, 8, 1, action.action, fs, 5);
    Store(big, s, 9, 1, action.newState, fs, 6);
    AllLaid(big, s[..], fs, 10);
  }

  /** Sends the tracks of a bundle, each through the same four-byte structure. */
  method WriteTracks(aud: AuServer, e: Element, ghost st0: State, ghost ps0: seq<Packet>, ghost k0: nat)
    returns (ghost tail: seq<byte>, ghost k: nat)
    requires aud.Sending(st0, ps0, k0) && e.Bundle?
    modifies aud`lastRead, aud`reported, aud`inbound, aud`incoming, aud`readScript
    modifies aud.q, aud.q.Repr, aud.async`watches, aud.async.nodes
    modifies aud`bufptr, aud`sent, aud`writeScript, aud`open, aud.buffer
    ensures aud.Sending(st0, ps0, k) && aud.QueueGrew() && aud.async.nodes == old(aud.async.nodes)
    ensures aud.open == old(aud.open) + tail && EncodesTail(aud.big, e, tail)
  {
    hide Lays, EncodesTail, LaidEntries, AuServer.Sending;
    var s := new byte[4];
    tail, k := [], k0;
    NothingSent(aud.big, e);
    var i := 0;
    while i < |e.tracks|
      invariant 0 <= i <= |e.tracks| && aud.Sending(st0, ps0, k)
      invariant aud.QueueGrew() && aud.async.nodes == old(aud.async.nodes)
      invariant aud.open == old(aud.open) + tail && LaidEntries(aud.big, e, tail, i)
    {
      FillTrack(aud.big, s, e, i);
      ghost var pad;
      pad, k := aud.SendMore(s[..], st0, ps0, k);
      EntryLaid(aud.big, e, tail, i, s[..]);
      AppendAssociative(old(aud.open), tail, s[..]);
      tail := tail + s[..];
      i := i + 1;
    }
    WholeEntries(aud.big, e, tail);
  }

  method FillTrack(big: bool, s: array<byte>, e: Element, i: nat)
    requires s.Length == 4 && e.Bundle? && i < |e.tracks|
    modifies s
    ensures Lays(big, s[..], EntryFields(e, i))
  {
    hide Lays, LaysUpTo, Put;
    ghost var fs := EntryFields(e, i);
    NothingLaid(big, s[..], fs);
    Store(big, s, 0, 1, e.tracks[i].elementNum, fs, 0);
    Store(big, s, 1, 1, e.tracks[i].track, fs, 1);
    AllLaid(big, s[..], fs, 2);
  }

  /** The first `n` entries of the variable part are laid out in `b`, one behind the other. */
  ghost predicate LaidEntries(big: bool, e: Element, b: seq<byte>, n: nat)
  {
    n <= Entries(e) && |b| == EntryAt(TypeCode(e), n) &&
    forall j :: 0 <= j < n ==> Lays(big, b[EntryAt(TypeCode(e), j)..EntryAt(TypeCode(e), j + 1)], EntryFields(e, j))
  }

  lemma EntryLaid(big: bool, e: Element, b: seq<byte>, n: nat, entry: seq<byte>)
    requires LaidEntries(big, e, b, n) && n < Entries(e) && |entry| == Stride(TypeCode(e))
    requires Lays(big, entry, EntryFields(e, n))
    ensures LaidEntries(big, e, b + entry, n + 1)
  {
    hide Lays, EntryFields;
    var t := TypeCode(e);
    assert EntryAt(t, n + 1) == EntryAt(t, n) + Stride(t);
    assert (b + entry)[EntryAt(t, n)..EntryAt(t, n + 1)] == entry;
    forall j | 0 <= j < n
      ensures Lays(big, (b + entry)[EntryAt(t, j)..EntryAt(t, j + 1)], EntryFields(e, j))
    {
      assert EntryAt(t, j + 1) <= EntryAt(t, n) == |b|;
      assert (b + entry)[EntryAt(t, j)..EntryAt(t, j + 1)] == b[EntryAt(t, j)..EntryAt(t, j + 1)];
    }
  }

  lemma EntriesEncoded(big: bool, e: Element, b: seq<byte>, pad: seq<byte>)
    requires LaidEntries(big, e, b, Entries(e)) && |pad| == PadLength(|b|)
    ensures EncodesTail(big, e, b + pad)
  {
    hide Lays;
    var t := TypeCode(e);
    forall j | 0 <= j < Entries(e)
      ensures Lays(big, EntryOf(e, b + pad, j), EntryFields(e, j))
    {
      assert (b + pad)[EntryAt(t, j)..EntryAt(t, j + 1)] == b[EntryAt(t, j)..EntryAt(t, j + 1)];
    }
  }

  lemma WholeEntries(big: bool, e: Element, b: seq<byte>)
    requires LaidEntries(big, e, b, Entries(e)) && !e.Sum?
    ensures EncodesTail(big, e, b)
  {
    hide Lays;
    EntriesEncoded(big, e, b, []);
    assert b + [] == b;
  }

  lemma NothingSent(big: bool, e: Element)
    ensures LaidEntries(big, e, [], 0)
  {
  }

  /** An array of shorts as it lies in memory. */
  function ShortBytes(big: bool, xs: seq<u16>): (b: seq<byte>)
    ensures |b| == 2 * |xs|
  {
    if xs == [] then [] else ShortBytes(big, xs[..|xs| - 1]) + Put16(big, xs[|xs| - 1])
  }

  lemma {:induction false} ShortsLaid(big: bool, e: Element, n: nat)
    requires e.Sum? && n <= |e.inputs|
    ensures LaidEntries(big, e, ShortBytes(big, e.inputs[..n]), n)
  {
    if n > 0 {
      ShortsLaid(big, e, n - 1);
      var x := e.inputs[n - 1];
      assert e.inputs[..n][..n - 1] == e.inputs[..n - 1];
      assert Lays(big, Put16(big, x), EntryFields(e, n - 1)) by {
        assert Put16(big, x)[0..2] == Put16(big, x);
      }
      EntryLaid(big, e, ShortBytes(big, e.inputs[..n - 1]), n - 1, Put16(big, x));
    }
  }

  /** Sends the inputs of a sum as they lie in memory. */
  method WriteShorts(aud: AuServer, e: Element, ghost st0: State, ghost ps0: seq<Packet>, ghost k0: nat)
    returns (ghost tail: seq<byte>, ghost k: nat)
    requires aud.Sending(st0, ps0, k0) && e.Sum?
    modifies aud`lastRead, aud`reported, aud`inbound, aud`incoming, aud`readScript
    modifies aud.q, aud.q.Repr, aud.async`watches, aud.async.nodes
    modifies aud`bufptr, aud`sent, aud`writeScript, aud`open, aud.buffer
    ensures aud.Sending(st0, ps0, k) && aud.QueueGrew() && aud.async.nodes == old(aud.async.nodes)
    ensures aud.open == old(aud.open) + tail && EncodesTail(aud.big, e, tail)
  {
    hide Lays, EncodesTail, LaidEntries, AuServer.Sending, ShortBytes;
    var data := ShortBytes(aud.big, e.inputs);
    ghost var pad;
    pad, k := aud.SendMore(data, st0, ps0, k0);
    tail := data + pad;
    assert e.inputs[..|e.inputs|] == e.inputs;
    ShortsLaid(aud.big, e, |e.inputs|);
    EntriesEncoded(aud.big, e, data, pad);
    AppendAssociative(old(aud.open), data, pad);
  }

  /** Sends one element: its fixed part, then its variable part. */
  method WriteRecord(aud: AuServer, s: array<byte>, e: Element, ghost st0: State, ghost ps0: seq<Packet>, ghost k0: nat)
    returns (ghost b: seq<byte>, ghost k: nat)
    requires aud.Sending(st0, ps0, k0) && s.Length == FIXED_SIZE && s != aud.buffer && Sendable(e)
    modifies aud`lastRead, aud`reported, aud`inbound, aud`incoming, aud`readScript
    modifies aud.q, aud.q.Repr, aud.async`watches, aud.async.nodes
    modifies aud`bufptr, aud`sent, aud`writeScript, aud`open, aud.buffer, s
    ensures aud.Sending(st0, ps0, k) && aud.QueueGrew() && aud.async.nodes == old(aud.async.nodes)
    ensures aud.open == old(aud.open) + b && Encodes(aud.big, e, b)
  {
    hide Lays, EncodesTail, AuServer.Sending, Encodes;
    FillFixed(aud.big, s, e);
    ghost var fixed, pad, tail := s[..], [], [];
    pad, k := aud.SendMore(s[..], st0, ps0, k0);
    if HasActions(e) {
      tail, k := WriteActions(aud, e, st0, ps0, k);
    } else if e.Bundle? {
      tail, k := WriteTracks(aud, e, st0, ps0, k);
    } else if e.Sum? {
      tail, k := WriteShorts(aud, e, st0, ps0, k);
    } else {
      NoEntries(aud.big, e);
      assert aud.open + tail == aud.open;
    }
    b := fixed + tail;
    AppendAssociative(old(aud.open), fixed, tail);
    PartsEncoded(aud.big, e, fixed, tail);
  }

  lemma NoEntries(big: bool, e: Element)
    requires Entries(e) == 0
    ensures EncodesTail(big, e, [])
  {
  }

  lemma PartsEncoded(big: bool, e: Element, fixed: seq<byte>, tail: seq<byte>)
    requires Sendable(e) && |fixed| == FIXED_SIZE && Lays(big, fixed, Fields(e)) && EncodesTail(big, e, tail)
    ensures Encodes(big, e, fixed + tail)
  {
    hide Lays;
    assert (fixed + tail)[..FIXED_SIZE] == fixed && (fixed + tail)[FIXED_SIZE..] == tail;
  }

  // The whole request -------------------------------------------------------------------------

  /** An element as a program passes it: one the library knows, or one whose type it does not. */
  datatype Given = Good(e: Element) | Bad(kind: u16)

  const SUCCESS: byte := 0
  const BAD_ELEMENT: byte := 6

  function TotalSize(es: seq<Element>): (n: nat)
  {
    if es == [] then 0 else TotalSize(es[..|es| - 1]) + WireSize(es[|es| - 1])
  }

  /** A SetElements request for the elements `es` of a flow. */
  ghost predicate IsSetElements(big: bool, r: Request, flow: u32, clocked: byte, es: seq<Element>)
  {
    |r| >= 12 && r[0] == SET_ELEMENTS && r[1] == clocked && r[4..8] == Put32(big, flow) &&
    (|es| < 0x1_0000_0000 && r[8..12] == Put32(big, |es|)) && EncodesAll(big, es, r[12..])
  }

  /** The first pass of `AuSetElements`: the size of the variable parts, or failure at an unknown type. */
  method MeasureElements(given: seq<Given>) returns (ok: bool, varLen: nat, es: seq<Element>)
    ensures ok <==> forall i :: 0 <= i < |given| ==> given[i].Good?
    ensures ok ==> |es| == |given| && forall i :: 0 <= i < |given| ==> given[i] == Good(es[i])
    ensures ok ==> FIXED_SIZE * |es| + varLen == TotalSize(es)
  {
    varLen, es := 0, [];
    for i := 0 to |given|
      invariant |es| == i && forall j :: 0 <= j < i ==> given[j] == Good(es[j])
      invariant FIXED_SIZE * i + varLen == TotalSize(es)
    {
      if given[i].Bad? {
        return false, 0, [];
      }
      varLen := varLen + TailSize(given[i].e);
      es := es + [given[i].e];
      assert es[..i] == es[..|es| - 1];
    }
    ok := true;
  }

  lemma EncodesAllAppend(big: bool, es: seq<Element>, b: seq<byte>, e: Element, c: seq<byte>)
    requires EncodesAll(big, es, b) && Encodes(big, e, c)
    ensures EncodesAll(big, es + [e], b + c) && |c| == WireSize(e)
    decreases |es|
  {
    hide Encodes;
    assert |c| == WireSize(e) by { EncodedSize(big, e, c); }
    if es == [] {
      assert b + c == c && es + [e] == [e] && [e][1..] == [] && c[WireSize(e)..] == [] && c[..WireSize(e)] == c;
    } else {
      var n := WireSize(es[0]);
      assert (es + [e])[0] == es[0] && (es + [e])[1..] == es[1..] + [e];
      assert (b + c)[..n] == b[..n] && (b + c)[n..] == b[n..] + c;
      EncodesAllAppend(big, es[1..], b[n..], e, c);
    }
  }

  lemma EncodedSize(big: bool, e: Element, b: seq<byte>)
    requires Encodes(big, e, b)
    ensures |b| == WireSize(e)
  {
  }

  lemma {:induction false} EncodedTotal(big: bool, es: seq<Element>, b: seq<byte>)
    requires EncodesAll(big, es, b)
    ensures |b| == TotalSize(es)
    decreases |es|
  {
    if es != [] {
      EncodedTotal(big, es[1..], b[WireSize(es[0])..]);
      TotalSizeFirst(es);
    }
  }

  lemma {:induction false} TotalSizeFirst(es: seq<Element>)
    requires es != []
    ensures TotalSize(es) == WireSize(es[0]) + TotalSize(es[1..])
    decreases |es|
  {
    if |es| > 1 {
      var init := es[..|es| - 1];
      TotalSizeFirst(init);
      assert init[1..] == es[1..][..|es| - 2];
    }
  }

  /** The 16-bit length field is right exactly when the request is shorter than 262144 bytes. */
  lemma LengthFieldFits(es: seq<Element>)
    ensures (12 + TotalSize(es)) % 4 == 0
    ensures 4 * ((12 + TotalSize(es)) / 4 % 0x1_0000) == 12 + TotalSize(es) <==> 12 + TotalSize(es) < 0x4_0000
  {
    TotalSizeAligned(es);
  }

  lemma {:induction false} TotalSizeAligned(es: seq<Element>)
    ensures TotalSize(es) % 4 == 0
  {
    hide WireSize;
    if es != [] {
      TotalSizeAligned(es[..|es| - 1]);
      assert WireSize(es[|es| - 1]) % 4 == 0 by { WireSizeAligned(es[|es| - 1]); }
    }
  }

  lemma WireSizeAligned(e: Element)
    ensures WireSize(e) % 4 == 0
  {
    hide TypeCode, EntryAt, Entries, Pad4;
    assert TailSize(e) % 4 == 0;
  }

  /** The header of a SetElements request for elements that take `size` bytes. */
  ghost predicate IsHeader(big: bool, h: seq<byte>, flow: u32, clocked: byte, n: nat, size: nat)
  {
    |h| == 12 && h[0] == SET_ELEMENTS && h[1] == clocked && h[2..4] == Put16(big, (12 + size) / 4 % 0x1_0000) &&
    h[4..8] == Put32(big, flow) && h[8..12] == Put32(big, n % 0x1_0000_0000)
  }

  method StartSetElements(aud: AuServer, flow: u32, clocked: byte, n: nat, varLen: nat) returns (ghost k: nat)
    requires aud.InValid() && aud.OutValid() && aud.open == [] && aud.request + 1 < SERIAL_LIMIT
    modifies aud`lastRead, aud`reported, aud`inbound, aud`incoming, aud`readScript
    modifies aud.q, aud.q.Repr, aud.async`watches, aud.async.nodes
    modifies aud`bufptr, aud`sent, aud`writeScript, aud`request, aud`open, aud.buffer
    ensures aud.InValid() && aud.OutValid() && aud.QueueGrew() && aud.request == old(aud.request) + 1
    ensures Advanced(aud.big, old(aud.Abs()), old(aud.incoming), k, aud.Abs().(request := old(aud.request)),
                     aud.incoming)
    ensures IsHeader(aud.big, aud.open, flow, clocked, n, FIXED_SIZE * n + varLen)
  {
    hide Q.EventQueue.Valid, ErrorWatches.WatchList.Valid, Run, Concat, AuServer.OutValid, AuServer.CoreValid, Put16,
         Put32, Filled;
    hide Advanced, AuServer.Drafting, IsHeader;
    var at;
    at, k := aud.GetReq(SET_ELEMENTS, 12);
    ghost var h0 := aud.open;
    aud.SetField(at, 4, Put32(aud.big, flow));
    aud.SetField(at, 1, [clocked]);
    aud.SetField(at, 8, Put32(aud.big, n % 0x1_0000_0000));
    aud.SetField(at, 2, Put16(aud.big, (12 + FIXED_SIZE * n + varLen) / 4 % 0x1_0000));
    HeaderFilled(aud.big, h0, flow, clocked, n, FIXED_SIZE * n + varLen);
  }

  lemma HeaderFilled(big: bool, h0: seq<byte>, flow: u32, clocked: byte, n: nat, size: nat)
    requires |h0| == 12 && h0[0] == SET_ELEMENTS
    ensures var h := Filled(Filled(Filled(Filled(h0, 4, Put32(big, flow)), 1, [clocked]), 8,
                                   Put32(big, n % 0x1_0000_0000)), 2, Put16(big, (12 + size) / 4 % 0x1_0000));
            IsHeader(big, h, flow, clocked, n, size)
  {
    hide Put16, Put32, Filled;
    var f, c, l := Put32(big, flow), Put32(big, n % 0x1_0000_0000), Put16(big, (12 + size) / 4 % 0x1_0000);
    var h1 := Filled(h0, 4, f);
    FilledApart(h0, 4, f, 0, 1);
    var h2 := Filled(h1, 1, [clocked]);
    FilledApart(h1, 1, [clocked], 0, 1);
    FilledApart(h1, 1, [clocked], 4, 8);
    var h3 := Filled(h2, 8, c);
    FilledApart(h2, 8, c, 0, 1);
    FilledApart(h2, 8, c, 1, 2);
    FilledApart(h2, 8, c, 4, 8);
    var h4 := Filled(h3, 2, l);
    FilledApart(h3, 2, l, 0, 1);
    FilledApart(h3, 2, l, 1, 2);
    FilledApart(h3, 2, l, 4, 8);
    FilledApart(h3, 2, l, 8, 12);
    assert h4[0] == h4[0..1][0] == h3[0..1][0] == h2[0..1][0] == h1[0..1][0] == h0[0..1][0];
    assert h4[1] == h4[1..2][0] == h3[1..2][0] == h2[1..2][0] == clocked;
  }

  function GoodElements(given: seq<Given>): (es: seq<Element>)
    requires forall i :: 0 <= i < |given| ==> given[i].Good?
    ensures |es| == |given| && forall i :: 0 <= i < |given| ==> given[i] == Good(es[i])
  {
    seq(|given|, i requires 0 <= i < |given| => given[i].e)
  }

  predicate AllGood(given: seq<Given>)
  {
    forall i :: 0 <= i < |given| ==> given[i].Good?
  }

  /**
   * `AuSetElements` without the optional round trip. An unknown element type fails before anything
   * is sent; otherwise exactly one well-framed request goes out, and it encodes the elements. `mid`
   * is the state after flushing for room, when `k` packets had been handled; `n` more came later.
   */
  method SetElements(aud: AuServer, flow: u32, clocked: byte, given: seq<Given>)
    returns (status: byte, ghost k: nat, ghost mid: State, ghost midStream: seq<Packet>, ghost n: nat)
    requires aud.InValid() && aud.OutValid() && aud.open == [] && aud.request + 1 < SERIAL_LIMIT
    requires AllGood(given) ==>
               12 + TotalSize(GoodElements(given)) < 0x4_0000 && forall e <- GoodElements(given) :: Sendable(e)
    modifies aud`lastRead, aud`reported, aud`inbound, aud`incoming, aud`readScript
    modifies aud.q, aud.q.Repr, aud.async`watches, aud.async.nodes
    modifies aud`bufptr, aud`sent, aud`writeScript, aud`request, aud`open, aud`issued, aud.buffer
    ensures aud.InValid() && aud.OutValid() && aud.open == []
    ensures status == if AllGood(given) then SUCCESS else BAD_ELEMENT
    ensures status == BAD_ELEMENT ==>
              aud.Abs() == old(aud.Abs()) && aud.issued == old(aud.issued) && aud.sent == old(aud.sent)
    ensures status == SUCCESS ==>
              |aud.issued| == |old(aud.issued)| + 1 && aud.issued[..|old(aud.issued)|] == old(aud.issued) &&
              IsSetElements(aud.big, aud.issued[|old(aud.issued)|], flow, clocked, GoodElements(given))
    ensures status == SUCCESS ==>
              WfStream(aud.big, midStream) &&
              Advanced(aud.big, old(aud.Abs()), old(aud.incoming), k, mid.(request := old(aud.request)), midStream) &&
              Advanced(aud.big, mid, midStream, n, aud.Abs(), aud.incoming)
  {
    hide EncodesAll, AuServer.Sending, IsHeader, IsSetElements, TotalSize, Sendable, AuServer.OutValid,
         AuServer.InValid, Advanced;
    k, n, mid, midStream := 0, 0, aud.Abs(), [];
    var ok, varLen, es := MeasureElements(given);
    if !ok {
      return BAD_ELEMENT, k, mid, midStream, n;
    }
    assert es == GoodElements(given);
    k := StartSetElements(aud, flow, clocked, |es|, varLen);
    mid, midStream := aud.Abs(), aud.incoming;
    ghost var header, body := aud.open, [];
    HeaderSize(aud.big, header, flow, clocked, |es|, FIXED_SIZE * |es| + varLen);
    n := StartSending(aud, mid, midStream);
    body, n := WriteRecords(aud, es, mid, midStream, n);
    RequestComplete(aud.big, header, body, flow, clocked, es);
    EndSending(aud, mid, midStream, n);
    status := SUCCESS;
  }

  /** The second pass of `AuSetElements`: sends every element through the same structure. */
  method WriteRecords(aud: AuServer, es: seq<Element>, ghost st0: State, ghost ps0: seq<Packet>, ghost k0: nat)
    returns (ghost body: seq<byte>, ghost k: nat)
    requires aud.Sending(st0, ps0, k0) && forall e <- es :: Sendable(e)
    modifies aud`lastRead, aud`reported, aud`inbound, aud`incoming, aud`readScript
    modifies aud.q, aud.q.Repr, aud.async`watches, aud.async.nodes
    modifies aud`bufptr, aud`sent, aud`writeScript, aud`open, aud.buffer
    ensures aud.Sending(st0, ps0, k) && aud.QueueGrew() && aud.async.nodes == old(aud.async.nodes)
    ensures aud.open == old(aud.open) + body && EncodesAll(aud.big, es, body)
  {
    hide Encodes, EncodesAll, AuServer.Sending, Sendable;
    body, k := [], k0;
    var s := new byte[FIXED_SIZE];
    var i := 0;
    NothingEncoded(aud.big);
    while i < |es|
      invariant 0 <= i <= |es| && aud.Sending(st0, ps0, k)
      invariant aud.QueueGrew() && aud.async.nodes == old(aud.async.nodes)
      invariant aud.open == old(aud.open) + body && EncodesAll(aud.big, es[..i], body)
    {
      ghost var b;
      b, k := WriteRecord(aud, s, es[i], st0, ps0, k);
      EncodesAllAppend(aud.big, es[..i], body, es[i], b);
      assert es[..i] + [es[i]] == es[..i + 1];
      AppendAssociative(old(aud.open), body, b);
      body := body + b;
      i := i + 1;
    }
    assert es[..|es|] == es;
  }

  lemma HeaderSize(big: bool, h: seq<byte>, flow: u32, clocked: byte, n: nat, size: nat)
    requires IsHeader(big, h, flow, clocked, n, size)
    ensures |h| == 12
  {
  }

  lemma NothingEncoded(big: bool)
    ensures EncodesAll(big, [], [])
  {
  }

  lemma RequestComplete(big: bool, header: seq<byte>, body: seq<byte>, flow: u32, clocked: byte, es: seq<Element>)
    requires IsHeader(big, header, flow, clocked, |es|, TotalSize(es)) && EncodesAll(big, es, body)
    requires 12 + TotalSize(es) < 0x4_0000
    ensures WfRequest(big, header + body) && IsSetElements(big, header + body, flow, clocked, es)
  {
    hide EncodesAll, Put16, Get16, Put32, TotalSize, WfRequest;
    HeaderKept(header, body);
    CountFits(es);
    EncodedTotal(big, es, body);
    assert IsSetElements(big, header + body, flow, clocked, es);
    assert WfRequest(big, header + body) by {
      LengthFieldFits(es);
      FramedRight(big, header + body, 12 + TotalSize(es));
    }
  }

  lemma HeaderKept(header: seq<byte>, body: seq<byte>)
    requires |header| == 12
    ensures var r := header + body;
            r[0] == header[0] && r[1] == header[1] && r[2..4] == header[2..4] && r[4..8] == header[4..8] &&
            r[8..12] == header[8..12] && r[12..] == body
  {
  }

  lemma FramedRight(big: bool, r: seq<byte>, total: nat)
    requires |r| == total && total % 4 == 0 && 4 <= total < 0x4_0000
    requires r[2..4] == Put16(big, total / 4 % 0x1_0000)
    ensures WfRequest(big, r)
  {
    hide Put16, Get16;
    var length := total / 4;
    assert length % 0x1_0000 == length && 4 * length == total;
    WordRoundTrip(big, length, 0);
  }

  lemma {:induction false} CountFits(es: seq<Element>)
    ensures |es| * FIXED_SIZE <= TotalSize(es)
  {
    if es != [] {
      CountFits(es[..|es| - 1]);
    }
  }

  ghost method StartSending(aud: AuServer, st: State, ps: seq<Packet>) returns (k: nat)
    requires aud.InValid() && aud.OutValid() && aud.open != [] && st == aud.Abs() && ps == aud.incoming
    ensures aud.Sending(st, ps, k)
  {
    hide Run;
    NothingHandled(aud.big, st, ps);
    k := 0;
  }

  ghost method EndSending(aud: AuServer, st: State, ps: seq<Packet>, k: nat)
    requires aud.Sending(st, ps, k) && WfRequest(aud.big, aud.open)
    modifies aud`open, aud`issued
    ensures aud.InValid() && aud.OutValid() && aud.open == [] && aud.issued == old(aud.issued) + [old(aud.open)]
    ensures WfStream(aud.big, ps) && Advanced(aud.big, st, ps, k, aud.Abs(), aud.incoming)
  {
    hide Q.EventQueue.Valid, Run, Concat;
    aud.Finish();
  }
}
