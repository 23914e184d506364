/** `AuGetElements`: reading the elements of a flow back from the server. */
module ElementReader {
  import opened Bytes
  import opened Packets
  import opened Engine
  import opened Answers
  import opened Replies
  import opened Requests
  import opened Sequences
  import opened Elements
  import opened ElementCodec
  import opened Client
  import ErrorWatches
  import Q = EventQueue

  // What the decoder makes of bytes ------------------------------------------------------------

  function DecodeActions(big: bool, b: seq<byte>, n: nat): (actions: seq<Action>)
    requires 12 * n <= |b|
    ensures |actions| == n
  {
    seq(n, j requires 0 <= j < n => DecodeAction(big, b[12 * j..12 * j + 12]))
  }

  function DecodeTracks(b: seq<byte>, n: nat): (tracks: seq<Track>)
    requires 4 * n <= |b|
    ensures |tracks| == n
  {
    seq(n, j requires 0 <= j < n => Track(b[4 * j], b[4 * j + 1]))
  }

  function DecodeShorts(big: bool, b: seq<byte>, n: nat): (xs: seq<u16>)
    requires 2 * n <= |b|
    ensures |xs| == n
  {
    seq(n, j requires 0 <= j < n => Get16(big, b[2 * j..2 * j + 2]))
  }

  /** The size of an element, fixed part and variable part, if its type is known. */
  function SizeOf(h: Head): (n: nat)
  {
    match h
    case Head(shell, entries) => FIXED_SIZE + Pad4(EntryAt(TypeCode(shell), if HasEntries(shell) then entries else 0))
    case Unknown => FIXED_SIZE
  }

  predicate HasEntries(e: Element)
  {
    HasActions(e) || e.Bundle? || e.Sum?
  }

  /** The element that starts at the front of `b`; only its type is kept if the decoder does not know it. */
  function Decode(big: bool, b: seq<byte>): (g: Given)
    requires |b| >= FIXED_SIZE && SizeOf(DecodeHead(big, b[..FIXED_SIZE])) <= |b|
  {
    match DecodeHead(big, b[..FIXED_SIZE])
    case Head(shell, n) =>
      var tail := b[FIXED_SIZE..];
      if HasActions(shell) then Good(WithActions(shell, DecodeActions(big, tail, n)))
      else if shell.Bundle? then Good(Bundle(DecodeTracks(tail, n)))
      else if shell.Sum? then Good(Sum(DecodeShorts(big, tail, n)))
      else Good(shell)
    case Unknown => Bad(Get16(big, b[0..2]))
  }

  /** Decoding an encoding, whatever follows it, gives back the element and its exact size. */
  lemma DecodeInvertsEncode(big: bool, e: Element, b: seq<byte>, rest: seq<byte>)
    requires Encodes(big, e, b)
    ensures |b| == SizeOf(DecodeHead(big, (b + rest)[..FIXED_SIZE]))
    ensures Decode(big, b + rest) == Good(Received(e))
    ensures DecodeHead(big, (b + rest)[..FIXED_SIZE]) == Head(Shell(e), Entries(e))
  {
    hide Lays, DecodeHead, DecodeAction;
    assert (b + rest)[..FIXED_SIZE] == b[..FIXED_SIZE];
    assert (b + rest)[FIXED_SIZE..] == b[FIXED_SIZE..] + rest;
    HeadDecodes(big, e, b[..FIXED_SIZE]);
    TailDecodes(big, e, b[FIXED_SIZE..], rest);
  }

  /** Every element comes back as it was, except a wave form whose number does not fit one byte. */
  lemma ComesBackSame(big: bool, e: Element, b: seq<byte>, rest: seq<byte>)
    requires Encodes(big, e, b)
    ensures |b| == SizeOf(DecodeHead(big, (b + rest)[..FIXED_SIZE]))
    ensures Decode(big, b + rest) == Good(e) <==> (e.ImportWaveForm? ==> e.waveForm < 0x100)
  {
    hide DecodeHead, Decode, Encodes;
    DecodeInvertsEncode(big, e, b, rest);
    if e.ImportWaveForm? {
      assert e.(waveForm := e.waveForm % 0x100).waveForm == e.waveForm % 0x100;
    }
  }

  lemma TailDecodes(big: bool, e: Element, b: seq<byte>, rest: seq<byte>)
    requires EncodesTail(big, e, b)
    ensures |b| >= EntryAt(TypeCode(e), Entries(e))
    ensures HasActions(e) ==> DecodeActions(big, b + rest, |e.actions|) == e.actions
    ensures e.Bundle? ==> DecodeTracks(b + rest, |e.tracks|) == e.tracks
    ensures e.Sum? ==> DecodeShorts(big, b + rest, |e.inputs|) == e.inputs
  {
    hide Lays, DecodeAction, EntryFields, DecodeActions, DecodeTracks, DecodeShorts;
    if HasActions(e) {
      ActionsDecode(big, e, b, rest);
    } else if e.Bundle? {
      TracksDecode(big, e, b, rest);
    } else if e.Sum? {
      ShortsDecode(big, e, b, rest);
    }
  }

  lemma ActionsDecode(big: bool, e: Element, b: seq<byte>, rest: seq<byte>)
    requires EncodesTail(big, e, b) && HasActions(e)
    ensures 12 * |e.actions| <= |b| && DecodeActions(big, b + rest, |e.actions|) == e.actions
  {
    hide Lays, DecodeAction, EntryFields;
    forall j | 0 <= j < |e.actions|
      ensures DecodeAction(big, (b + rest)[12 * j..12 * j + 12]) == e.actions[j]
    {
      assert (b + rest)[12 * j..12 * j + 12] == EntryOf(e, b, j);
      EntryDecodes(big, e, j, EntryOf(e, b, j));
    }
  }

  lemma TracksDecode(big: bool, e: Element, b: seq<byte>, rest: seq<byte>)
    requires EncodesTail(big, e, b) && e.Bundle?
    ensures 4 * |e.tracks| <= |b| && DecodeTracks(b + rest, |e.tracks|) == e.tracks
  {
    hide Lays, EntryFields;
    forall j | 0 <= j < |e.tracks|
      ensures Track((b + rest)[4 * j], (b + rest)[4 * j + 1]) == e.tracks[j]
    {
      var entry := EntryOf(e, b, j);
      assert entry[0] == (b + rest)[4 * j] && entry[1] == (b + rest)[4 * j + 1];
      EntryDecodes(big, e, j, entry);
    }
  }

  lemma ShortsDecode(big: bool, e: Element, b: seq<byte>, rest: seq<byte>)
    requires EncodesTail(big, e, b) && e.Sum?
    ensures 2 * |e.inputs| <= |b| && DecodeShorts(big, b + rest, |e.inputs|) == e.inputs
  {
    hide Lays, Get16, EntryFields;
    forall j | 0 <= j < |e.inputs|
      ensures Get16(big, (b + rest)[2 * j..2 * j + 2]) == e.inputs[j]
    {
      assert (b + rest)[2 * j..2 * j + 2] == EntryOf(e, b, j);
      EntryDecodes(big, e, j, EntryOf(e, b, j));
    }
  }

  // Reading from the connection -----------------------------------------------------------------

  method ReadActions(aud: AuServer, n: nat) returns (actions: seq<Action>)
    requires 12 * n <= |aud.inbound|
    modifies aud`inbound, aud`readScript
    ensures actions == DecodeActions(aud.big, old(aud.inbound), n) && aud.inbound == old(aud.inbound)[12 * n..]
  {
    hide DecodeAction;
    actions := [];
    var a := new byte[12];
    ghost var data := aud.inbound;
    for j := 0 to n
      invariant aud.inbound == data[12 * j..] && actions == DecodeActions(aud.big, data, j)
    {
      aud.ReadWhole(a);
      SliceTwice(data, 12 * j, 12);
      assert a[..] == data[12 * j..12 * j + 12];
      actions := actions + [DecodeAction(aud.big, a[..])];
    }
  }

  method ReadTracks(aud: AuServer, n: nat) returns (tracks: seq<Track>)
    requires 4 * n <= |aud.inbound|
    modifies aud`inbound, aud`readScript
    ensures tracks == DecodeTracks(old(aud.inbound), n) && aud.inbound == old(aud.inbound)[4 * n..]
  {
    tracks := [];
    var t := new byte[4];
    ghost var data := aud.inbound;
    for j := 0 to n
      invariant aud.inbound == data[4 * j..] && tracks == DecodeTracks(data, j)
    {
      aud.ReadWhole(t);
      SliceTwice(data, 4 * j, 4);
      assert t[..] == data[4 * j..4 * j + 4];
      tracks := tracks + [Track(t[0], t[1])];
    }
  }

  /** The inputs of a sum are read at once into the array that keeps them. */
  method ReadShorts(aud: AuServer, n: nat) returns (xs: seq<u16>)
    requires Pad4(2 * n) <= |aud.inbound|
    modifies aud`inbound, aud`readScript
    ensures xs == DecodeShorts(aud.big, old(aud.inbound), n) && aud.inbound == old(aud.inbound)[Pad4(2 * n)..]
  {
    hide Get16;
    var b := new byte[2 * n];
    ghost var data := aud.inbound;
    aud.ReadWhole(b);
    var memory := b[..];
    forall j | 0 <= j < n
      ensures memory[2 * j..2 * j + 2] == data[2 * j..2 * j + 2]
    {
    }
    xs := DecodeShorts(aud.big, memory, n);
  }

  /** What becomes of elements that are read off the bytes the connection is going to deliver. */
  datatype Fetch =
    | Fetched(elements: seq<Given>, rest: seq<byte>)
    | NoMemory(rest: seq<byte>)           // a negative number of actions cannot be allocated
    | Starved                             // a read waits for bytes that never come

  /** The counts that are negative as an `int`. */
  predicate Negative(h: Head)
  {
    h.Head? && HasActions(h.shell) && h.entries >= 0x8000_0000
  }

  function FetchOne(big: bool, wire: seq<byte>): (f: Fetch)
    ensures !f.Starved? ==> |f.rest| + FIXED_SIZE <= |wire|
  {
    if |wire| < FIXED_SIZE then Starved
    else
      var h := DecodeHead(big, wire[..FIXED_SIZE]);
      if Negative(h) then NoMemory(wire[FIXED_SIZE..])
      else if |wire| < SizeOf(h) then Starved
      else Fetched([Decode(big, wire)], wire[SizeOf(h)..])
  }

  function Prepend(gs: seq<Given>, f: Fetch): (r: Fetch)
  {
    match f case Fetched(more, rest) => Fetched(gs + more, rest) case _ => f
  }

  /** Element after element, up to the first that cannot be had. */
  function FetchAll(big: bool, wire: seq<byte>, n: nat): (f: Fetch)
    ensures n > 0 && !f.Starved? ==> |f.rest| + FIXED_SIZE <= |wire|
    decreases n
  {
    if n == 0 then Fetched([], wire)
    else
      match FetchOne(big, wire)
      case Fetched(g, rest) =>
        assert n > 1 ==> var f := FetchAll(big, rest, n - 1); !f.Starved? ==> |f.rest| + FIXED_SIZE <= |rest|;
        Prepend(g, FetchAll(big, rest, n - 1))
      case failed => failed
  }

  /** One turn of the loop of `AuGetElements`. */
  method ReadElement(aud: AuServer) returns (f: Fetch)
    modifies aud`inbound, aud`readScript
    ensures f == FetchOne(aud.big, old(aud.inbound))
    ensures !f.Starved? ==> aud.inbound == f.rest
  {
    hide DecodeHead, DecodeAction;
    if |aud.inbound| < FIXED_SIZE {
      return Starved;
    }
    var e := new byte[FIXED_SIZE];
    ghost var data := aud.inbound;
    aud.ReadWhole(e);
    var h := DecodeHead(aud.big, e[..]);
    if Negative(h) {
      return NoMemory(aud.inbound);
    }
    if FIXED_SIZE + |aud.inbound| < SizeOf(h) {
      return Starved;
    }
    var g := ReadVariable(aud, h, e, data);
    f := Fetched([g], aud.inbound);
  }

  /** The part of a turn that reads what follows the fixed part `e`. */
  method ReadVariable(aud: AuServer, h: Head, e: array<byte>, ghost data: seq<byte>) returns (g: Given)
    requires e.Length == FIXED_SIZE && |data| >= FIXED_SIZE && e[..] == data[..FIXED_SIZE] &&
             h == DecodeHead(aud.big, e[..])
    requires aud.inbound == data[FIXED_SIZE..] && SizeOf(h) <= |data|
    modifies aud`inbound, aud`readScript
    ensures g == Decode(aud.big, data) && aud.inbound == data[SizeOf(h)..]
  {
    hide DecodeHead, DecodeActions, DecodeTracks, DecodeShorts, Decode, SizeOf, Pad4, Get16;
    SizeParts(h);
    SliceTwice(data, FIXED_SIZE, SizeOf(h) - FIXED_SIZE);
    match h {
      case Head(shell, n) =>
        if HasActions(shell) {
          DecodesActions(aud.big, h, data);
          var actions := ReadActions(aud, n);
          g := Good(WithActions(shell, actions));
        } else if shell.Bundle? {
          DecodesTracks(aud.big, h, data);
          var tracks := ReadTracks(aud, n);
          g := Good(Bundle(tracks));
        } else if shell.Sum? {
          DecodesShorts(aud.big, h, data);
          var inputs := ReadShorts(aud, n);
          g := Good(Sum(inputs));
        } else {
          DecodesBare(aud.big, h, data);
          g := Good(shell);
        }
      case Unknown =>
        DecodesBare(aud.big, h, data);
        g := Bad(Get16(aud.big, e[..][0..2]));
    }
  }

  lemma SizeParts(h: Head)
    ensures h == Unknown ==> SizeOf(h) == FIXED_SIZE
    ensures h.Head? ==> SizeOf(h) == FIXED_SIZE + if HasActions(h.shell) then 12 * h.entries
                                                  else if h.shell.Bundle? then 4 * h.entries
                                                  else if h.shell.Sum? then Pad4(2 * h.entries)
                                                  else 0
  {
    hide Pad4;
    if h.Head? {
      PadWhole(3 * h.entries);
      PadWhole(h.entries);
      PadWhole(0);
    }
  }

  lemma PadWhole(n: nat)
    ensures Pad4(4 * n) == 4 * n
  {
  }

  lemma DecodesActions(big: bool, h: Head, data: seq<byte>)
    requires |data| >= FIXED_SIZE && h == DecodeHead(big, data[..FIXED_SIZE]) && SizeOf(h) <= |data|
    requires h.Head? && HasActions(h.shell)
    ensures FIXED_SIZE + 12 * h.entries <= |data|
    ensures Decode(big, data) == Good(WithActions(h.shell, DecodeActions(big, data[FIXED_SIZE..], h.entries)))
  {
    hide DecodeHead, DecodeActions, SizeOf, Pad4;
    SizeParts(h);
  }

  lemma DecodesTracks(big: bool, h: Head, data: seq<byte>)
    requires |data| >= FIXED_SIZE && h == DecodeHead(big, data[..FIXED_SIZE]) && SizeOf(h) <= |data|
    requires h.Head? && h.shell.Bundle?
    ensures FIXED_SIZE + 4 * h.entries <= |data|
    ensures Decode(big, data) == Good(Bundle(DecodeTracks(data[FIXED_SIZE..], h.entries)))
  {
    hide DecodeHead, DecodeTracks, SizeOf, Pad4;
    SizeParts(h);
  }

  lemma DecodesShorts(big: bool, h: Head, data: seq<byte>)
    requires |data| >= FIXED_SIZE && h == DecodeHead(big, data[..FIXED_SIZE]) && SizeOf(h) <= |data|
    requires h.Head? && h.shell.Sum?
    ensures FIXED_SIZE + Pad4(2 * h.entries) <= |data|
    ensures Decode(big, data) == Good(Sum(DecodeShorts(big, data[FIXED_SIZE..], h.entries)))
  {
    hide DecodeHead, DecodeShorts, SizeOf, Pad4;
    SizeParts(h);
  }

  lemma DecodesBare(big: bool, h: Head, data: seq<byte>)
    requires |data| >= FIXED_SIZE && h == DecodeHead(big, data[..FIXED_SIZE]) && SizeOf(h) <= |data|
    requires h.Head? ==> !HasEntries(h.shell)
    ensures Decode(big, data) == if h.Head? then Good(h.shell) else Bad(Get16(big, data[..FIXED_SIZE][0..2]))
  {
    hide DecodeHead, Get16;
    assert data[..FIXED_SIZE][0..2] == data[0..2];
  }

  /** The loop of `AuGetElements`, whatever the connection delivers. */
  method ReadElements(aud: AuServer, n: nat) returns (f: Fetch)
    modifies aud`inbound, aud`readScript
    ensures f == FetchAll(aud.big, old(aud.inbound), n)
    ensures !f.Starved? ==> aud.inbound == f.rest
  {
    hide FetchOne, FetchAll, Prepend;
    f := Fetched([], aud.inbound);
    FetchNone(aud.big, [], aud.inbound, n);
    for i := 0 to n
      invariant f.Fetched? && f.rest == aud.inbound
      invariant FetchAll(aud.big, old(aud.inbound), n) == Prepend(f.elements, FetchAll(aud.big, aud.inbound, n - i))
    {
      FetchStep(aud.big, f.elements, aud.inbound, n - i);
      var one := ReadElement(aud);
      if !one.Fetched? {
        return one;
      }
      f := Fetched(f.elements + one.elements, one.rest);
    }
    FetchNone(aud.big, f.elements, aud.inbound, 0);
  }

  lemma FetchNone(big: bool, gs: seq<Given>, wire: seq<byte>, n: nat)
    ensures FetchAll(big, wire, n) == Prepend([], FetchAll(big, wire, n))
    ensures Prepend(gs, FetchAll(big, wire, 0)) == Fetched(gs, wire)
  {
    assert gs + [] == gs;
    var f := FetchAll(big, wire, n);
    assert f.Fetched? ==> [] + f.elements == f.elements;
  }

  lemma FetchStep(big: bool, gs: seq<Given>, wire: seq<byte>, n: nat)
    requires n > 0
    ensures var one := FetchOne(big, wire);
            Prepend(gs, FetchAll(big, wire, n)) ==
            if one.Fetched? then Prepend(gs + one.elements, FetchAll(big, one.rest, n - 1)) else one
  {
    hide FetchOne;
    var one := FetchOne(big, wire);
    if one.Fetched? {
      var f := FetchAll(big, one.rest, n - 1);
      if f.Fetched? {
        AppendAssociative(gs, one.elements, f.elements);
      }
    }
  }

  /** The elements as they come back. */
  function Returned(es: seq<Element>): (gs: seq<Given>)
    ensures |gs| == |es|
  {
    seq(|es|, i requires 0 <= i < |es| => Good(Received(es[i])))
  }

  /** What a server sends for the elements `es` is read back as these, and only that is taken. */
  lemma {:induction false} EncodedComeBack(big: bool, es: seq<Element>, body: seq<byte>, rest: seq<byte>)
    requires EncodesAll(big, es, body)
    ensures FetchAll(big, body + rest, |es|) == Fetched(Returned(es), rest)
    decreases |es|
  {
    hide Encodes, EncodesAll, FetchOne, FetchAll, Returned, WireSize, Received;
    if es == [] {
      NothingFetched(big, es, body, rest);
    } else {
      var size := WireSize(es[0]);
      FirstEncoded(big, es, body);
      SplitAppend(body, rest, size);
      FetchEncoded(big, es[0], body[..size], body[size..] + rest);
      EncodedComeBack(big, es[1..], body[size..], rest);
      FetchNext(big, body + rest, [Good(Received(es[0]))], body[size..] + rest, Returned(es[1..]), rest, |es|);
      ReturnedFirst(es);
    }
  }

  lemma NothingFetched(big: bool, es: seq<Element>, body: seq<byte>, rest: seq<byte>)
    requires es == [] && EncodesAll(big, es, body)
    ensures FetchAll(big, body + rest, |es|) == Fetched(Returned(es), rest)
  {
    assert body + rest == rest;
  }

  lemma ReturnedFirst(es: seq<Element>)
    requires es != []
    ensures Returned(es) == [Good(Received(es[0]))] + Returned(es[1..])
  {
    hide Received;
  }

  lemma FetchNext(big: bool, wire: seq<byte>, g: seq<Given>, wire': seq<byte>, gs: seq<Given>, rest: seq<byte>, n: nat)
    requires n > 0 && FetchOne(big, wire) == Fetched(g, wire') && FetchAll(big, wire', n - 1) == Fetched(gs, rest)
    ensures FetchAll(big, wire, n) == Fetched(g + gs, rest)
  {
    hide FetchOne;
  }

  lemma FirstEncoded(big: bool, es: seq<Element>, body: seq<byte>)
    requires es != [] && EncodesAll(big, es, body)
    ensures var size := WireSize(es[0]);
            size <= |body| && Encodes(big, es[0], body[..size]) && EncodesAll(big, es[1..], body[size..])
  {
  }

  lemma FetchEncoded(big: bool, e: Element, b: seq<byte>, rest: seq<byte>)
    requires Encodes(big, e, b)
    ensures FetchOne(big, b + rest) == Fetched([Good(Received(e))], rest)
  {
    hide DecodeHead, Decode, Received;
    DecodeInvertsEncode(big, e, b, rest);
    EncodedSize(big, e, b);
    ShellAlike(big, e, b);
    assert (b + rest)[|b|..] == rest;
  }

  lemma ShellAlike(big: bool, e: Element, b: seq<byte>)
    requires Encodes(big, e, b)
    ensures !Negative(Head(Shell(e), Entries(e))) && |b| >= FIXED_SIZE
  {
  }

  // The whole call -------------------------------------------------------------------------------

  const GET_ELEMENTS: byte := 18

  /** The reply that describes a flow with the elements `es`. */
  ghost predicate IsElementsReply(big: bool, p: Packet, clocked: byte, es: seq<Element>)
  {
    |p| >= HEADER && IsReply(p) && p[1] == clocked && |es| < 0x1_0000_0000 && Get32(big, p[12..16]) == |es| &&
    EncodesAll(big, es, p[HEADER..])
  }

  /** `_AuGetResReq`: a request for a resource. */
  method GetResReq(aud: AuServer, reqType: byte, id: u32) returns (ghost k: nat)
    requires aud.InValid() && aud.OutValid() && aud.open == [] && aud.request + 1 < SERIAL_LIMIT
    modifies aud`lastRead, aud`reported, aud`inbound, aud`incoming, aud`readScript
    modifies aud.q, aud.q.Repr, aud.async`watches, aud.async.nodes
    modifies aud`bufptr, aud`sent, aud`writeScript, aud`request, aud`open, aud`issued, aud.buffer
    ensures aud.InValid() && aud.QueueGrew() && aud.OutValid() && aud.request == old(aud.request) + 1 && aud.open == []
    ensures Advanced(aud.big, old(aud.Abs()), old(aud.incoming), k, aud.Abs().(request := old(aud.request)),
                     aud.incoming)
    ensures |aud.issued| == |old(aud.issued)| + 1 && aud.issued[..|old(aud.issued)|] == old(aud.issued)
    ensures var r := aud.issued[|old(aud.issued)|]; |r| == 8 && r[0] == reqType && r[4..8] == Put32(aud.big, id)
  {
    hide Q.EventQueue.Valid, ErrorWatches.WatchList.Valid, Run, Concat, Put16, Put32, Filled;
    var at;
    at, k := aud.GetReq(reqType, 8);
    WordRoundTrip(aud.big, 2, 0);
    ghost var h := aud.open;
    aud.SetField(at, 4, Put32(aud.big, id));
    FilledApart(h, 4, Put32(aud.big, id), 0, 1);
    FilledApart(h, 4, Put32(aud.big, id), 2, 4);
    assert aud.open[0] == aud.open[0..1][0] == h[0..1][0];
    aud.Finish();
  }

  /** What has been read of the packet that ended the wait, and what is left of it. */
  ghost predicate AnswerRead(p: Packet, rep: Packet, residue: seq<byte>)
  {
    |p| >= HEADER && rep == p[..HEADER] && residue == Body(p)
  }

  /** What a reply carries behind its header. */
  ghost function Body(p: Packet): (b: seq<byte>)
    requires |p| >= HEADER
  {
    if IsReply(p) then p[HEADER..] else []
  }

  lemma WholeAnswer(big: bool, p: Packet, outcome: Outcome, residue: seq<byte>)
    requires WfPacket(big, p) && Delivers(big, p, 0, false, outcome, residue)
    ensures outcome.Answered? || outcome.Refused?
    ensures !IsReply(p) ==> |p| == HEADER
    ensures AnswerRead(p, if outcome.Answered? then outcome.header else outcome.error, residue)
  {
  }

  /** Asks and waits. A reply's body is left on the connection; `rep` holds what was read, even an error. */
  method AskForElements(aud: AuServer, flow: u32, wantStatus: bool, answers: seq<byte>, ghost late: seq<Packet>,
                        ghost serials: seq<u32>, ghost a: nat)
    returns (rep: Packet, status: byte, ghost residue: seq<byte>, ghost k: nat, ghost e: nat)
    requires aud.InValid() && aud.OutValid() && aud.open == [] && aud.request + 1 < SERIAL_LIMIT
    requires answers == Concat(late) && WfStream(aud.big, late)
    requires AnswerArrives(aud.big, aud.Abs(), aud.incoming, late, serials, a)
    modifies aud, aud.q, aud.q.Repr, aud.async`watches, aud.async.nodes, aud.buffer
    ensures aud.CoreValid() && aud.OutValid() && aud.QueueGrew() && WfStream(aud.big, aud.incoming)
    ensures aud.inbound == residue + Concat(aud.incoming) && k <= |old(aud.incoming)| && e <= a
    ensures WaitEnded(aud.big, old(aud.Abs()), old(aud.incoming) + late, serials, k, e, wantStatus,
                      aud.Abs(), aud.incoming, status)
    ensures e < |old(aud.incoming) + late| && AnswerRead((old(aud.incoming) + late)[e], rep, residue)
  {
    hide Q.EventQueue.Valid, ErrorWatches.WatchList.Valid, Concat, WfPacket, Run;
    hide AnswerArrives, AuServer.OutValid, AuServer.CoreValid, Advanced, WaitEnded, AnswerRead, Delivers;
    ghost var st, early := aud.Abs(), aud.incoming;
    ghost var k0 := GetResReq(aud, GET_ELEMENTS, flow);
    var outcome;
    outcome, status, residue, k, e := AwaitAnswer(aud, 0, false, wantStatus, answers, st, early, k0, late, serials, a);
    WholeAnswer(aud.big, (early + late)[e], outcome, residue);
    rep := if outcome.Answered? then outcome.header else outcome.error;
  }

  /** What the call makes of the answer `p` when the packets behind it are `later`. */
  ghost function FetchFrom(big: bool, p: Packet, later: seq<Packet>): (f: Fetch)
    requires |p| >= HEADER
  {
    FetchAll(big, Body(p) + Concat(later), Get32(big, p[12..16]))
  }

  ghost predicate FetchedFrom(big: bool, p: Packet, later: seq<Packet>, clocked: byte, count: u32, f: Fetch)
  {
    |p| >= HEADER && clocked == p[1] && count == Get32(big, p[12..16]) && f == FetchFrom(big, p, later)
  }

  /**
   * `AuGetElements` against an in-order server, which answers with packet `a` of those unread and
   * those to come. The result of `_AuReply` is not looked at: the number of elements is taken from
   * packet `e`, which ended the wait, whatever it is, and that many are read off the connection. `k`
   * packets came too early to show in the status.
   */
  method GetElements(aud: AuServer, flow: u32, wantStatus: bool, answers: seq<byte>, ghost late: seq<Packet>,
                     ghost serials: seq<u32>, ghost a: nat)
    returns (clocked: byte, count: u32, f: Fetch, status: byte, ghost k: nat, ghost e: nat)
    requires aud.InValid() && aud.OutValid() && aud.open == [] && aud.request + 1 < SERIAL_LIMIT
    requires answers == Concat(late) && WfStream(aud.big, late)
    requires AnswerArrives(aud.big, aud.Abs(), aud.incoming, late, serials, a)
    modifies aud, aud.q, aud.q.Repr, aud.async`watches, aud.async.nodes, aud.buffer
    ensures aud.CoreValid() && aud.OutValid() && aud.QueueGrew() && k <= |old(aud.incoming)| && e <= a
    ensures WaitEnded(aud.big, old(aud.Abs()), old(aud.incoming) + late, serials, k, e, wantStatus,
                      aud.Abs(), aud.incoming, status)
    ensures e < |old(aud.incoming) + late| &&
            FetchedFrom(aud.big, (old(aud.incoming) + late)[e], aud.incoming, clocked, count, f)
    ensures !f.Starved? ==> aud.inbound == f.rest
  {
    hide Q.EventQueue.Valid, ErrorWatches.WatchList.Valid, Concat, AnswerArrives, WaitEnded, FetchAll, Body;
    hide AuServer.OutValid, AuServer.CoreValid;
    ghost var ps := aud.incoming + late;
    var rep;
    ghost var residue;
    rep, status, residue, k, e := AskForElements(aud, flow, wantStatus, answers, late, serials, a);
    assert rep[12..16] == ps[e][12..16];
    clocked, count := rep[1], Get32(aud.big, rep[12..16]);
    f := ReadElements(aud, count);
  }

  /**
   * A reply with elements gives these back. The call returns with exactly the packets up to the
   * answer taken off the connection if that is a reply, or an error whose minor code, major code and
   * padding are zero; after any other error it is out of step with the packets, or never returns.
   */
  lemma StaysInStep(big: bool, p: Packet, later: seq<Packet>, clock: byte, es: seq<Element>)
    requires WfPacket(big, p) && (IsError(p) || IsElementsReply(big, p, clock, es))
    ensures var f := FetchFrom(big, p, later);
            (!f.Starved? && f.rest == Concat(later) <==> IsReply(p) || p[12..16] == [0, 0, 0, 0]) &&
            (IsReply(p) ==> p[1] == clock && f == Fetched(Returned(es), Concat(later)))
  {
    hide Concat, EncodesAll, FetchOne;
    if IsReply(p) {
      EncodedComeBack(big, es, p[HEADER..], Concat(later));
    } else {
      NoCount(big, p[12..16]);
      assert [] + Concat(later) == Concat(later);
    }
  }

  lemma NoCount(big: bool, b: seq<byte>)
    requires |b| == 4
    ensures Get32(big, b) == 0 <==> b == [0, 0, 0, 0]
  {
  }

  /** The error that a server sends for an unknown flow: its major code makes up part of the count. */
  lemma ErrorLosesStep(big: bool, p: Packet, later: seq<Packet>)
    requires WfPacket(big, p) && IsError(p) && MajorCode(p) == GET_ELEMENTS
    ensures var f := FetchFrom(big, p, later); f.Starved? || f.rest != Concat(later)
  {
    hide FetchFrom;
    assert p[12..16][2] == GET_ELEMENTS;
    StaysInStep(big, p, later, 0, []);
  }
}
