/** Flow elements and how they are laid out on the wire, in either byte order. */
module Elements {
  import opened Bytes
  import opened Requests

  datatype Action = Action(flow: u32, elementNum: byte, triggerState: byte, triggerPrevState: byte,
                           triggerReason: byte, action: byte, newState: byte)

  datatype Track = Track(elementNum: byte, track: byte)

  /** The elements a program can put into a flow; parameters are 32-bit words, read as signed or not. */
  datatype Element =
    | ImportClient(sampleRate: u16, format: byte, numTracks: byte, discard: byte,
                   maxSamples: u32, lowWaterMark: u32, actions: seq<Action>)
    | ImportDevice(sampleRate: u16, device: u32, numSamples: u32, actions: seq<Action>)
    | ImportBucket(sampleRate: u16, bucket: u32, numSamples: u32, offset: u32, actions: seq<Action>)
    | ImportWaveForm(sampleRate: u16, waveForm: u32, frequency: u32, numSamples: u32, actions: seq<Action>)
    | Bundle(tracks: seq<Track>)
    | MultiplyConstant(input: u16, constant: u32)
    | AddConstant(input: u16, constant: u32)
    | Sum(inputs: seq<u16>)
    | ExportClient(sampleRate: u16, input: u16, format: byte, numTracks: byte, discard: byte,
                   maxSamples: u32, highWaterMark: u32, actions: seq<Action>)
    | ExportDevice(sampleRate: u16, input: u16, device: u32, numSamples: u32, actions: seq<Action>)
    | ExportBucket(input: u16, bucket: u32, numSamples: u32, offset: u32, actions: seq<Action>)
    | ExportMonitor(input: u16, eventRate: u16, format: byte, numTracks: byte)

  const FIXED_SIZE := 24

  /** Element type codes; 4 and 12, the radio elements, are not implemented. */
  function TypeCode(e: Element): (t: u16)
    ensures Supported(t)
  {
    match e
    case ImportClient(_, _, _, _, _, _, _) => 0
    case ImportDevice(_, _, _, _) => 1
    case ImportBucket(_, _, _, _, _) => 2
    case ImportWaveForm(_, _, _, _, _) => 3
    case Bundle(_) => 5
    case MultiplyConstant(_, _) => 6
    case AddConstant(_, _) => 7
    case Sum(_) => 8
    case ExportClient(_, _, _, _, _, _, _, _) => 9
    case ExportDevice(_, _, _, _, _) => 10
    case ExportBucket(_, _, _, _, _) => 11
    case ExportMonitor(_, _, _, _) => 13
  }

  predicate Supported(t: int)
  {
    0 <= t <= 13 && t != 4 && t != 12
  }

  /** A number stored in `width` bytes (1, 2 or 4) at `offset`. */
  datatype Field = Field(offset: nat, width: nat, value: u32)

  predicate WfField(f: Field, size: nat)
  {
    f.offset + f.width <= size &&
    ((f.width == 1 && f.value < 0x100) || (f.width == 2 && f.value < 0x1_0000) || f.width == 4)
  }

  function Put(big: bool, f: Field): (b: seq<byte>)
    requires WfField(f, f.offset + f.width)
    ensures |b| == f.width
  {
    if f.width == 1 then [f.value] else if f.width == 2 then Put16(big, f.value) else Put32(big, f.value)
  }

  /** The fields of the fixed part: the layouts of the `auElement` structures. */
  function Fields(e: Element): (fs: seq<Field>)
    requires Sendable(e)
  {
    match e
    case ImportClient(rate, format, tracks, discard, max, low, actions) =>
      [Field(0, 2, 0), Field(2, 2, rate), Field(4, 1, format), Field(5, 1, tracks), Field(6, 1, discard),
       Field(8, 4, max), Field(12, 4, low), Field(16, 4, |actions|)]
    case ImportDevice(rate, device, samples, actions) =>
      [Field(0, 2, 1), Field(2, 2, rate), Field(4, 4, samples), Field(8, 4, device), Field(12, 4, |actions|)]
    case ImportBucket(rate, bucket, samples, offset, actions) =>
      [Field(0, 2, 2), Field(2, 2, rate), Field(4, 4, samples), Field(8, 4, bucket), Field(12, 4, offset),
       Field(16, 4, |actions|)]
    case ImportWaveForm(rate, wave, frequency, samples, actions) =>
      [Field(0, 2, 3), Field(2, 2, rate), Field(4, 4, samples), Field(8, 1, wave % 0x100), Field(12, 4, frequency),
       Field(16, 4, |actions|)]
    case Bundle(tracks) => [Field(0, 2, 5), Field(2, 2, |tracks|)]
    case MultiplyConstant(input, constant) => [Field(0, 2, 6), Field(2, 2, input), Field(4, 4, constant)]
    case AddConstant(input, constant) => [Field(0, 2, 7), Field(2, 2, input), Field(4, 4, constant)]
    case Sum(inputs) => [Field(0, 2, 8), Field(2, 2, |inputs|)]
    case ExportClient(rate, input, format, tracks, discard, max, high, actions) =>
      [Field(0, 2, 9), Field(2, 2, rate), Field(4, 2, input), Field(8, 1, format), Field(9, 1, tracks),
       Field(10, 1, discard), Field(12, 4, max), Field(16, 4, high), Field(20, 4, |actions|)]
    case ExportDevice(rate, input, device, samples, actions) =>
      [Field(0, 2, 10), Field(2, 2, rate), Field(4, 2, input), Field(8, 4, samples), Field(12, 4, device),
       Field(16, 4, |actions|)]
    case ExportBucket(input, bucket, samples, offset, actions) =>
      [Field(0, 2, 11), Field(2, 2, input), Field(4, 4, samples), Field(8, 4, bucket), Field(12, 4, offset),
       Field(16, 4, |actions|)]
    case ExportMonitor(input, rate, format, tracks) =>
      [Field(0, 2, 13), Field(2, 2, rate), Field(4, 2, input), Field(8, 1, format), Field(9, 1, tracks)]
  }

  /** Counts fit the fields they are sent in. */
  predicate Sendable(e: Element)
  {
    (HasActions(e) ==> |e.actions| < 0x8000_0000) && (e.Bundle? ==> |e.tracks| < 0x1_0000) &&
    (e.Sum? ==> |e.inputs| < 0x1_0000)
  }

  predicate HasActions(e: Element)
  {
    e.ImportClient? || e.ImportDevice? || e.ImportBucket? || e.ImportWaveForm? ||
    e.ExportClient? || e.ExportDevice? || e.ExportBucket?
  }

  /** Number of entries in the variable part. */
  function Entries(e: Element): (n: nat)
  {
    if HasActions(e) then |e.actions| else if e.Bundle? then |e.tracks| else if e.Sum? then |e.inputs| else 0
  }

  /** Size of one entry of the variable part: an action, a track or a short. */
  function Stride(t: int): (w: nat)
    ensures w == 12 || w == 4 || w == 2
  {
    if t == 5 then 4 else if t == 8 then 2 else 12
  }

  /** Where entry `j` starts, and so also the size of `j` entries. */
  function EntryAt(t: int, j: nat): (o: nat)
  {
    if t == 5 then 4 * j else if t == 8 then 2 * j else 12 * j
  }

  function EntryFields(e: Element, j: nat): (fs: seq<Field>)
    requires j < Entries(e)
  {
    if HasActions(e) then
      var a := e.actions[j];
      [Field(0, 4, a.flow), Field(4, 1, a.elementNum), Field(5, 1, a.triggerState), Field(6, 1, a.triggerPrevState),
       Field(7, 1, a.triggerReason), Field(8, 1, a.action), Field(9, 1, a.newState)]
    else if e.Bundle? then [Field(0, 1, e.tracks[j].elementNum), Field(1, 1, e.tracks[j].track)]
    else [Field(0, 2, e.inputs[j])]
  }

  /** Every field has its value in `b`; the bytes between fields may be anything. */
  ghost predicate Lays(big: bool, b: seq<byte>, fs: seq<Field>)
  {
    forall i :: 0 <= i < |fs| ==>
      WfField(fs[i], |b|) && b[fs[i].offset..fs[i].offset + fs[i].width] == Put(big, fs[i])
  }

  function TailSize(e: Element): (n: nat)
  {
    Pad4(EntryAt(TypeCode(e), Entries(e)))
  }

  function WireSize(e: Element): (n: nat)
  {
    FIXED_SIZE + TailSize(e)
  }

  /** `b` is an encoding of `e`. */
  ghost predicate Encodes(big: bool, e: Element, b: seq<byte>)
  {
    Sendable(e) && |b| == WireSize(e) && Lays(big, b[..FIXED_SIZE], Fields(e)) && EncodesTail(big, e, b[FIXED_SIZE..])
  }

  ghost predicate EncodesTail(big: bool, e: Element, b: seq<byte>)
  {
    |b| == TailSize(e) &&
    forall j :: 0 <= j < Entries(e) ==> Lays(big, EntryOf(e, b, j), EntryFields(e, j))
  }

  function EntryOf(e: Element, b: seq<byte>, j: nat): seq<byte>
    requires |b| == TailSize(e) && j < Entries(e)
  {
    b[EntryAt(TypeCode(e), j)..EntryAt(TypeCode(e), j + 1)]
  }

  /** `b` is the elements' encodings end to end. */
  ghost predicate EncodesAll(big: bool, es: seq<Element>, b: seq<byte>)
    decreases |es|
  {
    if es == [] then b == []
    else WireSize(es[0]) <= |b| && Encodes(big, es[0], b[..WireSize(es[0])]) &&
         EncodesAll(big, es[1..], b[WireSize(es[0])..])
  }

  // Reading an encoding ---------------------------------------------------------------------

  function GetField(big: bool, b: seq<byte>, offset: nat, width: nat): (x: u32)
    requires offset + width <= |b| && (width == 1 || width == 2 || width == 4)
  {
    if width == 1 then b[offset]
    else if width == 2 then Get16(big, b[offset..offset + 2])
    else Get32(big, b[offset..offset + 4])
  }

  /** What is read at a field's place is the field's value. */
  lemma FieldRead(big: bool, b: seq<byte>, fs: seq<Field>, i: nat)
    requires Lays(big, b, fs) && i < |fs|
    ensures WfField(fs[i], |b|)
    ensures GetField(big, b, fs[i].offset, fs[i].width) == fs[i].value
  {
    var f := fs[i];
    assert WfField(f, |b|) && b[f.offset..f.offset + f.width] == Put(big, f);
    if f.width == 1 {
      assert b[f.offset..f.offset + 1][0] == b[f.offset];
    } else if f.width == 2 {
      WordRoundTrip(big, f.value, 0);
    } else {
      WordRoundTrip(big, 0, f.value);
    }
  }

  /** What the decoder makes of the fixed part: an element with nothing in its variable part, and the count. */
  datatype Head = Head(shell: Element, entries: nat) | Unknown

  function DecodeHead(big: bool, b: seq<byte>): (h: Head)
    requires |b| == FIXED_SIZE
  {
    var t := GetField(big, b, 0, 2);
    if t == 0 then
      Head(ImportClient(Get16(big, b[2..4]), b[4], b[5], b[6], GetField(big, b, 8, 4), GetField(big, b, 12, 4), []),
           GetField(big, b, 16, 4))
    else if t == 1 then
      Head(ImportDevice(Get16(big, b[2..4]), GetField(big, b, 8, 4), GetField(big, b, 4, 4), []),
           GetField(big, b, 12, 4))
    else if t == 2 then
      Head(ImportBucket(Get16(big, b[2..4]), GetField(big, b, 8, 4), GetField(big, b, 4, 4), GetField(big, b, 12, 4),
                        []),
           GetField(big, b, 16, 4))
    else if t == 3 then
      Head(ImportWaveForm(Get16(big, b[2..4]), b[8], GetField(big, b, 12, 4), GetField(big, b, 4, 4), []),
           GetField(big, b, 16, 4))
    else if t == 5 then Head(Bundle([]), Get16(big, b[2..4]))
    else if t == 6 then Head(MultiplyConstant(Get16(big, b[2..4]), GetField(big, b, 4, 4)), 0)
    else if t == 7 then Head(AddConstant(Get16(big, b[2..4]), GetField(big, b, 4, 4)), 0)
    else if t == 8 then Head(Sum([]), Get16(big, b[2..4]))
    else if t == 9 then
      Head(ExportClient(Get16(big, b[2..4]), Get16(big, b[4..6]), b[8], b[9], b[10], GetField(big, b, 12, 4),
                        GetField(big, b, 16, 4), []), GetField(big, b, 20, 4))
    else if t == 10 then
      Head(ExportDevice(Get16(big, b[2..4]), Get16(big, b[4..6]), GetField(big, b, 12, 4), GetField(big, b, 8, 4), []),
           GetField(big, b, 16, 4))
    else if t == 11 then
      Head(ExportBucket(Get16(big, b[2..4]), GetField(big, b, 8, 4), GetField(big, b, 4, 4), GetField(big, b, 12, 4),
                        []),
           GetField(big, b, 16, 4))
    else if t == 13 then Head(ExportMonitor(Get16(big, b[4..6]), Get16(big, b[2..4]), b[8], b[9]), 0)
    else Unknown
  }

  /** The element as it comes back: a wave form number is sent in one byte. */
  function Received(e: Element): (r: Element)
    ensures HasActions(r) == HasActions(e) && TypeCode(r) == TypeCode(e)
  {
    if e.ImportWaveForm? then e.(waveForm := e.waveForm % 0x100) else e
  }

  function WithActions(e: Element, actions: seq<Action>): (r: Element)
    requires HasActions(e)
  {
    e.(actions := actions)
  }

  function Shell(e: Element): (r: Element)
  {
    if HasActions(e) then WithActions(Received(e), []) else if e.Bundle? then Bundle([]) else if e.Sum? then Sum([])
    else e
  }

  lemma FieldsRead(big: bool, b: seq<byte>, fs: seq<Field>)
    requires Lays(big, b, fs)
    ensures forall i {:trigger fs[i]} :: 0 <= i < |fs| ==>
              WfField(fs[i], |b|) && GetField(big, b, fs[i].offset, fs[i].width) == fs[i].value
  {
    forall i | 0 <= i < |fs|
      ensures WfField(fs[i], |b|) && GetField(big, b, fs[i].offset, fs[i].width) == fs[i].value
    {
      FieldRead(big, b, fs, i);
    }
  }

  lemma HeadDecodes(big: bool, e: Element, b: seq<byte>)
    requires Sendable(e) && |b| == FIXED_SIZE && Lays(big, b, Fields(e))
    ensures DecodeHead(big, b) == Head(Shell(e), Entries(e))
  {
    if TypeCode(e) <= 3 {
      ImportDecodes(big, e, b);
    } else if TypeCode(e) <= 8 {
      OperatorDecodes(big, e, b);
    } else {
      ExportDecodes(big, e, b);
    }
  }

  lemma ImportDecodes(big: bool, e: Element, b: seq<byte>)
    requires Sendable(e) && |b| == FIXED_SIZE && Lays(big, b, Fields(e)) && TypeCode(e) <= 3
    ensures DecodeHead(big, b) == Head(Shell(e), Entries(e))
  {
    hide Get16, Get32, Put16, Put32, Lays;
    var fs := Fields(e);
    FieldsRead(big, b, fs);
    assert fs[0].value == TypeCode(e) && fs[1].width == 2 && fs[2].offset > 0 && fs[3].offset > 0 && fs[4].offset > 0;
    assert |fs| > 5 ==> fs[5].offset > 0;
    assert |fs| > 6 ==> fs[6].offset > 0 && fs[7].offset > 0;
  }

  lemma OperatorDecodes(big: bool, e: Element, b: seq<byte>)
    requires Sendable(e) && |b| == FIXED_SIZE && Lays(big, b, Fields(e)) && 5 <= TypeCode(e) <= 8
    ensures DecodeHead(big, b) == Head(Shell(e), Entries(e))
  {
    hide Get16, Get32, Put16, Put32, Lays;
    var fs := Fields(e);
    FieldsRead(big, b, fs);
    assert fs[0].value == TypeCode(e) && fs[1].width == 2;
    assert |fs| > 2 ==> fs[2].offset > 0;
  }

  lemma ExportDecodes(big: bool, e: Element, b: seq<byte>)
    requires Sendable(e) && |b| == FIXED_SIZE && Lays(big, b, Fields(e)) && 9 <= TypeCode(e)
    ensures DecodeHead(big, b) == Head(Shell(e), Entries(e))
  {
    hide Get16, Get32, Put16, Put32, Lays;
    var fs := Fields(e);
    FieldsRead(big, b, fs);
    assert fs[0].value == TypeCode(e) && fs[1].width == 2 && fs[2].offset > 0 && fs[3].offset > 0 && fs[4].offset > 0;
    assert |fs| > 5 ==> fs[5].offset > 0;
    assert |fs| > 6 ==> fs[6].offset > 0 && fs[7].offset > 0 && fs[8].offset > 0;
  }

  function DecodeAction(big: bool, b: seq<byte>): (a: Action)
    requires |b| == 12
  {
    Action(GetField(big, b, 0, 4), b[4], b[5], b[6], b[7], b[8], b[9])
  }

  lemma EntryDecodes(big: bool, e: Element, j: nat, b: seq<byte>)
    requires j < Entries(e) && Lays(big, b, EntryFields(e, j)) && |b| == Stride(TypeCode(e))
    ensures HasActions(e) ==> DecodeAction(big, b) == e.actions[j]
    ensures e.Bundle? ==> Track(b[0], b[1]) == e.tracks[j]
    ensures e.Sum? ==> Get16(big, b) == e.inputs[j]
  {
    hide Get16, Get32, Put16, Put32, Lays;
    var fs := EntryFields(e, j);
    FieldsRead(big, b, fs);
    assert fs[0].offset == 0;
    if HasActions(e) {
      assert fs[1].offset == 4 && fs[2].offset == 5 && fs[3].offset == 6 && fs[4].offset == 7 && fs[5].offset == 8 &&
             fs[6].offset == 9;
    } else if e.Bundle? {
      assert fs[1].offset == 1;
    } else {
      assert b[0..2] == b;
    }
  }
}
