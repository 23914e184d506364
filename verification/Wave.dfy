/** RIFF/WAVE files (chapter 3 of Multimedia Programming Interface and Data Specifications 1.0). */
module Wave {
  import opened Bytes
  import opened Options
  import opened Sequences

  const RIFF: seq<byte> := [0x52, 0x49, 0x46, 0x46]
  const WAVE: seq<byte> := [0x57, 0x41, 0x56, 0x45]
  const LIST: seq<byte> := [0x4C, 0x49, 0x53, 0x54]
  const INFO: seq<byte> := [0x49, 0x4E, 0x46, 0x4F]
  const ICMT: seq<byte> := [0x49, 0x43, 0x4D, 0x54]
  const FMT: seq<byte> := [0x66, 0x6D, 0x74, 0x20]
  const DATA: seq<byte> := [0x64, 0x61, 0x74, 0x61]
  const PCM: u16 := 1
  const FMT_SIZE := 16

  function Pad2(n: nat): (k: nat)
    ensures k % 2 == 0 && n <= k <= n + 1
  {
    (n + 1) / 2 * 2
  }

  /** Numbers in the file are little-endian. */
  function Le32(x: u32): (b: seq<byte>)
    ensures |b| == 4
  {
    Put32(false, x)
  }

  function Le16(x: u16): (b: seq<byte>)
    ensures |b| == 2
  {
    Put16(false, x)
  }

  // Files -------------------------------------------------------------------------------------

  /** `s` with `b` written at `pos`, over what is there and beyond the end. */
  function Written(s: seq<byte>, pos: nat, b: seq<byte>): (r: seq<byte>)
    requires pos <= |s|
  {
    s[..pos] + b + if pos + |b| <= |s| then s[pos + |b|..] else []
  }

  /** A file that is open, with its position; all input and output succeeds. */
  class File {
    var data: seq<byte>
    var pos: nat

    constructor ()
      ensures data == [] && pos == 0
    {
      data, pos := [], 0;
    }

    /** `fwrite`. */
    method Write(b: seq<byte>)
      requires pos <= |data|
      modifies this
      ensures data == Written(old(data), old(pos), b) && pos == old(pos) + |b| <= |data|
    {
      data := Written(data, pos, b);
      pos := pos + |b|;
    }

    /** `fread` of `n` bytes as one item: nothing counts if they are not all there. */
    method Read(n: nat) returns (ok: bool, b: seq<byte>)
      modifies this`pos
      ensures ok == (old(pos) + n <= |data| && n > 0)
      ensures ok ==> pos == old(pos) + n && b == data[old(pos)..old(pos) + n]
    {
      if pos + n <= |data| {
        b := data[pos..pos + n];
        pos := pos + n;
        ok := n > 0;
      } else {
        b := [];
        ok := false;
      }
    }

    method Seek(to: nat)
      modifies this`pos
      ensures pos == to
    {
      pos := to;
    }
  }

  function Swap32(x: u32): u32
  {
    Swap16(x % 0x1_0000) * 0x1_0000 + Swap16(x / 0x1_0000)
  }

  /** Swapped on a big-endian host, a number lies in memory as it does in the file. */
  lemma SwappedIsLittle(x: u16, y: u32)
    ensures Put16(true, Swap16(x)) == Le16(x) && Put32(true, Swap32(y)) == Le32(y)
    ensures Swap16(Swap16(x)) == x && Swap32(Swap32(y)) == y
  {
    hide Swap16;
    var hi, lo := y / 0x1_0000, y % 0x1_0000;
    HalvesSwap(hi, lo);
    HalvesSwap(Swap16(lo), Swap16(hi));
    HalfSwaps(x);
    HalfSwaps(hi);
    HalfSwaps(lo);
  }

  lemma HalfSwaps(x: u16)
    ensures Put16(true, Swap16(x)) == Le16(x) && Swap16(Swap16(x)) == x
  {
    var s := Swap16(x);
    assert s / 0x100 == x % 0x100 && s % 0x100 == x / 0x100;
  }

  lemma HalvesSwap(hi: u16, lo: u16)
    ensures var y := hi * 0x1_0000 + lo; Swap32(y) / 0x1_0000 == Swap16(lo) && Swap32(y) % 0x1_0000 == Swap16(hi)
  {
    hide Swap16;
    var y := hi * 0x1_0000 + lo;
    assert y / 0x1_0000 == hi && y % 0x1_0000 == lo;
    var a, b: u16 := Swap16(lo), Swap16(hi);
    assert Swap32(y) == a * 0x1_0000 + b;
  }

  /** A file written from `base` on so far: `part` has been appended. */
  ghost predicate Appended(f: File, base: seq<byte>, part: seq<byte>)
    reads f
  {
    f.data == base + part && f.pos == |f.data|
  }

  method Put(f: File, b: seq<byte>, ghost base: seq<byte>, ghost part: seq<byte>)
    requires Appended(f, base, part)
    modifies f
    ensures Appended(f, base, part + b)
  {
    AppendAssociative(base, part, b);
    f.Write(b);
  }

  /** `FileWriteL`. */
  method WriteL(f: File, big: bool, x: u32)
    requires f.pos <= |f.data|
    modifies f
    ensures f.data == Written(old(f.data), old(f.pos), Le32(x)) && f.pos == old(f.pos) + 4 <= |f.data|
  {
    hide Swap32, Put32;
    SwappedIsLittle(0, x);
    f.Write(Put32(big, if big then Swap32(x) else x));
  }

  method PutL(f: File, big: bool, x: u32, ghost base: seq<byte>, ghost part: seq<byte>)
    requires Appended(f, base, part)
    modifies f
    ensures Appended(f, base, part + Le32(x))
  {
    hide Le32;
    AppendAssociative(base, part, Le32(x));
    WriteL(f, big, x);
  }

  /** `FileWriteS`, at the end of the file. */
  method PutS(f: File, big: bool, x: u16, ghost base: seq<byte>, ghost part: seq<byte>)
    requires Appended(f, base, part)
    modifies f
    ensures Appended(f, base, part + Le16(x))
  {
    hide Swap16, Put16;
    HalfSwaps(x);
    Put(f, Put16(big, if big then Swap16(x) else x), base, part);
  }

  // The layout --------------------------------------------------------------------------------

  /** What a program says about a sound. */
  datatype Sound = Sound(comment: seq<byte>, channels: u16, rate: u32, bits: u16)

  /** A comment is written with its terminator, padded to an even size. */
  function ListPart(comment: seq<byte>): (b: seq<byte>)
    requires |comment| < 0x7000_0000
    ensures |b| == if comment == [] then 0 else 20 + Pad2(|comment| + 1)
  {
    if comment == [] then []
    else
      var n := |comment| + 1;
      LIST + Le32(12 + Pad2(n)) + INFO + ICMT + Le32(n) + (comment + [0]) + Zeros(Pad2(n) - n)
  }

  function FmtBody(s: Sound): (b: seq<byte>)
    ensures |b| == FMT_SIZE
  {
    Le16(PCM) + Le16(s.channels) + Le32(s.rate) + Le32(s.channels * s.rate * (s.bits / 8) % 0x1_0000_0000) +
    Le16(s.channels * (s.bits / 8) % 0x1_0000) + Le16(s.bits)
  }

  function FmtPart(s: Sound): (b: seq<byte>)
    ensures |b| == 24
  {
    FMT + Le32(FMT_SIZE) + FmtBody(s)
  }

  /** Everything before the samples, with the two sizes that are patched at the end. */
  function Head(s: Sound, riffSize: u32, dataSize: u32): (b: seq<byte>)
    requires |s.comment| < 0x7000_0000
    ensures |b| == HeadSize(s)
  {
    RIFF + Le32(riffSize) + WAVE + ListPart(s.comment) + FmtPart(s) + DATA + Le32(dataSize)
  }

  function HeadSize(s: Sound): (n: nat)
  {
    44 + if s.comment == [] then 0 else 20 + Pad2(|s.comment| + 1)
  }

  /** A finished file with the samples `data`. */
  function WaveFile(s: Sound, data: seq<byte>): (b: seq<byte>)
    requires HeadSize(s) + |data| < 0x7000_0000
  {
    Head(s, HeadSize(s) - 8 + Pad2(|data|), |data|) + data + Zeros(Pad2(|data|) - |data|)
  }

  /** The size in the RIFF header is the length of the file less eight. */
  lemma RiffSizeIsLength(s: Sound, data: seq<byte>)
    requires HeadSize(s) + |data| < 0x7000_0000
    ensures WaveFile(s, data)[4..8] == Le32(|WaveFile(s, data)| - 8)
  {
    hide Le32, ListPart, FmtPart;
  }

  // Writing -----------------------------------------------------------------------------------

  method WriteComment(f: File, big: bool, comment: seq<byte>, ghost base: seq<byte>) returns (size: nat)
    requires Appended(f, base, []) && |comment| < 0x7000_0000
    modifies f
    ensures Appended(f, base, ListPart(comment)) && size == |ListPart(comment)|
  {
    hide Le32, Appended;
    size := 0;
    if |comment| != 0 {
      var n := |comment| + 1;
      Put(f, LIST, base, []);
      assert [] + LIST == LIST;
      PutL(f, big, 12 + Pad2(n), base, LIST);
      Put(f, INFO, base, LIST + Le32(12 + Pad2(n)));
      Put(f, ICMT, base, LIST + Le32(12 + Pad2(n)) + INFO);
      PutL(f, big, n, base, LIST + Le32(12 + Pad2(n)) + INFO + ICMT);
      ghost var part := LIST + Le32(12 + Pad2(n)) + INFO + ICMT + Le32(n);
      Put(f, comment + [0], base, part);
      part := part + (comment + [0]);
      if n % 2 == 1 {
        Put(f, [0], base, part);
        assert Zeros(1) == [0];
      } else {
        assert part + Zeros(0) == part;
      }
      size := 8 + 12 + Pad2(n);
    }
  }

  method WriteFormat(f: File, big: bool, s: Sound, ghost base: seq<byte>)
    requires Appended(f, base, [])
    modifies f
    ensures Appended(f, base, FmtPart(s))
  {
    hide Le32, Le16, Appended;
    Put(f, FMT, base, []);
    assert [] + FMT == FMT;
    PutL(f, big, FMT_SIZE, base, FMT);
    ghost var part := FMT + Le32(FMT_SIZE);
    PutS(f, big, PCM, base, part);
    PutS(f, big, s.channels, base, part + Le16(PCM));
    PutL(f, big, s.rate, base, part + Le16(PCM) + Le16(s.channels));
    var perSecond, perFrame := s.channels * s.rate * (s.bits / 8) % 0x1_0000_0000, s.channels * (s.bits / 8) % 0x1_0000;
    PutL(f, big, perSecond, base, part + Le16(PCM) + Le16(s.channels) + Le32(s.rate));
    PutS(f, big, perFrame, base, part + Le16(PCM) + Le16(s.channels) + Le32(s.rate) + Le32(perSecond));
    PutS(f, big, s.bits, base, part + Le16(PCM) + Le16(s.channels) + Le32(s.rate) + Le32(perSecond) + Le16(perFrame));
    FormatAppended(part, Le16(PCM), Le16(s.channels), Le32(s.rate), Le32(perSecond), Le16(perFrame), Le16(s.bits));
  }

  lemma FormatAppended(p: seq<byte>, a: seq<byte>, b: seq<byte>, c: seq<byte>, d: seq<byte>, e: seq<byte>, g: seq<byte>)
    ensures p + a + b + c + d + e + g == p + (a + b + c + d + e + g)
  {
  }

  /** Everything before the samples, with zeros for the sizes; also counts what the RIFF size has to cover. */
  method WriteHead(fp: File, big: bool, sound: Sound) returns (sizeOffset: nat, dataOffset: nat, fileSize: nat)
    requires fp.data == [] && fp.pos == 0 && HeadSize(sound) < 0x7000_0000 && |sound.comment| < 0x7000_0000
    modifies fp
    ensures fp.data == Head(sound, 0, 0) && fp.pos == |fp.data|
    ensures sizeOffset == 4 && dataOffset == HeadSize(sound) - 4 && fileSize == HeadSize(sound) - 8
  {
    hide Le32, ListPart, FmtPart, Head;
    assert Appended(fp, [], []);
    Put(fp, RIFF, [], []);
    sizeOffset := fp.pos;
    PutL(fp, big, 0, [], [] + RIFF);
    Put(fp, WAVE, [], [] + RIFF + Le32(0));
    fileSize := 4;
    ghost var base := fp.data;
    assert base + [] == base;
    var size := WriteComment(fp, big, sound.comment, base);
    fileSize := fileSize + size;
    base := fp.data;
    assert base + [] == base;
    WriteFormat(fp, big, sound, base);
    fileSize := fileSize + 8 + FMT_SIZE;
    base := fp.data;
    assert base + [] == base;
    Put(fp, DATA, base, []);
    dataOffset := fp.pos;
    PutL(fp, big, 0, base, [] + DATA);
    fileSize := fileSize + 8;
    HeadWritten(sound, fp.data);
  }

  /** A sound file being written. */
  class WaveWriter {
    const fp: File
    const big: bool
    const sound: Sound
    var sizeOffset: nat
    var dataOffset: nat
    var fileSize: nat
    var dataSize: nat
    ghost var written: seq<byte>

    ghost predicate Valid()
      reads this, fp
    {
      |sound.comment| < 0x7000_0000 && HeadSize(sound) + |written| < 0x7000_0000 &&
      fp.data == Head(sound, 0, 0) + written && fp.pos == |fp.data| &&
      sizeOffset == 4 && dataOffset == HeadSize(sound) - 4 && fileSize == HeadSize(sound) - 8 && dataSize == |written|
    }

    /** `WaveOpenFileForWriting`. */
    constructor (fp: File, big: bool, sound: Sound)
      requires fp.data == [] && fp.pos == 0 && HeadSize(sound) < 0x7000_0000 && |sound.comment| < 0x7000_0000
      modifies fp
      ensures Valid() && written == [] && this.fp == fp && this.sound == sound
    {
      this.fp, this.big, this.sound := fp, big, sound;
      sizeOffset, dataOffset, fileSize, dataSize, written := 0, 0, 0, 0, [];
      new;
      hide Head;
      sizeOffset, dataOffset, fileSize := WriteHead(fp, big, sound);
      assert Head(sound, 0, 0) + [] == Head(sound, 0, 0);
    }

    /** `WaveWriteFile`. */
    method Write(p: seq<byte>) returns (num: nat)
      requires Valid() && HeadSize(sound) + |written| + |p| < 0x7000_0000
      modifies this`dataSize, this`written, fp
      ensures Valid() && num == |p| && written == old(written) + p
    {
      hide Head;
      fp.Write(p);
      num := |p|;
      dataSize := dataSize + num;
      AppendAssociative(Head(sound, 0, 0), written, p);
      written := written + p;
    }

    /** `WaveCloseFile`: pads the samples and patches both sizes. */
    method Close()
      requires Valid()
      modifies fp
      ensures fp.data == WaveFile(sound, written)
    {
      hide Head, Le32;
      ghost var d := fp.data;
      if dataSize % 2 == 1 {
        fp.Write([0]);
        assert Zeros(1) == [0];
      } else {
        assert d + Zeros(0) == d;
      }
      ghost var padded := fp.data;
      assert padded == Head(sound, 0, 0) + written + Zeros(Pad2(dataSize) - dataSize);
      fp.Seek(sizeOffset);
      WriteL(fp, big, fileSize + Pad2(dataSize));
      fp.Seek(dataOffset);
      WriteL(fp, big, dataSize);
      SizesPatched(sound, written, padded, fp.data);
    }
  }

  lemma HeadWritten(s: Sound, d: seq<byte>)
    requires |s.comment| < 0x7000_0000
    requires d == ([] + ([] + RIFF + Le32(0) + WAVE) + ListPart(s.comment) + FmtPart(s)) + ([] + DATA + Le32(0))
    ensures d == Head(s, 0, 0)
  {
    hide Le32, ListPart, FmtPart;
  }

  /** The two patches are all that differs between the file before and after closing. */
  lemma SizesPatched(s: Sound, data: seq<byte>, padded: seq<byte>, d: seq<byte>)
    requires HeadSize(s) + |data| < 0x7000_0000
    requires padded == Head(s, 0, 0) + data + Zeros(Pad2(|data|) - |data|)
    requires d == Written(Written(padded, 4, Le32(HeadSize(s) - 8 + Pad2(|data|))), HeadSize(s) - 4, Le32(|data|))
    ensures d == WaveFile(s, data)
  {
    hide Le32, ListPart, FmtPart, Written;
    var middle := WAVE + ListPart(s.comment) + FmtPart(s) + DATA;
    var riffSize, tail := HeadSize(s) - 8 + Pad2(|data|), Zeros(Pad2(|data|) - |data|);
    HeadParts(s, 0, 0, middle);
    HeadParts(s, riffSize, |data|, middle);
    Patched(RIFF, Le32(0), Le32(riffSize), middle, Le32(0), Le32(|data|), data, tail);
  }

  lemma HeadParts(s: Sound, riffSize: u32, dataSize: u32, middle: seq<byte>)
    requires |s.comment| < 0x7000_0000 && middle == WAVE + ListPart(s.comment) + FmtPart(s) + DATA
    ensures Head(s, riffSize, dataSize) == RIFF + Le32(riffSize) + middle + Le32(dataSize)
  {
    hide Le32, ListPart, FmtPart;
  }

  /** Two fields of a sequence written over. */
  lemma Patched(a: seq<byte>, x: seq<byte>, x': seq<byte>, m: seq<byte>, y: seq<byte>, y': seq<byte>, data: seq<byte>,
                tail: seq<byte>)
    requires |x| == |x'| && |y| == |y'|
    ensures var s := a + x + m + y + data + tail;
            Written(Written(s, |a|, x'), |a| + |x| + |m|, y') == a + x' + m + y' + data + tail
  {
    var s := a + x + m + y + data + tail;
    var t := a + x' + m + y + data + tail;
    assert Written(s, |a|, x') == t;
  }

  // What is in a file --------------------------------------------------------------------------

  /** A chunk of an INFO list. */
  datatype Sub = Sub(id: seq<byte>, body: seq<byte>)

  /** A chunk of a WAVE file: a list of information, anything else, or samples that end with the file too early. */
  datatype Chunk = Info(subs: seq<Sub>) | Plain(id: seq<byte>, body: seq<byte>) | Cut(size: nat, body: seq<byte>)

  function SubsSize(subs: seq<Sub>): (n: nat)
  {
    if subs == [] then 0 else 8 + Pad2(|subs[0].body|) + SubsSize(subs[1..])
  }

  function BodySize(c: Chunk): (n: nat)
  {
    match c
    case Info(subs) => 4 + SubsSize(subs)
    case Plain(_, body) => |body|
    case Cut(size, _) => size
  }

  /** A chunk header for `size` bytes lies at `pos`, and so many bytes with their padding follow. */
  predicate HeaderAt(s: seq<byte>, pos: nat, id: seq<byte>, size: nat)
  {
    |id| == 4 && size < 0x8000_0000 && pos + 8 + Pad2(size) <= |s| &&
    s[pos..pos + 4] == id && s[pos + 4..pos + 8] == Le32(size)
  }

  ghost predicate SubsAt(s: seq<byte>, pos: nat, subs: seq<Sub>, end: nat)
    decreases |subs|
  {
    if subs == [] then pos == end
    else
      var c := subs[0];
      HeaderAt(s, pos, c.id, |c.body|) && s[pos + 8..pos + 8 + |c.body|] == c.body &&
      SubsAt(s, pos + 8 + Pad2(|c.body|), subs[1..], end)
  }

  ghost predicate ChunkAt(s: seq<byte>, pos: nat, c: Chunk)
  {
    match c
    case Info(subs) =>
      HeaderAt(s, pos, LIST, BodySize(c)) && s[pos + 8..pos + 12] == INFO &&
      SubsAt(s, pos + 12, subs, pos + 12 + SubsSize(subs))
    case Plain(id, body) =>
      HeaderAt(s, pos, id, |body|) && s[pos + 8..pos + 8 + |body|] == body &&
      (id == LIST ==> |body| >= 4 && body[..4] != INFO) && (id == FMT ==> |body| >= FMT_SIZE)
    case Cut(size, body) =>
      size < 0x8000_0000 && pos + 8 <= |s| < pos + 8 + Pad2(size) && s[pos..pos + 4] == DATA &&
      s[pos + 4..pos + 8] == Le32(size) && s[pos + 8..] == body
  }

  function After(pos: nat, c: Chunk): (next: nat)
  {
    pos + 8 + Pad2(BodySize(c))
  }

  /** From `pos` to `end` the chunks `cs` lie end to end; only the last can be cut off. */
  ghost predicate ChunksAt(s: seq<byte>, pos: nat, cs: seq<Chunk>, end: nat)
    decreases |cs|
  {
    if cs == [] then pos == end
    else ChunkAt(s, pos, cs[0]) &&
         if cs[0].Cut? then cs[1..] == [] && pos + 8 <= end else ChunksAt(s, After(pos, cs[0]), cs[1..], end)
  }

  predicate StartsRight(s: seq<byte>)
  {
    |s| >= 12 && s[..4] == RIFF && s[8..12] == WAVE
  }

  /** A well-formed RIFF/WAVE file of the given RIFF size. */
  ghost predicate WfFile(s: seq<byte>, cs: seq<Chunk>, size: u32)
  {
    StartsRight(s) && 4 <= size < 0x7FFF_FFFF && s[4..8] == Le32(size) && ChunksAt(s, 12, cs, 8 + Pad2(size))
  }

  /** What the reader gathers: zero in `format` or `start` means not seen yet. */
  datatype Found = Found(comment: Option<seq<byte>>, format: u16, channels: u16, rate: u32, bits: u16, start: nat,
                         dataSize: int)

  const NOTHING := Found(None, 0, 0, 0, 0, 0, 0)

  /** The comment after an INFO list; an empty one is an error. */
  function Comments(subs: seq<Sub>, comment: Option<seq<byte>>): (r: Option<Option<seq<byte>>>)
  {
    if subs == [] then Some(comment)
    else if subs[0].id != ICMT then Comments(subs[1..], comment)
    else if subs[0].body == [] then None
    else Comments(subs[1..], Some(subs[0].body))
  }

  /** The effect of a chunk on what has been gathered; none if the file is refused. */
  function Gather(found: Found, c: Chunk, pos: nat): (r: Option<Found>)
    requires c.Plain? && c.id == FMT ==> |c.body| >= FMT_SIZE
  {
    match c
    case Info(subs) =>
      (match Comments(subs, found.comment)
       case None => None
       case Some(comment) => Some(found.(comment := comment)))
    case Plain(id, body) =>
      if id == FMT && found.format == 0 then
        var format := Get16(false, body[0..2]);
        if format != PCM then None
        else Some(found.(format := format, channels := Get16(false, body[2..4]), rate := Get32(false, body[4..8]),
                         bits := Get16(false, body[14..16])))
      else if id == DATA && found.start == 0 then Some(found.(start := pos + 8, dataSize := |body|))
      else Some(found)
    // the size in the file is bogus: what is there counts
    case Cut(_, body) => Some(if found.start == 0 then found.(start := pos + 8, dataSize := |body|) else found)
  }

  ghost function GatherAll(s: seq<byte>, found: Found, cs: seq<Chunk>, pos: nat, end: nat): (r: Option<Found>)
    requires ChunksAt(s, pos, cs, end)
    decreases |cs|
  {
    if cs == [] then Some(found)
    else match Gather(found, cs[0], pos)
      case None => None
      case Some(next) =>
        if !cs[0].Cut? then GatherAll(s, next, cs[1..], After(pos, cs[0]), end)
        else if end - After(pos, cs[0]) >= 8 then None    // a further chunk is expected and is not there
        else Some(next)
  }

  // Reading ------------------------------------------------------------------------------------

  /** A number read in the host's byte order and swapped on a big-endian host. */
  lemma ReadsLittle(big: bool, b: seq<byte>)
    ensures |b| == 2 ==> (if big then Swap16(Get16(big, b)) else Get16(big, b)) == Get16(false, b)
    ensures |b| == 4 ==> (if big then Swap32(Get32(big, b)) else Get32(big, b)) == Get32(false, b)
  {
    hide Swap16, Swap32, Put16, Get16, Put32, Get32;
    if |b| == 2 {
      PutGet16(b);
      var x := Get16(false, b);
      HalfSwaps(x);
      WordRoundTrip(true, Swap16(x), 0);
    } else if |b| == 4 {
      PutGet32(b);
      var y := Get32(false, b);
      SwappedIsLittle(0, y);
      WordRoundTrip(true, 0, Swap32(y));
    }
  }

  lemma PutGet16(b: seq<byte>)
    requires |b| == 2
    ensures Le16(Get16(false, b)) == b
  {
  }

  lemma PutGet32(b: seq<byte>)
    requires |b| == 4
    ensures Le32(Get32(false, b)) == b
  {
    hide Put16, Get16;
    var x: u16, y: u16 := Get16(false, b[..2]), Get16(false, b[2..]);
    assert Get32(false, b) == x + y * 0x1_0000;
    assert (x + y * 0x1_0000) % 0x1_0000 == x && (x + y * 0x1_0000) / 0x1_0000 == y;
    PutGet16(b[..2]);
    PutGet16(b[2..]);
    assert b == b[..2] + b[2..];
  }

  /** A 32-bit pattern as the signed number it is read as. */
  function Signed32(x: u32): (y: int)
    ensures x < 0x8000_0000 ==> y == x
  {
    if x >= 0x8000_0000 then x - 0x1_0000_0000 else x
  }

  /** `readChunk`: the header of the next chunk. */
  method ReadChunk(f: File, big: bool) returns (ok: bool, id: seq<byte>, size: int)
    modifies f`pos
    ensures ok == (old(f.pos) + 8 <= |f.data|) && (ok ==> f.pos == old(f.pos) + 8)
    ensures ok ==> id == f.data[old(f.pos)..old(f.pos) + 4] &&
                   size == Signed32(Get32(false, f.data[old(f.pos) + 4..old(f.pos) + 8]))
  {
    hide Get32, Swap32;
    var b;
    ok, b := f.Read(8);
    id, size := [], 0;
    if ok {
      id := b[..4];
      ReadsLittle(big, b[4..8]);
      var x := Get32(big, b[4..8]);
      size := Signed32(if big then Swap32(x) else x);
      assert b[4..8] == f.data[old(f.pos) + 4..old(f.pos) + 8];
    }
  }

  lemma HeaderReads(s: seq<byte>, pos: nat, id: seq<byte>, size: nat)
    requires HeaderAt(s, pos, id, size)
    ensures pos + 8 + Pad2(size) <= |s| && s[pos..pos + 4] == id && Signed32(Get32(false, s[pos + 4..pos + 8])) == size
  {
    hide Get32, Put32;
    WordRoundTrip(false, 0, size);
  }

  /** `FileReadS`. */
  method ReadS(f: File, big: bool) returns (x: u16)
    requires f.pos + 2 <= |f.data|
    modifies f`pos
    ensures f.pos == old(f.pos) + 2 && x == Get16(false, f.data[old(f.pos)..f.pos])
  {
    hide Get16, Swap16;
    var ok, b := f.Read(2);
    ReadsLittle(big, b);
    x := Get16(big, b);
    if big {
      x := Swap16(x);
    }
  }

  /** `FileReadL`. */
  method ReadL(f: File, big: bool) returns (x: u32)
    requires f.pos + 4 <= |f.data|
    modifies f`pos
    ensures f.pos == old(f.pos) + 4 && x == Get32(false, f.data[old(f.pos)..f.pos])
  {
    hide Get32, Swap32;
    var ok, b := f.Read(4);
    ReadsLittle(big, b);
    x := Get32(big, b);
    if big {
      x := Swap32(x);
    }
  }

  /** The inner loop: keeps the last comment of an INFO list. */
  method ReadInfo(f: File, big: bool, size: int, before: Option<seq<byte>>, ghost subs: seq<Sub>)
    returns (ok: bool, comment: Option<seq<byte>>)
    requires size == SubsSize(subs) && SubsAt(f.data, f.pos, subs, f.pos + SubsSize(subs))
    modifies f`pos
    ensures Comments(subs, before) == if ok then Some(comment) else None
    ensures ok ==> f.pos == old(f.pos) + SubsSize(subs)
  {
    hide SubsAt, Comments, SubsSize, Get32;
    var left := size;
    comment := before;
    ghost var rest, end := subs, f.pos + SubsSize(subs);
    assert left == 0 <==> rest == [] by { NoSubs(rest); }
    while left != 0
      invariant left == SubsSize(rest) && f.pos + left == end && SubsAt(f.data, f.pos, rest, end)
      invariant Comments(rest, comment) == Comments(subs, before) && (left == 0 <==> rest == [])
      decreases |rest|
    {
      NextSub(f.data, f.pos, rest, end, comment);
      var found, id, n := ReadChunk(f, big);
      if id == ICMT {
        var read, text := f.Read(n);
        if !read {
          return false, comment;
        }
        comment := Some(text);
        if n % 2 == 1 {
          f.Seek(f.pos + 1);
        }
      } else {
        f.Seek(f.pos + Pad2(n));
      }
      left := left - (8 + Pad2(n));
      rest := rest[1..];
      NoSubs(rest);
    }
    ok := true;
    NoComments(comment);
  }

  lemma NoSubs(subs: seq<Sub>)
    ensures SubsSize(subs) == 0 <==> subs == []
  {
  }

  lemma NoComments(comment: Option<seq<byte>>)
    ensures Comments([], comment) == Some(comment)
  {
  }

  /** What the next chunk of an INFO list reads as, and what it does to the comment. */
  lemma NextSub(s: seq<byte>, pos: nat, subs: seq<Sub>, end: nat, comment: Option<seq<byte>>)
    requires SubsAt(s, pos, subs, end) && subs != []
    ensures var c, n := subs[0], |subs[0].body|;
            pos + 8 + Pad2(n) <= |s| && s[pos..pos + 4] == c.id && Signed32(Get32(false, s[pos + 4..pos + 8])) == n &&
            s[pos + 8..pos + 8 + n] == c.body && SubsAt(s, pos + 8 + Pad2(n), subs[1..], end) &&
            SubsSize(subs) == 8 + Pad2(n) + SubsSize(subs[1..]) &&
            Comments(subs, comment) == (if c.id != ICMT then Comments(subs[1..], comment)
                                        else if n == 0 then None else Comments(subs[1..], Some(c.body)))
  {
    hide HeaderAt, Get32;
    HeaderReads(s, pos, subs[0].id, |subs[0].body|);
  }

  /** The fields of a format chunk; those of no interest are read past. */
  method ReadFormat(f: File, big: bool, before: Found, size: int) returns (ok: bool, found: Found)
    requires FMT_SIZE <= size && 8 <= f.pos && f.pos + Pad2(size) <= |f.data| && before.format == 0
    modifies f`pos
    ensures Gather(before, Plain(FMT, f.data[old(f.pos)..old(f.pos) + size]), old(f.pos) - 8) ==
            if ok then Some(found) else None
    ensures ok ==> f.pos == old(f.pos) + Pad2(size)
  {
    hide Get16, Get32;
    ghost var pos, body := f.pos, f.data[f.pos..f.pos + size];
    found := before;
    var format := ReadS(f, big);
    var channels := ReadS(f, big);
    var rate := ReadL(f, big);
    var dummy := ReadL(f, big);
    var dummy2 := ReadS(f, big);
    FormatFields(f.data, pos, size);
    if format != PCM {
      return false, found;
    }
    var bits := ReadS(f, big);
    found := found.(format := format, channels := channels, rate := rate, bits := bits);
    f.Seek(f.pos + Pad2(size - FMT_SIZE));
    ok := true;
  }

  lemma FormatFields(s: seq<byte>, pos: nat, size: nat)
    requires FMT_SIZE <= size && pos + size <= |s|
    ensures var b := s[pos..pos + size];
            b[0..2] == s[pos..pos + 2] && b[2..4] == s[pos + 2..pos + 4] && b[4..8] == s[pos + 4..pos + 8] &&
            b[14..16] == s[pos + 14..pos + 16]
    ensures FMT_SIZE + Pad2(size - FMT_SIZE) == Pad2(size)
  {
    SliceWithin(s, pos, pos + size, 0, 2);
    SliceWithin(s, pos, pos + size, 2, 4);
    SliceWithin(s, pos, pos + size, 4, 8);
    SliceWithin(s, pos, pos + size, 14, 16);
  }

  /** A chunk whose header has been read. */
  method TakeChunk(f: File, big: bool, id: seq<byte>, size: int, before: Found, ghost c: Chunk, ghost at: nat)
    returns (ok: bool, found: Found)
    requires ChunkAt(f.data, at, c) && f.pos == at + 8 && id == f.data[at..at + 4] && size == BodySize(c)
    modifies f`pos
    ensures Gather(before, c, at) == if ok then Some(found) else None
    ensures ok ==> if c.Cut? then f.pos >= |f.data| else f.pos == After(at, c)
  {
    hide SubsAt, Comments, Get16, Get32, Put32;
    found := before;
    ok := true;
    ListOrNot(f.data, at, c);
    if id == LIST {
      var got, kind := f.Read(4);
      if kind == INFO {
        var comment;
        ok, comment := ReadInfo(f, big, size - 4, found.comment, c.subs);
        found := found.(comment := comment);
      } else {
        f.Seek(f.pos + Pad2(size) - 4);
      }
    } else if id == FMT && found.format == 0 {
      ok, found := ReadFormat(f, big, found, size);
    } else if id == DATA && found.start == 0 {
      var start := f.pos;
      f.Seek(|f.data|);
      var endOfFile := f.pos;
      f.Seek(start + Pad2(size));
      // a size that reaches past the end of the file is taken to be bogus
      var bogus := f.pos > endOfFile;
      f.Seek(if bogus then endOfFile else f.pos);
      var left := f.pos - start;
      found := found.(start := start, dataSize := if bogus then left else size);
    } else {
      f.Seek(f.pos + Pad2(size));
    }
  }

  /** What the reader sees first of a chunk. */
  lemma ListOrNot(s: seq<byte>, at: nat, c: Chunk)
    requires ChunkAt(s, at, c)
    ensures at + 8 <= |s| && BodySize(c) < 0x8000_0000
    ensures at + 8 + Pad2(BodySize(c)) > |s| <==> c.Cut?
    ensures c.Cut? ==> s[at..at + 4] == DATA && |c.body| == |s| - at - 8
    ensures c.Info? ==>
              s[at..at + 4] == LIST && s[at + 8..at + 12] == INFO &&
              BodySize(c) == 4 + SubsSize(c.subs) == Pad2(BodySize(c)) &&
              SubsAt(s, at + 12, c.subs, at + 12 + SubsSize(c.subs))
    ensures c.Plain? ==> s[at..at + 4] == c.id && s[at + 8..at + 8 + |c.body|] == c.body
    ensures c.Plain? && c.id == LIST ==> |c.body| >= 4 && s[at + 8..at + 12] == c.body[..4] != INFO
    ensures c.Plain? && c.id == FMT ==> |c.body| >= FMT_SIZE
  {
    hide SubsAt, Put32;
    if c.Info? {
      EvenSize(c.subs);
    } else if c.Plain? && c.id == LIST {
      assert s[at + 8..at + 12] == s[at + 8..at + 8 + |c.body|][..4];
    }
  }

  lemma {:induction false} EvenSize(subs: seq<Sub>)
    ensures SubsSize(subs) % 2 == 0
  {
    if subs != [] {
      EvenSize(subs[1..]);
    }
  }

  /** A sound file open for reading. */
  datatype WaveInfo = WaveInfo(comment: seq<byte>, channels: u16, rate: u32, bits: u16, dataOffset: int, dataSize: int,
                               numSamples: int)

  /** How opening a file ends. */
  datatype Opening =
    | Open(info: WaveInfo)
    | Refused
    | Unset                               // without a format the number of channels is read though it was never set
    | DividesByZero

  /** A `short` as an unsigned 32-bit number. */
  function Unsigned(x: u16): (y: u32)
    ensures y == 0 <==> x == 0
  {
    if x >= 0x8000 then x + 0xFFFF_0000 else x
  }

  /** `bitsPerSample >> 3` as an unsigned 32-bit number. */
  function SampleBytes(bits: u16): (y: u32)
    ensures y == 0 <==> bits < 8
  {
    if bits >= 0x8000 then 0x1_0000_0000 + (bits - 0x1_0000) / 8 else bits / 8
  }

  /** What becomes of what has been gathered: without a comment the file's name serves as one. */
  function Decided(found: Found, fileName: seq<byte>, long: nat): (r: Opening)
  {
    if found.start == 0 then Refused
    else if found.format == 0 then Unset
    else if found.channels == 0 || found.bits < 8 then DividesByZero
    else
      var comment := if found.comment.Some? then found.comment.value else fileName;
      Open(WaveInfo(comment, found.channels, found.rate, found.bits, found.start - long, found.dataSize,
                    found.dataSize / Unsigned(found.channels) / SampleBytes(found.bits)))
  }

  /** What opening a file gives. `long` is the size of a C `long`. */
  ghost function Opened(s: seq<byte>, cs: seq<Chunk>, size: u32, fileName: seq<byte>, long: nat): (r: Opening)
    requires StartsRight(s) ==> WfFile(s, cs, size)
  {
    if !StartsRight(s) then Refused
    else match GatherAll(s, NOTHING, cs, 12, 8 + Pad2(size))
      case None => Refused
      case Some(found) => Decided(found, fileName, long)
  }

  /** Chunk `k` is the first format chunk. */
  ghost predicate FirstFormat(cs: seq<Chunk>, k: nat)
  {
    k < |cs| && cs[k].Plain? && cs[k].id == FMT && forall j :: 0 <= j < k ==> !(cs[j].Plain? && cs[j].id == FMT)
  }

  lemma FirstFormatLater(cs: seq<Chunk>, k: nat)
    requires cs != [] && !(cs[0].Plain? && cs[0].id == FMT)
    ensures FirstFormat(cs, k + 1) <==> FirstFormat(cs[1..], k)
    ensures !FirstFormat(cs, 0)
  {
    if FirstFormat(cs[1..], k) {
      forall j | 0 <= j < k + 1
        ensures !(cs[j].Plain? && cs[j].id == FMT)
      {
        assert j > 0 ==> cs[j] == cs[1..][j - 1];
      }
    }
  }

  /** What is gathered of the format comes from the first format chunk, or there is none. */
  lemma {:induction false} FormatGathered(s: seq<byte>, found: Found, cs: seq<Chunk>, pos: nat, end: nat)
    requires ChunksAt(s, pos, cs, end) && GatherAll(s, found, cs, pos, end).Some?
    ensures var r := GatherAll(s, found, cs, pos, end).value;
            if found.format != 0 then r.format == found.format && r.channels == found.channels && r.bits == found.bits
            else (r.format != 0 <==> exists k: nat :: FirstFormat(cs, k)) &&
                 forall k: nat :: FirstFormat(cs, k) ==>
                   |cs[k].body| >= FMT_SIZE && r.channels == Get16(false, cs[k].body[2..4]) &&
                   r.bits == Get16(false, cs[k].body[14..16])
    decreases |cs|
  {
    hide Get16, Get32, Comments, SubsAt, HeaderAt, Put32;
    if cs != [] {
      var next := Gather(found, cs[0], pos).value;
      if !cs[0].Cut? {
        FormatGathered(s, next, cs[1..], After(pos, cs[0]), end);
      }
      if cs[0].Plain? && cs[0].id == FMT {
        assert FirstFormat(cs, 0);
        assert forall k: nat :: FirstFormat(cs, k) ==> k == 0;
      } else {
        forall k: nat
          ensures k > 0 ==> (FirstFormat(cs, k) <==> FirstFormat(cs[1..], k - 1))
          ensures !FirstFormat(cs, 0)
        {
          FirstFormatLater(cs, if k > 0 then k - 1 else 0);
        }
        if k: nat :| FirstFormat(cs[1..], k) {
          assert FirstFormat(cs, k + 1);
        }
      }
    }
  }

  predicate IsFormat(c: Chunk)
  {
    c.Plain? && c.id == FMT
  }

  predicate IsData(c: Chunk)
  {
    c.Cut? || (c.Plain? && c.id == DATA)
  }

  /** An information list with a comment of no bytes at all. */
  predicate HasEmptyComment(c: Chunk)
  {
    c.Info? && exists sub <- c.subs :: sub.id == ICMT && sub.body == []
  }

  /** The first format chunk is for something else than plain samples. */
  ghost predicate WrongFormat(cs: seq<Chunk>)
  {
    exists k: nat :: WrongFormatAt(cs, k)
  }

  ghost predicate WrongFormatAt(cs: seq<Chunk>, k: nat)
  {
    FirstFormat(cs, k) && |cs[k].body| >= FMT_SIZE && Get16(false, cs[k].body[0..2]) != PCM
  }

  /** Where the chunks end that start at `pos`, going by their sizes. */
  function EndOf(cs: seq<Chunk>, pos: nat): (end: nat)
  {
    if cs == [] then pos else EndOf(cs[1..], After(pos, cs[0]))
  }

  /** The samples are cut off, and there should be a further chunk behind them. */
  predicate MissingBehind(cs: seq<Chunk>, pos: nat, end: nat)
  {
    cs != [] && cs[|cs| - 1].Cut? && end - EndOf(cs, pos) >= 8
  }

  /** What makes the reader refuse a well-formed file. */
  ghost predicate Unreadable(cs: seq<Chunk>, size: u32)
  {
    (exists c <- cs :: HasEmptyComment(c)) || WrongFormat(cs) || (forall c <- cs :: !IsData(c)) ||
    MissingBehind(cs, 12, 8 + Pad2(size))
  }

  /** A list of information is in error exactly if one of its comments is empty. */
  lemma {:induction false} CommentsFail(subs: seq<Sub>, comment: Option<seq<byte>>)
    ensures Comments(subs, comment) == None <==> exists sub <- subs :: sub.id == ICMT && sub.body == []
    decreases |subs|
  {
    if subs != [] {
      CommentsFail(subs[1..], if subs[0].id == ICMT then Some(subs[0].body) else comment);
      assert forall sub :: sub in subs <==> sub == subs[0] || sub in subs[1..];
    }
  }

  lemma WrongFormatLater(cs: seq<Chunk>)
    requires cs != []
    ensures IsFormat(cs[0]) ==>
              (WrongFormat(cs) <==> |cs[0].body| >= FMT_SIZE && Get16(false, cs[0].body[0..2]) != PCM)
    ensures !IsFormat(cs[0]) ==> (WrongFormat(cs) <==> WrongFormat(cs[1..]))
  {
    hide Get16;
    if IsFormat(cs[0]) {
      assert FirstFormat(cs, 0);
      assert forall k: nat :: FirstFormat(cs, k) ==> k == 0;
      assert WrongFormatAt(cs, 0) <==> |cs[0].body| >= FMT_SIZE && Get16(false, cs[0].body[0..2]) != PCM;
    } else {
      FirstFormatLater(cs, 0);
      if k: nat :| WrongFormatAt(cs, k) {
        FirstFormatLater(cs, k - 1);
        assert WrongFormatAt(cs[1..], k - 1);
      }
      if k: nat :| WrongFormatAt(cs[1..], k) {
        FirstFormatLater(cs, k);
        assert WrongFormatAt(cs, k + 1);
      }
    }
  }

  /** What one chunk does: when it is refused, and whether samples and a format have been seen after it. */
  lemma GatherOne(found: Found, c: Chunk, pos: nat)
    requires IsFormat(c) ==> |c.body| >= FMT_SIZE
    ensures Gather(found, c, pos) == None <==>
            HasEmptyComment(c) || (IsFormat(c) && found.format == 0 && Get16(false, c.body[0..2]) != PCM)
    ensures Gather(found, c, pos).Some? ==>
              var next := Gather(found, c, pos).value;
              (next.start != 0 <==> found.start != 0 || IsData(c)) &&
              (next.format != 0 <==> found.format != 0 || IsFormat(c))
  {
    hide Get16, Get32;
    if c.Info? {
      CommentsFail(c.subs, found.comment);
    }
  }

  lemma ChunkFirst(s: seq<byte>, cs: seq<Chunk>, pos: nat, end: nat)
    requires ChunksAt(s, pos, cs, end) && cs != []
    ensures IsFormat(cs[0]) ==> |cs[0].body| >= FMT_SIZE
    ensures if cs[0].Cut? then cs == [cs[0]] else ChunksAt(s, After(pos, cs[0]), cs[1..], end)
  {
  }

  /** When gathering fails, and when it finds samples. */
  lemma {:induction false} GatherFails(s: seq<byte>, found: Found, cs: seq<Chunk>, pos: nat, end: nat)
    requires ChunksAt(s, pos, cs, end)
    ensures GatherAll(s, found, cs, pos, end) == None <==>
            (exists c <- cs :: HasEmptyComment(c)) || (found.format == 0 && WrongFormat(cs)) ||
            MissingBehind(cs, pos, end)
    ensures GatherAll(s, found, cs, pos, end).Some? ==>
              (GatherAll(s, found, cs, pos, end).value.start != 0 <==> found.start != 0 || exists c <- cs :: IsData(c))
    decreases |cs|
  {
    hide Get16, Gather, HasEmptyComment, ChunksAt, After, IsData, WrongFormat;
    if cs == [] {
      NoFormats();
    } else {
      ChunkFirst(s, cs, pos, end);
      GatherOne(found, cs[0], pos);
      WrongFormatLater(cs);
      assert forall c :: c in cs <==> c == cs[0] || c in cs[1..];
      if cs[0].Cut? {
        CutIsNone(cs[0], pos);
        NoFormats();
      } else {
        if Gather(found, cs[0], pos).Some? {
          GatherFails(s, Gather(found, cs[0], pos).value, cs[1..], After(pos, cs[0]), end);
        }
        MissingLater(cs, pos, end);
      }
    }
  }

  lemma NoFormats()
    ensures !WrongFormat([])
  {
  }

  lemma CutIsNone(c: Chunk, pos: nat)
    requires c.Cut?
    ensures !IsFormat(c) && !HasEmptyComment(c) && IsData(c) && EndOf([c], pos) == After(pos, c)
  {
    assert [c][1..] == [];
  }

  lemma MissingLater(cs: seq<Chunk>, pos: nat, end: nat)
    requires cs != [] && !cs[0].Cut?
    ensures MissingBehind(cs, pos, end) <==> MissingBehind(cs[1..], After(pos, cs[0]), end)
  {
  }

  /** A well-formed file is refused exactly for one of these reasons, all of which show in its chunks. */
  lemma RefusedExactly(s: seq<byte>, cs: seq<Chunk>, size: u32, fileName: seq<byte>, long: nat)
    requires WfFile(s, cs, size)
    ensures Opened(s, cs, size, fileName, long).Refused? <==> Unreadable(cs, size)
  {
    hide GatherAll, ChunksAt, WrongFormat, MissingBehind, HasEmptyComment, IsData;
    GatherFails(s, NOTHING, cs, 12, 8 + Pad2(size));
  }

  /** The first format chunk gives at least one channel and at least eight bits. */
  ghost predicate GoodFormat(cs: seq<Chunk>, k: nat)
  {
    FirstFormat(cs, k) && |cs[k].body| >= FMT_SIZE && Get16(false, cs[k].body[2..4]) != 0 &&
    Get16(false, cs[k].body[14..16]) >= 8
  }

  /**
   * Any other opens exactly if it has a format chunk, and the first one gives at least one channel and
   * at least eight bits. Otherwise opening it reads fields that were never set, or divides by zero.
   */
  lemma OpensExactly(s: seq<byte>, cs: seq<Chunk>, size: u32, fileName: seq<byte>, long: nat)
    requires WfFile(s, cs, size)
    ensures Opened(s, cs, size, fileName, long).Open? <==> !Unreadable(cs, size) && exists k: nat :: GoodFormat(cs, k)
    ensures Opened(s, cs, size, fileName, long).Unset? <==>
            !Unreadable(cs, size) && forall k: nat :: !FirstFormat(cs, k)
    ensures Opened(s, cs, size, fileName, long).DividesByZero? <==>
            !Unreadable(cs, size) && exists k: nat :: FirstFormat(cs, k) && !GoodFormat(cs, k)
  {
    hide Get16, Get32, ChunksAt, FirstFormat, GatherAll, Unreadable;
    RefusedExactly(s, cs, size, fileName, long);
    if !Unreadable(cs, size) {
      FormatGathered(s, NOTHING, cs, 12, 8 + Pad2(size));
      if k: nat :| FirstFormat(cs, k) {
        var r := GatherAll(s, NOTHING, cs, 12, 8 + Pad2(size)).value;
        assert GoodFormat(cs, k) <==> r.channels != 0 && r.bits >= 8;
        forall j: nat
          ensures FirstFormat(cs, j) ==> j == k
        {
          OneFirst(cs, j, k);
        }
      }
    }
  }

  lemma OneFirst(cs: seq<Chunk>, j: nat, k: nat)
    ensures FirstFormat(cs, j) && FirstFormat(cs, k) ==> j == k
  {
  }

  /** `WaveOpenFileForReading`, on anything that is not a RIFF/WAVE file and on every well-formed one. */
  method OpenFileForReading(f: File, big: bool, fileName: seq<byte>, long: nat, ghost cs: seq<Chunk>, ghost size: u32)
    returns (r: Opening)
    requires f.pos == 0 && (long == 4 || long == 8) && (StartsRight(f.data) ==> WfFile(f.data, cs, size))
    modifies f`pos
    ensures r == Opened(f.data, cs, size, fileName, long)
    // the file is positioned at the samples
    ensures r.Open? ==> f.pos == r.info.dataOffset + long
  {
    hide ChunkAt, Gather, Get32, Put32, BodySize, GatherAll;
    var starts, n := ReadStart(f, big);
    if !starts {
      return Refused;
    }
    assert n == size by { SizeReads(f.data, cs, size); }
    var fileSize := Pad2(n) - 4;
    var found := NOTHING;
    ghost var rest, end, over := cs, 8 + Pad2(size), false;
    while fileSize >= 8
      invariant !over ==> Ahead(f.data, found, rest, f.pos, end, GatherAll(f.data, NOTHING, cs, 12, end))
      invariant if over then f.pos >= |f.data| else fileSize == end - f.pos
      invariant over ==> GatherAll(f.data, NOTHING, cs, 12, end) == if fileSize >= 8 then None else Some(found)
      invariant found.start == 0 || found.start >= 20
      decreases |rest|, !over
    {
      ghost var at, c := f.pos, if rest == [] then Plain([], []) else rest[0];
      if !over {
        NextChunk(f.data, found, rest, at, end, GatherAll(f.data, NOTHING, cs, 12, end));
      }
      var ok, id, ckSize := ReadChunk(f, big);
      if !ok {
        return Refused;
      }
      fileSize := fileSize - (8 + Pad2(ckSize));
      ok, found := TakeChunk(f, big, id, ckSize, found, c, at);
      if !ok {
        return Refused;
      }
      rest := rest[1..];
      over := c.Cut?;
    }
    if !over {
      NothingAhead(f.data, found, rest, f.pos, end, GatherAll(f.data, NOTHING, cs, 12, end));
    }
    if found.start == 0 {
      return Refused;
    }
    if found.format == 0 {
      return Unset;
    }
    if found.channels == 0 || found.bits < 8 {
      return DividesByZero;
    }
    var dataOffset := found.start - long;
    var numSamples := found.dataSize / Unsigned(found.channels) / SampleBytes(found.bits);
    f.Seek(dataOffset + long);
    var comment := if found.comment.Some? then found.comment.value else fileName;
    r := Open(WaveInfo(comment, found.channels, found.rate, found.bits, dataOffset, found.dataSize, numSamples));
  }

  /** The chunks `rest` are still to come, and lead from what has been found to `all`. */
  ghost predicate Ahead(s: seq<byte>, found: Found, rest: seq<Chunk>, pos: nat, end: nat, all: Option<Found>)
  {
    12 <= pos && ChunksAt(s, pos, rest, end) && GatherAll(s, found, rest, pos, end) == all
  }

  /** What the next chunk does. */
  lemma NextChunk(s: seq<byte>, found: Found, rest: seq<Chunk>, pos: nat, end: nat, all: Option<Found>)
    requires Ahead(s, found, rest, pos, end, all) && end - pos >= 8 && (found.start == 0 || found.start >= 20)
    ensures rest != [] && ChunkAt(s, pos, rest[0])
    ensures pos + 8 <= |s| && Signed32(Get32(false, s[pos + 4..pos + 8])) == BodySize(rest[0])
    ensures rest[0].Plain? && rest[0].id == FMT ==> |rest[0].body| >= FMT_SIZE
    ensures match Gather(found, rest[0], pos)
            case None => all == None
            case Some(next) =>
              (next.start == 0 || next.start >= 20) &&
              if rest[0].Cut? then all == if end - After(pos, rest[0]) >= 8 then None else Some(next)
              else Ahead(s, next, rest[1..], After(pos, rest[0]), end, all)
  {
    hide Get32, Get16, Put32, ChunkAt, Comments;
    ChunkHeader(s, pos, rest[0]);
  }

  lemma NothingAhead(s: seq<byte>, found: Found, rest: seq<Chunk>, pos: nat, end: nat, all: Option<Found>)
    requires Ahead(s, found, rest, pos, end, all) && end - pos < 8
    ensures all == Some(found)
  {
    hide ChunkAt;
    NoChunkFits(s, pos, rest, end);
  }

  /** The checks on the first twelve bytes. */
  method ReadStart(f: File, big: bool) returns (ok: bool, size: int)
    requires f.pos == 0
    modifies f`pos
    ensures ok == StartsRight(f.data)
    ensures ok ==> f.pos == 12 && size == Signed32(Get32(false, f.data[4..8]))
  {
    hide Get32;
    var id;
    ok, id, size := ReadChunk(f, big);
    if ok && id == RIFF {
      var kind;
      ok, kind := f.Read(4);
      ok := ok && kind == WAVE;
    } else {
      ok := false;
    }
  }

  lemma SizeReads(s: seq<byte>, cs: seq<Chunk>, size: u32)
    requires WfFile(s, cs, size)
    ensures Signed32(Get32(false, s[4..8])) == size
  {
    hide Get32, Put32, ChunksAt;
    WordRoundTrip(false, 0, size);
  }

  lemma ChunkHeader(s: seq<byte>, at: nat, c: Chunk)
    requires ChunkAt(s, at, c)
    ensures at + 8 <= |s| && Signed32(Get32(false, s[at + 4..at + 8])) == BodySize(c)
    ensures c.Plain? && c.id == FMT ==> |c.body| >= FMT_SIZE
  {
    hide SubsAt, Get32, Put32;
    if c.Cut? {
      WordRoundTrip(false, 0, c.size);
    } else {
      HeaderReads(s, at, if c.Info? then LIST else c.id, BodySize(c));
    }
  }

  /** Fewer than eight bytes are left only at the very end. */
  lemma NoChunkFits(s: seq<byte>, pos: nat, cs: seq<Chunk>, end: nat)
    requires ChunksAt(s, pos, cs, end) && end - pos < 8
    ensures cs == []
  {
    if cs != [] && !cs[0].Cut? {
      ChunksAhead(s, After(pos, cs[0]), cs[1..], end);
    }
  }

  lemma {:induction false} ChunksAhead(s: seq<byte>, pos: nat, cs: seq<Chunk>, end: nat)
    requires ChunksAt(s, pos, cs, end)
    ensures pos <= end
    decreases |cs|
  {
    if cs != [] && !cs[0].Cut? {
      ChunksAhead(s, After(pos, cs[0]), cs[1..], end);
    }
  }

  // Round trip ---------------------------------------------------------------------------------

  /** The chunks of a file this library writes. */
  function ChunksOf(s: Sound, data: seq<byte>): (cs: seq<Chunk>)
  {
    (if s.comment == [] then [] else [Info([Sub(ICMT, s.comment + [0])])]) + [Plain(FMT, FmtBody(s)), Plain(DATA, data)]
  }

  /** `part` lies at `pos`. */
  predicate PartAt(s: seq<byte>, pos: nat, part: seq<byte>)
  {
    pos + |part| <= |s| && s[pos..pos + |part|] == part
  }

  lemma PartsLie(a: seq<byte>, b: seq<byte>, c: seq<byte>)
    ensures PartAt(a + b + c, |a|, b)
  {
  }

  lemma PartOfPart(s: seq<byte>, pos: nat, part: seq<byte>, i: nat, j: nat)
    requires PartAt(s, pos, part) && i <= j <= |part|
    ensures s[pos + i..pos + j] == part[i..j]
  {
    SliceWithin(s, pos, pos + |part|, i, j);
  }

  lemma CommentLies(comment: seq<byte>, f: seq<byte>, at: nat)
    requires 0 < |comment| < 0x7000_0000 && PartAt(f, at, ListPart(comment)) && at < 0x1000
    ensures ChunkAt(f, at, Info([Sub(ICMT, comment + [0])]))
  {
    hide Put32;
    var n, part := |comment| + 1, ListPart(comment);
    PartOfPart(f, at, part, 0, 4);
    PartOfPart(f, at, part, 4, 8);
    PartOfPart(f, at, part, 8, 12);
    PartOfPart(f, at, part, 12, 16);
    PartOfPart(f, at, part, 16, 20);
    PartOfPart(f, at, part, 20, 20 + n);
    CommentSlices(comment);
    var sub := Sub(ICMT, comment + [0]);
    assert [sub][1..] == [] && SubsSize([]) == 0;
    assert SubsAt(f, at + 12 + 8 + Pad2(n), [], at + 12 + SubsSize([sub]));
  }

  lemma CommentSlices(comment: seq<byte>)
    requires 0 < |comment| < 0x7000_0000
    ensures var n, part := |comment| + 1, ListPart(comment);
            part[0..4] == LIST && part[4..8] == Le32(12 + Pad2(n)) && part[8..12] == INFO && part[12..16] == ICMT &&
            part[16..20] == Le32(n) && part[20..20 + n] == comment + [0]
  {
    hide Put32;
  }

  lemma FormatLies(s: Sound, f: seq<byte>, at: nat)
    requires PartAt(f, at, FmtPart(s))
    ensures ChunkAt(f, at, Plain(FMT, FmtBody(s)))
  {
    hide Put32, FmtBody;
    PartOfPart(f, at, FmtPart(s), 0, 4);
    PartOfPart(f, at, FmtPart(s), 4, 8);
    PartOfPart(f, at, FmtPart(s), 8, 24);
    FormatSlices(s);
    assert HeaderAt(f, at, FMT, FMT_SIZE);
    assert f[at + 8..at + 8 + |FmtBody(s)|] == FmtBody(s);
  }

  lemma FormatSlices(s: Sound)
    ensures |FmtBody(s)| == FMT_SIZE && FMT != LIST
    ensures FmtPart(s)[0..4] == FMT && FmtPart(s)[4..8] == Le32(FMT_SIZE) && FmtPart(s)[8..24] == FmtBody(s)
  {
    hide Put32, Put16;
    assert FMT[0] != LIST[0];
  }

  lemma DataLies(data: seq<byte>, f: seq<byte>, at: nat)
    requires |data| < 0x7000_0000 && PartAt(f, at, DATA + Le32(|data|) + data + Zeros(Pad2(|data|) - |data|))
    ensures ChunkAt(f, at, Plain(DATA, data))
  {
    hide Put32;
    var part := DATA + Le32(|data|) + data + Zeros(Pad2(|data|) - |data|);
    PartOfPart(f, at, part, 0, 4);
    PartOfPart(f, at, part, 4, 8);
    PartOfPart(f, at, part, 8, 8 + |data|);
    assert part[8..8 + |data|] == data && part[0..4] == DATA && part[4..8] == Le32(|data|);
    assert HeaderAt(f, at, DATA, |data|);
  }

  /** Where the parts of a written file lie. */
  lemma WrittenParts(s: Sound, data: seq<byte>)
    requires HeadSize(s) + |data| < 0x7000_0000 && |s.comment| < 0x7000_0000
    ensures var f, l := WaveFile(s, data), |ListPart(s.comment)|;
            StartsRight(f) && f[4..8] == Le32(HeadSize(s) - 8 + Pad2(|data|)) && |f| == HeadSize(s) + Pad2(|data|) &&
            HeadSize(s) == 44 + l &&
            PartAt(f, 12, ListPart(s.comment)) && PartAt(f, 12 + l, FmtPart(s)) &&
            PartAt(f, 36 + l, DATA + Le32(|data|) + data + Zeros(Pad2(|data|) - |data|))
  {
    hide Put32, ListPart, FmtPart, WaveFile, Head;
    var start, list, fmt := RIFF + Le32(HeadSize(s) - 8 + Pad2(|data|)) + WAVE, ListPart(s.comment), FmtPart(s);
    var last := DATA + Le32(|data|) + data + Zeros(Pad2(|data|) - |data|);
    var f := WaveFile(s, data);
    FileParts(s, data);
    AppendAssociative(start + list, fmt, last);
    PartsLie(start, list, fmt + last);
    PartsLie(start + list, fmt, last);
    PartsLie(start + list + fmt, last, []);
    assert f + [] == f;
  }

  lemma FileParts(s: Sound, data: seq<byte>)
    requires HeadSize(s) + |data| < 0x7000_0000 && |s.comment| < 0x7000_0000
    ensures WaveFile(s, data) ==
            (RIFF + Le32(HeadSize(s) - 8 + Pad2(|data|)) + WAVE) + ListPart(s.comment) + FmtPart(s) +
                                 (DATA + Le32(|data|) + data + Zeros(Pad2(|data|) - |data|))
  {
    hide Put32, ListPart, FmtPart;
  }

  /** What this library writes is a well-formed RIFF/WAVE file. */
  lemma WrittenIsWellFormed(s: Sound, data: seq<byte>)
    requires HeadSize(s) + |data| < 0x7000_0000 && |s.comment| < 0x7000_0000
    ensures WfFile(WaveFile(s, data), ChunksOf(s, data), HeadSize(s) - 8 + Pad2(|data|))
  {
    hide Put32, ListPart, FmtPart, FmtBody, Head, WaveFile, ChunkAt;
    var f, l, cs := WaveFile(s, data), |ListPart(s.comment)|, ChunksOf(s, data);
    WrittenParts(s, data);
    var end := HeadSize(s) + Pad2(|data|);
    FormatLies(s, f, 12 + l);
    DataLies(data, f, 36 + l);
    var last := [Plain(DATA, data)];
    assert last[1..] == [] && ChunksAt(f, end, [], end);
    assert ChunksAt(f, 36 + l, last, end);
    var two := [Plain(FMT, FmtBody(s)), Plain(DATA, data)];
    assert two[1..] == last;
    assert ChunksAt(f, 12 + l, two, end);
    if s.comment != [] {
      CommentLies(s.comment, f, 12);
      var list := Info([Sub(ICMT, s.comment + [0])]);
      assert cs == [list] + two && cs[1..] == two;
      assert After(12, list) == 12 + l by { ListSize(s.comment); }
    } else {
      assert cs == two;
    }
  }

  lemma ListSize(comment: seq<byte>)
    requires 0 < |comment|
    ensures After(12, Info([Sub(ICMT, comment + [0])])) == 32 + Pad2(|comment| + 1)
  {
    var sub := Sub(ICMT, comment + [0]);
    assert [sub][1..] == [] && SubsSize([]) == 0;
  }

  /**
   * Closing and reopening recovers everything, the parameters, the comment with its terminator and
   * the samples, exactly if there is a channel and samples have at least eight bits; else it divides
   * by zero.
   */
  lemma RoundTrip(s: Sound, data: seq<byte>, fileName: seq<byte>, long: nat)
    requires HeadSize(s) + |data| < 0x7000_0000 && |s.comment| < 0x7000_0000
    ensures var f, size := WaveFile(s, data), HeadSize(s) - 8 + Pad2(|data|);
            WfFile(f, ChunksOf(s, data), size) &&
            Opened(f, ChunksOf(s, data), size, fileName, long) ==
              (if s.channels == 0 || s.bits < 8 then DividesByZero
               else Open(WaveInfo(if s.comment == [] then fileName else s.comment + [0], s.channels, s.rate, s.bits,
                                  HeadSize(s) - long, |data|, |data| / Unsigned(s.channels) / SampleBytes(s.bits)))) &&
            |f| >= HeadSize(s) + |data| && f[HeadSize(s)..HeadSize(s) + |data|] == data
  {
    hide Put32, ListPart, FmtPart, FmtBody, Head, WaveFile, ChunkAt, ChunksAt, Get32, Get16, GatherAll, ChunksOf;
    hide Decided, Unsigned, SampleBytes;
    var f, l := WaveFile(s, data), |ListPart(s.comment)|;
    WrittenIsWellFormed(s, data);
    WrittenParts(s, data);
    DataLies(data, f, 36 + l);
    ChunksGathered(s, data, f, l, HeadSize(s) + Pad2(|data|));
    WrittenDecided(s, |data|, fileName, long);
    DataSlice(data, f, 36 + l);
  }

  /** What reading a written file gathers. */
  function FoundOf(s: Sound, size: nat): (found: Found)
  {
    Found(if s.comment == [] then None else Some(s.comment + [0]), PCM, s.channels, s.rate, s.bits, HeadSize(s), size)
  }

  lemma WrittenDecided(s: Sound, size: nat, fileName: seq<byte>, long: nat)
    ensures Decided(FoundOf(s, size), fileName, long) ==
            if s.channels == 0 || s.bits < 8 then DividesByZero
            else Open(WaveInfo(if s.comment == [] then fileName else s.comment + [0], s.channels, s.rate, s.bits,
                               HeadSize(s) - long, size, size / Unsigned(s.channels) / SampleBytes(s.bits)))
  {
    hide Unsigned, SampleBytes;
  }

  lemma ChunksGathered(s: Sound, data: seq<byte>, f: seq<byte>, l: nat, end: nat)
    requires |s.comment| < 0x7000_0000 && ChunksAt(f, 12, ChunksOf(s, data), end) && l == |ListPart(s.comment)|
    ensures GatherAll(f, NOTHING, ChunksOf(s, data), 12, end) == Some(FoundOf(s, |data|))
  {
    hide FmtBody, ChunkAt, ChunksAt, GatherAll, ListPart, After;
    var cs, two := ChunksOf(s, data), [Plain(FMT, FmtBody(s)), Plain(DATA, data)];
    if s.comment != [] {
      ListSize(s.comment);
      CommentGathered(s.comment);
      ListFirst(f, Info([Sub(ICMT, s.comment + [0])]), two, end);
      FormatAndDataGathered(s, data, f, NOTHING.(comment := Some(s.comment + [0])), 12 + l, end);
    } else {
      assert cs == two;
      FormatAndDataGathered(s, data, f, NOTHING, 12, end);
    }
  }

  lemma ListFirst(f: seq<byte>, c: Chunk, cs: seq<Chunk>, end: nat)
    requires c.Info? && ChunksAt(f, 12, [c] + cs, end) && Gather(NOTHING, c, 12).Some?
    ensures ChunksAt(f, After(12, c), cs, end)
    ensures GatherAll(f, NOTHING, [c] + cs, 12, end) ==
            GatherAll(f, Gather(NOTHING, c, 12).value, cs, After(12, c), end)
  {
    hide Gather, ChunkAt;
    assert ([c] + cs)[1..] == cs;
  }

  lemma FormatAndDataGathered(s: Sound, data: seq<byte>, f: seq<byte>, found: Found, at: nat, end: nat)
    requires ChunksAt(f, at, [Plain(FMT, FmtBody(s)), Plain(DATA, data)], end) && found.format == 0 && found.start == 0
    ensures GatherAll(f, found, [Plain(FMT, FmtBody(s)), Plain(DATA, data)], at, end) ==
            Some(found.(format := PCM, channels := s.channels, rate := s.rate, bits := s.bits, start := at + 32,
                        dataSize := |data|))
  {
    hide FmtBody, ChunkAt, Get32, Get16;
    FormatFieldsRead(s);
    var two := [Plain(FMT, FmtBody(s)), Plain(DATA, data)];
    var last := [Plain(DATA, data)];
    assert two[1..] == last && last[1..] == [];
    var formatted := found.(format := PCM, channels := s.channels, rate := s.rate, bits := s.bits);
    assert Gather(found, two[0], at) == Some(formatted);
    assert GatherAll(f, formatted, last, at + 24, end) == Some(formatted.(start := at + 32, dataSize := |data|));
  }

  lemma CommentGathered(comment: seq<byte>)
    ensures Comments([Sub(ICMT, comment + [0])], None) == Some(Some(comment + [0]))
  {
    var sub := Sub(ICMT, comment + [0]);
    assert [sub][1..] == [] && sub.body != [];
  }

  lemma DataSlice(data: seq<byte>, f: seq<byte>, at: nat)
    requires ChunkAt(f, at, Plain(DATA, data))
    ensures at + 8 + |data| <= |f| && f[at + 8..at + 8 + |data|] == data
  {
  }

  lemma FormatFieldsRead(s: Sound)
    ensures var b := FmtBody(s);
            Get16(false, b[0..2]) == PCM && Get16(false, b[2..4]) == s.channels && Get32(false, b[4..8]) == s.rate &&
            Get16(false, b[14..16]) == s.bits
  {
    hide Put16, Get16, Put32, Get32;
    var b := FmtBody(s);
    assert b[0..2] == Le16(PCM) && b[2..4] == Le16(s.channels) && b[4..8] == Le32(s.rate) && b[14..16] == Le16(s.bits);
    WordRoundTrip(false, PCM, s.rate);
    WordRoundTrip(false, s.channels, 0);
    WordRoundTrip(false, s.bits, 0);
  }

  /** A file without channels can be written, and cannot be opened. */
  lemma NoChannels(data: seq<byte>, fileName: seq<byte>, long: nat)
    requires |data| < 0x1000_0000
    ensures var s := Sound([], 0, 8000, 16);
            HeadSize(s) == 44 &&
            WfFile(WaveFile(s, data), ChunksOf(s, data), 36 + Pad2(|data|)) &&
            Opened(WaveFile(s, data), ChunksOf(s, data), 36 + Pad2(|data|), fileName, long) == DividesByZero
  {
    RoundTrip(Sound([], 0, 8000, 16), data, fileName, long);
  }
}
