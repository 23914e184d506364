/** In-place conversion of sample formats, with the mu-law of section 3 of ITU-T G.711. */
module Convert {
  import opened Bytes

  // Mu-law ------------------------------------------------------------------------------------

  const BIAS := 0x84

  /** `ulawToLinearTable`, four rows of sixteen entries each. */
  function LoudNegative(r: nat): (row: seq<u16>)
    requires r < 4
    ensures |row| == 16
  {
    if r == 0 then
      [0x8284, 0x8684, 0x8a84, 0x8e84, 0x9284, 0x9684, 0x9a84, 0x9e84,
       0xa284, 0xa684, 0xaa84, 0xae84, 0xb284, 0xb684, 0xba84, 0xbe84]
    else if r == 1 then
      [0xc184, 0xc384, 0xc584, 0xc784, 0xc984, 0xcb84, 0xcd84, 0xcf84,
       0xd184, 0xd384, 0xd584, 0xd784, 0xd984, 0xdb84, 0xdd84, 0xdf84]
    else if r == 2 then
      [0xe104, 0xe204, 0xe304, 0xe404, 0xe504, 0xe604, 0xe704, 0xe804,
       0xe904, 0xea04, 0xeb04, 0xec04, 0xed04, 0xee04, 0xef04, 0xf004]
    else
      [0xf0c4, 0xf144, 0xf1c4, 0xf244, 0xf2c4, 0xf344, 0xf3c4, 0xf444,
       0xf4c4, 0xf544, 0xf5c4, 0xf644, 0xf6c4, 0xf744, 0xf7c4, 0xf844]
  }

  /** Rows 4 to 7. */
  function SoftNegative(r: nat): (row: seq<u16>)
    requires r < 4
    ensures |row| == 16
  {
    if r == 0 then
      [0xf8a4, 0xf8e4, 0xf924, 0xf964, 0xf9a4, 0xf9e4, 0xfa24, 0xfa64,
       0xfaa4, 0xfae4, 0xfb24, 0xfb64, 0xfba4, 0xfbe4, 0xfc24, 0xfc64]
    else if r == 1 then
      [0xfc94, 0xfcb4, 0xfcd4, 0xfcf4, 0xfd14, 0xfd34, 0xfd54, 0xfd74,
       0xfd94, 0xfdb4, 0xfdd4, 0xfdf4, 0xfe14, 0xfe34, 0xfe54, 0xfe74]
    else if r == 2 then
      [0xfe8c, 0xfe9c, 0xfeac, 0xfebc, 0xfecc, 0xfedc, 0xfeec, 0xfefc,
       0xff0c, 0xff1c, 0xff2c, 0xff3c, 0xff4c, 0xff5c, 0xff6c, 0xff7c]
    else
      [0xff88, 0xff90, 0xff98, 0xffa0, 0xffa8, 0xffb0, 0xffb8, 0xffc0,
       0xffc8, 0xffd0, 0xffd8, 0xffe0, 0xffe8, 0xfff0, 0xfff8, 0x0000]
  }

  /** Rows 8 to 11. */
  function LoudPositive(r: nat): (row: seq<u16>)
    requires r < 4
    ensures |row| == 16
  {
    if r == 0 then
      [0x7d7c, 0x797c, 0x757c, 0x717c, 0x6d7c, 0x697c, 0x657c, 0x617c,
       0x5d7c, 0x597c, 0x557c, 0x517c, 0x4d7c, 0x497c, 0x457c, 0x417c]
    else if r == 1 then
      [0x3e7c, 0x3c7c, 0x3a7c, 0x387c, 0x367c, 0x347c, 0x327c, 0x307c,
       0x2e7c, 0x2c7c, 0x2a7c, 0x287c, 0x267c, 0x247c, 0x227c, 0x207c]
    else if r == 2 then
      [0x1efc, 0x1dfc, 0x1cfc, 0x1bfc, 0x1afc, 0x19fc, 0x18fc, 0x17fc,
       0x16fc, 0x15fc, 0x14fc, 0x13fc, 0x12fc, 0x11fc, 0x10fc, 0x0ffc]
    else
      [0x0f3c, 0x0ebc, 0x0e3c, 0x0dbc, 0x0d3c, 0x0cbc, 0x0c3c, 0x0bbc,
       0x0b3c, 0x0abc, 0x0a3c, 0x09bc, 0x093c, 0x08bc, 0x083c, 0x07bc]
  }

  /** Rows 12 to 15. */
  function SoftPositive(r: nat): (row: seq<u16>)
    requires r < 4
    ensures |row| == 16
  {
    if r == 0 then
      [0x075c, 0x071c, 0x06dc, 0x069c, 0x065c, 0x061c, 0x05dc, 0x059c,
       0x055c, 0x051c, 0x04dc, 0x049c, 0x045c, 0x041c, 0x03dc, 0x039c]
    else if r == 1 then
      [0x036c, 0x034c, 0x032c, 0x030c, 0x02ec, 0x02cc, 0x02ac, 0x028c,
       0x026c, 0x024c, 0x022c, 0x020c, 0x01ec, 0x01cc, 0x01ac, 0x018c]
    else if r == 2 then
      [0x0174, 0x0164, 0x0154, 0x0144, 0x0134, 0x0124, 0x0114, 0x0104,
       0x00f4, 0x00e4, 0x00d4, 0x00c4, 0x00b4, 0x00a4, 0x0094, 0x0084]
    else
      [0x0078, 0x0070, 0x0068, 0x0060, 0x0058, 0x0050, 0x0048, 0x0040,
       0x0038, 0x0030, 0x0028, 0x0020, 0x0018, 0x0010, 0x0008, 0x0000]
  }

  function TableRow(r: nat): (row: seq<u16>)
    requires r < 16
    ensures |row| == 16
  {
    if r < 4 then LoudNegative(r) else if r < 8 then SoftNegative(r - 4)
    else if r < 12 then LoudPositive(r - 8) else SoftPositive(r - 12)
  }

  function UlawToLinear(code: byte): u16
  {
    TableRow(code / 16)[code % 16]
  }

  function Pow2(e: nat): (p: nat)
    requires e < 8
    ensures 1 <= p <= 128
  {
    if e == 0 then 1 else if e == 1 then 2 else if e == 2 then 4 else if e == 3 then 8
    else if e == 4 then 16 else if e == 5 then 32 else if e == 6 then 64 else 128
  }

  /** The number that a 16-bit pattern stands for. */
  function Signed(bits: u16): (x: int)
    ensures -0x8000 <= x < 0x8000
  {
    if bits >= 0x8000 then bits - 0x1_0000 else bits
  }

  /** Conversion of an integer to `short`. */
  function Short(x: int): (bits: u16)
  {
    x % 0x1_0000
  }

  /** `exp_lut`: the position of the highest bit of `i`. */
  function ExpLut(i: nat): (e: nat)
    requires i < 0x100
    ensures e < 8
  {
    if i < 2 then 0 else if i < 4 then 1 else if i < 8 then 2 else if i < 16 then 3
    else if i < 32 then 4 else if i < 64 then 5 else if i < 128 then 6 else 7
  }

  function Shifted(x: int, e: nat): int
    requires e < 8
  {
    if e == 0 then x / 8 else if e == 1 then x / 16 else if e == 2 then x / 32 else if e == 3 then x / 64
    else if e == 4 then x / 128 else if e == 5 then x / 256 else if e == 6 then x / 512 else x / 1024
  }

  /** Sign, exponent and mantissa of a mu-law code, before inversion. */
  datatype Parts = Parts(negative: bool, exponent: nat, mantissa: nat)

  predicate WfParts(p: Parts)
  {
    p.exponent < 8 && p.mantissa < 16
  }

  function Code(p: Parts): (code: byte)
    requires WfParts(p)
  {
    0xFF - ((if p.negative then 0x80 else 0) + 16 * p.exponent + p.mantissa)
  }

  function PartsOf(code: byte): (p: Parts)
    ensures WfParts(p) && Code(p) == code
  {
    var c := 0xFF - code;
    Parts(c >= 0x80, c % 0x80 / 16, c % 16)
  }

  /** `linearToUlaw`, up to the assembly of the byte; the sum with the bias wraps around in a `short`. */
  function Compress(sample: u16): (p: Parts)
    ensures WfParts(p)
  {
    var x := Signed(sample);
    var magnitude := Signed(Short(if x < 0 then -x else x));
    var biased := Signed(Short(magnitude + BIAS));
    var exponent := ExpLut(biased / 128 % 0x100);
    Parts(x < 0, exponent, Shifted(biased, exponent) % 16)
  }

  function LinearToUlaw(sample: u16): (code: byte)
  {
    Code(Compress(sample))
  }

  /** The magnitude a code stands for: the middle of its interval. */
  function Magnitude(p: Parts): (m: int)
    requires WfParts(p)
  {
    (8 * p.mantissa + BIAS) * Pow2(p.exponent) - BIAS
  }

  /** The entry that the law puts at place `k` of a row whose intervals are `8 * step` wide. */
  function LawEntry(negative: bool, step: nat, k: nat): u16
    requires k < 16 && 1 <= step <= 128
  {
    var m := (8 * (15 - k) + BIAS) * step - BIAS;
    if negative && m > 0 then 0x1_0000 - m else m
  }

  lemma LoudNegativeFollowsLaw(r: nat, k: nat)
    requires r < 4 && k < 16
    ensures LoudNegative(r)[k] == LawEntry(true, Pow2(7 - r), k)
  {
    if r == 0 {
      assert LoudNegative(0)[k] == LawEntry(true, 128, k);
    } else if r == 1 {
      assert LoudNegative(1)[k] == LawEntry(true, 64, k);
    } else if r == 2 {
      assert LoudNegative(2)[k] == LawEntry(true, 32, k);
    } else {
      assert LoudNegative(3)[k] == LawEntry(true, 16, k);
    }
  }

  lemma SoftNegativeFollowsLaw(r: nat, k: nat)
    requires r < 4 && k < 16
    ensures SoftNegative(r)[k] == LawEntry(true, Pow2(3 - r), k)
  {
    if r == 0 {
      assert SoftNegative(0)[k] == LawEntry(true, 8, k);
    } else if r == 1 {
      assert SoftNegative(1)[k] == LawEntry(true, 4, k);
    } else if r == 2 {
      assert SoftNegative(2)[k] == LawEntry(true, 2, k);
    } else {
      assert SoftNegative(3)[k] == LawEntry(true, 1, k);
    }
  }

  lemma LoudPositiveFollowsLaw(r: nat, k: nat)
    requires r < 4 && k < 16
    ensures LoudPositive(r)[k] == LawEntry(false, Pow2(7 - r), k)
  {
    if r == 0 {
      assert LoudPositive(0)[k] == LawEntry(false, 128, k);
    } else if r == 1 {
      assert LoudPositive(1)[k] == LawEntry(false, 64, k);
    } else if r == 2 {
      assert LoudPositive(2)[k] == LawEntry(false, 32, k);
    } else {
      assert LoudPositive(3)[k] == LawEntry(false, 16, k);
    }
  }

  lemma SoftPositiveFollowsLaw(r: nat, k: nat)
    requires r < 4 && k < 16
    ensures SoftPositive(r)[k] == LawEntry(false, Pow2(3 - r), k)
  {
    if r == 0 {
      assert SoftPositive(0)[k] == LawEntry(false, 8, k);
    } else if r == 1 {
      assert SoftPositive(1)[k] == LawEntry(false, 4, k);
    } else if r == 2 {
      assert SoftPositive(2)[k] == LawEntry(false, 2, k);
    } else {
      assert SoftPositive(3)[k] == LawEntry(false, 1, k);
    }
  }

  lemma RowFollowsLaw(r: nat, k: nat)
    requires r < 16 && k < 16
    ensures TableRow(r)[k] == LawEntry(r < 8, Pow2(if r < 8 then 7 - r else 15 - r), k)
  {
    hide LoudNegative, SoftNegative, LoudPositive, SoftPositive, Pow2, LawEntry;
    if r < 4 {
      LoudNegativeFollowsLaw(r, k);
    } else if r < 8 {
      SoftNegativeFollowsLaw(r - 4, k);
    } else if r < 12 {
      LoudPositiveFollowsLaw(r - 8, k);
    } else {
      SoftPositiveFollowsLaw(r - 12, k);
    }
  }

  /** The table holds what the compression law says. */
  lemma TableFollowsLaw(code: byte)
    ensures var p := PartsOf(code); UlawToLinear(code) == Short(if p.negative then -Magnitude(p) else Magnitude(p))
  {
    hide TableRow, Pow2;
    var p, r, k := PartsOf(code), code / 16, code % 16;
    RowFollowsLaw(r, k);
    assert p == Parts(r < 8, if r < 8 then 7 - r else 15 - r, 15 - k);
  }

  lemma PartsOfCode(p: Parts)
    requires WfParts(p)
    ensures PartsOf(Code(p)) == p
  {
  }

  /** What comes back from compressing a sample. */
  function Expanded(sample: u16): int
  {
    Signed(UlawToLinear(LinearToUlaw(sample)))
  }

  lemma ExpandedFollowsLaw(sample: u16)
    ensures var p := Compress(sample); Expanded(sample) == if p.negative then -Magnitude(p) else Magnitude(p)
  {
    hide UlawToLinear, Compress, Code, PartsOf;
    var p := Compress(sample);
    PartsOfCode(p);
    TableFollowsLaw(Code(p));
    MagnitudeBounded(p);
  }

  lemma MagnitudeBounded(p: Parts)
    requires WfParts(p)
    ensures 0 <= Magnitude(p) < 0x8000
  {
    var m := 8 * p.mantissa + BIAS;
    assert m <= 252;
    if p.exponent == 0 {
    } else if p.exponent == 1 {
    } else if p.exponent == 2 {
    } else if p.exponent == 3 {
    } else if p.exponent == 4 {
    } else if p.exponent == 5 {
    } else if p.exponent == 6 {
    } else {
    }
  }

  /** The exponent says which octave a biased magnitude is in. */
  lemma Octave(biased: nat, e: nat)
    requires BIAS <= biased < 0x8000 && e < 8
    ensures ExpLut(biased / 128 % 0x100) == e <==> 128 * Pow2(e) <= biased < 256 * Pow2(e)
  {
    assert biased / 128 % 0x100 == biased / 128;
  }

  lemma SixteenthLow(biased: nat, e: nat, m: nat)
    requires 0 <= e < 4 && 128 * Pow2(e) <= biased < 256 * Pow2(e) && m < 16
    ensures Shifted(biased, e) % 16 == m <==> (8 * m + 128) * Pow2(e) <= biased < (8 * m + 136) * Pow2(e)
  {
    if e == 0 {
      assert Shifted(biased, 0) == biased / 8 && 16 <= biased / 8 < 32;
    } else if e == 1 {
      assert Shifted(biased, 1) == biased / 16 && 16 <= biased / 16 < 32;
    } else if e == 2 {
      assert Shifted(biased, 2) == biased / 32 && 16 <= biased / 32 < 32;
    } else {
      assert Shifted(biased, 3) == biased / 64 && 16 <= biased / 64 < 32;
    }
  }

  lemma SixteenthHigh(biased: nat, e: nat, m: nat)
    requires 4 <= e < 8 && 128 * Pow2(e) <= biased < 256 * Pow2(e) && m < 16
    ensures Shifted(biased, e) % 16 == m <==> (8 * m + 128) * Pow2(e) <= biased < (8 * m + 136) * Pow2(e)
  {
    if e == 4 {
      assert Shifted(biased, 4) == biased / 128 && 16 <= biased / 128 < 32;
    } else if e == 5 {
      assert Shifted(biased, 5) == biased / 256 && 16 <= biased / 256 < 32;
    } else if e == 6 {
      assert Shifted(biased, 6) == biased / 512 && 16 <= biased / 512 < 32;
    } else {
      assert Shifted(biased, 7) == biased / 1024 && 16 <= biased / 1024 < 32;
    }
  }

  /** The mantissa says which sixteenth of the octave. */
  lemma Sixteenth(biased: nat, e: nat, m: nat)
    requires e < 8 && 128 * Pow2(e) <= biased < 256 * Pow2(e) && m < 16
    ensures Shifted(biased, e) % 16 == m <==> (8 * m + 128) * Pow2(e) <= biased < (8 * m + 136) * Pow2(e)
  {
    hide Pow2, Shifted;
    if e < 4 {
      SixteenthLow(biased, e, m);
    } else {
      SixteenthHigh(biased, e, m);
    }
  }

  lemma Interval(biased: nat)
    requires BIAS <= biased < 0x8000
    ensures var e := ExpLut(biased / 128 % 0x100);
            var p := Parts(false, e, Shifted(biased, e) % 16);
            var d := Magnitude(p) - (biased - BIAS);
            -4 * Pow2(e) <= d <= 4 * Pow2(e)
  {
    hide ExpLut, Shifted, Pow2;
    var e := ExpLut(biased / 128 % 0x100);
    var m := Shifted(biased, e) % 16;
    Octave(biased, e);
    Sixteenth(biased, e, m);
    Spread(m, Pow2(e), biased);
  }

  lemma Spread(m: nat, step: nat, biased: nat)
    requires (8 * m + 128) * step <= biased < (8 * m + 136) * step
    ensures -4 * step <= (8 * m + BIAS) * step - biased <= 4 * step
  {
    assert (8 * m + BIAS) * step == (8 * m + 128) * step + 4 * step;
    assert (8 * m + 136) * step == (8 * m + BIAS) * step + 4 * step;
  }

  /**
   * Compressing and expanding is off by at most half an interval, `4 * 2^exponent`, exactly for the
   * samples of magnitude at most 32635: beyond that the sum with the bias wraps around.
   */
  lemma CompressionError(sample: u16)
    ensures var x, e := Signed(sample), Compress(sample).exponent;
            -4 * Pow2(e) <= Expanded(sample) - x <= 4 * Pow2(e) <==> -32635 <= x <= 32635
  {
    hide UlawToLinear, ExpLut, Shifted, Pow2, Magnitude, Expanded;
    var x, p := Signed(sample), Compress(sample);
    ExpandedFollowsLaw(sample);
    var magnitude := if x < 0 then -x else x;
    if magnitude <= 32635 {
      Interval(magnitude + BIAS);
      assert Magnitude(Parts(false, p.exponent, p.mantissa)) == Magnitude(p) by { SignIrrelevant(p); }
    } else {
      WrappedSample(sample);
    }
  }

  lemma SignIrrelevant(p: Parts)
    requires WfParts(p)
    ensures Magnitude(Parts(false, p.exponent, p.mantissa)) == Magnitude(p)
  {
  }

  lemma WrappedSample(sample: u16)
    requires Signed(sample) > 32635 || Signed(sample) < -32635
    ensures var p := Compress(sample); p.exponent == 0 && Pow2(0) == 1 && 0 <= Magnitude(p) <= 120
  {
    hide Shifted;
    var p := Compress(sample);
    assert p.exponent == 0;
  }

  /** Expanding and compressing restores every code but 0x7F, the second code for zero. */
  lemma ExpandCompress(code: byte)
    ensures LinearToUlaw(UlawToLinear(code)) == if code == 0x7F then 0xFF else code
  {
    hide UlawToLinear;
    var p := PartsOf(code);
    TableFollowsLaw(code);
    MagnitudeBounded(p);
    CompressMagnitude(p);
  }

  lemma CompressMagnitude(p: Parts)
    requires WfParts(p)
    ensures var m := Magnitude(p);
            Compress(Short(if p.negative then -m else m)) == Parts(p.negative && m > 0, p.exponent, p.mantissa)
  {
    hide ExpLut, Shifted, Pow2, Magnitude, Signed, Short;
    MagnitudeBounded(p);
    MagnitudeParts(p);
    var m := Magnitude(p);
    SignedShort(if p.negative then -m else m);
    SignedShort(m);
    SignedShort(m + BIAS);
    Octave(m + BIAS, p.exponent);
    Sixteenth(m + BIAS, p.exponent, p.mantissa);
  }

  lemma SignedShort(x: int)
    requires -0x8000 <= x < 0x8000
    ensures Signed(Short(x)) == x
  {
  }

  lemma MagnitudeParts(p: Parts)
    requires WfParts(p)
    ensures var step, biased := Pow2(p.exponent), Magnitude(p) + BIAS;
            BIAS <= biased < 0x8000 && 128 * step <= biased < 256 * step &&
            (8 * p.mantissa + 128) * step <= biased < (8 * p.mantissa + 136) * step
  {
    hide Pow2;
    var step := Pow2(p.exponent);
    Middle(p.mantissa, step);
    assert step <= 128 && 256 * step <= 0x8000;
    assert (8 * p.mantissa + BIAS) * step >= 8 * p.mantissa + BIAS;
  }

  lemma Middle(m: nat, step: nat)
    requires m < 16 && step > 0
    ensures var biased := (8 * m + BIAS) * step;
            (8 * m + 128) * step <= biased < (8 * m + 136) * step && 128 * step <= biased < 256 * step
  {
    var octave := 128 * step;
    assert (8 * m + 128) * step == 8 * (m * step) + octave;
    assert (8 * m + BIAS) * step == 8 * (m * step) + octave + 4 * step;
    assert (8 * m + 136) * step == 8 * (m * step) + octave + 8 * step;
    assert 0 <= m * step <= 15 * step;
  }

  // Formats -----------------------------------------------------------------------------------

  const ULAW8 := 1
  const UNSIGNED8 := 2
  const SIGNED8 := 3
  const SIGNED16_MSB := 4
  const UNSIGNED16_MSB := 5
  const SIGNED16_LSB := 6
  const UNSIGNED16_LSB := 7

  predicate Known(format: int)
  {
    ULAW8 <= format <= UNSIGNED16_LSB
  }

  /** `AuSizeofFormat`, for the formats that have a size. */
  function Size(format: int): (w: nat)
    requires Known(format)
    ensures w == 1 || w == 2
  {
    if format < SIGNED16_MSB then 1 else 2
  }

  /** Samples that are stored in the byte order that is not the host's. */
  predicate Foreign(format: int, big: bool)
  {
    if big then format == SIGNED16_LSB || format == UNSIGNED16_LSB
      else format == SIGNED16_MSB || format == UNSIGNED16_MSB
  }

  predicate Offset(format: int)
  {
    format == UNSIGNED16_MSB || format == UNSIGNED16_LSB
  }

  /** Exclusive or with 0x8000. */
  function FlipTop(x: u16): u16
  {
    if x >= 0x8000 then x - 0x8000 else x + 0x8000
  }

  /** One sample, as read from memory, to a `short`. */
  function FromData(format: int, big: bool, x: u16): (y: u16)
    requires Known(format) && (Size(format) == 1 ==> x < 0x100)
  {
    if format == ULAW8 then UlawToLinear(x)
    else if format == UNSIGNED8 then Short((x - 128) * 0x100)
    else if format == SIGNED8 then Short(x * 0x100)
    else
      var native := if Foreign(format, big) then Swap16(x) else x;
      if Offset(format) then FlipTop(native) else native
  }

  /** One `short` to a sample. */
  function ToData(format: int, big: bool, x: u16): (y: u16)
    requires Known(format)
    ensures Size(format) == 1 ==> y < 0x100
  {
    if format == ULAW8 then LinearToUlaw(x)
    else if format == UNSIGNED8 then (Signed(x) / 0x100 + 128) % 0x100
    else if format == SIGNED8 then Signed(x) / 0x100 % 0x100
    else
      var stored := if Foreign(format, big) then Swap16(x) else x;
      if Offset(format) then FlipTop(stored) else stored
  }

  /**
   * A sample converted to a `short` and back is the same, except mu-law 0x7F and the offset formats
   * of the other byte order, for which converting back flips the wrong bit.
   */
  lemma SampleReturns(format: int, big: bool, x: u16)
    requires Known(format) && (Size(format) == 1 ==> x < 0x100)
    ensures ToData(format, big, FromData(format, big, x)) == x <==>
            !(format == ULAW8 && x == 0x7F) && !(Foreign(format, big) && Offset(format))
  {
    hide UlawToLinear, LinearToUlaw, Swap16, FlipTop;
    if format == ULAW8 {
      ExpandCompress(x);
    } else if Size(format) == 2 {
      SwapReturns(x);
    } else {
      LinearByteReturns(format, big, x);
    }
  }

  lemma LinearByteReturns(format: int, big: bool, x: byte)
    requires format == UNSIGNED8 || format == SIGNED8
    ensures ToData(format, big, FromData(format, big, x)) == x
  {
  }

  lemma SwapReturns(x: u16)
    ensures Swap16(Swap16(x)) == x && FlipTop(FlipTop(x)) == x
    ensures FlipTop(Swap16(FlipTop(Swap16(x)))) != x
  {
    hide Swap16, FlipTop;
    var hi, lo := x / 0x100, x % 0x100;
    var flip := (b: int) => if b >= 0x80 then b - 0x80 else b + 0x80;
    BytesSwap(hi, lo);
    BytesSwap(lo, hi);
    BytesSwap(flip(hi), lo);
    BytesSwap(flip(lo), hi);
    BytesSwap(hi, flip(lo));
  }

  /** Both operations in terms of the high and the low byte. */
  lemma BytesSwap(hi: byte, lo: byte)
    ensures Swap16(0x100 * hi + lo) == 0x100 * lo + hi
    ensures FlipTop(0x100 * hi + lo) == 0x100 * (if hi >= 0x80 then hi - 0x80 else hi + 0x80) + lo
  {
    var x := 0x100 * hi + lo;
    assert x / 0x100 == hi && x % 0x100 == lo;
  }

  // Buffers -----------------------------------------------------------------------------------

  /** Where sample `k` is. */
  function Place(format: int, k: int): (at: int)
    requires Known(format)
  {
    if Size(format) == 1 then k else 2 * k
  }

  /** Whole samples in so many bytes, and the bytes left over. */
  function Samples(format: int, numBytes: nat): (n: nat)
    requires Known(format)
    ensures Place(format, n) + LeftOver(format, numBytes) == numBytes
  {
    numBytes / Size(format)
  }

  function LeftOver(format: int, numBytes: nat): (k: nat)
    requires Known(format)
  {
    numBytes % Size(format)
  }

  /** Sample `k` of a buffer in the given format. */
  function SampleAt(format: int, big: bool, s: seq<byte>, k: nat): (x: u16)
    requires Known(format) && Place(format, k + 1) <= |s|
    ensures Size(format) == 1 ==> x < 0x100
  {
    ReadAt(format, big, s, Place(format, k))
  }

  function ReadAt(format: int, big: bool, s: seq<byte>, at: nat): (x: u16)
    requires Known(format) && at + Size(format) <= |s|
    ensures Size(format) == 1 ==> x < 0x100
  {
    if Size(format) == 1 then s[at] else Get16(big, s[at..at + 2])
  }

  function StoreAt(s: seq<byte>, at: nat, b: seq<byte>): (r: seq<byte>)
    requires at + |b| <= |s|
    ensures |r| == |s| && r[at..at + |b|] == b
    ensures forall i {:trigger r[i]} :: 0 <= i < |s| && !(at <= i < at + |b|) ==> r[i] == s[i]
  {
    s[..at] + b + s[at + |b|..]
  }

  /** `s'` holds the first `n` samples of `s` as `short`s; what lies behind them is unchanged. */
  ghost predicate Widened(format: int, big: bool, s: seq<byte>, s': seq<byte>, n: nat)
    requires Known(format) && Place(format, n) <= |s| && 2 * n <= |s|
  {
    |s'| == |s| && (forall i :: 2 * n <= i < |s| ==> s'[i] == s[i]) &&
    forall k :: 0 <= k < n ==> s'[2 * k..2 * k + 2] == Put16(big, FromData(format, big, SampleAt(format, big, s, k)))
  }

  /** `s'` holds the first `n` `short`s of `s` as samples; what lies behind them is unchanged. */
  ghost predicate Narrowed(format: int, big: bool, s: seq<byte>, s': seq<byte>, n: nat)
    requires Known(format) && 2 * n <= |s|
  {
    |s'| == |s| && (forall i :: Place(format, n) <= i < |s| ==> s'[i] == s[i]) &&
    forall k :: 0 <= k < n ==> SampleAt(format, big, s', k) == ToData(format, big, Get16(big, s[2 * k..2 * k + 2]))
  }

  /** The formats that need no conversion at all. */
  predicate Native(format: int, big: bool)
  {
    format >= SIGNED16_MSB && !Offset(format) && !Foreign(format, big)
  }

  /** One turn of the loop of `AuConvertDataToShort`: the sample at `at` becomes the `short` at `to`. */
  function WidenOnce(format: int, big: bool, s: seq<byte>, at: nat, to: nat): (r: seq<byte>)
    requires Known(format) && at + Size(format) <= |s| && to + 2 <= |s|
    ensures |r| == |s|
  {
    StoreAt(s, to, Put16(big, FromData(format, big, ReadAt(format, big, s, at))))
  }

  /**
   * The loop, from sample `n` down: it reads at `odd` plus the sample's place, where `odd` is what
   * the byte count leaves over.
   */
  function WidenDown(format: int, big: bool, s: seq<byte>, odd: nat, n: nat): (r: seq<byte>)
    requires Known(format) && odd + Place(format, n) <= |s| && 2 * n <= |s|
    ensures |r| == |s|
    decreases n
  {
    if n == 0 then s
    else WidenDown(format, big, WidenOnce(format, big, s, odd + Place(format, n) - Size(format), 2 * n - 2), odd, n - 1)
  }

  /** How a conversion ends. */
  datatype Outcome = Converted | Refused | DividesByZero

  /**
   * `AuConvertDataToShort`. It divides by the size of the format before it looks at the format, so
   * an unknown one never reaches the error return.
   */
  method ConvertDataToShort(format: int, big: bool, numBytes: nat, data: array<byte>) returns (r: Outcome)
    requires Known(format) ==> numBytes <= data.Length && 2 * Samples(format, numBytes) <= data.Length
    modifies data
    ensures r == if Known(format) then Converted else DividesByZero
    ensures Known(format) ==>
              data[..] == (if Native(format, big) then old(data[..])
                           else WidenDown(format, big, old(data[..]), LeftOver(format, numBytes),
                                          Samples(format, numBytes))) &&
              // every sample is converted if the byte count is right
              (LeftOver(format, numBytes) == 0 ==>
               Widened(format, big, old(data[..]), data[..], Samples(format, numBytes)))
  {
    hide FromData, WidenDown, WidenOnce, Widened;
    if !Known(format) {
      return DividesByZero;
    }
    r := Converted;
    var samples := Samples(format, numBytes);
    WidenDownConverts(format, big, data[..], samples);
    if Native(format, big) {
      NativeNarrowed(format, big, data[..], samples);
    }
    if samples == 0 || Native(format, big) {
      WidenEnds(format, big, data[..], LeftOver(format, numBytes));
      return;
    }
    var s, d := numBytes - Size(format), 2 * samples - 2;
    ghost var odd := LeftOver(format, numBytes);
    while samples > 0
      invariant 0 <= samples <= Samples(format, numBytes)
      invariant s == odd + Place(format, samples) - Size(format) && d == 2 * samples - 2
      invariant WidenDown(format, big, data[..], odd, samples) ==
                WidenDown(format, big, old(data[..]), odd, Samples(format, numBytes))
    {
      WidenStep(format, big, data[..], odd, samples);
      WidenOne(format, big, data, s, d);
      s, d, samples := s - Size(format), d - 2, samples - 1;
    }
    WidenEnds(format, big, data[..], odd);
  }

  method WidenOne(format: int, big: bool, data: array<byte>, s: nat, d: nat)
    requires Known(format) && s + Size(format) <= data.Length && d + 2 <= data.Length
    modifies data
    ensures data[..] == WidenOnce(format, big, old(data[..]), s, d)
  {
    hide FromData;
    var x := ReadAt(format, big, data[..], s);
    var y := Put16(big, FromData(format, big, x));
    data[d], data[d + 1] := y[0], y[1];
  }

  lemma WidenStep(format: int, big: bool, s: seq<byte>, odd: nat, n: nat)
    requires Known(format) && n > 0 && odd + Place(format, n) <= |s| && 2 * n <= |s|
    ensures WidenDown(format, big, s, odd, n) ==
            WidenDown(format, big, WidenOnce(format, big, s, odd + Place(format, n) - Size(format), 2 * n - 2), odd,
                      n - 1)
  {
    hide WidenOnce;
  }

  lemma WidenEnds(format: int, big: bool, s: seq<byte>, odd: nat)
    requires Known(format) && odd <= |s|
    ensures WidenDown(format, big, s, odd, 0) == s
  {
  }

  /** The backward loop never overwrites an unread sample, if the byte count is a whole number of samples. */
  lemma {:induction false} WidenDownConverts(format: int, big: bool, s: seq<byte>, n: nat)
    requires Known(format) && 2 * n <= |s|
    ensures Widened(format, big, s, WidenDown(format, big, s, 0, n), n)
    decreases n
  {
    hide FromData, WidenDown, WidenOnce, Widened;
    if n == 0 {
      WidenEnds(format, big, s, 0);
      NothingWidened(format, big, s);
    } else {
      WidenStep(format, big, s, 0, n);
      var next := WidenOnce(format, big, s, Place(format, n) - Size(format), 2 * n - 2);
      WidenDownConverts(format, big, next, n - 1);
      LastSample(format, big, s, n);
      WidenedOneMore(format, big, s, next, WidenDown(format, big, next, 0, n - 1), n);
    }
  }

  lemma LastSample(format: int, big: bool, s: seq<byte>, n: nat)
    requires Known(format) && n > 0 && 2 * n <= |s|
    ensures WidenOnce(format, big, s, Place(format, n) - Size(format), 2 * n - 2) ==
            StoreAt(s, 2 * n - 2, Put16(big, FromData(format, big, SampleAt(format, big, s, n - 1))))
  {
    hide FromData, StoreAt, Put16, ReadAt;
    assert Place(format, n - 1) == Place(format, n) - Size(format);
  }

  lemma NothingWidened(format: int, big: bool, s: seq<byte>)
    requires Known(format)
    ensures Widened(format, big, s, s, 0)
  {
  }

  lemma WidenedOneMore(format: int, big: bool, s: seq<byte>, next: seq<byte>, r: seq<byte>, n: nat)
    requires Known(format) && n > 0 && 2 * n <= |s| && |next| == |s|
    requires next == StoreAt(s, 2 * n - 2, Put16(big, FromData(format, big, SampleAt(format, big, s, n - 1))))
    requires Widened(format, big, next, r, n - 1)
    ensures Widened(format, big, s, r, n)
  {
    hide FromData, Put16, SampleAt, StoreAt;
    var y := Put16(big, FromData(format, big, SampleAt(format, big, s, n - 1)));
    forall k | 0 <= k < n
      ensures r[2 * k..2 * k + 2] == Put16(big, FromData(format, big, SampleAt(format, big, s, k)))
    {
      if k < n - 1 {
        SameSample(format, big, s, next, k);
      } else {
        assert r[2 * k..2 * k + 2] == next[2 * k..2 * k + 2] == y;
      }
    }
  }

  lemma SameSample(format: int, big: bool, s: seq<byte>, s': seq<byte>, k: nat)
    requires Known(format) && |s| == |s'| && Place(format, k + 1) <= |s|
    requires forall i :: Place(format, k) <= i < Place(format, k + 1) ==> s'[i] == s[i]
    ensures SampleAt(format, big, s', k) == SampleAt(format, big, s, k)
  {
    if Size(format) == 2 {
      assert s'[2 * k..2 * k + 2] == s[2 * k..2 * k + 2];
    }
  }

  lemma GetPut(big: bool, b: seq<byte>)
    requires |b| == 2
    ensures Put16(big, Get16(big, b)) == b
  {
  }

  /** What lies behind the samples stays. */
  lemma {:induction false} WidenDownBehind(format: int, big: bool, s: seq<byte>, odd: nat, n: nat)
    requires Known(format) && odd + Place(format, n) <= |s| && 2 * n <= |s|
    ensures forall i :: 2 * n <= i < |s| ==> WidenDown(format, big, s, odd, n)[i] == s[i]
    decreases n
  {
    hide FromData, ReadAt;
    if n > 0 {
      WidenDownBehind(format, big, WidenOnce(format, big, s, odd + Place(format, n) - Size(format), 2 * n - 2), odd,
                      n - 1);
    }
  }

  /** The byte that ends up behind sample `k` by the time the loop reads across its end. */
  function Behind(format: int, big: bool, s: seq<byte>, n: nat, k: nat): (b: byte)
    requires Known(format) && Size(format) == 2 && k < n && 2 * n < |s|
  {
    if k + 1 < n then Put16(big, FromData(format, big, SampleAt(format, big, s, k + 1)))[0] else s[2 * n]
  }

  /** Reading every sample one byte too late makes no difference. */
  ghost predicate OddSurvives(format: int, big: bool, s: seq<byte>, n: nat)
    requires Known(format) && Size(format) == 2 && 2 * n < |s|
  {
    forall k :: 0 <= k < n ==> s[2 * k] == s[2 * k + 1] == Behind(format, big, s, n, k)
  }

  /** One sample converted too late is right exactly if both its bytes equal the one behind it. */
  lemma LateSample(format: int, big: bool, s: seq<byte>, at: nat)
    requires Known(format) && Size(format) == 2 && at + 3 <= |s|
    ensures Put16(big, FromData(format, big, ReadAt(format, big, s, at + 1))) ==
            Put16(big, FromData(format, big, ReadAt(format, big, s, at)))
            <==> s[at] == s[at + 1] == s[at + 2]
  {
    hide FromData, Put16, Get16;
    var x, y := ReadAt(format, big, s, at), ReadAt(format, big, s, at + 1);
    GetPut(big, s[at..at + 2]);
    GetPut(big, s[at + 1..at + 3]);
    SameSlices(s, at);
    if Put16(big, FromData(format, big, y)) == Put16(big, FromData(format, big, x)) {
      WordRoundTrip(big, FromData(format, big, x), 0);
      WordRoundTrip(big, FromData(format, big, y), 0);
      FromDataInjective(format, big, x, y);
    }
  }

  lemma SameSlices(s: seq<byte>, at: nat)
    requires at + 3 <= |s|
    ensures s[at..at + 2] == s[at + 1..at + 3] <==> s[at] == s[at + 1] == s[at + 2]
  {
    var a, b := s[at..at + 2], s[at + 1..at + 3];
    assert a[0] == s[at] && a[1] == b[0] == s[at + 1] && b[1] == s[at + 2];
  }

  /** With an odd byte count a buffer is converted right exactly if being read too late does not show in it. */
  lemma {:induction false} OddConverts(format: int, big: bool, s: seq<byte>, n: nat)
    requires Known(format) && Size(format) == 2 && 2 * n < |s|
    ensures Widened(format, big, s, WidenDown(format, big, s, 1, n), n) <==> OddSurvives(format, big, s, n)
    decreases n
  {
    hide FromData, WidenDown, WidenOnce, Widened, OddSurvives, ReadAt, SampleAt;
    if n == 0 {
      WidenEnds(format, big, s, 1);
      NothingWidened(format, big, s);
      NothingSurvives(format, big, s);
    } else {
      WidenStep(format, big, s, 1, n);
      var next := WidenOnce(format, big, s, 2 * n - 1, 2 * n - 2);
      var r := WidenDown(format, big, next, 1, n - 1);
      WidenDownBehind(format, big, next, 1, n - 1);
      OddConverts(format, big, next, n - 1);
      LateSample(format, big, s, 2 * n - 2);
      WidenedLate(format, big, s, next, r, n);
      if s[2 * n - 2] == s[2 * n - 1] == s[2 * n] {
        SurvivesLater(format, big, s, next, n);
      } else {
        LastSpoilt(format, big, s, n);
      }
    }
  }

  lemma NothingSurvives(format: int, big: bool, s: seq<byte>)
    requires Known(format) && Size(format) == 2 && 0 < |s|
    ensures OddSurvives(format, big, s, 0)
  {
  }

  lemma LastSpoilt(format: int, big: bool, s: seq<byte>, n: nat)
    requires Known(format) && Size(format) == 2 && 0 < n && 2 * n < |s| && !(s[2 * n - 2] == s[2 * n - 1] == s[2 * n])
    ensures !OddSurvives(format, big, s, n)
  {
    hide FromData;
    assert s[2 * (n - 1)] == s[2 * n - 2] && Behind(format, big, s, n, n - 1) == s[2 * n];
  }

  /** The whole is right exactly if the last sample is, and the rest of what the loop makes of the others. */
  lemma WidenedLate(format: int, big: bool, s: seq<byte>, next: seq<byte>, r: seq<byte>, n: nat)
    requires Known(format) && Size(format) == 2 && 0 < n && 2 * n < |s| && |r| == |s|
    requires next == WidenOnce(format, big, s, 2 * n - 1, 2 * n - 2)
    requires forall i :: 2 * n - 2 <= i < |s| ==> r[i] == next[i]
    ensures Widened(format, big, s, r, n) <==>
            Put16(big, FromData(format, big, ReadAt(format, big, s, 2 * n - 1))) ==
              Put16(big, FromData(format, big, ReadAt(format, big, s, 2 * n - 2))) &&
            Widened(format, big, next, r, n - 1)
  {
    hide FromData, Put16, ReadAt;
    var y := Put16(big, FromData(format, big, ReadAt(format, big, s, 2 * n - 1)));
    assert next == StoreAt(s, 2 * n - 2, y);
    assert r[2 * n - 2..2 * n] == next[2 * n - 2..2 * n] == y;
    assert SampleAt(format, big, s, n - 1) == ReadAt(format, big, s, 2 * n - 2);
    forall k | 0 <= k < n - 1
      ensures SampleAt(format, big, next, k) == SampleAt(format, big, s, k)
    {
      SameSample(format, big, s, next, k);
    }
    assert 2 * (n - 1) == 2 * n - 2 && 2 * (n - 1) + 2 == 2 * n;
    if Widened(format, big, next, r, n - 1) &&
       y == Put16(big, FromData(format, big, ReadAt(format, big, s, 2 * n - 2))) {
      forall k | 0 <= k < n
        ensures r[2 * k..2 * k + 2] == Put16(big, FromData(format, big, SampleAt(format, big, s, k)))
      {
      }
    }
  }

  /** If the last sample is right, the others are read as the loop left it. */
  lemma SurvivesLater(format: int, big: bool, s: seq<byte>, next: seq<byte>, n: nat)
    requires Known(format) && Size(format) == 2 && 0 < n && 2 * n < |s| && s[2 * n - 2] == s[2 * n - 1] == s[2 * n]
    requires next == WidenOnce(format, big, s, 2 * n - 1, 2 * n - 2)
    ensures OddSurvives(format, big, s, n) <==> OddSurvives(format, big, next, n - 1)
  {
    hide FromData, Put16, ReadAt;
    LateSample(format, big, s, 2 * n - 2);
    assert SampleAt(format, big, s, n - 1) == ReadAt(format, big, s, 2 * n - 2);
    var y := Put16(big, FromData(format, big, SampleAt(format, big, s, n - 1)));
    assert next == StoreAt(s, 2 * n - 2, y);
    assert next[2 * n - 2] == next[2 * n - 2..2 * n][0] == y[0];
    forall k | 0 <= k < n - 1
      ensures next[2 * k] == s[2 * k] && next[2 * k + 1] == s[2 * k + 1]
      ensures Behind(format, big, next, n - 1, k) == Behind(format, big, s, n, k)
    {
      if k + 1 < n - 1 {
        SameSample(format, big, s, next, k + 1);
      }
    }
    assert s[2 * (n - 1)] == s[2 * (n - 1) + 1] == Behind(format, big, s, n, n - 1);
  }

  /**
   * For a 16-bit format that needs conversion every buffer is converted right exactly if the byte
   * count is even, or too small for a sample.
   */
  lemma CountConverts(format: int, big: bool, numBytes: nat, length: nat)
    requires Known(format) && Size(format) == 2 && numBytes <= length
    ensures (forall s: seq<byte> :: |s| == length ==>
               Widened(format, big, s, WidenDown(format, big, s, numBytes % 2, numBytes / 2), numBytes / 2)) <==>
            numBytes % 2 == 0 || numBytes < 3
  {
    hide FromData, WidenDown, Widened, OddSurvives;
    var n := numBytes / 2;
    forall s: seq<byte> | |s| == length
      ensures numBytes % 2 == 0 ==> Widened(format, big, s, WidenDown(format, big, s, 0, n), n)
      ensures numBytes % 2 == 1 ==>
                (Widened(format, big, s, WidenDown(format, big, s, 1, n), n) <==> OddSurvives(format, big, s, n))
      ensures numBytes == 1 ==> OddSurvives(format, big, s, 0)
    {
      if numBytes % 2 == 0 {
        WidenDownConverts(format, big, s, n);
      } else {
        OddConverts(format, big, s, n);
        NothingSurvives(format, big, s);
      }
    }
    if numBytes % 2 == 1 && numBytes >= 3 {
      var s: seq<byte> := [1] + seq(length - 1, _ => 0);
      OddConverts(format, big, s, n);
      SpoiltAtOnce(format, big, s, n);
    }
  }

  lemma SpoiltAtOnce(format: int, big: bool, s: seq<byte>, n: nat)
    requires Known(format) && Size(format) == 2 && 0 < n && 2 * n < |s| && s[0] != s[1]
    ensures !OddSurvives(format, big, s, n)
  {
    hide FromData;
    assert s[2 * 0] == s[0] && s[2 * 0 + 1] == s[1];
  }

  lemma FromDataInjective(format: int, big: bool, x: u16, y: u16)
    requires Known(format) && Size(format) == 2 && FromData(format, big, x) == FromData(format, big, y)
    ensures x == y
  {
    SwapReturns(x);
    SwapReturns(y);
    SwapReturns(Swap16(x));
    SwapReturns(Swap16(y));
  }

  /** `AuConvertShortToData`. */
  method ConvertShortToData(format: int, big: bool, numBytes: nat, data: array<byte>) returns (r: Outcome)
    requires numBytes <= data.Length
    modifies data
    ensures r == if numBytes < 2 || Known(format) then Converted else Refused
    ensures r == Converted && numBytes >= 2 ==> Narrowed(format, big, old(data[..]), data[..], numBytes / 2)
    ensures numBytes < 2 || r != Converted ==> data[..] == old(data[..])
  {
    hide ToData, Narrowed, NarrowedSoFar;
    var samples := numBytes / 2;
    if samples == 0 {
      return Converted;
    }
    if !Known(format) {
      return Refused;
    }
    r := Converted;
    if Native(format, big) {
      NativeNarrowed(format, big, data[..], samples);
      return;
    }
    var s, d, done := 0, 0, 0;
    NothingNarrowed(format, big, data[..]);
    while done < samples
      invariant done <= samples && s == 2 * done && d == Place(format, done)
      invariant NarrowedSoFar(format, big, old(data[..]), data[..], done)
    {
      ghost var was := data[..];
      NarrowOne(format, big, data, s, d);
      NarrowedOneMore(format, big, old(data[..]), was, data[..], done);
      s, d, done := s + 2, d + Size(format), done + 1;
    }
    AllNarrowed(format, big, old(data[..]), data[..], samples);
  }

  /** Of a buffer that was `s`, the first `n` `short`s have been converted; the others are still there. */
  ghost predicate NarrowedSoFar(format: int, big: bool, s: seq<byte>, s': seq<byte>, n: nat)
    requires Known(format)
  {
    2 * n <= |s| && Narrowed(format, big, s, s', n)
  }

  lemma NothingNarrowed(format: int, big: bool, s: seq<byte>)
    requires Known(format)
    ensures NarrowedSoFar(format, big, s, s, 0)
  {
  }

  lemma AllNarrowed(format: int, big: bool, s: seq<byte>, s': seq<byte>, n: nat)
    requires Known(format) && NarrowedSoFar(format, big, s, s', n)
    ensures 2 * n <= |s| && Narrowed(format, big, s, s', n)
  {
  }

  method NarrowOne(format: int, big: bool, data: array<byte>, s: nat, d: nat)
    requires Known(format) && d + Size(format) <= data.Length && s + 2 <= data.Length
    modifies data
    ensures var was, y := old(data[..]), ToData(format, big, Get16(big, old(data[s..s + 2])));
            data[..] == StoreAt(was, d, if Size(format) == 1 then [y] else Put16(big, y))
  {
    hide ToData;
    var y := ToData(format, big, Get16(big, data[s..s + 2]));
    if Size(format) == 1 {
      data[d] := y;
    } else {
      var b := Put16(big, y);
      data[d], data[d + 1] := b[0], b[1];
    }
  }

  lemma NarrowedOneMore(format: int, big: bool, s: seq<byte>, was: seq<byte>, now: seq<byte>, n: nat)
    requires Known(format) && NarrowedSoFar(format, big, s, was, n) && 2 * n + 2 <= |s|
    requires var y := ToData(format, big, Get16(big, was[2 * n..2 * n + 2]));
             now == StoreAt(was, Place(format, n), if Size(format) == 1 then [y] else Put16(big, y))
    ensures NarrowedSoFar(format, big, s, now, n + 1)
  {
    hide ToData;
    assert was[2 * n..2 * n + 2] == s[2 * n..2 * n + 2];
    var y := ToData(format, big, Get16(big, s[2 * n..2 * n + 2]));
    WordRoundTrip(big, y, 0);
    forall k | 0 <= k < n + 1
      ensures SampleAt(format, big, now, k) == ToData(format, big, Get16(big, s[2 * k..2 * k + 2]))
    {
      if k < n {
        SameSample(format, big, was, now, k);
      } else if Size(format) == 1 {
        assert now[k..k + 1][0] == now[k];
      }
    }
  }

  lemma NativeNarrowed(format: int, big: bool, s: seq<byte>, n: nat)
    requires Known(format) && Native(format, big) && 2 * n <= |s|
    ensures Narrowed(format, big, s, s, n) && Widened(format, big, s, s, n)
  {
    forall k | 0 <= k < n
      ensures s[2 * k..2 * k + 2] == Put16(big, FromData(format, big, SampleAt(format, big, s, k)))
    {
      GetPut(big, s[2 * k..2 * k + 2]);
    }
  }

  /**
   * A buffer converted to `short`s and back has its samples again, all of them, exactly when each
   * sample comes back: for the 8-bit linear formats always, for mu-law if 0x7F does not occur, and
   * for the 16-bit formats unless they are offset and in the other byte order.
   */
  lemma BufferReturns(format: int, big: bool, s: seq<byte>, s': seq<byte>, s'': seq<byte>, n: nat)
    requires Known(format) && 2 * n <= |s| && Widened(format, big, s, s', n) && Narrowed(format, big, s', s'', n)
    ensures (forall k :: 0 <= k < n ==> SampleAt(format, big, s'', k) == SampleAt(format, big, s, k)) <==>
            n == 0 ||
            (!(Foreign(format, big) && Offset(format)) &&
             forall k :: 0 <= k < n ==> !(format == ULAW8 && SampleAt(format, big, s, k) == 0x7F))
  {
    hide FromData, ToData;
    forall k | 0 <= k < n
      ensures SampleAt(format, big, s'', k) == SampleAt(format, big, s, k) <==>
              !(format == ULAW8 && SampleAt(format, big, s, k) == 0x7F) && !(Foreign(format, big) && Offset(format))
    {
      var x := SampleAt(format, big, s, k);
      SampleReturns(format, big, x);
      WordRoundTrip(big, FromData(format, big, x), 0);
    }
    if n > 0 && Foreign(format, big) && Offset(format) {
      assert SampleAt(format, big, s'', 0) != SampleAt(format, big, s, 0);
    }
  }
}
