/** Bytes, fixed-width words in either byte order, and four-byte padding. */
module Bytes {
  type byte = x: int | 0 <= x < 0x100
  type u16 = x: int | 0 <= x < 0x1_0000
  type u32 = x: int | 0 <= x < 0x1_0000_0000

  function Put16(big: bool, x: u16): (b: seq<byte>)
    ensures |b| == 2
  {
    if big then [x / 0x100, x % 0x100] else [x % 0x100, x / 0x100]
  }

  function Get16(big: bool, b: seq<byte>): (x: u16)
    requires |b| == 2
  {
    var first: int, second: int := b[0], b[1];
    if big then first * 0x100 + second else first + second * 0x100
  }

  function Put32(big: bool, x: u32): (b: seq<byte>)
    ensures |b| == 4
  {
    if big then Put16(true, x / 0x1_0000) + Put16(true, x % 0x1_0000)
    else Put16(false, x % 0x1_0000) + Put16(false, x / 0x1_0000)
  }

  function Get32(big: bool, b: seq<byte>): (x: u32)
    requires |b| == 4
  {
    var first: int, second: int := Get16(big, b[..2]), Get16(big, b[2..]);
    if big then first * 0x1_0000 + second else first + second * 0x1_0000
  }

  lemma WordRoundTrip(big: bool, x: u16, y: u32)
    ensures Get16(big, Put16(big, x)) == x
    ensures Get32(big, Put32(big, y)) == y
  {
    assert Put32(big, y)[..2] == if big then Put16(true, y / 0x1_0000) else Put16(false, y % 0x1_0000);
    assert Put32(big, y)[2..] == if big then Put16(true, y % 0x1_0000) else Put16(false, y / 0x1_0000);
  }

  /** Rounding up to a multiple of four, as `PAD4` and the `padlength` table do. */
  function PadLength(n: nat): (k: nat)
    ensures k < 4
  {
    if n % 4 == 0 then 0 else 4 - n % 4
  }

  function Pad4(n: nat): (k: nat)
    ensures k % 4 == 0 && n <= k < n + 4 && k == n + PadLength(n)
  {
    (n + 3) / 4 * 4
  }

  function Zeros(n: nat): (z: seq<byte>)
    ensures |z| == n
  {
    seq(n, _ => 0)
  }

  /** A word with its two bytes swapped. */
  function Swap16(x: u16): (y: u16)
  {
    x % 0x100 * 0x100 + x / 0x100
  }
}
