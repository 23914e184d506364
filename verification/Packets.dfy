/** The stream of packets a server sends: 32-byte events and errors, and replies of 32 + 4n bytes. */
module Packets {
  import opened Bytes
  import opened Sequences

  const HEADER := 32
  /** Packet sizes are computed in a signed 32-bit `int`. */
  const MAX_PACKET := 0x7FFF_FFFF
  const ERROR_TYPE: byte := 0
  const REPLY_TYPE: byte := 1

  /** A packet is its own bytes, header first. */
  type Packet = seq<byte>

  predicate IsReply(p: Packet)
    requires |p| >= HEADER
  {
    p[0] == REPLY_TYPE
  }

  predicate IsError(p: Packet)
    requires |p| >= HEADER
  {
    p[0] == ERROR_TYPE
  }

  function Seq16(big: bool, p: Packet): u16
    requires |p| >= HEADER
  {
    Get16(big, p[2..4])
  }

  /** Four-byte words that follow the header of a reply. */
  function ExtraWords(big: bool, p: Packet): u32
    requires |p| >= HEADER
  {
    Get32(big, p[4..8])
  }

  function ErrorCode(p: Packet): byte
    requires |p| >= HEADER
  {
    p[1]
  }

  function MinorCode(big: bool, p: Packet): u16
    requires |p| >= HEADER
  {
    Get16(big, p[12..14])
  }

  function MajorCode(p: Packet): byte
    requires |p| >= HEADER
  {
    p[14]
  }

  function PacketSize(big: bool, header: Packet): (n: nat)
    requires |header| >= HEADER
    ensures n >= HEADER
  {
    if IsReply(header) then HEADER + 4 * ExtraWords(big, header) else HEADER
  }

  predicate WfPacket(big: bool, p: Packet)
  {
    |p| >= HEADER && |p| == PacketSize(big, p) && |p| <= MAX_PACKET
  }

  ghost predicate WfStream(big: bool, ps: seq<Packet>)
  {
    forall i :: 0 <= i < |ps| ==> WfPacket(big, ps[i])
  }

  function Concat(ps: seq<seq<byte>>): seq<byte>
  {
    if ps == [] then [] else ps[0] + Concat(ps[1..])
  }

  lemma {:induction false} ConcatAppend(ps: seq<seq<byte>>, qs: seq<seq<byte>>)
    ensures Concat(ps + qs) == Concat(ps) + Concat(qs)
  {
    if ps == [] {
      assert ps + qs == qs;
    } else {
      ConcatAppend(ps[1..], qs);
      assert (ps + qs)[0] == ps[0] && (ps + qs)[1..] == ps[1..] + qs;
      AppendAssociative(ps[0], Concat(ps[1..]), Concat(qs));
    }
  }

  lemma ConcatThree(a: seq<byte>, b: seq<byte>, c: seq<byte>)
    ensures Concat([a, b, c]) == a + b + c
  {
    assert [a, b, c][1..] == [b, c] && [b, c][1..] == [c];
    assert Concat([c]) == c;
    assert Concat([b, c]) == b + c;
    AppendAssociative(a, b, c);
  }

  lemma ConcatSplit(ps: seq<seq<byte>>, k: nat)
    requires k <= |ps|
    ensures Concat(ps) == Concat(ps[..k]) + Concat(ps[k..])
  {
    hide Concat;
    TakeDrop(ps, k);
    ConcatAppend(ps[..k], ps[k..]);
  }

  /** Number of packets that the first `n` bytes of the stream `ps` touch. */
  ghost function Covered(ps: seq<Packet>, n: int): (k: nat)
    ensures k <= |ps|
  {
    if n <= 0 || ps == [] then 0 else 1 + Covered(ps[1..], n - |ps[0]|)
  }

  /** `Covered` is the least number of whole packets that contain the first `n` bytes. */
  lemma {:induction false} CoveredIsLeast(ps: seq<Packet>, n: nat)
    requires n <= |Concat(ps)|
    ensures |Concat(ps[..Covered(ps, n)])| >= n
    ensures forall j :: 0 <= j < Covered(ps, n) ==> |Concat(ps[..j])| < n
  {
    if n > 0 && ps != [] {
      var p, rest := ps[0], ps[1..];
      var k := Covered(ps, n);
      if n <= |p| {
        assert Covered(rest, n - |p|) == 0;
        assert ps[..1] == [p];
        assert Concat([p]) == p + Concat([]);
      } else {
        CoveredIsLeast(rest, n - |p|);
        assert ps[..k][1..] == rest[..k - 1];
      }
      forall j | 0 <= j < k
        ensures |Concat(ps[..j])| < n
      {
        if j > 0 {
          assert ps[..j][1..] == rest[..j - 1];
        }
      }
    }
  }

  /**
   * The `n` buffered bytes of the stream `ps` can be walked in 32-byte steps
   * up to the next reply header, which is wholly buffered, or to their end.
   */
  ghost predicate Aligned(ps: seq<Packet>, n: int)
  {
    n == 0 ||
    (n >= HEADER && ps != [] && |ps[0]| >= HEADER && (IsReply(ps[0]) || Aligned(ps[1..], n - HEADER)))
  }

  lemma {:induction false} WholeHeadersAreAligned(big: bool, ps: seq<Packet>, n: nat)
    requires WfStream(big, ps) && n % HEADER == 0 && n <= |Concat(ps)|
    ensures Aligned(ps, n)
  {
    if n > 0 {
      assert ps != [];
      assert WfPacket(big, ps[0]);
      if !IsReply(ps[0]) {
        WholeHeadersAreAligned(big, ps[1..], n - HEADER);
      }
    }
  }

  /** The first `j` packets are not replies, so they take 32 bytes each. */
  lemma {:induction false} ShortPrefix(big: bool, ps: seq<Packet>, j: nat)
    requires WfStream(big, ps) && j <= |ps|
    requires forall i :: 0 <= i < j ==> |ps[i]| >= HEADER && !IsReply(ps[i])
    ensures Concat(ps) == Concat(ps[..j]) + Concat(ps[j..])
    ensures |Concat(ps[..j])| == HEADER * j
  {
    ConcatSplit(ps, j);
    if j > 0 {
      assert WfPacket(big, ps[0]);
      ShortPrefix(big, ps[1..], j - 1);
      assert ps[..j][1..] == ps[1..][..j - 1];
    }
  }

  lemma {:induction false} AlignedAfter(big: bool, ps: seq<Packet>, j: nat, n: int)
    requires WfStream(big, ps) && j <= |ps|
    requires forall i :: 0 <= i < j ==> |ps[i]| >= HEADER && !IsReply(ps[i])
    requires Aligned(ps[j..], n - HEADER * j) && n >= HEADER * j
    ensures Aligned(ps, n)
  {
    if j > 0 {
      AlignedAfter(big, ps[1..], j - 1, n - HEADER);
      assert ps[1..][j - 1..] == ps[j..];
    } else {
      assert ps[0..] == ps;
    }
  }

  /** A buffered header reads like the whole packet. */
  lemma HeaderBuffered(big: bool, ps: seq<Packet>, s: seq<byte>, rest: seq<byte>)
    requires WfStream(big, ps) && s + rest == Concat(ps) && |s| >= HEADER
    ensures ps != [] && WfPacket(big, ps[0]) && s[..HEADER] == ps[0][..HEADER]
    ensures s[0] == ps[0][0] && Seq16(big, s[..HEADER]) == Seq16(big, ps[0])
    ensures ExtraWords(big, s[..HEADER]) == ExtraWords(big, ps[0])
    ensures |ps[0]| == PacketSize(big, s[..HEADER])
    ensures !IsReply(ps[0]) ==> |ps[0]| == HEADER && s[..HEADER] == ps[0]
    ensures s + rest == ps[0] + Concat(ps[1..])
  {
    var p := ps[0];
    assert WfPacket(big, p);
    assert s[..HEADER] == (s + rest)[..HEADER] == p[..HEADER];
    assert p[..HEADER][2..4] == p[2..4] && p[..HEADER][4..8] == p[4..8] && p[..HEADER][0] == p[0];
  }

  /** What is left of the buffered bytes and the wire once the first packet is gone. */
  lemma DropFirst(big: bool, ps: seq<Packet>, s: seq<byte>, rest: seq<byte>)
    requires WfStream(big, ps) && ps != [] && s + rest == Concat(ps)
    ensures WfStream(big, ps[1..])
    ensures |s| > |ps[0]| ==> s[|ps[0]|..] + rest == Concat(ps[1..])
    ensures |s| <= |ps[0]| ==> |rest| >= |ps[0]| - |s| && rest[|ps[0]| - |s|..] == Concat(ps[1..])
  {
    assert Concat(ps)[|ps[0]|..] == Concat(ps[1..]);
  }

  lemma AlignedHeader(ps: seq<Packet>, n: int)
    requires Aligned(ps, n) && n > 0
    ensures n >= HEADER && ps != [] && |ps[0]| >= HEADER
  {
  }

  lemma CoveredFirst(ps: seq<Packet>, n: int)
    requires n > 0 && ps != []
    ensures Covered(ps, n) == 1 + Covered(ps[1..], n - |ps[0]|)
  {
  }

  /** What is left when the first packet is an event or error. */
  lemma ShortDropped(big: bool, ps: seq<Packet>, s: seq<byte>, rest: seq<byte>)
    requires WfStream(big, ps) && ps != [] && s + rest == Concat(ps) && |s| >= HEADER
    requires |ps[0]| == HEADER && !IsReply(ps[0]) && Aligned(ps, |s|)
    ensures WfStream(big, ps[1..]) && s[HEADER..] + rest == Concat(ps[1..]) && Aligned(ps[1..], |s| - HEADER)
  {
    DropFirst(big, ps, s, rest);
  }

  /** The buffered bytes `s` reach past `j` events and errors, so they hold the start of packet `j`. */
  lemma NextHeader(big: bool, ps: seq<Packet>, s: seq<byte>, rest: seq<byte>, j: nat)
    requires WfStream(big, ps) && s + rest == Concat(ps) && HEADER * j < |s| && j <= |ps|
    requires forall i :: 0 <= i < j ==> |ps[i]| >= HEADER && !IsReply(ps[i])
    ensures j < |ps| && WfPacket(big, ps[j]) && s[HEADER * j] == ps[j][0]
  {
    ShortPrefix(big, ps, j);
    assert (s + rest)[HEADER * j] == s[HEADER * j];
    assert WfPacket(big, ps[j]);
    assert Concat(ps[j..]) == ps[j] + Concat(ps[j + 1..]);
  }

  /** The rest of a header that is partly buffered is still to come. */
  lemma BytesLeft(big: bool, ps: seq<Packet>, s: seq<byte>, rest: seq<byte>, j: nat, missing: nat)
    requires WfStream(big, ps) && s + rest == Concat(ps) && j < |ps| && |s| + missing == HEADER * j + HEADER
    requires forall i :: 0 <= i < j ==> |ps[i]| >= HEADER && !IsReply(ps[i])
    ensures missing <= |rest|
  {
    ShortPrefix(big, ps, j);
    assert WfPacket(big, ps[j]);
    assert Concat(ps[j..]) == ps[j] + Concat(ps[j + 1..]);
  }

  /** Ending anywhere inside the header of packet `j` touches the same packets. */
  lemma {:induction false} CoveredWithin(big: bool, ps: seq<Packet>, j: nat, n: int)
    requires WfStream(big, ps) && j < |ps| && HEADER * j < n <= HEADER * j + HEADER
    requires forall i :: 0 <= i < j ==> |ps[i]| >= HEADER && !IsReply(ps[i])
    ensures Covered(ps, n) == j + 1
    ensures Aligned(ps, HEADER * j + HEADER)
  {
    assert WfPacket(big, ps[0]);
    if j > 0 {
      CoveredWithin(big, ps[1..], j - 1, n - HEADER);
    } else {
      assert Covered(ps[1..], n - |ps[0]|) == 0;
    }
  }

  lemma NonEmptyStream(big: bool, ps: seq<Packet>)
    requires WfStream(big, ps)
    ensures ps != [] ==> |Concat(ps)| >= |ps[0]| >= HEADER
    ensures ps == [] ==> Concat(ps) == []
  {
    if ps != [] {
      assert WfPacket(big, ps[0]);
    }
  }

  /** A stream has only one way to be cut into packets, so framing by length fields loses nothing. */
  lemma {:induction false} FramingIsUnique(big: bool, ps: seq<Packet>, qs: seq<Packet>)
    requires WfStream(big, ps) && WfStream(big, qs) && Concat(ps) == Concat(qs)
    ensures ps == qs
  {
    NonEmptyStream(big, ps);
    NonEmptyStream(big, qs);
    if ps != [] {
      assert WfPacket(big, ps[0]) && WfPacket(big, qs[0]);
      var s := Concat(ps);
      assert ps[0][..8] == s[..8] == qs[0][..8];
      assert ps[0][4..8] == ps[0][..8][4..8] && qs[0][4..8] == qs[0][..8][4..8];
      assert ps[0] == s[..|ps[0]|] == qs[0];
      assert Concat(ps[1..]) == s[|ps[0]|..] == Concat(qs[1..]);
      FramingIsUnique(big, ps[1..], qs[1..]);
    }
  }
}
