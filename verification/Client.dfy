/** The client side of a connection: reading packets, sending requests, waiting for answers. */
module Client {
  import opened Bytes
  import opened Packets
  import opened Engine
  import opened ErrorWatches
  import opened Sequences
  import opened Gather
  import opened Requests
  import Q = EventQueue

  const BUFFER_SIZE := 2048

  /** Below this, adding 0x10000 to a serial number does not wrap around 32 bits. */
  const SERIAL_LIMIT := 0xFFFF_0000

  /** What one system call on the socket does; the rest of the script is for the calls after it. */
  datatype Io =
    | Moved(n: nat)                       // transfers up to n bytes
    | WouldBlock(readable: seq<nat>)      // EAGAIN; byte counts seen by FIONREAD until the socket takes data again
    | Interrupted                         // EINTR
    | TooBig(readable: seq<nat>)          // EMSGSIZE

  class AuServer {
    const big: bool                       // byte order of the host
    const q: Q.EventQueue<Stamped>
    const async: WatchList
    var request: u32                      // serial of the last request made
    var lastRead: u32                     // serial of the last packet read
    var reported: seq<Stamped>            // errors passed to the program's handler
    var inbound: seq<byte>                // what the server has sent and the client has not read
    var readScript: seq<Io>
    ghost var incoming: seq<Packet>       // `inbound`, cut into packets
    const buffer: array<byte>             // requests waiting to be sent
    var bufptr: nat
    var sent: seq<byte>                   // what the socket has taken so far
    var writeScript: seq<Io>
    ghost var issued: seq<Request>        // the finished requests, oldest first
    ghost var open: seq<byte>             // the bytes so far of the request being built

    /** A connection just set up; the scripts say how its socket will behave. */
    constructor (big: bool, readScript: seq<Io>, writeScript: seq<Io>)
      ensures this.big == big && this.readScript == readScript && this.writeScript == writeScript
      ensures InValid() && OutValid() && incoming == [] && issued == [] && open == [] && Wire() == []
      ensures Abs() == State(0, 0, [], [], [])
      ensures fresh(q) && fresh(async) && fresh(buffer)
    {
      this.big := big;
      this.readScript, this.writeScript := readScript, writeScript;
      q := new Q.EventQueue();
      async := new WatchList();
      buffer := new byte[BUFFER_SIZE];
      request, lastRead, reported, inbound, incoming := 0, 0, [], [], [];
      bufptr, sent, issued, open := 0, [], [], [];
    }

    /** The state that packets act on. */
    ghost function Abs(): State
      reads this`lastRead, this`request, this`reported, q`contents, async`watches
    {
      State(lastRead, request, q.contents, async.watches, reported)
    }

    ghost predicate CoreValid()
      reads this`lastRead, this`request, q, q.Repr, async, async.nodes
    {
      q.Valid() && async.Valid() && lastRead < SERIAL_LIMIT && request < SERIAL_LIMIT
    }

    ghost predicate InValid()
      reads this`lastRead, this`request, this`inbound, this`incoming, q, q.Repr, async, async.nodes
    {
      CoreValid() && inbound == Concat(incoming) && WfStream(big, incoming)
    }

    /** Everything requested so far: what the socket has taken and what is still buffered. */
    ghost function Wire(): seq<byte>
      reads this`sent, this`bufptr, buffer
    {
      if bufptr <= buffer.Length then sent + buffer[..bufptr] else []
    }

    /** The wire is the issued requests, framed by their length fields, and the one being built. */
    ghost predicate OutValid()
      reads this`sent, this`bufptr, this`request, this`issued, this`open, buffer
    {
      buffer.Length == BUFFER_SIZE && bufptr <= BUFFER_SIZE && bufptr % 4 == 0 &&
      Wire() == Concat(issued) + open && WfRequests(big, issued) &&
      request == |issued| + if open == [] then 0 else 1
    }

    /** Cutting everything sent or still to be sent by the length fields gives back the requests, in order. */
    lemma WireSplits()
      requires OutValid() && open == []
      ensures Split(big, Wire()) == (issued, [])
    {
      SplitConcat(big, issued);
      assert Concat(issued) + [] == Concat(issued);
    }

    /** Since the old state, `k` of the packets then unread have been handled, and nothing else was read. */
    twostate predicate Progressed(k: nat)
      requires old(InValid())
      reads this, q, q.Repr, async, async.nodes
    {
      InValid() && QueueGrew() && async.nodes == old(async.nodes) &&
      Advanced(big, old(Abs()), old(incoming), k, Abs(), incoming)
    }

    /** The event queue only grew: new nodes are its own, and queued ones keep their places. */
    twostate predicate QueueGrew()
      reads this, q
    {
      fresh(q.Repr - old(q.Repr)) && old(q.Repr) <= q.Repr && old(q.live) <= q.live
    }

    /** `_AuSetLastRequestRead`, with its 32-bit unsigned arithmetic. */
    method SetLastRequestRead(sequence: u16) returns (serial: u32)
      requires lastRead < SERIAL_LIMIT && request < SERIAL_LIMIT
      modifies this`lastRead
      ensures serial == lastRead == Widen(old(lastRead), request, sequence) < SERIAL_LIMIT
    {
      var newseq: u32 := lastRead - lastRead % 0x1_0000 + sequence;
      while newseq < lastRead
        invariant newseq == lastRead - lastRead % 0x1_0000 + sequence ||
                  newseq == Widen(lastRead, request, sequence) >= lastRead
        decreases lastRead - newseq
      {
        newseq := (newseq + 0x1_0000) % 0x1_0000_0000;
        if newseq > request {
          newseq := (newseq - 0x1_0000) % 0x1_0000_0000;
          break;
        }
      }
      lastRead := newseq;
      return newseq;
    }

    /** `_AuError`: the newest handler that wants the error takes it, else the program is told. */
    method Error(p: Packet)
      requires CoreValid() && |p| >= HEADER && IsError(p)
      modifies this`lastRead, this`reported, async`watches, async.nodes
      ensures CoreValid() && Abs() == Handle(big, old(Abs()), p)
    {
      hide WatchList.Valid, Q.EventQueue.Valid, Run;
      ghost var st := Abs();
      var serial := SetLastRequestRead(Seq16(big, p));
      var taken := async.Offer(big, p, serial);
      assert Handle(big, st, p) == Deliver(big, st.(lastRead := serial), p, serial);
      if !taken {
        reported := reported + [Stamped(p, serial)];
      }
      q.StillValid();
    }

    /** `_AuEnq` with the converter `_AuWireToEvent` for the known event types. */
    method Enq(p: Packet)
      requires CoreValid() && |p| >= HEADER && !IsError(p) && !IsReply(p)
      modifies this`lastRead, q, q.Repr
      ensures CoreValid() && QueueGrew()
      ensures Abs() == Handle(big, old(Abs()), p)
    {
      var serial := lastRead;
      if Known(p) {
        serial := SetLastRequestRead(Seq16(big, p));
      }
      q.Enqueue(Stamped(p, serial), Queueable(p));
    }

    /** One `read`: moves up to `n` bytes into the array, or fails with -1. */
    method ReadFromServer(into: array<byte>, at: nat, n: nat) returns (got: int)
      requires 0 < n <= |inbound| && at + n <= into.Length
      modifies this`inbound, this`readScript, into
      ensures got == -1 || 0 < got <= n
      ensures got == -1 ==> old(readScript) != [] && inbound == old(inbound) && into[..] == old(into[..])
      ensures got > 0 ==> inbound == old(inbound)[got..]
      ensures got > 0 ==> into[..] == Filled(old(into[..]), at, old(inbound)[..got])
      ensures readScript == if old(readScript) == [] then [] else old(readScript)[1..]
    {
      got := n;
      if readScript != [] {
        got := match readScript[0] case Moved(k) => if k == 0 then 1 else if k < n then k else n case _ => -1;
        readScript := readScript[1..];
      }
      if got > 0 {
        forall i | 0 <= i < got {
          into[at + i] := inbound[i];
        }
        inbound := inbound[got..];
      }
    }

    /** `_AuRead`: keeps reading until all `size` bytes have arrived. */
    method Read(into: array<byte>, at: nat, size: nat)
      requires size <= |inbound| && at + size <= into.Length
      modifies this`inbound, this`readScript, into
      ensures inbound == old(inbound)[size..]
      ensures into[..] == Filled(old(into[..]), at, old(inbound)[..size])
    {
      var done := 0;
      while done < size
        invariant done <= size && inbound == old(inbound)[done..]
        invariant into[..] == Filled(old(into[..]), at, old(inbound)[..done])
        decreases |readScript|, size - done
      {
        var got := ReadFromServer(into, at + done, size - done);
        if got > 0 {
          FilledFurther(old(into[..]), old(inbound), at, done, got);
          done := done + got;
        }
      }
    }

    /** One `readv` into two places, the second of which takes what the first has no room for. */
    method ReadvFromServer(into: array<byte>, at: nat, n: nat, pad: array<byte>, padAt: nat, m: nat) returns (got: int)
      requires 0 < n + m <= |inbound| && at + n <= into.Length && padAt + m <= pad.Length && into != pad
      modifies this`inbound, this`readScript, into, pad
      ensures got == -1 || 0 < got <= n + m
      ensures got == -1 ==> old(readScript) != [] && inbound == old(inbound) && into[..] == old(into[..])
      ensures got > 0 ==> inbound == old(inbound)[got..]
      ensures got > 0 ==> into[..] == Filled(old(into[..]), at, old(inbound)[..if got < n then got else n])
      ensures readScript == if old(readScript) == [] then [] else old(readScript)[1..]
    {
      got := n + m;
      if readScript != [] {
        got := match readScript[0] case Moved(k) => if k == 0 then 1 else if k < n + m then k else n + m case _ => -1;
        readScript := readScript[1..];
      }
      if got > 0 {
        var first := if got < n then got else n;
        forall i | 0 <= i < first {
          into[at + i] := inbound[i];
        }
        assert into[..] == Filled(old(into[..]), at, inbound[..first]);
        forall i | 0 <= i < got - first {
          pad[padAt + i] := inbound[first + i];
        }
        inbound := inbound[got..];
      }
    }

    /**
     * `_AuReadPad`: reads `size` bytes and the padding behind them, however the stream is cut up.
     */
    method ReadPad(into: array<byte>, at: nat, size: nat)
      requires Pad4(size) <= |inbound| && at + size <= into.Length
      modifies this`inbound, this`readScript, into
      ensures inbound == old(inbound)[Pad4(size)..]
      ensures into[..] == Filled(old(into[..]), at, old(inbound)[..size])
    {
      hide Filled, ReadSoFar, PadLength, Pad4, Vectors.Fit;
      if size == 0 {
        NothingFilled(into[..], inbound, at, 0);
        return;
      }
      var pad := new byte[3];
      var v := Vectors(at, size, 0, PadLength(size));
      NothingRead(inbound, into[..], at, size);
      VectorsFit(at, size);
      while v.len + v.padLen > 0
        invariant v.Fit(at, size)
        invariant ReadSoFar(old(inbound), inbound, old(into[..]), into[..], at, size, v)
        decreases |readScript|, v.len + v.padLen
      {
        v := ReadPadTurn(into, pad, at, size, v, old(inbound), old(into[..]));
      }
      ReadAll(old(inbound), inbound, old(into[..]), into[..], at, size, v);
    }

    /** One turn of its loop. When a read runs past the data, the excess is taken off the padding. */
    method ReadPadTurn(into: array<byte>, pad: array<byte>, at: nat, size: nat, v: Vectors,
                       ghost data: seq<byte>, ghost before: seq<byte>)
      returns (v': Vectors)
      requires v.Fit(at, size) && at + size <= into.Length && pad.Length == 3 && into != pad && v.len + v.padLen > 0
      requires ReadSoFar(data, inbound, before, into[..], at, size, v)
      modifies this`inbound, this`readScript, into, pad
      ensures v'.Fit(at, size) && ReadSoFar(data, inbound, before, into[..], at, size, v')
      ensures readScript == if old(readScript) == [] then [] else old(readScript)[1..]
      ensures v'.len + v'.padLen < v.len + v.padLen || (v' == v && old(readScript) != [])
    {
      hide Filled, PadLength, Pad4, ReadSoFar;
      EnoughToRead(data, inbound, before, into[..], at, size, v);
      ghost var rest, now := inbound, into[..];
      var got := ReadvFromServer(into, v.base, v.len, pad, v.padBase, v.padLen);
      v' := v;
      if got > 0 {
        ReadMore(data, rest, before, now, at, size, v, got);
        var len: int := v.len - got;
        if len < 0 {
          v' := Vectors(v.base, 0, v.padBase - len, v.padLen + len);
        } else {
          v' := v.(len := len, base := v.base + got);
        }
      }
    }

    /** A padded read that fills an array: a wire structure, or a list of shorts. */
    method ReadWhole(into: array<byte>)
      requires Pad4(into.Length) <= |inbound|
      modifies this`inbound, this`readScript, into
      ensures inbound == old(inbound)[Pad4(into.Length)..] && into[..] == old(inbound)[..into.Length]
    {
      ReadPad(into, 0, into.Length);
      assert into[..] == into[0..into.Length];
    }

    /** `_AuEatData`. */
    method EatData(n: nat)
      requires n <= |inbound|
      modifies this`inbound, this`readScript
      ensures inbound == old(inbound)[n..]
    {
      var scratch := new byte[2048];
      var left := n;
      while left > 0
        invariant 0 <= left <= n && inbound == old(inbound)[n - left..]
      {
        var chunk := if left > 2048 then 2048 else left;
        Read(scratch, 0, chunk);
        left := left - chunk;
      }
    }

    /** The `len` buffered bytes from `at` on, followed by what is still on the wire, are the stream `ps`. */
    ghost predicate Holds(buf: array<byte>, at: nat, len: nat, ps: seq<Packet>)
      reads this`inbound, buf
    {
      at + len <= buf.Length && buf[at..at + len] + inbound == Concat(ps) && WfStream(big, ps)
    }

    /**
     * The end of `_AuAsyncReply`: after a reply the buffered bytes may end inside a header. If no
     * further reply header is buffered, slide them back over the reply and read the missing bytes.
     */
    method Realign(buf: array<byte>, at: nat, len: nat, ghost ps: seq<Packet>) returns (at': nat, len': nat)
      requires Holds(buf, at, len, ps) && at >= HEADER && len > 0
      modifies this`inbound, this`readScript, buf
      ensures Holds(buf, at', len', ps) && Aligned(ps, len')
      ensures at' + len' == at + len && at - HEADER < at' <= at
      ensures len == len' || (len' == len + at - at' && Covered(ps, len) == Covered(ps, len'))
    {
      var left := len;
      ghost var j := 0;
      while left > HEADER
        invariant 0 < left == len - HEADER * j && j <= |ps| && Holds(buf, at, len, ps)
        invariant forall i :: 0 <= i < j ==> |ps[i]| >= HEADER && !IsReply(ps[i])
      {
        NextHeader(big, ps, buf[at..at + len], inbound, j);
        if buf[at + len - left] == REPLY_TYPE {
          assert Aligned(ps[j..], left);
          AlignedAfter(big, ps, j, len);
          return at, len;
        }
        left := left - HEADER;
        j := j + 1;
      }
      NextHeader(big, ps, buf[at..at + len], inbound, j);
      CoveredWithin(big, ps, j, len);
      at', len' := at, len;
      if left < HEADER {
        BytesLeft(big, ps, buf[at..at + len], inbound, j, HEADER - left);
        at' := SlideBack(buf, at, len, HEADER - left, ps);
        len' := len + HEADER - left;
        CoveredWithin(big, ps, j, len');
      }
    }

    /** Moves the buffered bytes back by `missing` and reads that many behind them. */
    method SlideBack(buf: array<byte>, at: nat, len: nat, missing: nat, ghost ps: seq<Packet>) returns (at': nat)
      requires Holds(buf, at, len, ps) && missing <= at && missing <= |inbound|
      modifies this`inbound, this`readScript, buf
      ensures at' == at - missing && Holds(buf, at', len + missing, ps)
    {
      at' := at - missing;
      forall i | 0 <= i < len {
        buf[at' + i] := buf[at + i];
      }
      ghost var moved := old(buf[at..at + len]);
      assert buf[at'..at' + len] == moved;
      Read(buf, at' + len, missing);
      assert buf[at'..at' + len] == moved;
      assert buf[at' + len..at' + len + missing] == old(inbound)[..missing];
      assert buf[at'..at' + len + missing] == moved + old(inbound)[..missing];
      assert old(inbound) == old(inbound)[..missing] + inbound;
      AppendAssociative(moved, old(inbound)[..missing], inbound);
    }

    /** Discards the reply at the front of the stream, however much of it is still on the wire. */
    method DropReply(buf: array<byte>, at: nat, len: nat, size: nat, ghost ps: seq<Packet>)
      returns (at': nat, len': nat)
      requires Holds(buf, at, len, ps) && len >= HEADER && ps != [] && size == |ps[0]| >= HEADER
      modifies this`inbound, this`readScript, buf
      ensures Holds(buf, at', len', ps[1..]) && Aligned(ps[1..], len') && at' + len' == at + len && at < at'
      ensures Covered(ps[1..], len') == Covered(ps[1..], len - size)
    {
      DropFirst(big, ps, buf[at..at + len], inbound);
      if size > len {
        EatData(size - len);
      }
      if size >= len {
        at', len' := at + len, 0;
        assert buf[at'..at' + len'] + inbound == inbound;
      } else {
        assert buf[at + size..at + len] == buf[at..at + len][size..];
        at', len' := Realign(buf, at + size, len - size, ps[1..]);
      }
    }

    /** Settles the serial of a reply and offers it to the handlers, all of which refuse it. */
    method NoteReply(header: Packet) returns (consumed: bool)
      requires CoreValid() && |header| >= HEADER && IsReply(header)
      modifies this`lastRead, async`watches, async.nodes
      ensures CoreValid() && Abs() == Handle(big, old(Abs()), header) && !consumed
      ensures Abs() == old(Abs()).(lastRead := lastRead) && lastRead == SerialOf(big, old(Abs()), header)
    {
      hide WatchList.Valid, Q.EventQueue.Valid;
      var serial := SetLastRequestRead(Seq16(big, header));
      consumed := async.Offer(big, header, serial);
      q.StillValid();
    }

    /**
     * `_AuAsyncReply`: a reply nobody waits for. No handler takes replies, so with `discard` it is
     * thrown away; without, it is left in place.
     */
    method AsyncReply(buf: array<byte>, at: nat, len: nat, discard: bool, ghost ps: seq<Packet>)
      returns (at': nat, len': nat)
      requires CoreValid() && Holds(buf, at, len, ps) && len >= HEADER
      requires ps != [] && |ps[0]| >= HEADER && IsReply(ps[0])
      modifies this`lastRead, this`inbound, this`readScript, async`watches, async.nodes, buf
      ensures CoreValid() && Abs() == Handle(big, old(Abs()), ps[0])
      ensures !discard ==> at' == at && len' == len && inbound == old(inbound) && buf[..] == old(buf[..])
      ensures discard ==> Holds(buf, at', len', ps[1..]) && Aligned(ps[1..], len') && at' + len' == at + len && at < at'
      ensures discard ==> Covered(ps[1..], len') == Covered(ps[1..], len - |ps[0]|)
    {
      hide WatchList.Valid, Q.EventQueue.Valid, Aligned, Covered, Concat;
      var header := buf[at..at + HEADER];
      HeaderBuffered(big, ps, buf[at..at + len], inbound);
      assert header == buf[at..at + len][..HEADER];
      var consumed := NoteReply(header);
      at', len' := at, len;
      if consumed || discard {
        at', len' := DropReply(buf, at, len, PacketSize(big, header), ps);
      }
      q.StillValid();
    }

    /** One turn of the dispatch loops. */
    method DispatchOne(buf: array<byte>, at: nat, left: nat, ghost ps: seq<Packet>) returns (at': nat, left': nat)
      requires CoreValid() && Holds(buf, at, left, ps) && Aligned(ps, left) && left > 0
      modifies this`lastRead, this`reported, this`inbound, this`readScript
      modifies q, q.Repr, async`watches, async.nodes, buf
      ensures CoreValid() && QueueGrew()
      ensures |ps[0]| >= HEADER && Abs() == Handle(big, old(Abs()), ps[0])
      ensures Holds(buf, at', left', ps[1..]) && Aligned(ps[1..], left') && at' + left' == at + left
      // even when bytes are read to complete a header, fewer are left than before
      ensures left' < left
      ensures Covered(ps, left) == 1 + Covered(ps[1..], left')
    {
      hide Q.EventQueue.Valid, WatchList.Valid, Handle, Concat, Aligned, Covered, WfPacket, PacketSize;
      AlignedHeader(ps, left);
      HeaderBuffered(big, ps, buf[at..at + left], inbound);
      CoveredFirst(ps, left);
      if buf[at] == REPLY_TYPE {
        at', left' := AsyncReply(buf, at, left, true, ps);
      } else {
        ShortDropped(big, ps, buf[at..at + left], inbound);
        var packet := buf[at..at + HEADER];
        assert packet == buf[at..at + left][..HEADER];
        at', left' := at + HEADER, left - HEADER;
        assert buf[at'..at' + left'] == buf[at..at + left][HEADER..];
        HandleShort(packet);
      }
    }

    /** An event or error goes to its handler. */
    method HandleShort(packet: Packet)
      requires CoreValid() && |packet| == HEADER && !IsReply(packet)
      modifies this`lastRead, this`reported, q, q.Repr, async`watches, async.nodes
      ensures CoreValid() && QueueGrew() && Abs() == Handle(big, old(Abs()), packet)
    {
      hide Q.EventQueue.Valid, WatchList.Valid, Handle;
      if packet[0] == ERROR_TYPE {
        Error(packet);
      } else {
        Enq(packet);
      }
    }

    /** Handles every packet that the first `len` bytes of the buffer touch: the loop all three readers share. */
    method DispatchAll(buf: array<byte>, len: nat) returns (ghost k: nat)
      requires CoreValid() && WfStream(big, incoming) && Holds(buf, 0, len, incoming) && Aligned(incoming, len)
      modifies this`lastRead, this`reported, this`inbound, this`readScript
      modifies q, q.Repr, async`watches, async.nodes, buf
      ensures CoreValid() && QueueGrew()
      ensures k == Covered(incoming, len) && Abs() == Run(big, old(Abs()), incoming[..k]) &&
              inbound == Concat(incoming[k..])
    {
      hide Q.EventQueue.Valid, WatchList.Valid, Handle, Aligned, Concat, CoreValid, Abs, Run, WfPacket, PacketSize;
      ghost var all := incoming;
      var at: nat, left: nat := 0, len;
      k := 0;
      NothingHandled(big, Abs(), all);
      while left > 0
        invariant k <= |all| && at + left == len
        invariant Holds(buf, at, left, all[k..]) && Aligned(all[k..], left)
        invariant k + Covered(all[k..], left) == Covered(all, len)
        invariant CoreValid() && QueueGrew()
        invariant Abs() == Run(big, old(Abs()), all[..k])
        decreases left
      {
        at, left := DispatchOne(buf, at, left, all[k..]);
        RunOneMore(big, old(Abs()), all, k);
        SliceFirst(all, k);
        k := k + 1;
      }
    }

    /** Reads `len` bytes and handles every packet they touch. */
    method DispatchChunk(len: nat) returns (ghost k: nat)
      requires InValid() && 0 < len <= BUFFER_SIZE && len % HEADER == 0 && len <= |inbound|
      modifies this`lastRead, this`reported, this`inbound, this`incoming, this`readScript
      modifies q, q.Repr, async`watches, async.nodes
      ensures InValid() && QueueGrew()
      ensures k == Covered(old(incoming), len) && Advanced(big, old(Abs()), old(incoming), k, Abs(), incoming)
    {
      hide Q.EventQueue.Valid, WatchList.Valid, Handle, Aligned, Concat, CoreValid, Abs, Run, WfPacket, PacketSize,
           Covered;
      var buf := new byte[BUFFER_SIZE];
      Read(buf, 0, len);
      assert buf[0..len] + inbound == Concat(incoming);
      WholeHeadersAreAligned(big, incoming, len);
      k := DispatchAll(buf, len);
      incoming := incoming[k..];
    }

    /** How many bytes the readers ask for when `pending` are readable: whole headers, at least one. */
    function ChunkLength(pending: nat): (len: nat)
      ensures HEADER <= len <= BUFFER_SIZE && len % HEADER == 0 && (len <= pending || len == HEADER)
    {
      (if pending < HEADER then HEADER else if pending > BUFFER_SIZE then BUFFER_SIZE else pending) / HEADER * HEADER
    }

    /**
     * `_AuWaitForWritable`: handles what the server sends until the socket takes data again.
     * `readable` is what FIONREAD reports each time; an oracle cannot report more than was sent.
     */
    method WaitForWritable(readable: seq<nat>) returns (ghost k: nat)
      requires InValid()
      modifies this`lastRead, this`reported, this`inbound, this`incoming, this`readScript
      modifies q, q.Repr, async`watches, async.nodes
      ensures InValid() && QueueGrew() && Advanced(big, old(Abs()), old(incoming), k, Abs(), incoming)
    {
      hide Q.EventQueue.Valid, WatchList.Valid, Run, Covered, Abs, CoreValid, Advanced, Concat, Handle;
      k := 0;
      NothingHandled(big, Abs(), incoming);
      var i := 0;
      while i < |readable|
        invariant 0 <= i && InValid() && QueueGrew() && Advanced(big, old(Abs()), old(incoming), k, Abs(), incoming)
      {
        if inbound != [] {
          NonEmptyStream(big, incoming);
          var pending := if readable[i] < |inbound| then readable[i] else |inbound|;
          ghost var st, ps := Abs(), incoming;
          var n := DispatchChunk(ChunkLength(pending));
          AdvanceMore(big, old(Abs()), old(incoming), k, st, ps, n, Abs(), incoming);
          k := k + n;
        }
        i := i + 1;
      }
    }

    /** One `write` or `writev`: takes a prefix of what is offered, or fails with -1. */
    method WriteToServer(offered: seq<byte>) returns (taken: int, why: Io)
      requires offered != []
      modifies this`sent, this`writeScript
      ensures taken == -1 || 0 <= taken <= |offered|
      ensures taken == -1 ==> sent == old(sent) && !why.Moved? && old(writeScript) != []
      ensures taken >= 0 ==> sent == old(sent) + offered[..taken]
      ensures writeScript == if old(writeScript) == [] then [] else old(writeScript)[1..]
      ensures old(writeScript) == [] ==> taken == |offered|
    {
      taken, why := |offered|, Moved(|offered|);
      if writeScript != [] {
        why := writeScript[0];
        taken := match why case Moved(k) => if k < |offered| then k else |offered| case _ => -1;
        writeScript := writeScript[1..];
      }
      if taken >= 0 {
        sent := sent + offered[..taken];
      }
    }

    /** How a failed write is dealt with: wait, try half as much, or just try again. */
    method Recover(why: Io, todo: nat) returns (todo': nat, ghost k: nat)
      requires InValid() && todo >= 1 && !why.Moved?
      modifies this`lastRead, this`reported, this`inbound, this`incoming, this`readScript
      modifies q, q.Repr, async`watches, async.nodes
      ensures InValid() && QueueGrew() && Advanced(big, old(Abs()), old(incoming), k, Abs(), incoming)
      ensures 1 <= todo' <= todo
    {
      hide Q.EventQueue.Valid, WatchList.Valid, CoreValid;
      todo' := todo;
      k := 0;
      NothingHandled(big, Abs(), incoming);
      match why {
        case WouldBlock(readable) =>
          k := WaitForWritable(readable);
        case TooBig(readable) =>
          if todo > 1 {
            todo' := todo / 2;
          } else {
            k := WaitForWritable(readable);
          }
        case Interrupted =>
      }
    }

    /** The same, when `k` packets of `stream` have been handled before. */
    method RecoverFurther(why: Io, todo: nat, ghost before: State, ghost stream: seq<Packet>, ghost k: nat)
      returns (todo': nat, ghost k': nat)
      requires InValid() && todo >= 1 && !why.Moved? && WfStream(big, stream) &&
               Advanced(big, before, stream, k, Abs(), incoming)
      modifies this`lastRead, this`reported, this`inbound, this`incoming, this`readScript
      modifies q, q.Repr, async`watches, async.nodes
      ensures InValid() && QueueGrew() && Advanced(big, before, stream, k', Abs(), incoming)
      ensures 1 <= todo' <= todo
    {
      hide Q.EventQueue.Valid, WatchList.Valid, CoreValid, Advanced, Concat, Abs;
      ghost var n;
      ghost var st, ps := Abs(), incoming;
      todo', n := Recover(why, todo);
      AdvanceMore(big, before, stream, k, st, ps, n, Abs(), incoming);
      k' := k + n;
    }

    /** `_AuFlush`: however the socket takes it, exactly the buffered bytes are sent, once and in order. */
    method Flush() returns (ghost k: nat)
      requires InValid() && OutValid()
      modifies this`lastRead, this`reported, this`inbound, this`incoming, this`readScript
      modifies q, q.Repr, async`watches, async.nodes
      modifies this`bufptr, this`sent, this`writeScript
      ensures InValid() && QueueGrew() && Advanced(big, old(Abs()), old(incoming), k, Abs(), incoming)
      ensures OutValid() && bufptr == 0 && sent == old(Wire())
    {
      hide Q.EventQueue.Valid, WatchList.Valid, Run, Concat, Advanced, InValid;
      k := Drain();
      assert Wire() == sent;
    }

    /** The loop of `_AuFlush`. */
    method Drain() returns (ghost k: nat)
      requires InValid() && bufptr <= buffer.Length
      modifies this`lastRead, this`reported, this`inbound, this`incoming, this`readScript
      modifies q, q.Repr, async`watches, async.nodes
      modifies this`bufptr, this`sent, this`writeScript
      ensures InValid() && QueueGrew() && Advanced(big, old(Abs()), old(incoming), k, Abs(), incoming)
      ensures bufptr == 0 && sent == old(Wire())
    {
      hide Q.EventQueue.Valid, WatchList.Valid, Run, Covered, Abs, CoreValid, Advanced, Concat, Handle;
      var size, at := bufptr, 0;
      var todo := size;
      bufptr := 0;
      k := 0;
      NothingHandled(big, Abs(), incoming);
      while size > 0
        invariant 0 <= size && at + size == old(bufptr) && (size > 0 ==> 1 <= todo <= size)
        invariant sent == old(sent) + buffer[..][..at] && bufptr == 0
        invariant InValid() && QueueGrew() && Advanced(big, old(Abs()), old(incoming), k, Abs(), incoming)
        decreases |writeScript|, size
      {
        var taken, why := WriteToServer(buffer[..][at..at + todo]);
        if taken >= 0 {
          SliceWithin(buffer[..], at, at + todo, 0, taken);
          AppendSlice(old(sent), buffer[..], at, taken);
          size := size - taken;
          at := at + taken;
          todo := size;
        } else {
          todo, k := RecoverFurther(why, todo, old(Abs()), old(incoming), k);
        }
      }
    }

    /**
     * `_AuSend`: the buffered bytes, the data and zero bytes up to a multiple of four are sent,
     * each exactly once and in order, however the socket takes them.
     */
    method Send(data: seq<byte>) returns (ghost k: nat)
      requires InValid() && bufptr <= buffer.Length
      modifies this`lastRead, this`reported, this`inbound, this`incoming, this`readScript
      modifies q, q.Repr, async`watches, async.nodes
      modifies this`bufptr, this`sent, this`writeScript
      ensures InValid() && QueueGrew() && Advanced(big, old(Abs()), old(incoming), k, Abs(), incoming)
      ensures bufptr == 0 && sent == old(Wire()) + data + Zeros(PadLength(|data|))
    {
      hide Q.EventQueue.Valid, WatchList.Valid, Run, Covered, Abs, CoreValid, Advanced, Concat, Handle;
      var head, pad := buffer[..bufptr], Zeros(PadLength(|data|));
      ghost var whole := head + data + pad;
      var skip, total := 0, |head| + |data| + |pad|;
      var todo := total;
      k := 0;
      NothingHandled(big, Abs(), incoming);
      while total > 0
        invariant 0 <= total && skip + total == |whole| && (total > 0 ==> 1 <= todo <= total)
        invariant sent == old(sent) + whole[..skip] && bufptr == |head|
        invariant InValid() && QueueGrew() && Advanced(big, old(Abs()), old(incoming), k, Abs(), incoming)
        decreases |writeScript|, total
      {
        var taken, why := Offer(head, data, pad, skip, todo);
        if taken >= 0 {
          AppendSlice(old(sent), whole, skip, taken);
          skip := skip + taken;
          total := total - taken;
          todo := total;
        } else {
          todo, k := RecoverFurther(why, todo, old(Abs()), old(incoming), k);
        }
      }
      assert whole[..skip] == whole;
      bufptr := 0;
    }

    /** Offers the `todo` bytes behind the first `skip` of what is to be sent. */
    method Offer(head: seq<byte>, data: seq<byte>, pad: seq<byte>, skip: nat, todo: nat) returns (taken: int, why: Io)
      requires todo > 0 && skip + todo <= |head + data + pad|
      modifies this`sent, this`writeScript
      ensures taken == -1 || 0 <= taken <= todo
      ensures taken == -1 ==> sent == old(sent) && !why.Moved? && old(writeScript) != []
      ensures taken >= 0 ==> sent == old(sent) + (head + data + pad)[skip..skip + taken]
      ensures writeScript == if old(writeScript) == [] then [] else old(writeScript)[1..]
      ensures old(writeScript) == [] ==> taken == todo
    {
      hide Concat;
      ghost var whole := head + data + pad;
      ConcatThree(head, data, pad);
      var vecs := ChooseVectors(head, data, pad, skip, todo);
      assert Concat(vecs) == whole[skip..skip + todo];
      taken, why := WriteToServer(Concat(vecs));
      if taken >= 0 {
        SliceWithin(whole, skip, skip + todo, 0, taken);
      }
    }

    /** The three uses of `InsertIOV`: what to offer when `skip` bytes are gone and `todo` are to be tried. */
    method ChooseVectors(head: seq<byte>, data: seq<byte>, pad: seq<byte>, skip: nat, todo: nat)
      returns (vecs: seq<seq<byte>>)
      requires todo > 0 && skip + todo <= |Concat([head, data, pad])|
      ensures Concat(vecs) == Concat([head, data, pad])[skip..skip + todo]
      ensures 1 <= |vecs| <= 3 && forall v <- vecs :: v != []
    {
      var g0 := Gather([], skip, todo);
      var g1 := InsertIov(g0, head);
      var g2 := InsertIov(g1, data);
      var g3 := InsertIov(g2, pad);
      vecs := g3.vecs;
      GatheredSlice([head, data, pad], skip, todo);
      GatherThree(g0, head, data, pad);
    }

    /**
     * `_AuGetReq` and its variants: room for a request of `size` bytes, flushing first if the buffer
     * is too full. Bytes that the caller does not set keep whatever the buffer held.
     */
    method GetReq(reqType: byte, size: nat) returns (at: nat, ghost k: nat)
      requires InValid() && OutValid() && open == [] && request + 1 < SERIAL_LIMIT
      requires 4 <= size <= BUFFER_SIZE && size % 4 == 0
      modifies this`lastRead, this`reported, this`inbound, this`incoming, this`readScript
      modifies q, q.Repr, async`watches, async.nodes
      modifies this`bufptr, this`sent, this`writeScript, this`request, this`open, buffer
      ensures InValid() && QueueGrew() && OutValid() && request == old(request) + 1
      ensures Advanced(big, old(Abs()), old(incoming), k, Abs().(request := old(request)), incoming)
      ensures Drafting(at) && |open| == size && open[0] == reqType && open[2..4] == Put16(big, size / 4)
    {
      hide Q.EventQueue.Valid, WatchList.Valid, Run, Concat;
      k := 0;
      NothingHandled(big, Abs(), incoming);
      if bufptr + size > BUFFER_SIZE {
        k := Flush();
      }
      at := OpenRequest(reqType, size);
    }

    /** `_AuGetEmptyReq`: a request that is a header and nothing else. */
    method GetEmptyReq(reqType: byte) returns (ghost k: nat)
      requires InValid() && OutValid() && open == [] && request + 1 < SERIAL_LIMIT
      modifies this`lastRead, this`reported, this`inbound, this`incoming, this`readScript
      modifies q, q.Repr, async`watches, async.nodes
      modifies this`bufptr, this`sent, this`writeScript, this`request, this`open, this`issued, buffer
      ensures InValid() && QueueGrew() && OutValid() && request == old(request) + 1 && open == []
      ensures Advanced(big, old(Abs()), old(incoming), k, Abs().(request := old(request)), incoming)
      ensures |issued| == |old(issued)| + 1 && issued[..|old(issued)|] == old(issued)
      ensures issued[|old(issued)|][0] == reqType && |issued[|old(issued)|]| == 4
    {
      hide Q.EventQueue.Valid, WatchList.Valid, Run, Concat;
      var at;
      at, k := GetReq(reqType, 4);
      WordRoundTrip(big, 1, 0);
      Finish();
    }

    method OpenRequest(reqType: byte, size: nat) returns (at: nat)
      requires OutValid() && open == [] && bufptr + size <= BUFFER_SIZE && 4 <= size && size % 4 == 0
      requires request + 1 < SERIAL_LIMIT
      modifies this`bufptr, this`request, this`open, buffer
      ensures OutValid() && request == old(request) + 1 && sent == old(sent) && issued == old(issued)
      ensures Drafting(at) && |open| == size && open[0] == reqType && open[2..4] == Put16(big, size / 4)
    {
      hide Concat, WfRequests, Put16;
      at := bufptr;
      ghost var head := buffer[..at];
      HeaderStored(at, reqType, Put16(big, size / 4));
      bufptr := bufptr + size;
      request := request + 1;
      open := buffer[at..bufptr];
      assert buffer[..bufptr] == head + open;
      AppendAssociative(sent, head, open);
      assert open[2..4] == buffer[at + 2..at + 4];
    }

    /** The assignments to the type and the length of a new request. */
    method HeaderStored(at: nat, reqType: byte, len: seq<byte>)
      requires |len| == 2 && at + 4 <= buffer.Length
      modifies buffer
      ensures buffer[at] == reqType && buffer[at + 2..at + 4] == len && buffer[..at] == old(buffer[..at])
    {
      buffer[at], buffer[at + 2], buffer[at + 3] := reqType, len[0], len[1];
    }

    /** The request being built is still wholly in the buffer, from `at` on. */
    ghost predicate Drafting(at: nat)
      reads this`bufptr, this`open, buffer
    {
      at <= bufptr <= buffer.Length && open == buffer[at..bufptr] && open != []
    }

    /** An assignment to a field of the request being built. */
    method SetField(at: nat, offset: nat, field: seq<byte>)
      requires OutValid() && Drafting(at) && offset + |field| <= |open|
      modifies this`open, buffer
      ensures OutValid() && Drafting(at) && open == Filled(old(open), offset, field)
    {
      hide Concat, Filled, WfRequests;
      ghost var b, end, head := buffer[..], bufptr, buffer[..at];
      FieldPlaced(b, at, end, offset, field);
      AppendAssociative(sent, head, open);
      CancelTail(sent + head, Concat(issued), open);
      CopyIn(at + offset, field);
      open := buffer[at..bufptr];
      AppendAssociative(sent, head, open);
    }

    method CopyIn(at: nat, data: seq<byte>)
      requires at + |data| <= buffer.Length
      modifies buffer
      ensures buffer[..] == Filled(old(buffer[..]), at, data)
    {
      forall i | 0 <= i < |data| {
        buffer[at + i] := data[i];
      }
    }

    /**
     * `_AuData`: adds data to the request being built, padded to a multiple of four with whatever
     * the buffer held, or sends it at once, padded with zeros, when the buffer cannot take it.
     */
    method Data(data: seq<byte>) returns (ghost pad: seq<byte>, ghost k: nat)
      requires InValid() && OutValid() && open != []
      modifies this`lastRead, this`reported, this`inbound, this`incoming, this`readScript
      modifies q, q.Repr, async`watches, async.nodes
      modifies this`bufptr, this`sent, this`writeScript, this`open, buffer
      ensures Progressed(k) && OutValid()
      ensures open == old(open) + data + pad && |pad| == PadLength(|data|)
    {
      hide Q.EventQueue.Valid, WatchList.Valid, Run, Concat;
      k := 0;
      NothingHandled(big, Abs(), incoming);
      ghost var before := Wire();
      if bufptr + |data| <= BUFFER_SIZE {
        pad := BufferData(data);
      } else {
        k := Send(data);
        pad := Zeros(PadLength(|data|));
      }
      open := open + (data + pad);
      AppendAssociative(before, data, pad);
      AppendAssociative(Concat(issued), old(open), data + pad);
      AppendAssociative(old(open), data, pad);
    }

    method BufferData(data: seq<byte>) returns (ghost pad: seq<byte>)
      requires buffer.Length == BUFFER_SIZE && bufptr % 4 == 0 && bufptr + |data| <= BUFFER_SIZE
      modifies this`bufptr, buffer
      ensures bufptr == old(bufptr) + Pad4(|data|) <= BUFFER_SIZE
      ensures Wire() == old(Wire()) + data + pad && |pad| == PadLength(|data|)
    {
      hide Filled;
      ghost var b, at := buffer[..], bufptr;
      CopyIn(bufptr, data);
      pad := buffer[bufptr + |data|..bufptr + Pad4(|data|)];
      bufptr := bufptr + Pad4(|data|);
      DataPlaced(b, at, data, bufptr);
      AppendAssociative(sent, b[..at], data);
      AppendAssociative(sent, b[..at] + data, pad);
    }

    /** A request is being built, and since state `st0` the first `k` packets of `ps0` have been handled. */
    ghost predicate Sending(st0: State, ps0: seq<Packet>, k: nat)
      reads this, buffer, q, q.Repr, async, async.nodes
    {
      InValid() && OutValid() && open != [] && WfStream(big, ps0) && Advanced(big, st0, ps0, k, Abs(), incoming)
    }

    /** `_AuData` once more within the same request. */
    method SendMore(data: seq<byte>, ghost st0: State, ghost ps0: seq<Packet>, ghost k0: nat)
      returns (ghost pad: seq<byte>, ghost k: nat)
      requires Sending(st0, ps0, k0)
      modifies this`lastRead, this`reported, this`inbound, this`incoming, this`readScript
      modifies q, q.Repr, async`watches, async.nodes
      modifies this`bufptr, this`sent, this`writeScript, this`open, buffer
      ensures Sending(st0, ps0, k) && QueueGrew() && async.nodes == old(async.nodes)
      ensures open == old(open) + data + pad && |pad| == PadLength(|data|)
      ensures pad == [] ==> open == old(open) + data
    {
      hide Q.EventQueue.Valid, WatchList.Valid, Run, Concat, Advanced, CoreValid, OutValid;
      ghost var st, ps, n := Abs(), incoming, 0;
      pad, n := Data(data);
      AdvanceMore(big, st0, ps0, k0, st, ps, n, Abs(), incoming);
      k := k0 + n;
    }

    /** The request being built is finished: its length field is the number of bytes it put on the wire. */
    ghost method Finish()
      requires OutValid() && WfRequest(big, open)
      modifies this`open, this`issued
      ensures OutValid() && open == [] && issued == old(issued) + [old(open)]
    {
      ConcatAppend(issued, [open]);
      assert Concat([open]) == open;
      issued, open := issued + [open], [];
    }
  }
}
