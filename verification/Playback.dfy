/** Playing a sound from memory: notify events drive chunked writes into a flow. */
module Playback {
  import opened Bytes
  import opened Packets
  import opened Engine
  import opened Requests
  import opened Sequences
  import opened Client
  import ErrorWatches
  import Q = EventQueue

  const WRITE_ELEMENT: byte := 24
  const WRITE_HEADER := 16
  const READY: byte := 0
  const PENDING: byte := 1
  const END: byte := 2

  /** One WriteElement request, as the server understands it. */
  datatype Write = Write(state: byte, data: seq<byte>)

  // Writes ----------------------------------------------------------------------------------

  /** `AuWriteElement`: the data cut into chunks of at most `max` bytes; only the last has state `final`. */
  function Chunks(data: seq<byte>, max: nat, final: byte): (ws: seq<Write>)
    requires max > 0
    decreases |data|
  {
    if |data| <= max then [Write(final, data)] else [Write(PENDING, data[..max])] + Chunks(data[max..], max, final)
  }

  function Payload(ws: seq<Write>): (b: seq<byte>)
  {
    if ws == [] then [] else ws[0].data + Payload(ws[1..])
  }

  lemma {:induction false} PayloadAppend(ws: seq<Write>, vs: seq<Write>)
    ensures Payload(ws + vs) == Payload(ws) + Payload(vs)
  {
    if ws == [] {
      assert ws + vs == vs;
    } else {
      PayloadAppend(ws[1..], vs);
      assert (ws + vs)[1..] == ws[1..] + vs;
      AppendAssociative(ws[0].data, Payload(ws[1..]), Payload(vs));
    }
  }

  /** The chunks carry exactly the data, each fits, and exactly the last is not pending. */
  lemma {:induction false} ChunksCarryData(data: seq<byte>, max: nat, final: byte)
    requires max > 0
    ensures var ws := Chunks(data, max, final);
            ws != [] && Payload(ws) == data && (forall w <- ws :: |w.data| <= max) &&
            ws[|ws| - 1].state == final &&
            forall i :: 0 <= i < |ws| - 1 ==> ws[i].state == PENDING && |ws[i].data| == max
    decreases |data|
  {
    hide Payload;
    if |data| > max {
      ChunksCarryData(data[max..], max, final);
      PayloadFirst(Write(PENDING, data[..max]), Chunks(data[max..], max, final));
      TakeDrop(data, max);
    } else {
      PayloadFirst(Write(final, data), []);
    }
  }

  lemma PayloadFirst(w: Write, ws: seq<Write>)
    ensures Payload([w] + ws) == w.data + Payload(ws)
    ensures [w] + [] == [w] && Payload([]) == [] && w.data + [] == w.data
  {
    assert ([w] + ws)[1..] == ws;
  }

  /** A chunk with its header and padding fits the server's limit for every size only if that is a multiple of four. */
  lemma PaddedChunkFits(limit: nat)
    requires limit > WRITE_HEADER
    ensures (forall n: nat :: n <= limit - WRITE_HEADER ==> WRITE_HEADER + Pad4(n) <= limit) <==> limit % 4 == 0
    ensures forall n: nat :: n <= limit - WRITE_HEADER ==> WRITE_HEADER + Pad4(n) <= limit + 3
  {
    if limit % 4 != 0 {
      assert WRITE_HEADER + Pad4(limit - WRITE_HEADER) > limit;
    }
  }

  // Playing ---------------------------------------------------------------------------------

  function Min(a: nat, b: nat): nat
  {
    if a < b then a else b
  }

  /** `sendData`: what is written when the flow asks for `n` bytes and `left` is still unsent. */
  function Serve(left: seq<byte>, n: nat, max: nat): (ws: seq<Write>)
    requires max > 0
  {
    var m := Min(n, |left|);
    if m > 0 then Chunks(left[..m], max, if m != n then END else READY) else [Write(END, [])]
  }

  /** The writes of a whole run: `ns` are the byte counts asked for. */
  function Play(left: seq<byte>, ns: seq<nat>, max: nat): (ws: seq<Write>)
    requires max > 0
    decreases |ns|
  {
    if ns == [] then [] else Serve(left, ns[0], max) + Play(left[Min(ns[0], |left|)..], ns[1..], max)
  }

  function Total(ns: seq<nat>): (t: nat)
  {
    if ns == [] then 0 else ns[0] + Total(ns[1..])
  }

  lemma ServeCarriesData(left: seq<byte>, n: nat, max: nat)
    requires max > 0
    ensures var ws := Serve(left, n, max);
            ws != [] && Payload(ws) == left[..Min(n, |left|)] && (forall w <- ws :: |w.data| <= max) &&
            (forall i :: 0 <= i < |ws| - 1 ==> ws[i].state == PENDING) &&
            ws[|ws| - 1].state == if n > |left| || n == 0 then END else READY
  {
    var m := Min(n, |left|);
    if m > 0 {
      ChunksCarryData(left[..m], max, if m != n then END else READY);
    } else {
      assert Payload([Write(END, [])]) == [] + [];
    }
  }

  /** Whatever the events ask for, the payloads end to end are a prefix of the sound: as much as was asked for. */
  lemma {:induction false} PlaysPrefix(sound: seq<byte>, ns: seq<nat>, max: nat)
    requires max > 0
    ensures Payload(Play(sound, ns, max)) == sound[..Min(Total(ns), |sound|)]
    ensures forall w <- Play(sound, ns, max) :: |w.data| <= max
    decreases |ns|
  {
    if ns != [] {
      var m := Min(ns[0], |sound|);
      ServeCarriesData(sound, ns[0], max);
      PlaysPrefix(sound[m..], ns[1..], max);
      PayloadAppend(Serve(sound, ns[0], max), Play(sound[m..], ns[1..], max));
    }
  }

  /** Write `k` ends the flow although not all of the sound has been sent. */
  ghost predicate EndsEarlyAt(ws: seq<Write>, sound: seq<byte>, k: nat)
  {
    k < |ws| && ws[k].state == END && Payload(ws[..k + 1]) != sound
  }

  ghost predicate EndsEarly(ws: seq<Write>, sound: seq<byte>)
  {
    exists k: nat :: EndsEarlyAt(ws, sound, k)
  }

  /** Event `i` asks for nothing while part of the sound is unsent. */
  ghost predicate IdleAt(ns: seq<nat>, sound: seq<byte>, i: nat)
  {
    i < |ns| && ns[i] == 0 && Total(ns[..i]) < |sound|
  }

  /**
   * The end is signalled too early exactly when some event asks for zero bytes while some are left;
   * so with positive counts the end is sent only once everything has been sent.
   */
  lemma EndsEarlyOnlyIfIdle(sound: seq<byte>, ns: seq<nat>, max: nat)
    requires max > 0
    ensures EndsEarly(Play(sound, ns, max), sound) <==> exists i: nat :: IdleAt(ns, sound, i)
  {
    if EndsEarly(Play(sound, ns, max), sound) {
      var k: nat :| EndsEarlyAt(Play(sound, ns, max), sound, k);
      EarlyEndIsIdle(sound, ns, max, k);
    }
    if exists i: nat :: IdleAt(ns, sound, i) {
      var i: nat :| IdleAt(ns, sound, i);
      IdleEndsEarly(sound, ns, max, i);
    }
  }

  /** Seen from after the first event, the same write ends the flow early. */
  lemma EarlyLater(first: seq<Write>, later: seq<Write>, sound: seq<byte>, m: nat, j: nat)
    requires m <= |sound| && Payload(first) == sound[..m]
    ensures EndsEarlyAt(first + later, sound, |first| + j) <==> EndsEarlyAt(later, sound[m..], j)
  {
    hide Payload;
    if j < |later| {
      assert (first + later)[|first| + j] == later[j] && (first + later)[..|first| + j + 1] == first + later[..j + 1];
      PayloadAppend(first, later[..j + 1]);
      SamePrefix(sound, m, Payload(later[..j + 1]));
    }
  }

  lemma SamePrefix(s: seq<byte>, m: nat, rest: seq<byte>)
    requires m <= |s|
    ensures s[..m] + rest == s <==> rest == s[m..]
  {
    assert s[..m] + s[m..] == s;
    assert (s[..m] + rest)[m..] == rest;
  }

  lemma IdleLater(ns: seq<nat>, sound: seq<byte>, i: nat)
    requires ns != []
    ensures IdleAt(ns, sound, i + 1) <==> IdleAt(ns[1..], sound[Min(ns[0], |sound|)..], i)
  {
    if i + 1 < |ns| {
      assert ns[..i + 1][1..] == ns[1..][..i];
    }
  }

  lemma {:induction false} EarlyEndIsIdle(sound: seq<byte>, ns: seq<nat>, max: nat, k: nat)
    requires max > 0 && EndsEarlyAt(Play(sound, ns, max), sound, k)
    ensures exists i: nat :: IdleAt(ns, sound, i)
    decreases |ns|
  {
    hide Serve, EndsEarlyAt, IdleAt;
    assert ns != [] by { NoEarlyEnd(sound, k); }
    var m := Min(ns[0], |sound|);
    var first, later := Serve(sound, ns[0], max), Play(sound[m..], ns[1..], max);
    ServeCarriesData(sound, ns[0], max);
    if k < |first| {
      EarlyNow(first, later, sound, ns, max, k);
    } else {
      EarlyLater(first, later, sound, m, k - |first|);
      EarlyEndIsIdle(sound[m..], ns[1..], max, k - |first|);
      var i: nat :| IdleAt(ns[1..], sound[m..], i);
      IdleLater(ns, sound, i);
    }
  }

  lemma NoEarlyEnd(sound: seq<byte>, k: nat)
    ensures !EndsEarlyAt([], sound, k)
  {
  }

  lemma EarlyNow(first: seq<Write>, later: seq<Write>, sound: seq<byte>, ns: seq<nat>, max: nat, k: nat)
    requires max > 0 && ns != [] && first == Serve(sound, ns[0], max) && k < |first|
    requires EndsEarlyAt(first + later, sound, k)
    ensures IdleAt(ns, sound, 0)
  {
    ServeCarriesData(sound, ns[0], max);
    assert (first + later)[k] == first[k] && k == |first| - 1;
    assert (first + later)[..k + 1] == first;
    assert ns[..0] == [] && sound[..|sound|] == sound;
  }

  lemma {:induction false} IdleEndsEarly(sound: seq<byte>, ns: seq<nat>, max: nat, i: nat)
    requires max > 0 && IdleAt(ns, sound, i)
    ensures EndsEarly(Play(sound, ns, max), sound)
    decreases |ns|
  {
    var m := Min(ns[0], |sound|);
    var first, later := Serve(sound, ns[0], max), Play(sound[m..], ns[1..], max);
    ServeCarriesData(sound, ns[0], max);
    if i == 0 {
      assert first == [Write(END, [])];
      assert (first + later)[..1] == first;
      assert EndsEarlyAt(first + later, sound, 0);
    } else {
      IdleLater(ns, sound, i - 1);
      IdleEndsEarly(sound[m..], ns[1..], max, i - 1);
      var j: nat :| EndsEarlyAt(later, sound[m..], j);
      EarlyLater(first, later, sound, m, j);
    }
  }

  ghost predicate HasEnd(ws: seq<Write>)
  {
    exists i :: 0 <= i < |ws| && ws[i].state == END
  }

  lemma EndInEither(ws: seq<Write>, vs: seq<Write>)
    ensures HasEnd(ws + vs) <==> HasEnd(ws) || HasEnd(vs)
  {
    if i :| 0 <= i < |ws| && ws[i].state == END {
      assert (ws + vs)[i].state == END;
    }
    if i :| 0 <= i < |vs| && vs[i].state == END {
      assert (ws + vs)[|ws| + i].state == END;
    }
  }

  /** Over a whole run the end is sent exactly if more is asked for than there is, or at some point nothing. */
  lemma {:induction false} EndIsSent(sound: seq<byte>, ns: seq<nat>, max: nat)
    requires max > 0
    ensures HasEnd(Play(sound, ns, max)) <==> Total(ns) > |sound| || 0 in ns
    decreases |ns|
  {
    if ns != [] {
      hide Serve, HasEnd;
      var m := Min(ns[0], |sound|);
      ServeEnds(sound, ns[0], max);
      EndIsSent(sound[m..], ns[1..], max);
      EndInEither(Serve(sound, ns[0], max), Play(sound[m..], ns[1..], max));
      assert 0 in ns <==> ns[0] == 0 || 0 in ns[1..];
    } else {
      assert !HasEnd([]);
    }
  }

  lemma ServeEnds(left: seq<byte>, n: nat, max: nat)
    requires max > 0
    ensures HasEnd(Serve(left, n, max)) <==> n == 0 || n > |left|
  {
    hide Serve, Payload;
    ServeCarriesData(left, n, max);
    var ws := Serve(left, n, max);
    assert ws[|ws| - 1].state == END <==> n == 0 || n > |left|;
  }

  // Writing to the connection -----------------------------------------------------------------

  /** A WriteElement request that carries `w`, padded with bytes that do not matter. */
  ghost predicate IsWriteRequest(big: bool, r: Request, flow: u32, element: byte, w: Write)
  {
    |w.data| < 0x1_0000_0000 && |r| == WRITE_HEADER + Pad4(|w.data|) && r[0] == WRITE_ELEMENT && r[1] == element &&
    r[4..8] == Put32(big, flow) && r[8..12] == Put32(big, |w.data|) && r[12] == w.state &&
    r[WRITE_HEADER..WRITE_HEADER + |w.data|] == w.data
  }

  /** Its header, for `n` bytes of data. */
  ghost predicate IsWriteHeader(big: bool, h: seq<byte>, flow: u32, element: byte, state: byte, n: u32)
  {
    |h| == WRITE_HEADER && h[0] == WRITE_ELEMENT && h[1] == element &&
    h[2..4] == Put16(big, (WRITE_HEADER + Pad4(n)) / 4 % 0x1_0000) &&
    h[4..8] == Put32(big, flow) && h[8..12] == Put32(big, n) && h[12] == state
  }

  lemma HeaderFilled(big: bool, h0: seq<byte>, flow: u32, element: byte, state: byte, n: u32)
    requires |h0| == WRITE_HEADER && h0[0] == WRITE_ELEMENT
    ensures var h := Filled(Filled(Filled(Filled(Filled(h0, 4, Put32(big, flow)), 1, [element]), 8, Put32(big, n)), 12,
                                   [state]),
                            2, Put16(big, (WRITE_HEADER + Pad4(n)) / 4 % 0x1_0000));
            IsWriteHeader(big, h, flow, element, state, n)
  {
    hide Put16, Put32, Filled;
    var f, c, l := Put32(big, flow), Put32(big, n), Put16(big, (WRITE_HEADER + Pad4(n)) / 4 % 0x1_0000);
    var h1 := Filled(h0, 4, f);
    FilledApart(h0, 4, f, 0, 1);
    var h2 := Filled(h1, 1, [element]);
    FilledApart(h1, 1, [element], 0, 1);
    FilledApart(h1, 1, [element], 4, 8);
    var h3 := Filled(h2, 8, c);
    FilledApart(h2, 8, c, 0, 1);
    FilledApart(h2, 8, c, 1, 2);
    FilledApart(h2, 8, c, 4, 8);
    var h4 := Filled(h3, 12, [state]);
    FilledApart(h3, 12, [state], 0, 1);
    FilledApart(h3, 12, [state], 1, 2);
    FilledApart(h3, 12, [state], 4, 8);
    FilledApart(h3, 12, [state], 8, 12);
    var h5 := Filled(h4, 2, l);
    FilledApart(h4, 2, l, 0, 1);
    FilledApart(h4, 2, l, 1, 2);
    FilledApart(h4, 2, l, 4, 8);
    FilledApart(h4, 2, l, 8, 12);
    FilledApart(h4, 2, l, 12, 13);
    assert h5[0] == h5[0..1][0] == h4[0..1][0] == h3[0..1][0] == h2[0..1][0] == h1[0..1][0] == h0[0..1][0];
    assert h5[1] == h5[1..2][0] == h4[1..2][0] == h3[1..2][0] == h2[1..2][0] == element;
    assert h5[12] == h5[12..13][0] == h4[12..13][0] == state;
  }

  lemma WriteComplete(big: bool, h: seq<byte>, flow: u32, element: byte, w: Write, pad: seq<byte>)
    requires |w.data| < 0x1_0000 && IsWriteHeader(big, h, flow, element, w.state, |w.data|) &&
             |pad| == PadLength(|w.data|)
    ensures WfRequest(big, h + w.data + pad) && IsWriteRequest(big, h + w.data + pad, flow, element, w)
  {
    hide Put16, Put32, Get16, WfRequest;
    var r := h + w.data + pad;
    assert r[2..4] == h[2..4] && r[4..8] == h[4..8] && r[8..12] == h[8..12];
    assert r[WRITE_HEADER..WRITE_HEADER + |w.data|] == w.data;
    var length := (WRITE_HEADER + Pad4(|w.data|)) / 4;
    assert length % 0x1_0000 == length;
    WordRoundTrip(big, length, 0);
    assert WfRequest(big, r) by {
      assert |r| == 4 * length;
      FramedBy(big, r, length);
    }
  }

  lemma FramedBy(big: bool, r: seq<byte>, length: u16)
    requires |r| == 4 * length >= 4 && Get16(big, r[2..4]) == length
    ensures WfRequest(big, r)
  {
  }

  /** No request is being built. */
  ghost predicate Ready(aud: AuServer)
    reads aud, aud.q, aud.q.Repr, aud.async, aud.async.nodes, aud.buffer
  {
    aud.InValid() && aud.OutValid() && aud.open == []
  }

  method OpenWrite(aud: AuServer, flow: u32, element: byte, state: byte, n: u32) returns (ghost k: nat)
    requires Ready(aud) && aud.request + 1 < SERIAL_LIMIT
    modifies aud`lastRead, aud`reported, aud`inbound, aud`incoming, aud`readScript
    modifies aud.q, aud.q.Repr, aud.async`watches, aud.async.nodes
    modifies aud`bufptr, aud`sent, aud`writeScript, aud`request, aud`open, aud.buffer
    ensures aud.InValid() && aud.OutValid() && aud.QueueGrew() && aud.request == old(aud.request) + 1
    ensures aud.async.nodes == old(aud.async.nodes)
    ensures Advanced(aud.big, old(aud.Abs()), old(aud.incoming), k, aud.Abs().(request := old(aud.request)),
                     aud.incoming)
    ensures IsWriteHeader(aud.big, aud.open, flow, element, state, n)
  {
    hide Q.EventQueue.Valid, ErrorWatches.WatchList.Valid, Run, Concat, AuServer.OutValid, AuServer.CoreValid, Put16,
         Put32;
    hide Filled, Advanced, Pad4, AuServer.Drafting, IsWriteHeader;
    var at;
    at, k := aud.GetReq(WRITE_ELEMENT, WRITE_HEADER);
    FillHeader(aud, at, flow, element, state, n);
  }

  /** Sets the fields of the header in the order of the code. */
  method FillHeader(aud: AuServer, at: nat, flow: u32, element: byte, state: byte, n: u32)
    requires aud.OutValid() && aud.Drafting(at) && |aud.open| == WRITE_HEADER && aud.open[0] == WRITE_ELEMENT
    modifies aud`open, aud.buffer
    ensures aud.OutValid() && IsWriteHeader(aud.big, aud.open, flow, element, state, n)
  {
    hide Concat, AuServer.OutValid, Put16, Put32, Filled, Pad4, AuServer.Drafting, IsWriteHeader;
    ghost var h0 := aud.open;
    aud.SetField(at, 4, Put32(aud.big, flow));
    aud.SetField(at, 1, [element]);
    aud.SetField(at, 8, Put32(aud.big, n));
    aud.SetField(at, 12, [state]);
    aud.SetField(at, 2, Put16(aud.big, (WRITE_HEADER + Pad4(n)) / 4 % 0x1_0000));
    HeaderFilled(aud.big, h0, flow, element, state, n);
  }

  /** `_AuWriteElement` without a status: exactly one well-framed request, which carries the data. */
  method WriteChunk(aud: AuServer, flow: u32, element: byte, w: Write) returns (ghost steps: seq<Step>)
    requires Ready(aud) && aud.request + 1 < SERIAL_LIMIT && |w.data| < 0x1_0000
    modifies aud`lastRead, aud`reported, aud`inbound, aud`incoming, aud`readScript
    modifies aud.q, aud.q.Repr, aud.async`watches, aud.async.nodes
    modifies aud`bufptr, aud`sent, aud`writeScript, aud`request, aud`open, aud`issued, aud.buffer
    ensures aud.QueueGrew() && aud.async.nodes == old(aud.async.nodes)
    ensures Ready(aud) && aud.request == old(aud.request) + 1
    ensures |aud.issued| == |old(aud.issued)| + 1 && aud.issued[..|old(aud.issued)|] == old(aud.issued)
    ensures IsWriteRequest(aud.big, aud.issued[|old(aud.issued)|], flow, element, w)
    // meanwhile packets are handled, in order
    ensures Through(aud.big, old(aud.Abs()), old(aud.incoming), steps, aud.Abs(), aud.incoming)
    ensures IssuedIn(steps) == 1
  {
    hide Q.EventQueue.Valid, ErrorWatches.WatchList.Valid, Run, Concat, AuServer.CoreValid, Put16, Put32;
    hide IsWriteHeader, IsWriteRequest, WfRequest, Advanced, Through, OneRequest, IssuedIn;
    ghost var j := OpenWrite(aud, flow, element, w.state, |w.data|);
    ghost var h, asked, unread := aud.open, aud.Abs(), aud.incoming;
    HeaderLong(aud.big, h, flow, element, w.state, |w.data|);
    ghost var pad, k;
    pad, k := aud.Data(w.data);
    WriteComplete(aud.big, h, flow, element, w, pad);
    ThroughOne(aud.big, old(aud.Abs()), old(aud.incoming), j, asked, unread, k, aud.Abs(), aud.incoming);
    steps := OneRequest(j, k);
    aud.Finish();
  }

  lemma HeaderLong(big: bool, h: seq<byte>, flow: u32, element: byte, state: byte, n: u32)
    requires IsWriteHeader(big, h, flow, element, state, n)
    ensures h != []
  {
  }

  /** Since there were only the requests `before`, exactly the writes `ws` have been issued. */
  ghost predicate Wrote(big: bool, before: seq<Request>, after: seq<Request>, flow: u32, element: byte, ws: seq<Write>)
  {
    |after| == |before| + |ws| && after[..|before|] == before &&
    forall i :: 0 <= i < |ws| ==> IsWriteRequest(big, after[|before| + i], flow, element, ws[i])
  }

  lemma NothingWrote(big: bool, before: seq<Request>, flow: u32, element: byte)
    ensures Wrote(big, before, before, flow, element, [])
  {
  }

  lemma WroteMore(big: bool, before: seq<Request>, middle: seq<Request>, after: seq<Request>, flow: u32, element: byte,
                  ws: seq<Write>, vs: seq<Write>)
    requires Wrote(big, before, middle, flow, element, ws) && Wrote(big, middle, after, flow, element, vs)
    ensures Wrote(big, before, after, flow, element, ws + vs)
  {
    hide IsWriteRequest;
    assert after[..|before|] == after[..|middle|][..|before|];
    forall i | 0 <= i < |ws| + |vs|
      ensures IsWriteRequest(big, after[|before| + i], flow, element, (ws + vs)[i])
    {
      if i < |ws| {
        assert after[|before| + i] == after[..|middle|][|before| + i];
      } else {
        assert after[|before| + i] == after[|middle| + (i - |ws|)];
      }
    }
  }

  lemma WroteOne(big: bool, before: seq<Request>, after: seq<Request>, flow: u32, element: byte, w: Write)
    requires |after| == |before| + 1 && after[..|before|] == before
    requires IsWriteRequest(big, after[|before|], flow, element, w)
    ensures Wrote(big, before, after, flow, element, [w])
  {
  }

  lemma NothingSent(aud: AuServer)
    requires Ready(aud)
    ensures Through(aud.big, aud.Abs(), aud.incoming, [], aud.Abs(), aud.incoming) && IssuedIn([]) == 0
  {
  }

  /**
   * `AuWriteElement`: the data goes out in as many requests as needed. `limit` is the server's
   * `max_request_size`, which is taken as a number of bytes.
   */
  method WriteElement(aud: AuServer, flow: u32, element: byte, data: seq<byte>, endOfData: bool, limit: u16)
    returns (ghost steps: seq<Step>)
    requires limit > WRITE_HEADER && Ready(aud)
    requires aud.request + |Chunks(data, limit - WRITE_HEADER, if endOfData then END else READY)| < SERIAL_LIMIT
    modifies aud`lastRead, aud`reported, aud`inbound, aud`incoming, aud`readScript
    modifies aud.q, aud.q.Repr, aud.async`watches, aud.async.nodes
    modifies aud`bufptr, aud`sent, aud`writeScript, aud`request, aud`open, aud`issued, aud.buffer
    ensures aud.QueueGrew() && aud.async.nodes == old(aud.async.nodes) && Ready(aud)
    ensures var ws := Chunks(data, limit - WRITE_HEADER, if endOfData then END else READY);
            aud.request == old(aud.request) + |ws| && Wrote(aud.big, old(aud.issued), aud.issued, flow, element, ws) &&
            IssuedIn(steps) == |ws|
    ensures Through(aud.big, old(aud.Abs()), old(aud.incoming), steps, aud.Abs(), aud.incoming)
  {
    hide Through, IssuedIn, Wrote, IsWriteRequest, AuServer.InValid, AuServer.OutValid, Ready;
    var final := if endOfData then END else READY;
    var max := limit - WRITE_HEADER;
    var rest, more := data, true;
    ghost var all, done := Chunks(data, max, final), [];
    NothingWrote(aud.big, aud.issued, flow, element);
    steps := [];
    NothingSent(aud);
    while more
      invariant aud.QueueGrew() && aud.async.nodes == old(aud.async.nodes)
      invariant more ==> all == done + Chunks(rest, max, final)
      invariant !more ==> all == done
      invariant Ready(aud) && aud.request == old(aud.request) + |done|
      invariant Wrote(aud.big, old(aud.issued), aud.issued, flow, element, done) && IssuedIn(steps) == |done|
      invariant Through(aud.big, old(aud.Abs()), old(aud.incoming), steps, aud.Abs(), aud.incoming)
      decreases |rest|, more
    {
      ghost var issued, st, ps := aud.issued, aud.Abs(), aud.incoming;
      var bytes := if |rest| > max then max else |rest|;
      var w := Write(if |rest| > bytes then PENDING else final, rest[..bytes]);
      ghost var one := WriteChunk(aud, flow, element, w);
      ThroughConcat(aud.big, old(aud.Abs()), old(aud.incoming), steps, st, ps, one, aud.Abs(), aud.incoming);
      steps := steps + one;
      WroteOne(aud.big, issued, aud.issued, flow, element, w);
      WroteMore(aud.big, old(aud.issued), issued, aud.issued, flow, element, done, [w]);
      assert rest[..|rest|] == rest;
      done := done + [w];
      rest := rest[bytes..];
      more := |rest| > 0;
    }
  }

  // The event handler ---------------------------------------------------------------------------

  const LOW_WATER: byte := 0
  const HIGH_WATER: byte := 1
  const STATE: byte := 2
  const PAUSE: byte := 2
  const REASON_USER: byte := 0
  const REASON_HARDWARE: byte := 5

  /** What an ElementNotify event of the flow says. */
  datatype Notify = Notify(kind: u16, curState: u16, reason: u16, numBytes: u32)

  /** The events on which the handler supplies data: a watermark, or a pause that needs data. */
  predicate AsksForData(ev: Notify)
  {
    ev.kind == LOW_WATER || ev.kind == HIGH_WATER ||
    (ev.kind == STATE && ev.curState == PAUSE && ev.reason != REASON_HARDWARE && ev.reason != REASON_USER)
  }

  function Requested(evs: seq<Notify>): (ns: seq<nat>)
  {
    if evs == [] then []
    else (if AsksForData(evs[0]) then [evs[0].numBytes] else []) + Requested(evs[1..])
  }

  /** The private data of a sound that is played from memory. */
  class SoundData {
    const flow: u32
    const sound: seq<byte>
    var buf: nat                          // where the data not yet sent starts
    var numBytes: int                     // how much of it there is

    ghost predicate Valid()
      reads this
    {
      0 <= numBytes < 0x8000_0000 && buf + numBytes == |sound|
    }

    ghost function Left(): (left: seq<byte>)
      reads this
      requires Valid()
    {
      sound[buf..]
    }

    constructor (flow: u32, sound: seq<byte>)
      requires |sound| < 0x8000_0000
      ensures Valid() && this.flow == flow && this.sound == sound && Left() == sound
    {
      this.flow, this.sound := flow, sound;
      buf, numBytes := 0, |sound|;
    }

    /** `sendData`. */
    method SendData(aud: AuServer, asked: u32, limit: u16) returns (ghost steps: seq<Step>)
      requires Valid() && Ready(aud) && limit > WRITE_HEADER
      requires aud.request + |Serve(Left(), asked, limit - WRITE_HEADER)| < SERIAL_LIMIT
      modifies this, aud`lastRead, aud`reported, aud`inbound, aud`incoming, aud`readScript
      modifies aud.q, aud.q.Repr, aud.async`watches, aud.async.nodes
      modifies aud`bufptr, aud`sent, aud`writeScript, aud`request, aud`open, aud`issued, aud.buffer
      ensures Valid() && Left() == old(Left())[Min(asked, |old(Left())|)..]
      ensures Ready(aud) && aud.QueueGrew() && aud.async.nodes == old(aud.async.nodes)
      ensures var ws := Serve(old(Left()), asked, limit - WRITE_HEADER);
              aud.request == old(aud.request) + |ws| && Wrote(aud.big, old(aud.issued), aud.issued, flow, 0, ws) &&
              IssuedIn(steps) == |ws|
      ensures Through(aud.big, old(aud.Abs()), old(aud.incoming), steps, aud.Abs(), aud.incoming)
    {
      hide Ready, Wrote, Through, IssuedIn;
      var n := if asked < numBytes then asked else numBytes;
      if n != 0 {
        assert sound[buf..buf + n] == Left()[..n];
        steps := WriteElement(aud, flow, 0, sound[buf..buf + n], n != asked, limit);
        numBytes := numBytes - n;
        buf := buf + n;
      } else {
        steps := WriteElement(aud, flow, 0, [], true, limit);
      }
    }

    /** `EventHandler`, as far as it writes. */
    method HandleEvent(aud: AuServer, ev: Notify, limit: u16) returns (ghost steps: seq<Step>)
      requires Valid() && Ready(aud) && limit > WRITE_HEADER
      requires aud.request + |Play(Left(), Requested([ev]), limit - WRITE_HEADER)| < SERIAL_LIMIT
      modifies this, aud`lastRead, aud`reported, aud`inbound, aud`incoming, aud`readScript
      modifies aud.q, aud.q.Repr, aud.async`watches, aud.async.nodes
      modifies aud`bufptr, aud`sent, aud`writeScript, aud`request, aud`open, aud`issued, aud.buffer
      ensures Valid() && Left() == old(Left())[Min(Total(Requested([ev])), |old(Left())|)..]
      ensures Ready(aud) && aud.QueueGrew() && aud.async.nodes == old(aud.async.nodes)
      ensures var ws := Play(old(Left()), Requested([ev]), limit - WRITE_HEADER);
              aud.request == old(aud.request) + |ws| && Wrote(aud.big, old(aud.issued), aud.issued, flow, 0, ws) &&
              IssuedIn(steps) == |ws|
      ensures Through(aud.big, old(aud.Abs()), old(aud.incoming), steps, aud.Abs(), aud.incoming)
    {
      hide Ready, Wrote, Serve, Through, IssuedIn;
      OneEvent(Left(), ev, limit - WRITE_HEADER);
      steps := [];
      NothingSent(aud);
      match ev.kind {
        case 0 => steps := SendData(aud, ev.numBytes, limit);
        case 1 => steps := SendData(aud, ev.numBytes, limit);
        case 2 =>
          if ev.curState == PAUSE && ev.reason != REASON_HARDWARE && ev.reason != REASON_USER {
            steps := SendData(aud, ev.numBytes, limit);
          } else {
            NothingWrote(aud.big, aud.issued, flow, 0);
          }
        case _ => NothingWrote(aud.big, aud.issued, flow, 0);
      }
    }

    /** Any run of events: the writes are those of `Play`, whose payloads are a prefix of the sound. */
    method HandleEvents(aud: AuServer, evs: seq<Notify>, limit: u16) returns (ghost steps: seq<Step>)
      requires Valid() && Ready(aud) && limit > WRITE_HEADER
      requires aud.request + |Play(Left(), Requested(evs), limit - WRITE_HEADER)| < SERIAL_LIMIT
      modifies this, aud`lastRead, aud`reported, aud`inbound, aud`incoming, aud`readScript
      modifies aud.q, aud.q.Repr, aud.async`watches, aud.async.nodes
      modifies aud`bufptr, aud`sent, aud`writeScript, aud`request, aud`open, aud`issued, aud.buffer
      ensures Valid() && Left() == old(Left())[Min(Total(Requested(evs)), |old(Left())|)..]
      ensures Ready(aud) && aud.QueueGrew() && aud.async.nodes == old(aud.async.nodes)
      ensures var ws := Play(old(Left()), Requested(evs), limit - WRITE_HEADER);
              aud.request == old(aud.request) + |ws| && Wrote(aud.big, old(aud.issued), aud.issued, flow, 0, ws) &&
              IssuedIn(steps) == |ws|
      ensures Through(aud.big, old(aud.Abs()), old(aud.incoming), steps, aud.Abs(), aud.incoming)
    {
      hide Ready, Wrote, Serve, Play, Total, Requested, Played, Valid, Left, Through, IssuedIn;
      ghost var done, left, issued, max := [], Left(), aud.issued, limit - WRITE_HEADER;
      NothingWrote(aud.big, aud.issued, flow, 0);
      NothingPlayed(left, evs, max);
      steps := [];
      NothingSent(aud);
      var i := 0;
      while i < |evs|
        invariant 0 <= i <= |evs| && Valid() && Ready(aud)
        invariant aud.QueueGrew() && aud.async.nodes == old(aud.async.nodes)
        invariant Played(left, evs, max, done, Left(), evs[i..])
        invariant aud.request == old(aud.request) + |done| && Wrote(aud.big, issued, aud.issued, flow, 0, done)
        invariant IssuedIn(steps) == |done| &&
                  Through(aud.big, old(aud.Abs()), old(aud.incoming), steps, aud.Abs(), aud.incoming)
      {
        ghost var before, now, st, ps := aud.issued, Left(), aud.Abs(), aud.incoming;
        SliceFirst(evs, i);
        PlayedMore(left, evs, max, done, now, evs[i..]);
        ghost var more := HandleEvent(aud, evs[i], limit);
        ThroughConcat(aud.big, old(aud.Abs()), old(aud.incoming), steps, st, ps, more, aud.Abs(), aud.incoming);
        steps := steps + more;
        ghost var ws := Play(now, Requested([evs[i]]), max);
        WroteMore(aud.big, issued, before, aud.issued, flow, 0, done, ws);
        done := done + ws;
        i := i + 1;
      }
      AllPlayed(left, evs, max, done, Left());
    }
  }

  /** Of the events `evs` those before `rest` have been served by the writes `done`, and `now` is left. */
  ghost predicate Played(left: seq<byte>, evs: seq<Notify>, max: nat, done: seq<Write>, now: seq<byte>,
                         rest: seq<Notify>)
  {
    max > 0 && Total(Requested(rest)) <= Total(Requested(evs)) &&
    now == left[Min(Total(Requested(evs)) - Total(Requested(rest)), |left|)..] &&
    Play(left, Requested(evs), max) == done + Play(now, Requested(rest), max)
  }

  lemma NothingPlayed(left: seq<byte>, evs: seq<Notify>, max: nat)
    requires max > 0
    ensures Played(left, evs, max, [], left, evs[0..])
  {
    assert evs[0..] == evs && left[0..] == left;
    assert [] + Play(left, Requested(evs), max) == Play(left, Requested(evs), max);
  }

  lemma PlayedMore(left: seq<byte>, evs: seq<Notify>, max: nat, done: seq<Write>, now: seq<byte>, rest: seq<Notify>)
    requires Played(left, evs, max, done, now, rest) && rest != []
    ensures var one := Requested([rest[0]]);
            var ws := Play(now, one, max);
            Played(left, evs, max, done + ws, now[Min(Total(one), |now|)..], rest[1..]) &&
            |done| + |ws| <= |Play(left, Requested(evs), max)|
  {
    hide Total, Play, Requested;
    var one := Requested([rest[0]]);
    assert [rest[0]] + rest[1..] == rest;
    PlaySplit(now, rest[0], rest[1..], max);
    AppendAssociative(done, Play(now, one, max), Play(now[Min(Total(one), |now|)..], Requested(rest[1..]), max));
    var gone := Min(Total(Requested(evs)) - Total(Requested(rest)), |left|);
    SliceTwice(left, gone, Min(Total(one), |now|));
  }

  lemma AllPlayed(left: seq<byte>, evs: seq<Notify>, max: nat, done: seq<Write>, now: seq<byte>)
    requires Played(left, evs, max, done, now, evs[|evs|..])
    ensures Play(left, Requested(evs), max) == done && now == left[Min(Total(Requested(evs)), |left|)..]
  {
    assert evs[|evs|..] == [];
    assert done + [] == done;
  }

  lemma OneEvent(left: seq<byte>, ev: Notify, max: nat)
    requires max > 0
    ensures AsksForData(ev) ==> Requested([ev]) == [ev.numBytes] && Total([ev.numBytes]) == ev.numBytes &&
                                Play(left, [ev.numBytes], max) == Serve(left, ev.numBytes, max)
    ensures !AsksForData(ev) ==> Requested([ev]) == [] && Play(left, [], max) == [] && Total([]) == 0
  {
    assert [ev][1..] == [];
    assert [ev.numBytes][1..] == [];
    assert Play(left, [ev.numBytes], max) == Serve(left, ev.numBytes, max) + [];
  }

  lemma PlaySplit(left: seq<byte>, ev: Notify, evs: seq<Notify>, max: nat)
    requires max > 0
    ensures var all, one, rest := Requested([ev] + evs), Requested([ev]), Requested(evs);
            var left' := left[Min(Total(one), |left|)..];
            Play(left, all, max) == Play(left, one, max) + Play(left', rest, max) &&
            Total(all) == Total(one) + Total(rest)
  {
    OneEvent(left, ev, max);
    assert ([ev] + evs)[1..] == evs;
    if AsksForData(ev) {
      assert ([ev.numBytes] + Requested(evs))[1..] == Requested(evs);
    } else {
      assert left[0..] == left;
      assert [] + Requested(evs) == Requested(evs) &&
             [] + Play(left, Requested(evs), max) == Play(left, Requested(evs), max);
    }
  }
}
