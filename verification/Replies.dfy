/** `_AuReply` and `_AuForceRoundTrip`: sending what is buffered and waiting for the answer. */
module Replies {
  import opened Bytes
  import opened Packets
  import opened Engine
  import opened ErrorWatches
  import opened Answers
  import opened Requests
  import opened Sequences
  import opened Client
  import Q = EventQueue

  const GET_CLOSE_DOWN_MODE: byte := 33

  /** What `_AuReply` returns: a reply with the extra words asked for, or an error for this request. */
  datatype Outcome =
    | Answered(header: Packet, extra: seq<byte>)
    | Refused(error: Packet)
    | TooShort                            // fewer extra words than asked for, which is fatal

  /** What the caller gets when packet `p` ends the wait, and the part of `p` left on the wire. */
  ghost predicate Delivers(big: bool, p: Packet, extra: nat, discard: bool, outcome: Outcome, residue: seq<byte>)
    requires WfPacket(big, p)
  {
    if IsReply(p) then
      var got := 4 * if extra < ExtraWords(big, p) then extra else ExtraWords(big, p);
      residue == (if discard then [] else p[HEADER + got..]) &&
      outcome == if extra > ExtraWords(big, p) then TooShort else Answered(p[..HEADER], p[HEADER..HEADER + got])
    else outcome == Refused(p) && residue == []
  }

  /** The extra words of a reply: as many as asked for are returned, the others discarded or left. */
  method ReadExtra(aud: AuServer, header: Packet, extra: nat, discard: bool, ghost p: Packet)
    returns (outcome: Outcome, ghost residue: seq<byte>)
    requires WfPacket(aud.big, p) && IsReply(p) && header == p[..HEADER]
    requires ExtraWords(aud.big, header) == ExtraWords(aud.big, p)
    requires p[HEADER..] <= aud.inbound
    modifies aud`inbound, aud`readScript
    ensures Delivers(aud.big, p, extra, discard, outcome, residue)
    ensures aud.inbound == residue + old(aud.inbound)[|p| - HEADER..]
  {
    hide PacketSize, Delivers;
    var words: nat := ExtraWords(aud.big, header);
    var wanted := if extra < words then extra else words;
    WholeReply(aud.big, p);
    var rest := 4 * (words - wanted);
    var data := new byte[4 * wanted];
    ghost var before := aud.inbound;
    aud.Read(data, 0, 4 * wanted);
    assert data[..] == data[0..4 * wanted] == before[..4 * wanted];
    residue := p[HEADER + 4 * wanted..];
    ExtraTaken(aud.big, p, header, extra, discard, before, wanted);
    if discard {
      aud.EatData(rest);
      residue := [];
    }
    outcome := if extra > words then TooShort else Answered(header, data[..]);
  }

  /** What is read of a reply, and what is left of it. */
  lemma ExtraTaken(big: bool, p: Packet, header: Packet, extra: nat, discard: bool, before: seq<byte>, wanted: nat)
    requires WfPacket(big, p) && IsReply(p) && header == p[..HEADER] && p[HEADER..] <= before
    requires |p| == HEADER + 4 * ExtraWords(big, p)
    requires wanted == if extra < ExtraWords(big, p) then extra else ExtraWords(big, p)
    ensures 4 * wanted <= |before| && |p| - HEADER <= |before|
    ensures Delivers(big, p, extra, discard,
                     if extra > ExtraWords(big, p) then TooShort else Answered(header, before[..4 * wanted]),
                     if discard then [] else p[HEADER + 4 * wanted..])
    ensures before[4 * wanted..] == p[HEADER + 4 * wanted..] + before[|p| - HEADER..]
    ensures before[4 * wanted..][|p| - HEADER - 4 * wanted..] == [] + before[|p| - HEADER..]
  {
    hide WfPacket, PacketSize;
    assert p[HEADER..HEADER + 4 * wanted] == p[HEADER..][..4 * wanted] == before[..4 * wanted];
    assert before == p[HEADER..] + before[|p| - HEADER..];
    assert p[HEADER..][4 * wanted..] == p[HEADER + 4 * wanted..];
  }

  lemma WholeReply(big: bool, p: Packet)
    requires WfPacket(big, p) && IsReply(p)
    ensures |p| == HEADER + 4 * ExtraWords(big, p)
  {
  }

  /** Reads the header of the next packet. */
  method ReadHeader(aud: AuServer) returns (header: Packet, buf: array<byte>)
    requires aud.InValid() && aud.incoming != []
    modifies aud`inbound, aud`readScript
    ensures fresh(buf) && aud.Holds(buf, 0, HEADER, aud.incoming) && buf.Length == HEADER && header == buf[..]
    ensures WfPacket(aud.big, aud.incoming[0]) && header == aud.incoming[0][..HEADER] && header[0] == aud.incoming[0][0]
    ensures Seq16(aud.big, header) == Seq16(aud.big, aud.incoming[0])
    ensures ExtraWords(aud.big, header) == ExtraWords(aud.big, aud.incoming[0])
    ensures aud.inbound == aud.incoming[0][HEADER..] + Concat(aud.incoming[1..])
  {
    NonEmptyStream(aud.big, aud.incoming);
    buf := new byte[HEADER];
    aud.Read(buf, 0, HEADER);
    header := buf[..];
    ghost var p := aud.incoming[0];
    assert buf[0..HEADER] == header == old(aud.inbound)[..HEADER];
    assert header + aud.inbound == Concat(aud.incoming) == p + Concat(aud.incoming[1..]);
    HeaderBuffered(aud.big, aud.incoming, header, aud.inbound);
    assert header[..HEADER] == header;
    assert (p + Concat(aud.incoming[1..]))[HEADER..] == p[HEADER..] + Concat(aud.incoming[1..]);
  }

  /** A reply ends the wait, whether or not its sequence number is the current request's. */
  method TakeReply(aud: AuServer, header: Packet, buf: array<byte>, extra: nat, discard: bool)
    returns (outcome: Outcome, ghost residue: seq<byte>)
    requires aud.CoreValid() && aud.Holds(buf, 0, HEADER, aud.incoming) && buf.Length == HEADER
    requires aud.incoming != [] && WfPacket(aud.big, aud.incoming[0]) && IsReply(aud.incoming[0])
    requires header == aud.incoming[0][..HEADER] && Seq16(aud.big, header) == Seq16(aud.big, aud.incoming[0])
    requires ExtraWords(aud.big, header) == ExtraWords(aud.big, aud.incoming[0])
    requires aud.inbound == aud.incoming[0][HEADER..] + Concat(aud.incoming[1..])
    modifies aud`lastRead, aud`inbound, aud`readScript, aud.async`watches, aud.async.nodes, buf
    ensures aud.CoreValid() && Delivers(aud.big, aud.incoming[0], extra, discard, outcome, residue)
    ensures aud.Abs() == Settle(aud.big, old(aud.Abs()), aud.incoming[0], false)
    ensures aud.inbound == residue + Concat(aud.incoming[1..])
  {
    hide Q.EventQueue.Valid, WatchList.Valid, Concat;
    if Seq16(aud.big, header) == aud.request % 0x1_0000 {
      aud.lastRead := aud.request;
      aud.q.StillValid();
    } else {
      var at, len := aud.AsyncReply(buf, 0, HEADER, false, aud.incoming);
    }
    outcome, residue := ReadExtra(aud, header, extra, discard, aud.incoming[0]);
  }

  /** An error for the current request ends the wait; every other error goes to the handlers. */
  method TakeError(aud: AuServer, header: Packet, wantStatus: bool) returns (stopped: bool)
    requires aud.CoreValid() && |header| >= HEADER && IsError(header)
    modifies aud`lastRead, aud`reported, aud.async`watches, aud.async.nodes
    ensures aud.CoreValid() && stopped == Stops(aud.big, old(aud.Abs()), header)
    ensures aud.Abs() == if stopped then Settle(aud.big, old(aud.Abs()), header, wantStatus)
                         else Handle(aud.big, old(aud.Abs()), header)
  {
    hide Q.EventQueue.Valid, WatchList.Valid;
    WidenIdempotent(aud.lastRead, aud.request, Seq16(aud.big, header));
    var serial := aud.SetLastRequestRead(Seq16(aud.big, header));
    stopped := serial == aud.request;
    if !(stopped && wantStatus) {
      aud.Error(header);
    }
    aud.q.StillValid();
  }

  /** One turn of the loop in `_AuReply`. */
  method WaitStep(aud: AuServer, extra: nat, discard: bool, wantStatus: bool, before: byte)
    returns (stopped: bool, status: byte, outcome: Outcome, ghost residue: seq<byte>)
    requires aud.InValid() && aud.incoming != []
    modifies aud`lastRead, aud`reported, aud`inbound, aud`incoming, aud`readScript
    modifies aud.q, aud.q.Repr, aud.async`watches, aud.async.nodes
    ensures aud.CoreValid() && aud.QueueGrew()
    ensures var p, st := old(aud.incoming)[0], old(aud.Abs());
            WfPacket(aud.big, p) && stopped == Stops(aud.big, st, p) &&
            status == (if IsError(p) then ErrorCode(p) else before) &&
            aud.Abs() == (if stopped then Settle(aud.big, st, p, wantStatus) else Handle(aud.big, st, p)) &&
            (if stopped then Delivers(aud.big, p, extra, discard, outcome, residue) else residue == [])
    ensures aud.incoming == old(aud.incoming)[1..] && aud.inbound == residue + Concat(aud.incoming)
  {
    hide Q.EventQueue.Valid, WatchList.Valid, Concat, Handle, Settle, AuServer.CoreValid, Delivers, Stops, PacketSize;
    var header, buf := ReadHeader(aud);
    ghost var p := aud.incoming[0];
    status, outcome, residue := before, Refused(header), [];
    if header[0] == REPLY_TYPE {
      stopped := true;
      outcome, residue := TakeReply(aud, header, buf, extra, discard);
      SettlesAlike(aud.big, old(aud.Abs()), p, wantStatus);
    } else {
      WholeShort(aud.big, p, header, Concat(aud.incoming[1..]), extra, discard);
      stopped, status := TakeShort(aud, header, wantStatus, before);
      outcome := Refused(header);
    }
    aud.incoming := aud.incoming[1..];
  }

  lemma SettlesAlike(big: bool, st: State, p: Packet, quiet: bool)
    requires |p| >= HEADER && IsReply(p)
    ensures Stops(big, st, p) && Settle(big, st, p, quiet) == Settle(big, st, p, false)
  {
  }

  /** A packet that is no reply is all header. */
  lemma WholeShort(big: bool, p: Packet, header: Packet, rest: seq<byte>, extra: nat, discard: bool)
    requires WfPacket(big, p) && header == p[..HEADER] && !IsReply(p)
    ensures Delivers(big, p, extra, discard, Refused(header), [])
    ensures p == header && |header| == HEADER && p[HEADER..] + rest == [] + rest
  {
    assert p[HEADER..] == [];
  }

  method TakeShort(aud: AuServer, p: Packet, wantStatus: bool, before: byte) returns (stopped: bool, status: byte)
    requires aud.CoreValid() && |p| == HEADER && !IsReply(p)
    modifies aud`lastRead, aud`reported, aud.q, aud.q.Repr, aud.async`watches, aud.async.nodes
    ensures aud.CoreValid() && aud.QueueGrew() && stopped == Stops(aud.big, old(aud.Abs()), p)
    ensures status == if IsError(p) then ErrorCode(p) else before
    ensures aud.Abs() == if stopped then Settle(aud.big, old(aud.Abs()), p, wantStatus)
            else Handle(aud.big, old(aud.Abs()), p)
  {
    hide Q.EventQueue.Valid, WatchList.Valid, Handle, AuServer.CoreValid;
    stopped, status := false, before;
    if IsError(p) {
      status := ErrorCode(p);
      stopped := TakeError(aud, p, wantStatus);
    } else {
      aud.Enq(p);
    }
  }

  /** The loop of `_AuReply`: handles packets until one ends the wait. */
  method WaitLoop(aud: AuServer, extra: nat, discard: bool, wantStatus: bool)
    returns (outcome: Outcome, status: byte, ghost residue: seq<byte>, ghost n: nat)
    requires aud.InValid() && AnswerComes(aud.big, aud.Abs(), aud.incoming)
    modifies aud`lastRead, aud`reported, aud`inbound, aud`incoming, aud`readScript
    modifies aud.q, aud.q.Repr, aud.async`watches, aud.async.nodes
    ensures aud.CoreValid() && aud.QueueGrew() && WfStream(aud.big, aud.incoming)
    ensures AwaitsTo(aud.big, old(aud.Abs()), old(aud.incoming), wantStatus, aud.Abs(), n)
    ensures n < |old(aud.incoming)| && WfPacket(aud.big, old(aud.incoming)[n])
    ensures Delivers(aud.big, old(aud.incoming)[n], extra, discard, outcome, residue)
    ensures status == StatusOf(aud.big, old(aud.incoming), n + 1, 0)
    ensures aud.incoming == old(aud.incoming)[n + 1..] && aud.inbound == residue + Concat(aud.incoming)
  {
    hide Q.EventQueue.Valid, WatchList.Valid, Run, Concat, Handle, Stops, Settle, Delivers, WfPacket, AwaitsTo;
    hide AnswerComes, Await, StatusOf;
    ghost var ps := aud.incoming;
    ghost var (after, total) := Await(aud.big, aud.Abs(), ps, wantStatus);
    AwaitEnds(aud.big, aud.Abs(), ps, wantStatus);
    n := 0;
    status := 0;
    StatusStart(aud.big, ps);
    while true
      invariant aud.InValid() && aud.QueueGrew()
      invariant n <= total < |ps| && aud.incoming == ps[n..] && status == StatusOf(aud.big, ps, n, 0)
      invariant AwaitsTo(aud.big, aud.Abs(), aud.incoming, wantStatus, after, total - n)
      decreases total - n
    {
      AwaitTurn(aud.big, aud.Abs(), aud.incoming, wantStatus, after, total - n);
      StatusNext(aud.big, ps, n);
      SliceFirst(ps, n);
      var stopped;
      stopped, status, outcome, residue := WaitStep(aud, extra, discard, wantStatus, status);
      if stopped {
        return;
      }
      n := n + 1;
    }
  }

  /**
   * `_AuReply`: flushes, then handles packets until one ends the wait. `answers` is what the server
   * sends from the moment it has the whole request; `k` packets are handled while flushing and `n`
   * more before the one that ends the wait.
   */
  method Reply(aud: AuServer, extra: nat, discard: bool, wantStatus: bool, answers: seq<byte>, ghost late: seq<Packet>)
    returns (outcome: Outcome, status: byte, ghost residue: seq<byte>, ghost k: nat, ghost n: nat)
    requires aud.InValid() && aud.OutValid() && answers == Concat(late) && WfStream(aud.big, late)
    requires forall i: nat :: i <= |aud.incoming| ==>
               AnswerComes(aud.big, Run(aud.big, aud.Abs(), aud.incoming[..i]), aud.incoming[i..] + late)
    modifies aud`lastRead, aud`reported, aud`inbound, aud`incoming, aud`readScript
    modifies aud.q, aud.q.Repr, aud.async`watches, aud.async.nodes, aud`bufptr, aud`sent, aud`writeScript
    ensures aud.CoreValid() && aud.OutValid() && aud.QueueGrew() && aud.sent == old(aud.Wire()) && aud.bufptr == 0
    ensures WfStream(aud.big, aud.incoming) && k <= |old(aud.incoming)|
    ensures var ps := old(aud.incoming)[k..] + late;
            n < |ps| && WfPacket(aud.big, ps[n]) && WfStream(aud.big, ps) &&
            AwaitsTo(aud.big, Run(aud.big, old(aud.Abs()), old(aud.incoming)[..k]), ps, wantStatus, aud.Abs(), n) &&
            Delivers(aud.big, ps[n], extra, discard, outcome, residue) &&
            status == StatusOf(aud.big, ps, n + 1, 0) &&
            aud.incoming == ps[n + 1..] && aud.inbound == residue + Concat(aud.incoming)
  {
    hide Q.EventQueue.Valid, WatchList.Valid, Run, Concat, Handle, Stops, Settle, Delivers, WfPacket, AwaitsTo;
    hide AnswerComes, Await, StatusOf;
    k := aud.Flush();
    ConcatAppend(aud.incoming, late);
    aud.inbound, aud.incoming := aud.inbound + answers, aud.incoming + late;
    outcome, status, residue, n := WaitLoop(aud, extra, discard, wantStatus);
  }

  /**
   * `_AuReply` for a request just made in state `st`, when packets `early` were unread; `k0` of these
   * have been handled since. `late` comes once the server has the request, whose answer is packet `a`.
   * In all `k` packets are handled before the wait begins, and packet `e` ends it.
   */
  method AwaitAnswer(aud: AuServer, extra: nat, discard: bool, wantStatus: bool, answers: seq<byte>,
                     ghost st: State, ghost early: seq<Packet>, ghost k0: nat, ghost late: seq<Packet>,
                     ghost serials: seq<u32>, ghost a: nat)
    returns (outcome: Outcome, status: byte, ghost residue: seq<byte>, ghost k: nat, ghost e: nat)
    requires aud.InValid() && aud.OutValid() && st.request + 1 == aud.request
    requires answers == Concat(late) && WfStream(aud.big, late) && WfStream(aud.big, early)
    requires Advanced(aud.big, st, early, k0, aud.Abs().(request := st.request), aud.incoming)
    requires AnswerArrives(aud.big, st, early, late, serials, a)
    modifies aud`lastRead, aud`reported, aud`inbound, aud`incoming, aud`readScript
    modifies aud.q, aud.q.Repr, aud.async`watches, aud.async.nodes, aud`bufptr, aud`sent, aud`writeScript
    ensures aud.CoreValid() && aud.OutValid() && aud.QueueGrew() && aud.sent == old(aud.Wire()) && aud.bufptr == 0
    ensures WaitEnded(aud.big, st, early + late, serials, k, e, wantStatus, aud.Abs(), aud.incoming, status)
    ensures k <= |early| && e <= a && WfStream(aud.big, aud.incoming) && aud.inbound == residue + Concat(aud.incoming)
    ensures e < |early + late| && WfPacket(aud.big, (early + late)[e])
    ensures Delivers(aud.big, (early + late)[e], extra, discard, outcome, residue)
  {
    hide Q.EventQueue.Valid, WatchList.Valid, Run, Concat, Handle, Stops, Settle, WfPacket, AwaitsTo, AnswerArrives;
    hide AnswerComes, Await, StatusOf, Delivers, Asked, AfterTrip, FirstEnd, WaitEnded, TripEnded, AuServer.OutValid;
    EarlyHandled(aud.big, st, early, late, serials, a, k0, 0);
    ghost var asked, ps := aud.Abs(), aud.incoming;
    assert asked == Asked(aud.big, st, early + late, serials, k0) && ps == early[k0..];
    forall i: nat | i <= |ps|
      ensures AnswerComes(aud.big, Run(aud.big, asked, ps[..i]), ps[i..] + late)
    {
      var e' := WaitWillEnd(aud.big, st, early, late, serials, a, k0, i, wantStatus);
      var now := Run(aud.big, asked, ps[..i]);
      AwaitIsDetermined(aud.big, now, ps[i..] + late, wantStatus,
                        AfterTrip(aud.big, st, early + late, serials, e', wantStatus),
                        e' - k0 - i, AfterTrip(aud.big, st, early + late, serials, e', wantStatus), e' - k0 - i);
    }
    ghost var j, n;
    outcome, status, residue, j, n := Reply(aud, extra, discard, wantStatus, answers, late);
    k := k0 + j;
    e := WaitWillEnd(aud.big, st, early, late, serials, a, k0, j, wantStatus);
    AwaitIsDetermined(aud.big, Run(aud.big, asked, ps[..j]), ps[j..] + late, wantStatus,
                      AfterTrip(aud.big, st, early + late, serials, e, wantStatus), e - k, aud.Abs(), n);
    EndedSoFar(aud.big, st, early + late, serials, k, e, wantStatus, aud.Abs(), ps[j..] + late, aud.incoming, status);
  }

  lemma EndedSoFar(big: bool, st: State, ps: seq<Packet>, serials: seq<u32>, k: nat, e: nat, quiet: bool, after: State,
                   qs: seq<Packet>, later: seq<Packet>, status: byte)
    requires WfStream(big, ps) && st.request + 1 < 0x1_0000_0000 && FirstEnd(big, ps, serials, st.request + 1, k, e)
    requires k <= e < |ps| == |serials| && qs == ps[k..] && after == AfterTrip(big, st, ps, serials, e, quiet)
    requires later == qs[e - k + 1..] && status == StatusOf(big, qs, e - k + 1, 0)
    ensures WaitEnded(big, st, ps, serials, k, e, quiet, after, later, status) && qs[e - k] == ps[e]
  {
    hide AfterTrip, StatusOf, FirstEnd;
    SliceTwice(ps, k, e - k + 1);
  }

  /**
   * Makes a request that has a reply and waits for it. `serials` are the true serials of the packets
   * unread now and of those in `late`, and packet `a` is the server's answer to the new request.
   */
  method Synchronize(aud: AuServer, answers: seq<byte>, ghost late: seq<Packet>, ghost serials: seq<u32>, ghost a: nat)
    returns (ghost k: nat, ghost e: nat)
    requires aud.InValid() && aud.OutValid() && aud.open == [] && aud.request + 1 < SERIAL_LIMIT
    requires answers == Concat(late) && WfStream(aud.big, late)
    requires AnswerArrives(aud.big, aud.Abs(), aud.incoming, late, serials, a)
    modifies aud, aud.q, aud.q.Repr, aud.async`watches, aud.async.nodes, aud.buffer
    ensures aud.InValid() && aud.OutValid() && aud.QueueGrew() && k <= |old(aud.incoming)| && e <= a
    ensures TripEnded(aud.big, old(aud.Abs()), old(aud.incoming) + late, serials, k, e, false, aud.Abs(), aud.incoming)
    // one more request has been issued, and everything is sent
    ensures |aud.issued| == |old(aud.issued)| + 1 && aud.open == [] && aud.bufptr == 0
  {
    hide Q.EventQueue.Valid, WatchList.Valid, Run, Concat, Handle, Stops, Settle, WfPacket, AwaitsTo, Advanced;
    hide AnswerArrives, TripEnded, WfRequests, AuServer.OutValid, AuServer.CoreValid, Delivers, StatusOf;
    ghost var st, early := aud.Abs(), aud.incoming;
    ghost var k0 := aud.GetEmptyReq(GET_CLOSE_DOWN_MODE);
    var outcome, status;
    ghost var residue;
    outcome, status, residue, k, e := AwaitAnswer(aud, 0, true, false, answers, st, early, k0, late, serials, a);
    NothingLeft(aud.big, (early + late)[e], 0, outcome, residue);
  }

  lemma NothingLeft(big: bool, p: Packet, extra: nat, outcome: Outcome, residue: seq<byte>)
    requires WfPacket(big, p) && Delivers(big, p, extra, true, outcome, residue)
    ensures residue == []
    ensures forall rest: seq<byte> :: residue + rest == rest
  {
  }

  /** The filter of `_AuForceRoundTrip`: errors for one request with the codes asked for (zero for any). */
  function TripFilter(serial: u32, code: byte, major: byte, minor: u16): (f: Filter)
  {
    Filter(serial, serial, code, major, minor)
  }

  /** Before any request has been made its serial is zero as well, and errors for all requests are wanted. */
  lemma TripWants(big: bool, serial: u32, code: byte, major: byte, minor: u16, p: Packet, of: u32)
    requires |p| >= HEADER
    ensures Wants(big, TripFilter(serial, code, major, minor), p, of) <==>
            IsError(p) && (of == serial || serial == 0) && (code == ErrorCode(p) || code == 0) &&
            (major == MajorCode(p) || major == 0) && (minor == MinorCode(big, p) || minor == 0)
  {
  }

  method StartWatching(aud: AuServer, f: Filter) returns (state: Watcher)
    requires aud.InValid()
    modifies aud.async
    ensures aud.InValid() && fresh(state) && aud.async.nodes == [state] + old(aud.async.nodes)
    ensures aud.Abs() == old(aud.Abs()).(watches := [Watch(f, 0, 0)] + old(aud.async.watches))
  {
    hide Q.EventQueue.Valid, Concat;
    state := new Watcher(f);
    assert state !in aud.async.nodes;
    aud.async.Push(state);
    aud.q.StillValid();
  }

  /** Takes the newest handler off the list and reads its result. */
  method StopWatching(aud: AuServer, state: Watcher) returns (ok: bool, status: byte)
    requires aud.InValid() && aud.async.nodes != [] && aud.async.nodes[0] == state
    modifies aud.async, aud.async.nodes
    ensures aud.InValid() && aud.async.nodes == old(aud.async.nodes)[1..]
    ensures |old(aud.async.watches)| == |old(aud.async.nodes)|
    ensures var w := old(aud.async.watches)[0]; ok == (w.count == 0) && status == if w.count > 0 then w.lastError else 0
    ensures aud.Abs() == old(aud.Abs()).(watches := old(aud.async.watches)[1..])
  {
    hide Q.EventQueue.Valid, Concat;
    aud.async.NewestView();
    ok, status := state.count == 0, if state.count > 0 then state.lastError else 0;
    RemovedFirst(aud.async.nodes);
    RemovedFirst(aud.async.watches);
    aud.async.Remove(state);
    aud.q.StillValid();
  }

  /**
   * `_AuForceRoundTrip`: synchronizes with the server and meanwhile watches for errors caused by the
   * last request made. `k` packets are handled before the wait begins and packet `e` ends it.
   */
  method ForceRoundTrip(aud: AuServer, code: byte, major: byte, minor: u16,
                        answers: seq<byte>, ghost late: seq<Packet>, ghost serials: seq<u32>, ghost a: nat)
    returns (ok: bool, status: byte, ghost k: nat, ghost e: nat)
    requires aud.InValid() && aud.OutValid() && aud.open == [] && aud.request + 1 < SERIAL_LIMIT
    requires answers == Concat(late) && WfStream(aud.big, late)
    requires AnswerArrives(aud.big, aud.Abs(), aud.incoming, late, serials, a)
    modifies aud, aud.q, aud.q.Repr, aud.async, aud.async.nodes, aud.buffer
    ensures aud.InValid() && aud.OutValid() && aud.QueueGrew()
    // the handler list is as before
    ensures aud.async.nodes == old(aud.async.nodes)
    ensures k <= |old(aud.incoming)| && e <= a
    ensures FirstEnd(aud.big, old(aud.incoming) + late, serials, old(aud.request) + 1, k, e)
    ensures var ps, f := old(aud.incoming) + late, TripFilter(old(aud.request), code, major, minor);
            TripResult(aud.big, old(aud.Abs()), f, ps, serials, e, ok, status, aud.Abs()) && aud.incoming == ps[e + 1..]
    ensures |aud.issued| == |old(aud.issued)| + 1 && aud.open == [] && aud.bufptr == 0
  {
    hide Q.EventQueue.Valid, WatchList.Valid, Concat, WfPacket, AnswerArrives, AfterTrip, InOrder, TripResult, FirstEnd;
    hide AuServer.OutValid, TripFilter, TripEnded;
    ghost var st, early, ps := aud.Abs(), aud.incoming, aud.incoming + late;
    var state := StartWatching(aud, TripFilter(aud.request, code, major, minor));
    ArrivesAnyWatches(aud.big, st, aud.async.watches, early, late, serials, a);
    ghost var watching := aud.Abs();
    k, e := Synchronize(aud, answers, late, serials, a);
    ghost var r := aud.Abs();
    TripGives(aud.big, watching, ps, serials, k, e, r, aud.incoming);
    ok, status := StopWatching(aud, state);
    TripResultKept(aud.big, watching, st, watching.watches[0].filter, ps, serials, e, ok, status, r, aud.Abs());
  }

  lemma TripGives(big: bool, st: State, ps: seq<Packet>, serials: seq<u32>, k: nat, e: nat, r: State,
                  later: seq<Packet>)
    requires WfStream(big, ps) && TripEnded(big, st, ps, serials, k, e, false, r, later)
    requires st.watches != [] && st.watches[0].count == st.watches[0].lastError == 0
    ensures FirstEnd(big, ps, serials, st.request + 1, k, e) && e < |ps| && later == ps[e + 1..]
    ensures |r.watches| == |st.watches| &&
            var w := r.watches[0];
            TripResult(big, st, st.watches[0].filter, ps, serials, e, w.count == 0,
                       if w.count > 0 then w.lastError else 0, r)
  {
    hide TripResult, AfterTrip;
    TripOutcome(big, st, ps, serials, e);
  }
}
