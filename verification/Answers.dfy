/** Waiting for the answer to a request, as a function on the packets that arrive meanwhile. */
module Answers {
  import opened Bytes
  import opened Packets
  import opened Engine
  import opened Sequences

  /** `_AuReply` stops at the first reply, whoever's it is, and at an error for the current request. */
  predicate Stops(big: bool, st: State, p: Packet)
    requires |p| >= HEADER
  {
    IsReply(p) || (IsError(p) && SerialOf(big, st, p) == st.request)
  }

  /** The state after the packet that ends the wait; `quiet` when the caller wants the status itself. */
  function Settle(big: bool, st: State, p: Packet, quiet: bool): (r: State)
    requires |p| >= HEADER
  {
    if IsReply(p) && Seq16(big, p) == st.request % 0x1_0000 then st.(lastRead := st.request)
    else if IsReply(p) || quiet then st.(lastRead := SerialOf(big, st, p))
    else Handle(big, st, p)
  }

  /** The wait will end. */
  ghost predicate AnswerComes(big: bool, st: State, ps: seq<Packet>)
    requires WfStream(big, ps)
    decreases |ps|
  {
    ps != [] &&
    assert WfPacket(big, ps[0]);
    (Stops(big, st, ps[0]) || AnswerComes(big, Handle(big, st, ps[0]), ps[1..]))
  }

  /** The state after the wait and the number of packets handled before the one that ended it. */
  ghost function Await(big: bool, st: State, ps: seq<Packet>, quiet: bool): (r: (State, nat))
    requires WfStream(big, ps) && AnswerComes(big, st, ps)
    ensures r.1 < |ps|
    decreases |ps|
  {
    assert WfPacket(big, ps[0]);
    if Stops(big, st, ps[0]) then (Settle(big, st, ps[0], quiet), 0)
    else
      var later := Await(big, Handle(big, st, ps[0]), ps[1..], quiet);
      (later.0, later.1 + 1)
  }

  /** The wait ends with packet `n` and leads to state `after`. */
  ghost predicate AwaitsTo(big: bool, st: State, ps: seq<Packet>, quiet: bool, after: State, n: nat)
    requires WfStream(big, ps)
  {
    AnswerComes(big, st, ps) && Await(big, st, ps, quiet) == (after, n)
  }

  lemma AwaitNext(big: bool, st: State, ps: seq<Packet>, quiet: bool, after: State, n: nat)
    requires WfStream(big, ps) && AwaitsTo(big, st, ps, quiet, after, n) && n > 0
    ensures ps != [] && WfPacket(big, ps[0]) && AwaitsTo(big, Handle(big, st, ps[0]), ps[1..], quiet, after, n - 1)
  {
    assert WfPacket(big, ps[0]);
  }

  lemma AwaitEnds(big: bool, st: State, ps: seq<Packet>, quiet: bool)
    requires WfStream(big, ps) && AnswerComes(big, st, ps)
    ensures var (after, n) := Await(big, st, ps, quiet); n < |ps| && AwaitsTo(big, st, ps, quiet, after, n)
  {
  }

  /** What one more packet does to the wait. */
  lemma AwaitTurn(big: bool, st: State, ps: seq<Packet>, quiet: bool, after: State, n: nat)
    requires WfStream(big, ps) && AwaitsTo(big, st, ps, quiet, after, n)
    ensures ps != [] && WfPacket(big, ps[0])
    ensures Stops(big, st, ps[0]) ==> n == 0 && after == Settle(big, st, ps[0], quiet)
    ensures !Stops(big, st, ps[0]) ==> n > 0 && AwaitsTo(big, Handle(big, st, ps[0]), ps[1..], quiet, after, n - 1)
  {
    hide Handle, Settle, Stops;
    assert WfPacket(big, ps[0]);
  }

  lemma AwaitIsDetermined(big: bool, st: State, ps: seq<Packet>, quiet: bool, after: State, n: nat, after': State,
                          n': nat)
    requires WfStream(big, ps)
    requires AwaitsTo(big, st, ps, quiet, after, n) && AwaitsTo(big, st, ps, quiet, after', n')
    ensures after == after' && n == n' && AnswerComes(big, st, ps)
  {
  }

  /** What `*ret_status` holds at the end: the code of the last error read, whichever request caused it. */
  ghost function StatusOf(big: bool, ps: seq<Packet>, n: nat, default: byte): (status: byte)
    requires WfStream(big, ps) && n <= |ps|
    decreases n
  {
    if n == 0 then default else
    assert WfPacket(big, ps[n - 1]);
    if IsError(ps[n - 1]) then ErrorCode(ps[n - 1]) else StatusOf(big, ps, n - 1, default)
  }

  /** Packet `j` is the last error among the first `n` packets. */
  ghost predicate LastErrorAt(big: bool, ps: seq<Packet>, n: nat, j: nat)
    requires WfStream(big, ps) && n <= |ps|
  {
    j < n && ErrorAt(big, ps, j) && forall i: nat :: j < i < n ==> !ErrorAt(big, ps, i)
  }

  ghost predicate ErrorAt(big: bool, ps: seq<Packet>, j: nat)
    requires WfStream(big, ps)
  {
    j < |ps| && WfPacket(big, ps[j]) && IsError(ps[j])
  }

  /** The status after `n` packets is zero exactly if the last error among them, if there is one, has code zero. */
  lemma {:induction false} StatusIsLastError(big: bool, ps: seq<Packet>, n: nat)
    requires WfStream(big, ps) && n <= |ps|
    ensures forall j: nat :: LastErrorAt(big, ps, n, j) ==> StatusOf(big, ps, n, 0) == ErrorCode(ps[j])
    ensures StatusOf(big, ps, n, 0) == 0 <==> forall j: nat :: LastErrorAt(big, ps, n, j) ==> ErrorCode(ps[j]) == 0
    decreases n
  {
    if n > 0 {
      assert WfPacket(big, ps[n - 1]);
      if IsError(ps[n - 1]) {
        assert ErrorAt(big, ps, n - 1) && LastErrorAt(big, ps, n, n - 1);
      } else {
        StatusIsLastError(big, ps, n - 1);
        assert !ErrorAt(big, ps, n - 1);
        forall j: nat
          ensures LastErrorAt(big, ps, n, j) <==> LastErrorAt(big, ps, n - 1, j)
        {
        }
      }
    }
  }

  /**
   * The status a wait that ends with packet `n` reports. An error reports its own code. With a reply
   * the status is zero exactly if no earlier packet is an error, as far as error codes are not zero.
   */
  lemma StatusOfAnswer(big: bool, ps: seq<Packet>, n: nat)
    requires WfStream(big, ps) && n < |ps| && |ps[n]| >= HEADER
    ensures IsError(ps[n]) ==> StatusOf(big, ps, n + 1, 0) == ErrorCode(ps[n])
    ensures !IsError(ps[n]) ==>
              (StatusOf(big, ps, n + 1, 0) == 0 <==>
               forall j: nat :: LastErrorAt(big, ps, n, j) ==> ErrorCode(ps[j]) == 0)
    ensures !IsError(ps[n]) && (forall j: nat :: j < n && ErrorAt(big, ps, j) ==> ErrorCode(ps[j]) != 0) ==>
              (StatusOf(big, ps, n + 1, 0) == 0 <==> forall j: nat :: j < n ==> !ErrorAt(big, ps, j))
  {
    StatusNext(big, ps, n);
    StatusIsLastError(big, ps, n);
    if j: nat :| j < n && ErrorAt(big, ps, j) {
      LastErrorExists(big, ps, n, j);
    }
  }

  lemma LastErrorExists(big: bool, ps: seq<Packet>, n: nat, j: nat)
    requires WfStream(big, ps) && j < n <= |ps| && ErrorAt(big, ps, j)
    ensures exists i: nat :: LastErrorAt(big, ps, n, i)
    decreases n - j
  {
    if i: nat :| j < i < n && ErrorAt(big, ps, i) {
      LastErrorExists(big, ps, n, i);
    } else {
      assert LastErrorAt(big, ps, n, j);
    }
  }

  lemma StatusStart(big: bool, ps: seq<Packet>)
    requires WfStream(big, ps)
    ensures StatusOf(big, ps, 0, 0) == 0
  {
  }

  lemma StatusNext(big: bool, ps: seq<Packet>, n: nat)
    requires WfStream(big, ps) && n < |ps|
    ensures WfPacket(big, ps[n])
    ensures StatusOf(big, ps, n + 1, 0) == if IsError(ps[n]) then ErrorCode(ps[n]) else StatusOf(big, ps, n, 0)
  {
    assert WfPacket(big, ps[n]);
  }

  // Against a server that sends packets in request order -------------------------------------------

  /** Does a packet with this true serial end a wait for the answer to `request`? */
  predicate EndsWait(request: u32, p: Packet, serial: u32)
    requires |p| >= HEADER
  {
    IsReply(p) || (IsError(p) && serial == request)
  }

  ghost predicate EndsAt(big: bool, ps: seq<Packet>, serials: seq<u32>, request: u32, i: nat)
    requires WfStream(big, ps)
  {
    i < |ps| == |serials| && WfPacket(big, ps[i]) && EndsWait(request, ps[i], serials[i])
  }

  /** Packet `e` is the first from packet `k` on that ends the wait. */
  ghost predicate FirstEnd(big: bool, ps: seq<Packet>, serials: seq<u32>, request: u32, k: nat, e: nat)
    requires WfStream(big, ps)
  {
    k <= e && EndsAt(big, ps, serials, request, e) &&
    forall i: nat :: k <= i < e ==> !EndsAt(big, ps, serials, request, i)
  }

  /** Packet `i` is the answer to `request`. */
  ghost predicate AnswersAt(big: bool, ps: seq<Packet>, serials: seq<u32>, request: u32, i: nat)
    requires WfStream(big, ps)
  {
    EndsAt(big, ps, serials, request, i) && serials[i] == request
  }

  /**
   * Packets come in request order, and packet `a` is the first that answers the current request. Up
   * to it no tracked packet lies 65536 requests or more past the one before.
   */
  ghost predicate AnsweredAt(big: bool, st: State, ps: seq<Packet>, serials: seq<u32>, a: nat)
    requires WfStream(big, ps)
  {
    InOrder(big, ps, serials, st.lastRead, st.request) && AnswersAt(big, ps, serials, st.request, a) &&
    (forall i: nat :: i < a ==> !AnswersAt(big, ps, serials, st.request, i)) &&
    Near(big, st.lastRead, ps[..a + 1], serials[..a + 1])
  }

  /**
   * The request that is about to be made will be answered by packet `a`, counted from the first one
   * unread now. The server can send nothing for a request, let alone its answer, before it has it.
   */
  ghost predicate AnswerArrives(big: bool, st: State, early: seq<Packet>, late: seq<Packet>, serials: seq<u32>, a: nat)
    requires WfStream(big, early) && WfStream(big, late)
  {
    st.request + 1 < 0x1_0000_0000 && AnsweredAt(big, st.(request := st.request + 1), early + late, serials, a) &&
    |early| <= a && forall i :: 0 <= i < |early| ==> serials[i] <= st.request
  }

  lemma ArrivesAnyWatches(big: bool, st: State, ws: seq<Watch>, early: seq<Packet>, late: seq<Packet>,
                          serials: seq<u32>, a: nat)
    requires WfStream(big, early) && WfStream(big, late) && AnswerArrives(big, st, early, late, serials, a)
    ensures AnswerArrives(big, st.(watches := ws), early, late, serials, a)
  {
  }

  lemma TrueRunFirst(big: bool, st: State, ps: seq<Packet>, serials: seq<u32>, n: nat)
    requires WfStream(big, ps) && 0 < n <= |ps| == |serials|
    ensures WfPacket(big, ps[0])
    ensures TrueRun(big, st, ps[..n], serials[..n]) ==
            TrueRun(big, Apply(big, st, ps[0], serials[0]), ps[1..][..n - 1], serials[1..][..n - 1])
  {
    hide Apply;
    assert WfPacket(big, ps[0]);
    assert ps[..n][1..] == ps[1..][..n - 1] && serials[..n][1..] == serials[1..][..n - 1];
  }

  /** The last serial read once packet `p` has ended the wait. */
  function ReadAt(request: u32, p: Packet, serial: u32): (r: u32)
    requires |p| >= HEADER
  {
    if IsReply(p) && serial % 0x1_0000 == request % 0x1_0000 then request else serial
  }

  /**
   * The state of a client that sees true serials once packet `e` has ended its wait. An error that
   * the caller wants to see as a status goes to no handler.
   */
  ghost function Settled(big: bool, st: State, ps: seq<Packet>, serials: seq<u32>, e: nat, quiet: bool): (r: State)
    requires WfStream(big, ps) && e < |ps| == |serials|
  {
    assert WfPacket(big, ps[e]);
    var n := if quiet && IsError(ps[e]) then e else e + 1;
    TrueRun(big, st, ps[..n], serials[..n]).(lastRead := ReadAt(st.request, ps[e], serials[e]))
  }

  lemma EndSettles(big: bool, st: State, p: Packet, serial: u32, quiet: bool)
    requires |p| >= HEADER && SerialOf(big, st, p) == serial && Seq16(big, p) == serial % 0x1_0000
    ensures Stops(big, st, p) <==> EndsWait(st.request, p, serial)
    ensures !Stops(big, st, p) ==> Handle(big, st, p) == Apply(big, st, p, serial)
    ensures Stops(big, st, p) ==>
              Settle(big, st, p, quiet) ==
              (if quiet && IsError(p) then st
               else Apply(big, st, p, serial)).(lastRead := ReadAt(st.request, p, serial))
  {
  }

  /** The same for a packet nobody looks at the serial of. */
  lemma UntrackedPasses(big: bool, st: State, p: Packet, serial: u32)
    requires |p| >= HEADER && !Tracked(p)
    ensures !Stops(big, st, p) && !EndsWait(st.request, p, serial) && Handle(big, st, p) == Apply(big, st, p, serial)
  {
  }

  lemma SettledNext(big: bool, st: State, ps: seq<Packet>, serials: seq<u32>, e: nat, quiet: bool)
    requires WfStream(big, ps) && 0 < e < |ps| == |serials|
    ensures WfPacket(big, ps[0])
    ensures Settled(big, st, ps, serials, e, quiet) ==
            Settled(big, Apply(big, st, ps[0], serials[0]), ps[1..], serials[1..], e - 1, quiet)
  {
    hide Apply, TrueRun;
    TrueRunFirst(big, st, ps, serials, e);
    TrueRunFirst(big, st, ps, serials, e + 1);
    SameRequest(big, st, ps[0], serials[0]);
  }

  lemma SameRequest(big: bool, st: State, p: Packet, serial: u32)
    requires |p| >= HEADER
    ensures Apply(big, st, p, serial).request == st.request
  {
  }

  lemma SettledNow(big: bool, st: State, ps: seq<Packet>, serials: seq<u32>, quiet: bool)
    requires WfStream(big, ps) && 0 < |ps| == |serials|
    ensures WfPacket(big, ps[0])
    ensures Settled(big, st, ps, serials, 0, quiet) ==
            (if quiet && IsError(ps[0]) then st else Apply(big, st, ps[0], serials[0]))
            .(lastRead := ReadAt(st.request, ps[0], serials[0]))
  {
    hide Apply;
    TrueRunFirst(big, st, ps, serials, 1);
  }

  /** Counting from packet `k` on makes no difference to where the wait ends. */
  lemma FirstEndLater(big: bool, ps: seq<Packet>, serials: seq<u32>, request: u32, k: nat, e: nat)
    requires WfStream(big, ps) && FirstEnd(big, ps, serials, request, k, e)
    ensures k <= e < |ps| == |serials| && FirstEnd(big, ps[k..], serials[k..], request, 0, e - k)
  {
    forall i: nat | i < |ps| - k
      ensures EndsAt(big, ps[k..], serials[k..], request, i) <==> EndsAt(big, ps, serials, request, k + i)
    {
    }
    assert EndsAt(big, ps[k..], serials[k..], request, e - k) by {
      assert k + (e - k) == e;
    }
  }

  lemma FirstEndTail(big: bool, ps: seq<Packet>, serials: seq<u32>, request: u32, e: nat)
    requires WfStream(big, ps) && FirstEnd(big, ps, serials, request, 0, e) && e > 0
    ensures !EndsAt(big, ps, serials, request, 0) && FirstEnd(big, ps[1..], serials[1..], request, 0, e - 1)
  {
    FirstEndLater(big, ps, serials, request, 1, e);
  }

  lemma NearFirst(big: bool, last: u32, ps: seq<Packet>, serials: seq<u32>, n: nat)
    requires WfStream(big, ps) && 0 < n <= |ps| == |serials| && Near(big, last, ps[..n], serials[..n])
    ensures WfPacket(big, ps[0]) && (Tracked(ps[0]) ==> serials[0] - last < 0x1_0000)
    ensures Near(big, Seen(last, ps[0], serials[0]), ps[1..][..n - 1], serials[1..][..n - 1])
  {
    assert WfPacket(big, ps[0]);
    assert ps[..n][1..] == ps[1..][..n - 1] && serials[..n][1..] == serials[1..][..n - 1];
  }

  /** What the first packet of an in-order stream does to the wait. */
  lemma FirstOfWait(big: bool, st: State, ps: seq<Packet>, serials: seq<u32>, n: nat, quiet: bool)
    requires WfStream(big, ps) && 0 < n <= |ps| && InOrder(big, ps, serials, st.lastRead, st.request)
    requires |serials| == |ps| && Near(big, st.lastRead, ps[..n], serials[..n])
    ensures WfPacket(big, ps[0])
    ensures Stops(big, st, ps[0]) <==> EndsWait(st.request, ps[0], serials[0])
    ensures !Stops(big, st, ps[0]) ==>
              var next := Apply(big, st, ps[0], serials[0]);
              Handle(big, st, ps[0]) == next && next.request == st.request &&
              InOrder(big, ps[1..], serials[1..], next.lastRead, st.request) &&
              Near(big, next.lastRead, ps[1..][..n - 1], serials[1..][..n - 1])
    ensures Stops(big, st, ps[0]) ==> Settle(big, st, ps[0], quiet) == Settled(big, st, ps, serials, 0, quiet)
  {
    hide InOrder, Near, Settle, Settled, Apply, Stops, Handle;
    NearFirst(big, st.lastRead, ps, serials, n);
    FirstInOrder(big, ps, serials, st.lastRead, st.request);
    SeenApplied(big, st, ps[0], serials[0]);
    SameRequest(big, st, ps[0], serials[0]);
    SettledNow(big, st, ps, serials, quiet);
    if Tracked(ps[0]) {
      WidenExact(st.lastRead, st.request, serials[0]);
      EndSettles(big, st, ps[0], serials[0], quiet);
    } else {
      UntrackedPasses(big, st, ps[0], serials[0]);
    }
  }

  /**
   * The wait ends with the first packet that is a reply, whoever's it is, or an error for the request,
   * in the state of a client that sees true serials.
   */
  lemma {:induction false} AwaitEndsFirst(big: bool, st: State, ps: seq<Packet>, serials: seq<u32>, e: nat, quiet: bool)
    requires WfStream(big, ps) && InOrder(big, ps, serials, st.lastRead, st.request)
    requires FirstEnd(big, ps, serials, st.request, 0, e) && Near(big, st.lastRead, ps[..e + 1], serials[..e + 1])
    ensures e < |ps| == |serials| && AwaitsTo(big, st, ps, quiet, Settled(big, st, ps, serials, e, quiet), e)
    decreases e
  {
    hide Handle, Apply, Settle, Stops, InOrder, Near, Settled, EndsWait;
    FirstOfWait(big, st, ps, serials, e + 1, quiet);
    if e > 0 {
      FirstEndTail(big, ps, serials, st.request, e);
      AwaitEndsFirst(big, Handle(big, st, ps[0]), ps[1..], serials[1..], e - 1, quiet);
      SettledNext(big, st, ps, serials, e, quiet);
    }
  }

  /** If some packet from `k` on ends the wait there is a first one. */
  lemma FirstEndExists(big: bool, ps: seq<Packet>, serials: seq<u32>, request: u32, k: nat, a: nat) returns (e: nat)
    requires WfStream(big, ps) && k <= a && EndsAt(big, ps, serials, request, a)
    ensures FirstEnd(big, ps, serials, request, k, e) && e <= a
  {
    e := k;
    while !EndsAt(big, ps, serials, request, e)
      invariant k <= e <= a && forall i: nat :: k <= i < e ==> !EndsAt(big, ps, serials, request, i)
      decreases a - e
    {
      e := e + 1;
    }
  }

  lemma NearUpTo(big: bool, last: u32, ps: seq<Packet>, serials: seq<u32>, n: nat, m: nat)
    requires WfStream(big, ps) && m <= n <= |ps| == |serials| && Near(big, last, ps[..n], serials[..n])
    ensures Near(big, last, ps[..m], serials[..m])
    ensures Near(big, LastSerial(big, last, ps[..m], serials[..m]), ps[m..][..n - m], serials[m..][..n - m])
  {
    hide Near, LastSerial;
    NearFurther(big, last, ps, serials, m, n - m);
  }

  /** The wait ends with the answer exactly if no reply comes before it: a stray reply is taken for it. */
  lemma AwaitFindsAnswer(big: bool, st: State, ps: seq<Packet>, serials: seq<u32>, a: nat, quiet: bool)
    requires WfStream(big, ps) && AnsweredAt(big, st, ps, serials, a)
    ensures a < |ps| == |serials| && AnswerComes(big, st, ps) && Await(big, st, ps, quiet).1 <= a
    ensures Await(big, st, ps, quiet).1 == a <==> forall i :: 0 <= i < a ==> |ps[i]| >= HEADER && !IsReply(ps[i])
    ensures Await(big, st, ps, quiet).1 == a ==> Await(big, st, ps, quiet).0 == Settled(big, st, ps, serials, a, quiet)
  {
    hide Near, Settled, Await, AnswerComes;
    var e := FirstEndExists(big, ps, serials, st.request, 0, a);
    NearUpTo(big, st.lastRead, ps, serials, a + 1, e + 1);
    AwaitEndsFirst(big, st, ps, serials, e, quiet);
    forall i: nat | i < a
      ensures EndsAt(big, ps, serials, st.request, i) <==> |ps[i]| >= HEADER && IsReply(ps[i])
    {
      assert WfPacket(big, ps[i]);
      assert !AnswersAt(big, ps, serials, st.request, i);
    }
  }

  /** Packets handled while the request is still being flushed do not change how the wait ends. */
  lemma {:induction false} AwaitAfterFlush(big: bool, st: State, ps: seq<Packet>, quiet: bool, after: State, n: nat,
                                           k: nat)
    requires WfStream(big, ps) && AwaitsTo(big, st, ps, quiet, after, n) && k <= n
    ensures k <= |ps| && AwaitsTo(big, Run(big, st, ps[..k]), ps[k..], quiet, after, n - k)
    decreases k
  {
    if k == 0 {
      assert ps[0..] == ps;
    } else {
      hide Handle, AwaitsTo;
      AwaitNext(big, st, ps, quiet, after, n);
      AwaitAfterFlush(big, Handle(big, st, ps[0]), ps[1..], quiet, after, n - 1, k - 1);
      SliceTail(ps, k);
    }
  }

  /** The state after a round trip that packet `e` ended. */
  ghost function AfterTrip(big: bool, st: State, ps: seq<Packet>, serials: seq<u32>, e: nat, quiet: bool): (r: State)
    requires WfStream(big, ps) && e < |ps| == |serials| && st.request + 1 < 0x1_0000_0000
  {
    Settled(big, st.(request := st.request + 1), ps, serials, e, quiet)
  }

  lemma SettledLater(big: bool, st: State, ps: seq<Packet>, serials: seq<u32>, k: nat, e: nat, quiet: bool)
    requires WfStream(big, ps) && k <= e < |ps| == |serials|
    ensures Settled(big, TrueRun(big, st, ps[..k], serials[..k]), ps[k..], serials[k..], e - k, quiet) ==
            Settled(big, st, ps, serials, e, quiet)
  {
    hide TrueRun;
    TrueRunFurther(big, st, ps, serials, k, e - k);
    TrueRunFurther(big, st, ps, serials, k, e - k + 1);
  }

  /** The state in which the wait begins: the request is made and `k` packets have been handled. */
  ghost function Asked(big: bool, st: State, ps: seq<Packet>, serials: seq<u32>, k: nat): (r: State)
    requires WfStream(big, ps) && k <= |ps| == |serials| && st.request + 1 < 0x1_0000_0000
  {
    TrueRun(big, st, ps[..k], serials[..k]).(request := st.request + 1)
  }

  /**
   * A round trip, as a caller sees it. `st` is the state before the request is made; `k` of the
   * packets then unread are handled while the buffer is flushed. The wait that follows ends with the
   * first packet after these that can end it, at the latest with the answer, and the whole effect is
   * that of the packets up to it with true serials.
   */
  lemma RoundTripAwaits(big: bool, st: State, early: seq<Packet>, late: seq<Packet>, serials: seq<u32>, a: nat, k: nat,
                        quiet: bool)
    returns (e: nat)
    requires WfStream(big, early) && WfStream(big, late) && AnswerArrives(big, st, early, late, serials, a) &&
             k <= |early|
    ensures |early| <= a < |early + late| == |serials| && st.request + 1 < 0x1_0000_0000
    ensures FirstEnd(big, early + late, serials, st.request + 1, k, e) && k <= e <= a
    ensures var ps := early + late;
            AwaitsTo(big, Asked(big, st, ps, serials, k), ps[k..], quiet, AfterTrip(big, st, ps, serials, e, quiet),
                     e - k)
  {
    hide Near, Settled, AwaitsTo, InOrder, TrueRun, AnswersAt, EndsAt;
    var ps, next := early + late, st.(request := st.request + 1);
    AnswerEnds(big, ps, serials, next.request, a);
    e := FirstEndExists(big, ps, serials, next.request, k, a);
    TrueRunAnyRequest(big, st, ps[..k], serials[..k], next.request);
    FirstEndLater(big, ps, serials, next.request, k, e);
    AskedInOrder(big, next, ps, serials, k, e, a);
    AwaitEndsFirst(big, Asked(big, st, ps, serials, k), ps[k..], serials[k..], e - k, quiet);
    SettledLater(big, next, ps, serials, k, e, quiet);
  }

  lemma AnswerEnds(big: bool, ps: seq<Packet>, serials: seq<u32>, request: u32, a: nat)
    requires WfStream(big, ps) && AnswersAt(big, ps, serials, request, a)
    ensures EndsAt(big, ps, serials, request, a) && a < |ps| == |serials|
  {
  }

  lemma AskedInOrder(big: bool, st: State, ps: seq<Packet>, serials: seq<u32>, k: nat, e: nat, a: nat)
    requires WfStream(big, ps) && InOrder(big, ps, serials, st.lastRead, st.request) && k <= e <= a < |ps| == |serials|
    requires Near(big, st.lastRead, ps[..a + 1], serials[..a + 1])
    ensures var last := TrueRun(big, st, ps[..k], serials[..k]).lastRead;
            InOrder(big, ps[k..], serials[k..], last, st.request) &&
            Near(big, last, ps[k..][..e - k + 1], serials[k..][..e - k + 1])
  {
    hide Near, TrueRun, LastSerial;
    TrueRunLast(big, st, ps[..k], serials[..k]);
    InOrderParts(big, ps, serials, st.lastRead, st.request, k, st.request);
    NearUpTo(big, st.lastRead, ps, serials, a + 1, e + 1);
    NearUpTo(big, st.lastRead, ps, serials, e + 1, k);
  }

  /** A round trip ends with the answer exactly if no reply is left to come before it. */
  lemma AnswerEndsTrip(big: bool, st: State, early: seq<Packet>, late: seq<Packet>, serials: seq<u32>, a: nat, k: nat,
                       e: nat)
    requires WfStream(big, early) && WfStream(big, late) && AnswerArrives(big, st, early, late, serials, a) &&
             k <= |early|
    requires st.request + 1 < 0x1_0000_0000 && FirstEnd(big, early + late, serials, st.request + 1, k, e)
    ensures a < |early + late|
    ensures e == a <==> forall i :: k <= i < a ==> |(early + late)[i]| >= HEADER && !IsReply((early + late)[i])
  {
    hide Near;
    var ps, request := early + late, st.request + 1;
    AnswerEnds(big, ps, serials, request, a);
    forall i: nat | k <= i < a
      ensures EndsAt(big, ps, serials, request, i) <==> |ps[i]| >= HEADER && IsReply(ps[i])
    {
      assert WfPacket(big, ps[i]);
      assert !AnswersAt(big, ps, serials, request, i);
    }
  }

  /** Handling packets unread when the request is made, before it or after it, leads to the state above. */
  lemma EarlyHandled(big: bool, st: State, early: seq<Packet>, late: seq<Packet>, serials: seq<u32>, a: nat, k: nat,
                     j: nat)
    requires WfStream(big, early) && WfStream(big, late) && AnswerArrives(big, st, early, late, serials, a)
    requires k + j <= |early|
    ensures |early| <= a < |early + late| == |serials| && st.request + 1 < 0x1_0000_0000
    ensures Run(big, st, early[..k]).(request := st.request + 1) == Asked(big, st, early + late, serials, k)
    ensures Run(big, Asked(big, st, early + late, serials, k), early[k..][..j]) ==
            Asked(big, st, early + late, serials, k + j)
  {
    hide Near, Run, TrueRun, InOrder, AnswersAt;
    var ps, next := early + late, st.(request := st.request + 1);
    AnswerEnds(big, ps, serials, next.request, a);
    assert ps[..k] == early[..k] && ps[k..][..j] == early[k..][..j];
    NearUpTo(big, st.lastRead, ps, serials, a + 1, k + j);
    NearUpTo(big, st.lastRead, ps, serials, k + j, k);
    EarlyInOrder(big, st, ps, serials, |early|, k, j);
    RunIsTrueRun(big, st, ps[..k], serials[..k]);
    TrueRunAnyRequest(big, st, ps[..k], serials[..k], next.request);
    TrueRunLast(big, st, ps[..k], serials[..k]);
    RunIsTrueRun(big, Asked(big, st, ps, serials, k), ps[k..][..j], serials[k..][..j]);
    TrueRunFurther(big, next, ps, serials, k, j);
    TrueRunAnyRequest(big, st, ps[..k + j], serials[..k + j], next.request);
  }

  lemma EarlyInOrder(big: bool, st: State, ps: seq<Packet>, serials: seq<u32>, n: nat, k: nat, j: nat)
    requires WfStream(big, ps) && k + j <= n <= |ps| && st.request + 1 < 0x1_0000_0000
    requires InOrder(big, ps, serials, st.lastRead, st.request + 1) &&
             forall i :: 0 <= i < n ==> serials[i] <= st.request
    ensures |serials| == |ps| && InOrder(big, ps[..k], serials[..k], st.lastRead, st.request)
    ensures InOrder(big, ps[k..][..j], serials[k..][..j], LastSerial(big, st.lastRead, ps[..k], serials[..k]),
                    st.request + 1)
  {
    hide LastSerial;
    InOrderParts(big, ps, serials, st.lastRead, st.request + 1, k, st.request);
  }

  /** Packet `e` has ended the round trip, as the first that could after `k` packets; `later` come behind it. */
  ghost predicate TripEnded(big: bool, st: State, ps: seq<Packet>, serials: seq<u32>, k: nat, e: nat, quiet: bool,
                            after: State, later: seq<Packet>)
    requires WfStream(big, ps)
  {
    st.request + 1 < 0x1_0000_0000 && FirstEnd(big, ps, serials, st.request + 1, k, e) && later == ps[e + 1..] &&
    after == AfterTrip(big, st, ps, serials, e, quiet)
  }

  /** The status tells of the packets met during the wait proper. */
  ghost predicate WaitEnded(big: bool, st: State, ps: seq<Packet>, serials: seq<u32>, k: nat, e: nat, quiet: bool,
                            after: State, later: seq<Packet>, status: byte)
    requires WfStream(big, ps)
  {
    TripEnded(big, st, ps, serials, k, e, quiet, after, later) && status == StatusOf(big, ps[k..], e + 1 - k, 0)
  }

  /** However the flush went, the wait comes to an end, and what it ends with is what it should. */
  lemma WaitWillEnd(big: bool, st: State, early: seq<Packet>, late: seq<Packet>, serials: seq<u32>, a: nat, k: nat,
                    j: nat, quiet: bool)
    returns (e: nat)
    requires WfStream(big, early) && WfStream(big, late) && AnswerArrives(big, st, early, late, serials, a)
    requires k + j <= |early|
    ensures |early| <= a < |early + late| == |serials| && st.request + 1 < 0x1_0000_0000
    ensures early[k..][j..] + late == (early + late)[k + j..]
    ensures FirstEnd(big, early + late, serials, st.request + 1, k + j, e) && k + j <= e <= a
    ensures AwaitsTo(big, Run(big, Asked(big, st, early + late, serials, k), early[k..][..j]), early[k..][j..] + late,
                     quiet,
                     AfterTrip(big, st, early + late, serials, e, quiet), e - k - j)
  {
    hide AnswerArrives, Run, Asked, AfterTrip, FirstEnd, AwaitsTo;
    EarlyHandled(big, st, early, late, serials, a, k, j);
    e := RoundTripAwaits(big, st, early, late, serials, a, k + j, quiet);
    SliceTwice(early, k, j);
    assert early[k + j..] + late == (early + late)[k + j..];
  }

  /** What a round trip promises: `ok` and `status` tell of the errors that `f` wants, up to packet `e`. */
  ghost predicate TripResult(big: bool, st: State, f: Filter, ps: seq<Packet>, serials: seq<u32>, e: nat,
                             ok: bool, status: byte, r: State)
    requires WfStream(big, ps)
  {
    e < |ps| == |serials| && |ps[e]| >= HEADER &&
    var upTo, stamps := ps[..e + 1], serials[..e + 1];
    var hits := Hits(big, f, upTo, stamps);
    // true exactly when no packet so far was an error that the filter wants
    ok == (hits == []) && status == LastOr(hits, 0) &&
    // every event so far is queued, in stream order
    r.queue == st.queue + Events(big, upTo, stamps) &&
    r.request == st.request + 1 && r.lastRead == ReadAt(r.request, ps[e], serials[e])
  }

  /** The newest watch of a round trip tells its result. */
  lemma TripOutcome(big: bool, st: State, ps: seq<Packet>, serials: seq<u32>, e: nat)
    requires WfStream(big, ps) && e < |ps| == |serials| && st.request + 1 < 0x1_0000_0000 && st.watches != []
    requires st.watches[0].count == st.watches[0].lastError == 0
    ensures var r := AfterTrip(big, st, ps, serials, e, false);
            |r.watches| == |st.watches| &&
            var w := r.watches[0];
            TripResult(big, st, st.watches[0].filter, ps, serials, e, w.count == 0,
                       if w.count > 0 then w.lastError else 0, r)
  {
    hide TrueRun;
    assert WfPacket(big, ps[e]);
    TrueRunOutcome(big, st.(request := st.request + 1), ps[..e + 1], serials[..e + 1]);
  }

  lemma {:induction false} HitsConcat(big: bool, f: Filter, ps: seq<Packet>, ss: seq<u32>, qs: seq<Packet>,
                                      ts: seq<u32>)
    requires WfStream(big, ps) && WfStream(big, qs) && |ss| == |ps| && |ts| == |qs|
    ensures Hits(big, f, ps + qs, ss + ts) == Hits(big, f, ps, ss) + Hits(big, f, qs, ts)
    decreases |ps|
  {
    if ps == [] {
      assert ps + qs == qs && ss + ts == ts;
    } else {
      assert WfPacket(big, ps[0]);
      assert (ps + qs)[1..] == ps[1..] + qs && (ss + ts)[1..] == ss[1..] + ts;
      HitsConcat(big, f, ps[1..], ss[1..], qs, ts);
    }
  }

  /**
   * A round trip that ends with the answer misses no error: packets behind the answer belong to that
   * request or later ones, and so none of them is an error the filter wants.
   */
  lemma TripMissesNothing(big: bool, f: Filter, ps: seq<Packet>, serials: seq<u32>, low: u32, high: u32, a: nat)
    requires WfStream(big, ps) && InOrder(big, ps, serials, low, high) && a < |ps|
    requires 0 < f.maxSerial < serials[a]
    ensures |serials| == |ps| && Hits(big, f, ps, serials) == Hits(big, f, ps[..a + 1], serials[..a + 1])
  {
    hide Hits;
    TakeDrop(ps, a + 1);
    TakeDrop(serials, a + 1);
    var qs, ts := ps[a + 1..], serials[a + 1..];
    HitsConcat(big, f, ps[..a + 1], serials[..a + 1], qs, ts);
    forall i | 0 <= i < |ts|
      ensures f.maxSerial < ts[i]
    {
      assert ts[i] == serials[a + 1 + i] >= serials[a];
    }
    NoHits(big, f, qs, ts);
  }

  lemma NoHits(big: bool, f: Filter, ps: seq<Packet>, serials: seq<u32>)
    requires WfStream(big, ps) && |serials| == |ps|
    requires 0 < f.maxSerial && forall i :: 0 <= i < |ps| ==> f.maxSerial < serials[i]
    ensures Hits(big, f, ps, serials) == []
  {
    hide Hits, Wants;
    HitsExist(big, f, ps, serials);
    forall i | 0 <= i < |ps| && WfPacket(big, ps[i])
      ensures !Wants(big, f, ps[i], serials[i])
    {
      TooLate(big, f, ps[i], serials[i]);
    }
  }

  lemma TooLate(big: bool, f: Filter, p: Packet, serial: u32)
    requires |p| >= HEADER && 0 < f.maxSerial < serial
    ensures !Wants(big, f, p, serial)
  {
  }

  /** Only the queue and the serials of the final state matter for the result. */
  lemma TripResultKept(big: bool, st: State, st': State, f: Filter, ps: seq<Packet>, serials: seq<u32>, e: nat,
                       ok: bool, status: byte, r: State, r': State)
    requires WfStream(big, ps) && TripResult(big, st, f, ps, serials, e, ok, status, r)
    requires st'.queue == st.queue && st'.request == st.request
    requires r'.queue == r.queue && r'.lastRead == r.lastRead && r'.request == r.request
    ensures TripResult(big, st', f, ps, serials, e, ok, status, r')
  {
  }

  /** A reply ends the wait whoever's it is; the last serial is the request's if the sequence number is. */
  lemma StrayReplyEndsWait(big: bool, st: State, ps: seq<Packet>, serials: seq<u32>, e: nat)
    requires WfStream(big, ps) && InOrder(big, ps, serials, st.lastRead, st.request)
    requires FirstEnd(big, ps, serials, st.request, 0, e) && Near(big, st.lastRead, ps[..e + 1], serials[..e + 1])
    ensures e < |ps| == |serials| && AnswerComes(big, st, ps) && Await(big, st, ps, false).1 == e
    ensures Await(big, st, ps, false).0.lastRead == st.request <==> serials[e] % 0x1_0000 == st.request % 0x1_0000
    ensures st.request - st.lastRead < 0x1_0000 ==>
              (Await(big, st, ps, false).0.lastRead == st.request <==> serials[e] == st.request)
  {
    hide Near, TrueRun, Await, AnswerComes;
    AwaitEndsFirst(big, st, ps, serials, e, false);
    if st.request - st.lastRead < 0x1_0000 {
      Congruent(st.lastRead, serials[e], st.request);
    }
  }

  lemma Congruent(low: u32, x: u32, y: u32)
    requires low <= x <= y && y - low < 0x1_0000
    ensures x % 0x1_0000 == y % 0x1_0000 <==> x == y
  {
  }

  // Two streams that show what the status can be wrong about.

  function Bare(kind: byte, code: byte, sequence: byte): (p: Packet)
    ensures |p| == HEADER && WfPacket(true, p) && Seq16(true, p) == sequence && p[0] == kind && p[1] == code
  {
    var p := [kind, code, 0, sequence] + seq(HEADER - 4, _ => 0);
    assert p[2..4] == [0, sequence] && p[4..8] == [0, 0, 0, 0];
    p
  }

  /** The request succeeds, and the status is the code of the error that an earlier request caused. */
  lemma ForeignErrorReported(st: State)
    requires st.lastRead == 0 && st.request == 2
    ensures var ps := [Bare(ERROR_TYPE, 3, 1), Bare(REPLY_TYPE, 0, 2)];
            WfStream(true, ps) && AnsweredAt(true, st, ps, [1, 2], 1) && IsReply(ps[1]) && StatusOf(true, ps, 2, 0) == 3
  {
    var ps := [Bare(ERROR_TYPE, 3, 1), Bare(REPLY_TYPE, 0, 2)];
    StatusNext(true, ps, 0);
    StatusNext(true, ps, 1);
    assert ps[..2] == ps && [1, 2][..2] == [1, 2];
    WindowIsNear(true, 0, ps, [1, 2], 2);
  }

  /** An error with code zero wipes out the code of the error before it. */
  lemma ZeroCodeHidesError(st: State)
    requires st.lastRead == 0 && st.request == 3
    ensures var ps := [Bare(ERROR_TYPE, 3, 1), Bare(ERROR_TYPE, 0, 2), Bare(REPLY_TYPE, 0, 3)];
            WfStream(true, ps) && AnsweredAt(true, st, ps, [1, 2, 3], 2) && StatusOf(true, ps, 3, 0) == 0
  {
    var ps := [Bare(ERROR_TYPE, 3, 1), Bare(ERROR_TYPE, 0, 2), Bare(REPLY_TYPE, 0, 3)];
    StatusNext(true, ps, 1);
    StatusNext(true, ps, 2);
    assert ps[..3] == ps && [1, 2, 3][..3] == [1, 2, 3];
    WindowIsNear(true, 0, ps, [1, 2, 3], 3);
  }
}
