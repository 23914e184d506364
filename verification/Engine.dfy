/**
 * What the client does with each packet it reads, as a pure function on the state it keeps:
 * the serial number of the last packet, the event queue, the error watchers and the errors
 * handed to the program.
 */
module Engine {
  import opened Bytes
  import opened Packets
  import opened Sequences

  /** An event or error together with the request serial it was attributed to. */
  datatype Stamped = Stamped(wire: Packet, serial: u32)

  /** The part of `_AuAsyncErrorState` that says which errors are wanted; zero means any. */
  datatype Filter = Filter(minSerial: u32, maxSerial: u32, code: byte, major: byte, minor: u16)

  /** A filter with the errors it has taken so far. */
  datatype Watch = Watch(filter: Filter, lastError: byte, count: nat)

  datatype State = State(
    lastRead: u32,
    request: u32,
    queue: seq<Stamped>,
    watches: seq<Watch>,
    reported: seq<Stamped>)

  // Serial numbers --------------------------------------------------------------------------

  /** `_AuSetLastRequestRead`: the serial that a 16-bit sequence number is taken to stand for. */
  function Widen(lastRead: u32, request: u32, sequence: u16): (serial: u32)
  {
    var candidate := lastRead - lastRead % 0x1_0000 + sequence;
    if candidate >= lastRead || candidate + 0x1_0000 > request then candidate else candidate + 0x1_0000
  }

  /** A true serial is recovered exactly when it lies less than 65536 past the last one read. */
  lemma WidenExact(lastRead: u32, request: u32, serial: u32)
    requires lastRead <= serial <= request
    ensures Widen(lastRead, request, serial % 0x1_0000) == serial <==> serial - lastRead < 0x1_0000
  {
    var page, low := lastRead / 0x1_0000, lastRead % 0x1_0000;
    assert lastRead == page * 0x1_0000 + low;
    assert serial == serial / 0x1_0000 * 0x1_0000 + serial % 0x1_0000;
  }

  /** Reading never moves the serial back, unless no serial up to `request` fits the sequence number. */
  lemma WidenMonotone(lastRead: u32, request: u32, sequence: u16)
    ensures Widen(lastRead, request, sequence) >= lastRead <==>
            sequence >= lastRead % 0x1_0000 ||
            exists s: u32 :: lastRead <= s <= request && s % 0x1_0000 == sequence
  {
    var w := Widen(lastRead, request, sequence);
    var page := lastRead / 0x1_0000;
    if w >= lastRead && sequence < lastRead % 0x1_0000 {
      assert w == (page + 1) * 0x1_0000 + sequence;
      assert w % 0x1_0000 == sequence;
    }
    forall s: u32 | lastRead <= s <= request && s % 0x1_0000 == sequence && sequence < lastRead % 0x1_0000
      ensures w >= lastRead
    {
      assert s / 0x1_0000 > page;
      assert s >= (page + 1) * 0x1_0000 + sequence;
    }
  }

  /** Widening twice changes nothing: `_AuReply` and then `_AuError` both do it for one error. */
  lemma WidenIdempotent(lastRead: u32, request: u32, sequence: u16)
    ensures var w := Widen(lastRead, request, sequence); Widen(w, request, sequence) == w
  {
    var w := Widen(lastRead, request, sequence);
    var page := lastRead / 0x1_0000;
    assert w == page * 0x1_0000 + sequence || w == (page + 1) * 0x1_0000 + sequence;
    assert w % 0x1_0000 == sequence;
  }

  /** What the loop of `_AuSetLastRequestRead` tries after `n` turns, in 32-bit unsigned arithmetic. */
  function Tried(lastRead: u32, sequence: u16, n: nat): (newseq: int)
  {
    (lastRead - lastRead % 0x1_0000 + sequence + n * 0x1_0000) % 0x1_0000_0000
  }

  /** No turn of that loop finds a value to stop at: one not below `lastRead`, or one past `request`. */
  ghost predicate TurnsForever(lastRead: u32, request: u32, sequence: u16)
  {
    forall n: nat :: Tried(lastRead, sequence, n) < lastRead && (n > 0 ==> Tried(lastRead, sequence, n) <= request)
  }

  /**
   * The loop never ends exactly within the last 65536 serials of the 32-bit range, for a smaller
   * sequence number that the last request made has got past.
   */
  lemma SerialsRunOut(lastRead: u32, request: u32, sequence: u16)
    ensures TurnsForever(lastRead, request, sequence) <==>
            lastRead >= 0xFFFF_0000 && sequence < lastRead % 0x1_0000 && request >= 0xFFFF_0000 + sequence
  {
    var page := lastRead / 0x1_0000;
    if page < 0xFFFF {
      assert Tried(lastRead, sequence, 1) == (page + 1) * 0x1_0000 + sequence;
      assert Tried(lastRead, sequence, 1) > lastRead;
    } else {
      assert Tried(lastRead, sequence, 0) == Tried(lastRead, sequence, 0x1_0000) == 0xFFFF_0000 + sequence;
      forall n: nat
        ensures Tried(lastRead, sequence, n) <= 0xFFFF_0000 + sequence
      {
        assert Tried(lastRead, sequence, n) == (page + n) % 0x1_0000 * 0x1_0000 + sequence;
      }
    }
  }

  // Packets ---------------------------------------------------------------------------------

  /** Event type with the "sent by a client" bit removed. */
  function EventType(p: Packet): (t: byte)
    requires |p| >= HEADER
  {
    p[0] % 0x80
  }

  /** Events that have a converter, and so carry a serial; of these, grab events are not queued. */
  predicate Known(p: Packet)
    requires |p| >= HEADER
  {
    2 <= EventType(p) <= 4
  }

  predicate Queueable(p: Packet)
    requires |p| >= HEADER
  {
    EventType(p) == 2 || EventType(p) == 4
  }

  predicate IsEvent(p: Packet)
    requires |p| >= HEADER
  {
    !IsError(p) && !IsReply(p)
  }

  /** Packets whose sequence number the client looks at. */
  predicate Tracked(p: Packet)
    requires |p| >= HEADER
  {
    IsError(p) || IsReply(p) || Known(p)
  }

  /** `_AuAsyncErrorHandler`: is this error one the filter wants? */
  predicate Wants(big: bool, f: Filter, p: Packet, serial: u32)
    requires |p| >= HEADER
  {
    IsError(p) &&
    (f.code == 0 || ErrorCode(p) == f.code) &&
    (f.major == 0 || MajorCode(p) == f.major) &&
    (f.minor == 0 || MinorCode(big, p) == f.minor) &&
    (f.minSerial == 0 || f.minSerial <= serial) &&
    (f.maxSerial == 0 || f.maxSerial >= serial)
  }

  function Take(w: Watch, p: Packet): (r: Watch)
    requires |p| >= HEADER
  {
    w.(lastError := ErrorCode(p), count := w.count + 1)
  }

  /** Index of the first watch that wants the error, or the number of watches. */
  function FirstWanting(big: bool, ws: seq<Watch>, p: Packet, serial: u32): (k: nat)
    requires |p| >= HEADER
    ensures k <= |ws|
    ensures forall i :: 0 <= i < k ==> !Wants(big, ws[i].filter, p, serial)
    ensures k < |ws| ==> Wants(big, ws[k].filter, p, serial)
  {
    if ws == [] || Wants(big, ws[0].filter, p, serial) then 0 else 1 + FirstWanting(big, ws[1..], p, serial)
  }

  /** An error goes to the first watch that wants it, otherwise to the program. */
  function Deliver(big: bool, st: State, p: Packet, serial: u32): (r: State)
    requires |p| >= HEADER
  {
    var k := FirstWanting(big, st.watches, p, serial);
    if k < |st.watches| then st.(watches := st.watches[k := Take(st.watches[k], p)])
    else st.(reported := st.reported + [Stamped(p, serial)])
  }

  /** The effect of a packet whose serial has been settled. */
  function Apply(big: bool, st: State, p: Packet, serial: u32): (r: State)
    requires |p| >= HEADER
  {
    if !Tracked(p) then st
    else
      var seen := st.(lastRead := serial);
      if IsReply(p) then seen
      else if IsError(p) then Deliver(big, seen, p, serial)
      else if Queueable(p) then seen.(queue := st.queue + [Stamped(p, serial)])
      else seen
  }

  function SerialOf(big: bool, st: State, p: Packet): (serial: u32)
    requires |p| >= HEADER
  {
    Widen(st.lastRead, st.request, Seq16(big, p))
  }

  /** One turn of the dispatch loops: events are queued, errors delivered, stray replies dropped. */
  function Handle(big: bool, st: State, p: Packet): (r: State)
    requires |p| >= HEADER
    ensures r.request == st.request && |r.watches| == |st.watches|
  {
    Apply(big, st, p, SerialOf(big, st, p))
  }

  ghost function Run(big: bool, st: State, ps: seq<Packet>): (r: State)
    requires WfStream(big, ps)
    ensures r.request == st.request && |r.watches| == |st.watches|
    decreases |ps|
  {
    if ps == [] then st else
    assert WfPacket(big, ps[0]);
    Run(big, Handle(big, st, ps[0]), ps[1..])
  }

  lemma {:induction false} RunConcat(big: bool, st: State, ps: seq<Packet>, qs: seq<Packet>)
    requires WfStream(big, ps) && WfStream(big, qs)
    ensures Run(big, st, ps + qs) == Run(big, Run(big, st, ps), qs)
    decreases |ps|
  {
    if ps == [] {
      assert ps + qs == qs;
    } else {
      assert WfPacket(big, ps[0]);
      assert (ps + qs)[1..] == ps[1..] + qs;
      RunConcat(big, Handle(big, st, ps[0]), ps[1..], qs);
    }
  }

  lemma RunOneMore(big: bool, st: State, ps: seq<Packet>, k: nat)
    requires WfStream(big, ps) && k < |ps|
    ensures WfPacket(big, ps[k])
    ensures Run(big, st, ps[..k + 1]) == Handle(big, Run(big, st, ps[..k]), ps[k])
  {
    assert WfPacket(big, ps[k]);
    assert ps[..k + 1] == ps[..k] + [ps[k]];
    RunConcat(big, st, ps[..k], [ps[k]]);
  }

  lemma RunFurther(big: bool, st: State, ps: seq<Packet>, k: nat, n: nat)
    requires WfStream(big, ps) && k + n <= |ps|
    ensures Run(big, st, ps[..k + n]) == Run(big, Run(big, st, ps[..k]), ps[k..][..n])
    ensures ps[k..][n..] == ps[k + n..]
  {
    assert ps[..k + n] == ps[..k] + ps[k..][..n];
    RunConcat(big, st, ps[..k], ps[k..][..n]);
  }

  /** Handling the first `k` packets of `stream` leads from `before` to `after` and leaves `rest`. */
  ghost predicate Advanced(big: bool, before: State, stream: seq<Packet>, k: nat, after: State, rest: seq<Packet>)
    requires WfStream(big, stream)
  {
    k <= |stream| && rest == stream[k..] && after == Run(big, before, stream[..k])
  }

  /** Handling packets only ever appends to the event queue. */
  lemma {:induction false} QueueOnlyGrows(big: bool, st: State, ps: seq<Packet>)
    requires WfStream(big, ps)
    ensures st.queue <= Run(big, st, ps).queue
    decreases |ps|
  {
    if ps != [] {
      assert WfPacket(big, ps[0]);
      var next := Handle(big, st, ps[0]);
      assert st.queue <= next.queue;
      QueueOnlyGrows(big, next, ps[1..]);
    }
  }

  lemma NothingHandled(big: bool, st: State, stream: seq<Packet>)
    requires WfStream(big, stream)
    ensures Advanced(big, st, stream, 0, st, stream)
  {
  }

  /** Handling `k` packets and then `n` more is handling `k + n`. */
  lemma AdvanceMore(big: bool, st0: State, ps0: seq<Packet>, k: nat, st1: State, ps1: seq<Packet>, n: nat,
                    st2: State, ps2: seq<Packet>)
    requires WfStream(big, ps0) && WfStream(big, ps1)
    requires Advanced(big, st0, ps0, k, st1, ps1) && Advanced(big, st1, ps1, n, st2, ps2)
    ensures Advanced(big, st0, ps0, k + n, st2, ps2)
  {
    hide Run;
    RunFurther(big, st0, ps0, k, n);
  }

  /** The same when the second stretch reads only `ps1`, the part of what is left that has arrived. */
  lemma AdvanceAlong(big: bool, st0: State, ps0: seq<Packet>, k: nat, st1: State, ps1: seq<Packet>, later: seq<Packet>,
                     n: nat, st2: State, ps2: seq<Packet>)
    requires WfStream(big, ps0) && WfStream(big, ps1)
    requires Advanced(big, st0, ps0, k, st1, ps1 + later) && Advanced(big, st1, ps1, n, st2, ps2)
    ensures Advanced(big, st0, ps0, k + n, st2, ps2 + later)
  {
    hide Run;
    RunFurther(big, st0, ps0, k, n);
    assert ps0[k..] == ps1 + later;
    assert ps0[k..][..n] == ps1[..n];
    assert ps0[k + n..] == ps0[k..][n..] == ps2 + later;
  }

  // Attribution over whole runs ----------------------------------------------------------------

  /** The server sends packets in request order: `serials` are their true serials. */
  ghost predicate InOrder(big: bool, ps: seq<Packet>, serials: seq<u32>, low: u32, high: u32)
    requires WfStream(big, ps)
  {
    |serials| == |ps| &&
    (forall i :: 0 <= i < |ps| ==>
       WfPacket(big, ps[i]) && low <= serials[i] <= high && Seq16(big, ps[i]) == serials[i] % 0x1_0000) &&
    forall i, j :: 0 <= i < j < |ps| ==> serials[i] <= serials[j]
  }

  /** The run of a client that is told every packet's true serial. */
  ghost function TrueRun(big: bool, st: State, ps: seq<Packet>, serials: seq<u32>): (r: State)
    requires WfStream(big, ps) && |serials| == |ps|
    ensures r.request == st.request && |r.watches| == |st.watches|
    decreases |ps|
  {
    if ps == [] then st else
    assert WfPacket(big, ps[0]);
    TrueRun(big, Apply(big, st, ps[0], serials[0]), ps[1..], serials[1..])
  }

  /** The last serial read after packet `p` whose true serial is `serial`. */
  function Seen(last: u32, p: Packet, serial: u32): (r: u32)
    requires |p| >= HEADER
  {
    if Tracked(p) then serial else last
  }

  ghost function LastSerial(big: bool, last: u32, ps: seq<Packet>, serials: seq<u32>): (r: u32)
    requires WfStream(big, ps) && |serials| == |ps|
    decreases |ps|
  {
    if ps == [] then last else
    assert WfPacket(big, ps[0]);
    LastSerial(big, Seen(last, ps[0], serials[0]), ps[1..], serials[1..])
  }

  /** Every tracked packet lies less than 65536 requests past the tracked packet before it. */
  ghost predicate Near(big: bool, last: u32, ps: seq<Packet>, serials: seq<u32>)
    requires WfStream(big, ps) && |serials| == |ps|
    decreases |ps|
  {
    ps == [] ||
    (assert WfPacket(big, ps[0]);
     (Tracked(ps[0]) ==> serials[0] - last < 0x1_0000) &&
     Near(big, Seen(last, ps[0], serials[0]), ps[1..], serials[1..]))
  }

  lemma InOrderTail(big: bool, ps: seq<Packet>, serials: seq<u32>, low: u32, high: u32, low': u32)
    requires WfStream(big, ps) && InOrder(big, ps, serials, low, high) && ps != [] && low' <= serials[0]
    ensures InOrder(big, ps[1..], serials[1..], low', high)
  {
    forall i | 0 <= i < |ps| - 1
      ensures WfPacket(big, ps[1..][i]) && low' <= serials[1..][i] <= high
      ensures Seq16(big, ps[1..][i]) == serials[1..][i] % 0x1_0000
    {
      assert WfPacket(big, ps[i + 1]);
    }
  }

  /** The first packet of a run is where it should be. */
  lemma FirstInOrder(big: bool, ps: seq<Packet>, serials: seq<u32>, low: u32, high: u32)
    requires WfStream(big, ps) && InOrder(big, ps, serials, low, high) && ps != []
    ensures WfPacket(big, ps[0]) && |serials| == |ps|
    ensures low <= serials[0] <= high && Seq16(big, ps[0]) == serials[0] % 0x1_0000
    ensures InOrder(big, ps[1..], serials[1..], Seen(low, ps[0], serials[0]), high)
  {
    InOrderTail(big, ps, serials, low, high, Seen(low, ps[0], serials[0]));
  }

  /**
   * Sequence widening over whole runs: the client does what it would do if the wire carried full
   * serial numbers, exactly if no tracked packet lies 65536 requests or more past the one before.
   */
  lemma RunIsTrueRun(big: bool, st: State, ps: seq<Packet>, serials: seq<u32>)
    requires WfStream(big, ps) && InOrder(big, ps, serials, st.lastRead, st.request)
    ensures Run(big, st, ps) == TrueRun(big, st, ps, serials) <==> Near(big, st.lastRead, ps, serials)
    ensures st.lastRead <= Run(big, st, ps).lastRead && (ps != [] ==> Run(big, st, ps).lastRead <= st.request)
  {
    RunLags(big, st, st.lastRead, ps, serials);
    if Near(big, st.lastRead, ps, serials) {
      NearRun(big, st, ps, serials);
    } else {
      StrayRun(big, st, ps, serials);
      TrueRunLast(big, st, ps, serials);
    }
  }

  /** With fewer than 65536 requests outstanding that is so. */
  lemma {:induction false} WindowIsNear(big: bool, last: u32, ps: seq<Packet>, serials: seq<u32>, high: u32)
    requires WfStream(big, ps) && InOrder(big, ps, serials, last, high) && high - last < 0x1_0000
    ensures Near(big, last, ps, serials)
    decreases |ps|
  {
    if ps != [] {
      hide InOrder;
      FirstInOrder(big, ps, serials, last, high);
      WindowIsNear(big, Seen(last, ps[0], serials[0]), ps[1..], serials[1..], high);
    }
  }

  lemma {:induction false} NearRun(big: bool, st: State, ps: seq<Packet>, serials: seq<u32>)
    requires WfStream(big, ps) && InOrder(big, ps, serials, st.lastRead, st.request)
    requires Near(big, st.lastRead, ps, serials)
    ensures Run(big, st, ps) == TrueRun(big, st, ps, serials)
    decreases |ps|
  {
    if ps != [] {
      hide InOrder;
      FirstInOrder(big, ps, serials, st.lastRead, st.request);
      WidenExact(st.lastRead, st.request, serials[0]);
      SeenApplied(big, st, ps[0], serials[0]);
      NearRun(big, Handle(big, st, ps[0]), ps[1..], serials[1..]);
    }
  }

  lemma SeenApplied(big: bool, st: State, p: Packet, serial: u32)
    requires |p| >= HEADER
    ensures Apply(big, st, p, serial).lastRead == Seen(st.lastRead, p, serial)
    ensures Tracked(p) || Apply(big, st, p, serial) == st
  {
  }

  lemma {:induction false} TrueRunLast(big: bool, st: State, ps: seq<Packet>, serials: seq<u32>)
    requires WfStream(big, ps) && |serials| == |ps|
    ensures TrueRun(big, st, ps, serials).lastRead == LastSerial(big, st.lastRead, ps, serials)
    decreases |ps|
  {
    if ps != [] {
      hide Apply;
      assert WfPacket(big, ps[0]);
      SeenApplied(big, st, ps[0], serials[0]);
      TrueRunLast(big, Apply(big, st, ps[0], serials[0]), ps[1..], serials[1..]);
    }
  }

  /** A client that is behind by some multiple of 65536 never catches up. */
  lemma WidenLags(lastRead: u32, last: u32, request: u32, serial: u32)
    requires lastRead <= last <= serial <= request && (last - lastRead) % 0x1_0000 == 0
    ensures var w := Widen(lastRead, request, serial % 0x1_0000);
            lastRead <= w <= serial && (serial - w) % 0x1_0000 == 0 && serial - w >= last - lastRead &&
            (serial - last >= 0x1_0000 ==> serial - w >= 0x1_0000)
  {
    var a, b, c := lastRead / 0x1_0000, (last - lastRead) / 0x1_0000, serial / 0x1_0000;
    var w := Widen(lastRead, request, serial % 0x1_0000);
    assert lastRead == a * 0x1_0000 + lastRead % 0x1_0000 && serial == c * 0x1_0000 + serial % 0x1_0000;
    assert last == (a + b) * 0x1_0000 + lastRead % 0x1_0000;
    assert w == a * 0x1_0000 + serial % 0x1_0000 || w == (a + 1) * 0x1_0000 + serial % 0x1_0000;
    assert serial - w == (c - w / 0x1_0000) * 0x1_0000;
  }

  lemma {:induction false} RunLags(big: bool, st: State, last: u32, ps: seq<Packet>, serials: seq<u32>)
    requires WfStream(big, ps) && InOrder(big, ps, serials, last, st.request)
    requires st.lastRead <= last && (last - st.lastRead) % 0x1_0000 == 0
    ensures var lag := LastSerial(big, last, ps, serials) - Run(big, st, ps).lastRead;
            lag >= last - st.lastRead && lag % 0x1_0000 == 0
    ensures st.lastRead <= Run(big, st, ps).lastRead && (ps != [] ==> LastSerial(big, last, ps, serials) <= st.request)
    decreases |ps|
  {
    if ps != [] {
      hide InOrder, Apply, Widen;
      FirstInOrder(big, ps, serials, last, st.request);
      WidenLags(st.lastRead, last, st.request, serials[0]);
      SeenApplied(big, st, ps[0], SerialOf(big, st, ps[0]));
      RunLags(big, Handle(big, st, ps[0]), Seen(last, ps[0], serials[0]), ps[1..], serials[1..]);
    }
  }

  /** After a packet that lies too far ahead the client stays behind. */
  lemma {:induction false} StrayRun(big: bool, st: State, ps: seq<Packet>, serials: seq<u32>)
    requires WfStream(big, ps) && InOrder(big, ps, serials, st.lastRead, st.request)
    requires !Near(big, st.lastRead, ps, serials)
    ensures var lag := LastSerial(big, st.lastRead, ps, serials) - Run(big, st, ps).lastRead;
            lag >= 0x1_0000 && lag % 0x1_0000 == 0
    decreases |ps|
  {
    hide InOrder, Apply, Widen;
    FirstInOrder(big, ps, serials, st.lastRead, st.request);
    var next := Handle(big, st, ps[0]);
    SeenApplied(big, st, ps[0], SerialOf(big, st, ps[0]));
    if Tracked(ps[0]) && serials[0] - st.lastRead >= 0x1_0000 {
      WidenLags(st.lastRead, st.lastRead, st.request, serials[0]);
      RunLags(big, next, serials[0], ps[1..], serials[1..]);
    } else {
      WidenExact(st.lastRead, st.request, serials[0]);
      StrayRun(big, next, ps[1..], serials[1..]);
    }
  }

  /** True serials make the run independent of how many requests have been made. */
  lemma {:induction false} TrueRunAnyRequest(big: bool, st: State, ps: seq<Packet>, serials: seq<u32>, request: u32)
    requires WfStream(big, ps) && |serials| == |ps|
    ensures TrueRun(big, st.(request := request), ps, serials) == TrueRun(big, st, ps, serials).(request := request)
    decreases |ps|
  {
    if ps != [] {
      assert WfPacket(big, ps[0]);
      TrueRunAnyRequest(big, Apply(big, st, ps[0], serials[0]), ps[1..], serials[1..], request);
    }
  }

  // Handling packets while requests are made --------------------------------------------------------

  /** Something that happens while requests are being sent. */
  datatype Step = Issued | Handled(k: nat)

  /** The steps lead from state `st` to `after`, and of the unread packets `ps` leave `rest`. */
  ghost predicate Through(big: bool, st: State, ps: seq<Packet>, steps: seq<Step>, after: State, rest: seq<Packet>)
    decreases |steps|
  {
    WfStream(big, ps) &&
    if steps == [] then after == st && rest == ps
    else match steps[0]
      case Issued =>
        st.request + 1 < 0x1_0000_0000 && Through(big, st.(request := st.request + 1), ps, steps[1..], after, rest)
      case Handled(k) => k <= |ps| && Through(big, Run(big, st, ps[..k]), ps[k..], steps[1..], after, rest)
  }

  function IssuedIn(steps: seq<Step>): (n: nat)
  {
    if steps == [] then 0 else (if steps[0].Issued? then 1 else 0) + IssuedIn(steps[1..])
  }

  function HandledIn(steps: seq<Step>): (n: nat)
  {
    if steps == [] then 0 else (if steps[0].Handled? then steps[0].k else 0) + HandledIn(steps[1..])
  }

  lemma {:induction false} ThroughConcat(big: bool, st0: State, ps0: seq<Packet>, a: seq<Step>, st1: State,
                                         ps1: seq<Packet>, b: seq<Step>, st2: State, ps2: seq<Packet>)
    requires Through(big, st0, ps0, a, st1, ps1) && Through(big, st1, ps1, b, st2, ps2)
    ensures Through(big, st0, ps0, a + b, st2, ps2) && IssuedIn(a + b) == IssuedIn(a) + IssuedIn(b)
    decreases |a|
  {
    if a == [] {
      assert a + b == b;
    } else {
      hide Run;
      assert (a + b)[1..] == a[1..] + b && (a + b)[0] == a[0];
      match a[0] {
        case Issued => ThroughConcat(big, st0.(request := st0.request + 1), ps0, a[1..], st1, ps1, b, st2, ps2);
        case Handled(k) => ThroughConcat(big, Run(big, st0, ps0[..k]), ps0[k..], a[1..], st1, ps1, b, st2, ps2);
      }
    }
  }

  /** One request: packets handled to make room for it, and more while its data is sent. */
  function OneRequest(k: nat, j: nat): (steps: seq<Step>)
  {
    [Handled(k), Issued, Handled(j)]
  }

  lemma ThroughOne(big: bool, st0: State, ps0: seq<Packet>, k: nat, st1: State, ps1: seq<Packet>, j: nat, st2: State,
                   ps2: seq<Packet>)
    requires WfStream(big, ps0) && WfStream(big, ps1) && st0.request + 1 == st1.request
    requires Advanced(big, st0, ps0, k, st1.(request := st0.request), ps1) && Advanced(big, st1, ps1, j, st2, ps2)
    ensures Through(big, st0, ps0, OneRequest(k, j), st2, ps2) && IssuedIn(OneRequest(k, j)) == 1
  {
    hide Run;
    var steps := OneRequest(k, j);
    assert steps[1..] == [Issued, Handled(j)] && steps[1..][1..] == [Handled(j)] && [Handled(j)][1..] == [];
    assert st1 == Run(big, st0, ps0[..k]).(request := st0.request + 1);
    assert Through(big, st2, ps2, [], st2, ps2);
    assert Through(big, st1, ps1, [Handled(j)], st2, ps2);
    assert IssuedIn([Handled(j)]) == 0 && IssuedIn([Issued, Handled(j)]) == 1;
  }

  /** Every packet belongs to a request that has been made by the time it is handled. */
  ghost predicate Caused(serials: seq<u32>, steps: seq<Step>, request: nat)
    decreases |steps|
  {
    steps == [] ||
    match steps[0]
    case Issued => Caused(serials, steps[1..], request + 1)
    case Handled(k) => k <= |serials| && (forall i :: 0 <= i < k ==> serials[i] <= request) &&
                       Caused(serials[k..], steps[1..], request)
  }

  const MAX_SERIAL: u32 := 0xFFFF_FFFF

  /**
   * However requests and packets of an in-order server take turns, each packet is handled once and in
   * stream order. The effect is that of the packets with true serials, and of that many more requests,
   * exactly if no tracked packet lies 65536 requests or more past the one before.
   */
  lemma {:induction false} ThroughIsTrueRun(big: bool, st: State, ps: seq<Packet>, serials: seq<u32>, steps: seq<Step>,
                                            after: State, rest: seq<Packet>)
    requires Through(big, st, ps, steps, after, rest) && InOrder(big, ps, serials, st.lastRead, MAX_SERIAL)
    requires Caused(serials, steps, st.request)
    ensures var n := HandledIn(steps);
            n <= |ps| == |serials| && rest == ps[n..] && st.request + IssuedIn(steps) <= MAX_SERIAL &&
            (after == TrueRun(big, st, ps[..n], serials[..n]).(request := st.request + IssuedIn(steps)) <==>
             Near(big, st.lastRead, ps[..n], serials[..n]))
    decreases |steps|
  {
    hide Run, TrueRun, InOrder, Near;
    if steps == [] {
      NothingRun(big, st, ps, serials);
    } else {
      match steps[0] {
        case Issued =>
          var next := st.(request := st.request + 1);
          ThroughIsTrueRun(big, next, ps, serials, steps[1..], after, rest);
          var n := HandledIn(steps);
          TrueRunAnyRequest(big, st, ps[..n], serials[..n], next.request);
        case Handled(k) =>
          HandledOnWay(big, st, ps, serials, k);
          var next := Run(big, st, ps[..k]);
          if Near(big, st.lastRead, ps[..k], serials[..k]) {
            ThroughIsTrueRun(big, next, ps[k..], serials[k..], steps[1..], after, rest);
            TrueRunFurther(big, st, ps, serials, k, HandledIn(steps[1..]));
          } else {
            ThroughLags(big, next, LastSerial(big, st.lastRead, ps[..k], serials[..k]), ps[k..], serials[k..],
                        steps[1..],
                        after, rest);
            LagsToEnd(big, st, ps, serials, k, HandledIn(steps[1..]), after);
          }
          NearFurther(big, st.lastRead, ps, serials, k, HandledIn(steps[1..]));
      }
    }
  }

  /** The same for a client that is behind: it stays so. */
  lemma {:induction false} ThroughLags(big: bool, st: State, last: u32, ps: seq<Packet>, serials: seq<u32>,
                                       steps: seq<Step>, after: State, rest: seq<Packet>)
    requires Through(big, st, ps, steps, after, rest) && InOrder(big, ps, serials, last, MAX_SERIAL)
    requires Caused(serials, steps, st.request)
    requires st.lastRead <= last && (last - st.lastRead) % 0x1_0000 == 0
    ensures var n := HandledIn(steps);
            n <= |ps| == |serials| && rest == ps[n..] && st.request + IssuedIn(steps) <= MAX_SERIAL &&
            LastSerial(big, last, ps[..n], serials[..n]) - after.lastRead >= last - st.lastRead
    decreases |steps|
  {
    hide Run, InOrder, LastSerial;
    if steps == [] {
      NothingSeen(big, last, ps, serials);
    } else {
      match steps[0] {
        case Issued =>
          ThroughLags(big, st.(request := st.request + 1), last, ps, serials, steps[1..], after, rest);
        case Handled(k) =>
          InOrderParts(big, ps, serials, last, MAX_SERIAL, k, st.request);
          RunLags(big, st, last, ps[..k], serials[..k]);
          ThroughLags(big, Run(big, st, ps[..k]), LastSerial(big, last, ps[..k], serials[..k]), ps[k..], serials[k..],
                      steps[1..], after, rest);
          LastFurther(big, last, ps, serials, k, HandledIn(steps[1..]));
      }
    }
  }

  lemma NothingSeen(big: bool, last: u32, ps: seq<Packet>, serials: seq<u32>)
    requires WfStream(big, ps) && InOrder(big, ps, serials, last, MAX_SERIAL)
    ensures |serials| == |ps| && ps[0..] == ps && LastSerial(big, last, ps[..0], serials[..0]) == last
  {
  }

  /** What handling the first `k` packets leaves, whether or not they are near one another. */
  lemma HandledOnWay(big: bool, st: State, ps: seq<Packet>, serials: seq<u32>, k: nat)
    requires WfStream(big, ps) && InOrder(big, ps, serials, st.lastRead, MAX_SERIAL) && k <= |ps|
    requires forall i :: 0 <= i < k ==> serials[i] <= st.request
    ensures |serials| == |ps|
    ensures var next, last := Run(big, st, ps[..k]), LastSerial(big, st.lastRead, ps[..k], serials[..k]);
            InOrder(big, ps[k..], serials[k..], last, MAX_SERIAL) &&
            (if Near(big, st.lastRead, ps[..k], serials[..k])
             then next == TrueRun(big, st, ps[..k], serials[..k]) && next.lastRead == last
             else last - next.lastRead >= 0x1_0000 && (last - next.lastRead) % 0x1_0000 == 0)
  {
    hide Run, TrueRun, Near, InOrder, LastSerial;
    InOrderParts(big, ps, serials, st.lastRead, MAX_SERIAL, k, st.request);
    RunIsTrueRun(big, st, ps[..k], serials[..k]);
    TrueRunLast(big, st, ps[..k], serials[..k]);
    if !Near(big, st.lastRead, ps[..k], serials[..k]) {
      StrayRun(big, st, ps[..k], serials[..k]);
    }
  }

  lemma LagsToEnd(big: bool, st: State, ps: seq<Packet>, serials: seq<u32>, k: nat, n: nat, after: State)
    requires WfStream(big, ps) && k + n <= |ps| == |serials|
    requires LastSerial(big, LastSerial(big, st.lastRead, ps[..k], serials[..k]), ps[k..][..n],
                        serials[k..][..n]) > after.lastRead
    ensures after.lastRead != TrueRun(big, st, ps[..k + n], serials[..k + n]).lastRead && ps[k..][n..] == ps[k + n..]
  {
    hide LastSerial, TrueRun;
    LastFurther(big, st.lastRead, ps, serials, k, n);
    TrueRunLast(big, st, ps[..k + n], serials[..k + n]);
  }

  /** The first `k` packets and the others are in order by themselves. */
  lemma InOrderParts(big: bool, ps: seq<Packet>, serials: seq<u32>, low: u32, high: u32, k: nat, request: u32)
    requires WfStream(big, ps) && InOrder(big, ps, serials, low, high) && k <= |ps|
    requires forall i :: 0 <= i < k ==> serials[i] <= request
    ensures |serials| == |ps| && InOrder(big, ps[..k], serials[..k], low, request)
    ensures InOrder(big, ps[k..], serials[k..], LastSerial(big, low, ps[..k], serials[..k]), high)
  {
    LastReached(big, ps, serials, low, high, k);
    var last := LastSerial(big, low, ps[..k], serials[..k]);
    forall i | 0 <= i < |ps| - k
      ensures WfPacket(big, ps[k..][i]) && last <= serials[k..][i] <= high
      ensures Seq16(big, ps[k..][i]) == serials[k..][i] % 0x1_0000
    {
      assert WfPacket(big, ps[k + i]);
    }
  }

  /** The last serial of the first `k` packets is no later than those of the others. */
  lemma {:induction false} LastReached(big: bool, ps: seq<Packet>, serials: seq<u32>, low: u32, high: u32, k: nat)
    requires WfStream(big, ps) && InOrder(big, ps, serials, low, high) && k <= |ps|
    ensures |serials| == |ps| && low <= LastSerial(big, low, ps[..k], serials[..k])
    ensures forall i :: k <= i < |ps| ==> LastSerial(big, low, ps[..k], serials[..k]) <= serials[i]
    decreases k
  {
    if k > 0 {
      FirstInOrder(big, ps, serials, low, high);
      LastReached(big, ps[1..], serials[1..], Seen(low, ps[0], serials[0]), high, k - 1);
      assert ps[..k][1..] == ps[1..][..k - 1] && serials[..k][1..] == serials[1..][..k - 1];
      forall i | k <= i < |ps|
        ensures LastSerial(big, low, ps[..k], serials[..k]) <= serials[i]
      {
        assert serials[1..][i - 1] == serials[i];
      }
    }
  }

  lemma {:induction false} LastFurther(big: bool, last: u32, ps: seq<Packet>, serials: seq<u32>, k: nat, n: nat)
    requires WfStream(big, ps) && k + n <= |ps| == |serials|
    ensures LastSerial(big, last, ps[..k + n], serials[..k + n]) ==
            LastSerial(big, LastSerial(big, last, ps[..k], serials[..k]), ps[k..][..n], serials[k..][..n])
    ensures ps[k..][n..] == ps[k + n..]
    decreases k
  {
    if k > 0 {
      FurtherSlices(ps, k, n);
      FurtherSlices(serials, k, n);
      assert WfPacket(big, ps[0]);
      LastFurther(big, Seen(last, ps[0], serials[0]), ps[1..], serials[1..], k - 1, n);
    } else {
      assert ps[0..] == ps && serials[0..] == serials;
    }
  }

  lemma FurtherSlices<T>(s: seq<T>, k: nat, n: nat)
    requires 0 < k && k + n <= |s|
    ensures s[..k][1..] == s[1..][..k - 1] && s[..k + n][1..] == s[1..][..k - 1 + n] && s[1..][k - 1..] == s[k..]
  {
  }

  lemma {:induction false} NearFurther(big: bool, last: u32, ps: seq<Packet>, serials: seq<u32>, k: nat, n: nat)
    requires WfStream(big, ps) && k + n <= |ps| == |serials|
    ensures Near(big, last, ps[..k + n], serials[..k + n]) <==>
            Near(big, last, ps[..k], serials[..k]) &&
            Near(big, LastSerial(big, last, ps[..k], serials[..k]), ps[k..][..n], serials[k..][..n])
    decreases k
  {
    if k > 0 {
      FurtherSlices(ps, k, n);
      FurtherSlices(serials, k, n);
      assert WfPacket(big, ps[0]);
      NearFurther(big, Seen(last, ps[0], serials[0]), ps[1..], serials[1..], k - 1, n);
    } else {
      assert ps[0..] == ps && serials[0..] == serials;
    }
  }

  lemma NothingRun(big: bool, st: State, ps: seq<Packet>, serials: seq<u32>)
    requires WfStream(big, ps) && InOrder(big, ps, serials, st.lastRead, MAX_SERIAL)
    ensures |serials| == |ps| && ps[0..] == ps && TrueRun(big, st, ps[..0], serials[..0]) == st
    ensures Near(big, st.lastRead, ps[..0], serials[..0])
  {
  }

  lemma {:induction false} TrueRunConcat(big: bool, st: State, ps: seq<Packet>, ss: seq<u32>, qs: seq<Packet>,
                                         ts: seq<u32>)
    requires WfStream(big, ps) && WfStream(big, qs) && |ss| == |ps| && |ts| == |qs|
    ensures TrueRun(big, st, ps + qs, ss + ts) == TrueRun(big, TrueRun(big, st, ps, ss), qs, ts)
    decreases |ps|
  {
    if ps == [] {
      assert ps + qs == qs && ss + ts == ts;
    } else {
      hide Apply;
      assert WfPacket(big, ps[0]);
      assert (ps + qs)[1..] == ps[1..] + qs && (ss + ts)[1..] == ss[1..] + ts;
      TrueRunConcat(big, Apply(big, st, ps[0], ss[0]), ps[1..], ss[1..], qs, ts);
    }
  }

  lemma TrueRunFurther(big: bool, st: State, ps: seq<Packet>, serials: seq<u32>, k: nat, n: nat)
    requires WfStream(big, ps) && k + n <= |ps| == |serials|
    ensures TrueRun(big, st, ps[..k + n], serials[..k + n]) ==
            TrueRun(big, TrueRun(big, st, ps[..k], serials[..k]), ps[k..][..n], serials[k..][..n])
    ensures ps[k..][n..] == ps[k + n..]
  {
    hide TrueRun;
    assert ps[..k + n] == ps[..k] + ps[k..][..n] && serials[..k + n] == serials[..k] + serials[k..][..n];
    TrueRunConcat(big, st, ps[..k], serials[..k], ps[k..][..n], serials[k..][..n]);
  }

  /** Error codes of the packets a filter wants, in stream order. */
  ghost function Hits(big: bool, f: Filter, ps: seq<Packet>, serials: seq<u32>): (codes: seq<byte>)
    requires WfStream(big, ps) && |serials| == |ps|
    decreases |ps|
  {
    if ps == [] then [] else
    assert WfPacket(big, ps[0]);
    var rest := Hits(big, f, ps[1..], serials[1..]);
    if Wants(big, f, ps[0], serials[0]) then [ErrorCode(ps[0])] + rest else rest
  }

  /** There is a hit exactly when some error of the stream is wanted. */
  lemma {:induction false} HitsExist(big: bool, f: Filter, ps: seq<Packet>, serials: seq<u32>)
    requires WfStream(big, ps) && |serials| == |ps|
    ensures Hits(big, f, ps, serials) != [] <==>
            exists i :: 0 <= i < |ps| && WfPacket(big, ps[i]) && Wants(big, f, ps[i], serials[i])
    decreases |ps|
  {
    if ps != [] {
      assert WfPacket(big, ps[0]);
      HitsExist(big, f, ps[1..], serials[1..]);
      forall i | 0 < i < |ps| && WfPacket(big, ps[i]) && Wants(big, f, ps[i], serials[i])
        ensures Hits(big, f, ps, serials) != []
      {
        assert ps[1..][i - 1] == ps[i] && serials[1..][i - 1] == serials[i];
      }
    }
  }

  ghost function LastOr(codes: seq<byte>, default: byte): byte
  {
    if codes == [] then default else codes[|codes| - 1]
  }

  /** The queueable events of a stream, stamped with their true serials. */
  ghost function Events(big: bool, ps: seq<Packet>, serials: seq<u32>): (es: seq<Stamped>)
    requires WfStream(big, ps) && |serials| == |ps|
    decreases |ps|
  {
    if ps == [] then [] else
    assert WfPacket(big, ps[0]);
    var rest := Events(big, ps[1..], serials[1..]);
    if IsEvent(ps[0]) && Queueable(ps[0]) then [Stamped(ps[0], serials[0])] + rest else rest
  }

  /**
   * The newest watch counts exactly the errors its filter wants and keeps the code of the last;
   * meanwhile every event is queued in stream order.
   */
  lemma {:induction false} TrueRunOutcome(big: bool, st: State, ps: seq<Packet>, serials: seq<u32>)
    requires WfStream(big, ps) && |serials| == |ps| && st.watches != []
    ensures var r, w := TrueRun(big, st, ps, serials), st.watches[0];
            var hits := Hits(big, w.filter, ps, serials);
            r.watches[0] == Watch(w.filter, LastOr(hits, w.lastError), w.count + |hits|) &&
            r.queue == st.queue + Events(big, ps, serials)
    decreases |ps|
  {
    if ps != [] {
      assert WfPacket(big, ps[0]);
      var next, w := Apply(big, st, ps[0], serials[0]), st.watches[0];
      TrueRunOutcome(big, next, ps[1..], serials[1..]);
      assert next.watches[0] == if Wants(big, w.filter, ps[0], serials[0]) then Take(w, ps[0]) else w;
      if next.queue != st.queue {
        AppendAssociative(st.queue, [Stamped(ps[0], serials[0])], Events(big, ps[1..], serials[1..]));
      }
    }
  }

  /** Watches below the newest see the stream as if the errors it took had not been there. */
  ghost function Unwanted(big: bool, f: Filter, ps: seq<Packet>, serials: seq<u32>): (r: (seq<Packet>, seq<u32>))
    requires WfStream(big, ps) && |serials| == |ps|
    ensures WfStream(big, r.0) && |r.0| == |r.1|
    decreases |ps|
  {
    if ps == [] then ([], []) else
    assert WfPacket(big, ps[0]);
    var rest := Unwanted(big, f, ps[1..], serials[1..]);
    if Wants(big, f, ps[0], serials[0]) then rest else ([ps[0]] + rest.0, [serials[0]] + rest.1)
  }

  lemma {:induction false} OlderWatchesUndisturbed(big: bool, st: State, older: State, ps: seq<Packet>,
                                                   serials: seq<u32>)
    requires WfStream(big, ps) && |serials| == |ps| && st.watches != []
    requires older.watches == st.watches[1..] && older.reported == st.reported
    ensures var r := TrueRun(big, st, ps, serials);
            var (qs, ss) := Unwanted(big, st.watches[0].filter, ps, serials);
            var o := TrueRun(big, older, qs, ss);
            r.watches[1..] == o.watches && r.reported == o.reported
    decreases |ps|
  {
    if ps != [] {
      assert WfPacket(big, ps[0]);
      var next := Apply(big, st, ps[0], serials[0]);
      var f := st.watches[0].filter;
      var (qs, ss) := Unwanted(big, f, ps[1..], serials[1..]);
      if Wants(big, f, ps[0], serials[0]) {
        OlderWatchesUndisturbed(big, next, older, ps[1..], serials[1..]);
      } else {
        var o := Apply(big, older, ps[0], serials[0]);
        assert next.watches[1..] == o.watches;
        OlderWatchesUndisturbed(big, next, o, ps[1..], serials[1..]);
        assert ([ps[0]] + qs)[1..] == qs && ([serials[0]] + ss)[1..] == ss;
      }
    }
  }
}
