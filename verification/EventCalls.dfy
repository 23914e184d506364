/** The calls a program makes on its event queue: peek, take, search and synchronize. */
module EventCalls {
  import opened Bytes
  import opened Packets
  import opened Engine
  import opened ErrorWatches
  import opened Answers
  import opened Sequences
  import opened Client
  import opened Replies
  import Q = EventQueue

  /**
   * `_AuEventsQueued`: the queue's length, after reading what is readable. `pending` is what FIONREAD
   * reports; with `flushFirst` the reading is skipped when flushing left events in the queue.
   */
  method EventsQueued(aud: AuServer, flushFirst: bool, pending: nat) returns (n: int, ghost k: nat)
    requires aud.InValid() && aud.OutValid()
    modifies aud`lastRead, aud`reported, aud`inbound, aud`incoming, aud`readScript
    modifies aud.q, aud.q.Repr, aud.async`watches, aud.async.nodes, aud`bufptr, aud`sent, aud`writeScript
    ensures aud.InValid() && aud.OutValid() && aud.QueueGrew() && n == |aud.q.contents|
    ensures Advanced(aud.big, old(aud.Abs()), old(aud.incoming), k, aud.Abs(), aud.incoming)
  {
    hide WatchList.Valid, Run, Concat, Covered, Q.EventQueue.Valid, Advanced, AuServer.OutValid;
    k := 0;
    NothingHandled(aud.big, aud.Abs(), aud.incoming);
    if flushFirst {
      k := aud.Flush();
      aud.q.LengthIs();
      if aud.q.length > 0 {
        return aud.q.length, k;
      }
    }
    var readable := if pending < |aud.inbound| then pending else |aud.inbound|;
    if readable > 0 {
      NonEmptyStream(aud.big, aud.incoming);
      ghost var st, ps := aud.Abs(), aud.incoming;
      ghost var more := aud.DispatchChunk(aud.ChunkLength(readable));
      AdvanceMore(aud.big, old(aud.Abs()), old(aud.incoming), k, st, ps, more, aud.Abs(), aud.incoming);
      k := k + more;
    }
    aud.q.LengthIs();
    n := aud.q.length;
  }

  /** Is `i` the first of the events that satisfies the predicate? */
  ghost predicate FirstMatch(pred: Stamped -> bool, events: seq<Stamped>, i: nat)
  {
    i < |events| && pred(events[i]) && forall j :: 0 <= j < i ==> !pred(events[j])
  }

  ghost predicate NoMatch(pred: Stamped -> bool, events: seq<Stamped>)
  {
    forall j :: 0 <= j < |events| ==> !pred(events[j])
  }

  /** The first `seen` events have been tested, in order, and do not match. */
  ghost predicate Searched(pred: Stamped -> bool, events: seq<Stamped>, seen: nat, tested: seq<Stamped>)
  {
    seen <= |events| && NoMatch(pred, events[..seen]) && tested == events[..seen]
  }

  /** One pass of `AuScanEvents`, from the node after `prev` on. */
  method ScanPass(q: Q.EventQueue<Stamped>, pred: Stamped -> bool, prev: Q.Node?<Stamped>,
                  ghost seen: nat, ghost tested: seq<Stamped>)
    returns (hit: Q.Node?<Stamped>, prev': Q.Node?<Stamped>, ghost seen': nat, ghost tested': seq<Stamped>)
    requires q.Valid() && Searched(pred, q.contents, seen, tested) && seen <= |q.live|
    requires prev == if seen == 0 then null else q.live[seen - 1]
    ensures seen <= seen' <= |q.live| == |q.contents| && prev' == if seen' == 0 then null else q.live[seen' - 1]
    ensures hit == null ==> seen' == |q.contents| && Searched(pred, q.contents, seen', tested')
    ensures hit == null ==> Scanned(pred, q.contents, [], tested')
    ensures hit != null ==> seen' < |q.live| && hit == q.live[seen'] && |tested'| == seen' + 1
    ensures hit != null ==> Scanned(pred, q.contents, [hit.event], tested')
  {
    hide Q.EventQueue.FreeValid;
    prev', seen', tested' := prev, seen, tested;
    hit := if prev == null then q.head else prev.next;
    while hit != null
      invariant seen <= seen' <= |q.live| && hit == At<Q.Node?<Stamped>>(q.live, seen', null)
      invariant prev' == if seen' == 0 then null else q.live[seen' - 1]
      invariant Searched(pred, q.contents, seen', tested')
      decreases |q.live| - seen'
    {
      tested' := tested' + [hit.event];
      assert tested' == q.contents[..seen' + 1];
      if pred(hit.event) {
        assert FirstMatch(pred, q.contents, seen');
        return;
      }
      prev', hit := hit, hit.next;
      seen' := seen' + 1;
    }
  }

  /** What `AuScanEvents` finds in the queue `all`: the earliest match, testing no event twice. */
  ghost predicate Scanned(pred: Stamped -> bool, all: seq<Stamped>, event: seq<Stamped>, tested: seq<Stamped>)
  {
    if NoMatch(pred, all) then event == [] && tested == all
    else 0 < |tested| && FirstMatch(pred, all, |tested| - 1) && tested == all[..|tested|] &&
         event == [all[|tested| - 1]]
  }

  /** What `AuScanEvents` does before pass `n`: nothing, then read, then flush. */
  method Refill(aud: AuServer, n: nat, pending: nat) returns (ghost k: nat)
    requires aud.InValid() && aud.OutValid() && n <= 2
    modifies aud`lastRead, aud`reported, aud`inbound, aud`incoming, aud`readScript
    modifies aud.q, aud.q.Repr, aud.async`watches, aud.async.nodes, aud`bufptr, aud`sent, aud`writeScript
    ensures aud.InValid() && aud.OutValid() && aud.QueueGrew()
    ensures n == 0 ==> k == 0 && aud.q.contents == old(aud.q.contents)
    ensures Advanced(aud.big, old(aud.Abs()), old(aud.incoming), k, aud.Abs(), aud.incoming)
    ensures old(aud.q.contents) <= aud.q.contents
  {
    hide WatchList.Valid, Run, Concat, Q.EventQueue.Valid;
    k := 0;
    NothingHandled(aud.big, aud.Abs(), aud.incoming);
    if n == 1 {
      var count;
      count, k := EventsQueued(aud, false, pending);
    } else if n == 2 {
      k := aud.Flush();
    }
    QueueOnlyGrows(aud.big, old(aud.Abs()), old(aud.incoming)[..k]);
  }

  /** Refills the queue, which only appends to it, and goes on searching where the last pass stopped. */
  method ScanTurn(aud: AuServer, n: nat, pred: Stamped -> bool, pending: nat, prev: Q.Node?<Stamped>,
                  ghost seen: nat, ghost tested: seq<Stamped>)
    returns (hit: Q.Node?<Stamped>, prev': Q.Node?<Stamped>, ghost seen': nat, ghost tested': seq<Stamped>,
             ghost k: nat)
    requires aud.InValid() && aud.OutValid() && n <= 2
    requires Searched(pred, aud.q.contents, seen, tested) && seen <= |aud.q.live|
    requires prev == if seen == 0 then null else aud.q.live[seen - 1]
    modifies aud`lastRead, aud`reported, aud`inbound, aud`incoming, aud`readScript
    modifies aud.q, aud.q.Repr, aud.async`watches, aud.async.nodes, aud`bufptr, aud`sent, aud`writeScript
    ensures aud.InValid() && aud.OutValid() && aud.QueueGrew() && (n == 0 ==> k == 0)
    ensures Advanced(aud.big, old(aud.Abs()), old(aud.incoming), k, aud.Abs(), aud.incoming)
    ensures seen' <= |aud.q.live| == |aud.q.contents| && prev' == if seen' == 0 then null else aud.q.live[seen' - 1]
    ensures hit == null ==> Searched(pred, aud.q.contents, seen', tested') && Scanned(pred, aud.q.contents, [], tested')
    ensures hit != null ==> seen' < |aud.q.live| && hit == aud.q.live[seen'] && |tested'| == seen' + 1
    ensures hit != null ==> Scanned(pred, aud.q.contents, [hit.event], tested')
    ensures n == 0 ==> aud.q.contents == old(aud.q.contents)
  {
    hide WatchList.Valid, Run, Concat, Q.EventQueue.Valid, Handle, Scanned, Advanced;
    k := Refill(aud, n, pending);
    SearchedStill(pred, old(aud.q.contents), aud.q.contents, seen, tested);
    hit, prev', seen', tested' := ScanPass(aud.q, pred, prev, seen, tested);
  }

  lemma SearchedStill(pred: Stamped -> bool, events: seq<Stamped>, more: seq<Stamped>, seen: nat, tested: seq<Stamped>)
    requires Searched(pred, events, seen, tested) && events <= more
    ensures Searched(pred, more, seen, tested)
  {
    assert events[..seen] == more[..seen];
  }

  /** The queue afterwards: without the event found when it was to be dequeued. */
  ghost function LeftAfterScan(all: seq<Stamped>, event: seq<Stamped>, tested: seq<Stamped>,
                               dequeue: bool): seq<Stamped>
    requires event != [] ==> 0 < |tested| <= |all|
  {
    if event != [] && dequeue then Removed(all, |tested| - 1) else all
  }

  /**
   * `AuScanEvents`: searches the queue, then what can be read, then what arrives while flushing, as
   * far as `mode` (0, 1 or 2) allows. `tested` lists the events the predicate was tried on, in order.
   */
  method ScanEvents(aud: AuServer, mode: int, dequeue: bool, pred: Stamped -> bool, pending: nat)
    returns (event: seq<Stamped>, ghost k: nat, ghost tested: seq<Stamped>)
    requires aud.InValid() && aud.OutValid()
    modifies aud`lastRead, aud`reported, aud`inbound, aud`incoming, aud`readScript
    modifies aud.q, aud.q.Repr, aud.async`watches, aud.async.nodes, aud`bufptr, aud`sent, aud`writeScript
    ensures aud.InValid() && aud.OutValid() && k <= |old(aud.incoming)| && aud.incoming == old(aud.incoming)[k..]
    // reading stops as soon as there is a match
    ensures mode < 1 || mode > 2 || !NoMatch(pred, old(aud.q.contents)) ==> k == 0
    ensures mode < 0 || mode > 2 ==> event == tested == [] && aud.Abs() == old(aud.Abs())
    ensures 0 <= mode <= 2 ==>
              ScanOutcome(aud.big, old(aud.Abs()), old(aud.incoming)[..k], pred, dequeue, event, tested, aud.Abs())
  {
    hide WatchList.Valid, Run, Concat, Q.EventQueue.Valid, Handle, Searched, Scanned, NoMatch, Removed, ScanOutcome;
    hide AuServer.OutValid;
    k := 0;
    NothingHandled(aud.big, aud.Abs(), aud.incoming);
    event, tested := [], [];
    if mode > 2 {
      return;
    }
    ghost var st0, ps0 := aud.Abs(), aud.incoming;
    var prev: Q.Node?<Stamped> := null;
    ghost var seen: nat := 0;
    aud.q.LengthIs();
    NothingSearched(pred, aud.q.contents);
    var n := 0;
    while n <= mode
      invariant 0 <= n && aud.InValid() && aud.OutValid() && aud.QueueGrew()
      invariant Advanced(aud.big, st0, ps0, k, aud.Abs(), aud.incoming)
      invariant seen <= |aud.q.live| && prev == if seen == 0 then null else aud.q.live[seen - 1]
      invariant Searched(pred, aud.q.contents, seen, tested)
      invariant n == 0 ==> k == 0 && aud.Abs() == st0 && tested == []
      invariant n > 0 ==> 0 <= mode <= 2 && n <= mode + 1 && Scanned(pred, aud.q.contents, [], tested)
      invariant n > 0 ==> NoMatch(pred, old(aud.q.contents))
      invariant n == 1 ==> k == 0
      decreases mode - n
    {
      var hit;
      ghost var more;
      ghost var st, ps := aud.Abs(), aud.incoming;
      hit, prev, seen, tested, more := ScanTurn(aud, n, pred, pending, prev, seen, tested);
      AdvanceMore(aud.big, st0, ps0, k, st, ps, more, aud.Abs(), aud.incoming);
      k := k + more;
      if hit != null {
        event := [hit.event];
        ScanFound(aud.big, st0, ps0, k, aud.Abs(), aud.incoming, pred, event, tested);
        if dequeue {
          aud.q.Unlink(prev, hit, seen);
        }
        return;
      }
      ScannedAll(pred, aud.q.contents, tested);
      n := n + 1;
    }
    if mode >= 0 {
      ScanMissed(aud.big, st0, ps0, k, aud.Abs(), aud.incoming, pred, dequeue, tested);
    }
  }

  /** The queue that handling `ps` leads to has been searched, and the event found taken out if asked for. */
  ghost predicate ScanOutcome(big: bool, st0: State, ps: seq<Packet>, pred: Stamped -> bool, dequeue: bool,
                              event: seq<Stamped>, tested: seq<Stamped>, after: State)
    requires WfStream(big, ps)
  {
    var st := Run(big, st0, ps);
    Scanned(pred, st.queue, event, tested) &&
    after == st.(queue := LeftAfterScan(st.queue, event, tested, dequeue))
  }

  lemma ScanFound(big: bool, st0: State, ps0: seq<Packet>, k: nat, st: State, ps: seq<Packet>, pred: Stamped -> bool,
                  event: seq<Stamped>, tested: seq<Stamped>)
    requires WfStream(big, ps0) && Advanced(big, st0, ps0, k, st, ps) && Scanned(pred, st.queue, event, tested)
    requires |event| == 1 && 0 < |tested| <= |st.queue|
    ensures ScanOutcome(big, st0, ps0[..k], pred, false, event, tested, st)
    ensures ScanOutcome(big, st0, ps0[..k], pred, true, event, tested, st.(queue := Removed(st.queue, |tested| - 1)))
  {
  }

  lemma ScanMissed(big: bool, st0: State, ps0: seq<Packet>, k: nat, st: State, ps: seq<Packet>, pred: Stamped -> bool,
                   dequeue: bool, tested: seq<Stamped>)
    requires WfStream(big, ps0) && Advanced(big, st0, ps0, k, st, ps) && Scanned(pred, st.queue, [], tested)
    ensures ScanOutcome(big, st0, ps0[..k], pred, dequeue, [], tested, st)
  {
  }

  lemma NothingSearched(pred: Stamped -> bool, events: seq<Stamped>)
    ensures Searched(pred, events, 0, [])
  {
  }

  lemma ScannedAll(pred: Stamped -> bool, events: seq<Stamped>, tested: seq<Stamped>)
    requires Scanned(pred, events, [], tested)
    ensures NoMatch(pred, events)
  {
  }

  /** Some packet of the stream will end up in the event queue. */
  ghost predicate EventComes(big: bool, ps: seq<Packet>)
    requires WfStream(big, ps)
  {
    exists i :: 0 <= i < |ps| && WfPacket(big, ps[i]) && IsEvent(ps[i]) && Queueable(ps[i])
  }

  lemma {:induction false} QueueableIsQueued(big: bool, st: State, ps: seq<Packet>)
    requires WfStream(big, ps) && EventComes(big, ps)
    ensures Run(big, st, ps).queue != []
    decreases |ps|
  {
    var i :| 0 <= i < |ps| && WfPacket(big, ps[i]) && IsEvent(ps[i]) && Queueable(ps[i]);
    assert WfPacket(big, ps[0]);
    var next := Handle(big, st, ps[0]);
    if i == 0 {
      QueueOnlyGrows(big, next, ps[1..]);
    } else {
      assert ps[1..][i - 1] == ps[i];
      QueueableIsQueued(big, next, ps[1..]);
    }
  }

  /** As long as the queue is empty, the event is still to come. */
  lemma EventStillComes(big: bool, st: State, ps: seq<Packet>, k: nat)
    requires WfStream(big, ps) && EventComes(big, ps) && k <= |ps| && Run(big, st, ps[..k]).queue == []
    ensures EventComes(big, ps[k..])
  {
    var i :| 0 <= i < |ps| && WfPacket(big, ps[i]) && IsEvent(ps[i]) && Queueable(ps[i]);
    if i < k {
      assert ps[..k][i] == ps[i];
      QueueableIsQueued(big, st, ps[..k]);
    } else {
      assert ps[k..][i - k] == ps[i];
    }
  }

  /** Reads one chunk when something is unread. */
  method ReadChunk(aud: AuServer, readable: nat) returns (ghost k: nat)
    requires aud.InValid() && aud.incoming != []
    modifies aud`lastRead, aud`reported, aud`inbound, aud`incoming, aud`readScript
    modifies aud.q, aud.q.Repr, aud.async`watches, aud.async.nodes
    ensures aud.InValid() && aud.QueueGrew() && k > 0
    ensures Advanced(aud.big, old(aud.Abs()), old(aud.incoming), k, aud.Abs(), aud.incoming)
  {
    hide WatchList.Valid, Run, Concat, Q.EventQueue.Valid, Handle;
    NonEmptyStream(aud.big, aud.incoming);
    k := aud.DispatchChunk(aud.ChunkLength(if readable < |aud.inbound| then readable else |aud.inbound|));
  }

  /** The one flush of `_AuReadEvents`; unless it queues an event, `arrivals` are awaited. */
  method FlushOnce(aud: AuServer, arrivals: seq<byte>, ghost late: seq<Packet>) returns (done: bool, ghost k: nat)
    requires aud.InValid() && aud.OutValid() && arrivals == Concat(late) && WfStream(aud.big, late)
    modifies aud`lastRead, aud`reported, aud`inbound, aud`incoming, aud`readScript
    modifies aud.q, aud.q.Repr, aud.async`watches, aud.async.nodes, aud`bufptr, aud`sent, aud`writeScript
    ensures aud.InValid() && aud.OutValid() && aud.QueueGrew() && done == (aud.q.contents != [])
    ensures Advanced(aud.big, old(aud.Abs()), old(aud.incoming) + late, k, aud.Abs(),
                     aud.incoming + if done then late else [])
  {
    hide WatchList.Valid, Run, Concat, Q.EventQueue.Valid, Handle, AuServer.OutValid, Advanced;
    ghost var st, ps := aud.Abs(), aud.incoming;
    k := aud.Flush();
    NothingHandled(aud.big, st, ps + late);
    AdvanceAlong(aud.big, st, ps + late, 0, st, ps, late, k, aud.Abs(), aud.incoming);
    aud.q.LengthIs();
    done := aud.q.length != 0;
    if !done {
      ConcatAppend(aud.incoming, late);
      aud.inbound, aud.incoming := aud.inbound + arrivals, aud.incoming + late;
      assert aud.incoming + [] == aud.incoming;
    }
  }

  /**
   * `_AuReadEvents`: reads until there is an event in the queue. `pending` is what FIONREAD reports
   * each time. When less than a header is readable the call flushes, once, and then waits for
   * `arrivals`; `rest` is the part of them that it did not come to wait for.
   */
  method ReadEvents(aud: AuServer, pending: seq<nat>, arrivals: seq<byte>, ghost late: seq<Packet>)
    returns (ghost k: nat, ghost rest: seq<Packet>)
    requires aud.InValid() && aud.OutValid() && arrivals == Concat(late) && WfStream(aud.big, late)
    requires aud.q.contents == [] && EventComes(aud.big, aud.incoming + late)
    modifies aud`lastRead, aud`reported, aud`inbound, aud`incoming, aud`readScript
    modifies aud.q, aud.q.Repr, aud.async`watches, aud.async.nodes, aud`bufptr, aud`sent, aud`writeScript
    ensures aud.InValid() && aud.OutValid() && aud.QueueGrew() && aud.q.contents != [] && (rest == late || rest == [])
    ensures Advanced(aud.big, old(aud.Abs()), old(aud.incoming) + late, k, aud.Abs(), aud.incoming + rest)
  {
    hide WatchList.Valid, Run, Concat, Q.EventQueue.Valid, Handle, AuServer.OutValid, Advanced, EventComes;
    k, rest := 0, late;
    ghost var all, st0 := aud.incoming + late, aud.Abs();
    NothingHandled(aud.big, aud.Abs(), all);
    var notYetFlushed, round := true, 0;
    while true
      invariant aud.InValid() && aud.OutValid() && aud.QueueGrew() && aud.q.contents == []
      invariant rest == if notYetFlushed then late else []
      invariant k <= |all| && Advanced(aud.big, st0, all, k, aud.Abs(), aud.incoming + rest)
      invariant EventComes(aud.big, aud.incoming + rest)
      decreases |all| - k
    {
      var readable := if round >= |pending| then 0
                      else if pending[round] < |aud.inbound| then pending[round] else |aud.inbound|;
      round := round + 1;
      if readable < HEADER && notYetFlushed {
        ghost var st, ps := aud.Abs(), aud.incoming + rest;
        var done;
        ghost var n;
        done, n := FlushOnce(aud, arrivals, late);
        rest := if done then late else [];
        AdvanceMore(aud.big, st0, all, k, st, ps, n, aud.Abs(), aud.incoming + rest);
        k := k + n;
        if done {
          return;
        }
        notYetFlushed := false;
      }
      StillComing(aud.big, st0, all, k, aud.Abs(), aud.incoming + rest);
      SomethingUnread(aud.big, aud.incoming, aud.inbound, rest, readable);
      ghost var st, ps := aud.Abs(), aud.incoming;
      ghost var n := ReadChunk(aud, readable);
      AdvanceAlong(aud.big, st0, all, k, st, ps, rest, n, aud.Abs(), aud.incoming);
      k := k + n;
      aud.q.LengthIs();
      if aud.q.head != null {
        return;
      }
      StillComing(aud.big, st0, all, k, aud.Abs(), aud.incoming + rest);
    }
  }

  lemma StillComing(big: bool, st0: State, ps0: seq<Packet>, k: nat, st: State, ps: seq<Packet>)
    requires WfStream(big, ps0) && EventComes(big, ps0) && Advanced(big, st0, ps0, k, st, ps) && st.queue == []
    ensures WfStream(big, ps) && EventComes(big, ps) && ps != [] && k <= |ps0|
  {
    hide Run;
    EventStillComes(big, st0, ps0, k);
  }

  lemma SomethingUnread(big: bool, ps: seq<Packet>, inbound: seq<byte>, rest: seq<Packet>, readable: nat)
    requires WfStream(big, ps) && inbound == Concat(ps)
    requires ps + rest != [] && (rest == [] || 0 < readable <= |inbound|)
    ensures ps != []
  {
  }

  /** `AuNextEvent`: the front of the queue, waiting for an event when it is empty. */
  method NextEvent(aud: AuServer, dequeue: bool, pending: seq<nat>, arrivals: seq<byte>, ghost late: seq<Packet>)
    returns (event: Stamped, ghost k: nat, ghost rest: seq<Packet>)
    requires aud.InValid() && aud.OutValid() && arrivals == Concat(late) && WfStream(aud.big, late)
    requires aud.q.contents == [] ==> EventComes(aud.big, aud.incoming + late)
    modifies aud`lastRead, aud`reported, aud`inbound, aud`incoming, aud`readScript
    modifies aud.q, aud.q.Repr, aud.async`watches, aud.async.nodes, aud`bufptr, aud`sent, aud`writeScript
    ensures aud.InValid() && aud.OutValid() && k <= |old(aud.incoming) + late|
    ensures old(aud.q.contents) != [] ==> k == 0 && rest == late
    ensures (rest == late || rest == []) && aud.incoming + rest == (old(aud.incoming) + late)[k..]
    ensures var st := Run(aud.big, old(aud.Abs()), (old(aud.incoming) + late)[..k]);
            st.queue != [] && event == st.queue[0] &&
            aud.Abs() == if dequeue then st.(queue := Removed(st.queue, 0)) else st
  {
    hide WatchList.Valid, Run, Concat, Q.EventQueue.Valid, Handle, AuServer.OutValid, Removed;
    k, rest := 0, late;
    NothingHandled(aud.big, aud.Abs(), aud.incoming + late);
    aud.q.LengthIs();
    if aud.q.head == null {
      k, rest := ReadEvents(aud, pending, arrivals, late);
    }
    aud.q.FrontIs();
    event := aud.q.head.event;
    if dequeue {
      aud.q.Unlink(null, aud.q.head, 0);
    }
  }

  /** `AuSync`: after a round trip, which leads to state `after`, optionally forgets every queued event. */
  method Sync(aud: AuServer, discard: bool, answers: seq<byte>, ghost late: seq<Packet>, ghost serials: seq<u32>,
              ghost a: nat)
    returns (ghost k: nat, ghost e: nat, ghost after: State)
    requires aud.InValid() && aud.OutValid() && aud.open == [] && aud.request + 1 < SERIAL_LIMIT
    requires answers == Concat(late) && WfStream(aud.big, late)
    requires AnswerArrives(aud.big, aud.Abs(), aud.incoming, late, serials, a)
    modifies aud, aud.q, aud.q.Repr, aud.async`watches, aud.async.nodes, aud.buffer
    ensures aud.InValid() && aud.OutValid() && k <= |old(aud.incoming)| && e <= a
    ensures TripEnded(aud.big, old(aud.Abs()), old(aud.incoming) + late, serials, k, e, false, after, aud.incoming)
    ensures aud.Abs() == if discard then after.(queue := []) else after
  {
    hide WatchList.Valid, Run, Concat, Q.EventQueue.Valid, Handle, AuServer.OutValid, TripEnded, AnswerArrives;
    k, e := Synchronize(aud, answers, late, serials, a);
    after := aud.Abs();
    if discard {
      aud.q.DiscardAll();
    }
  }
}
