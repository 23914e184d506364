/** The server's queue of procedures to run before it sleeps, which they may add to while it is scanned. */
module WorkQueue {
  import opened Sequences

  /** A queued procedure with its arguments. */
  datatype Work = Work(procedure: int, client: int, closure: int)

  /** What one call of a procedure does: queue more work, and return whether it is done. */
  datatype Turn = Turn(queued: seq<Work>, done: bool)

  // One scan, as a function on what is queued --------------------------------------------------

  /** Calls from the `n`th on queue nothing. */
  ghost predicate QuietFrom(turns: nat -> Turn, n: nat)
  {
    forall i: nat :: i >= n ==> turns(i).queued == []
  }

  /** The procedures called, in order, and those that stay, when the `i`th call of the scan comes next. */
  ghost function Scan(pending: seq<Work>, turns: nat -> Turn, i: nat, quiet: nat): (r: (seq<Work>, seq<Work>))
    requires QuietFrom(turns, quiet)
    decreases if i < quiet then quiet - i else 0, |pending|
  {
    if pending == [] then ([], [])
    else
      var later := Scan(pending[1..] + turns(i).queued, turns, i + 1, quiet);
      ([pending[0]] + later.0, if turns(i).done then later.1 else [pending[0]] + later.1)
  }

  /** What calls `i` to `i + n` queue, in order. */
  function Queued(turns: nat -> Turn, i: nat, n: nat): (ws: seq<Work>)
    decreases n
  {
    if n == 0 then [] else turns(i).queued + Queued(turns, i + 1, n - 1)
  }

  /** Those of the called procedures that did not say they were done, in order. */
  function Unfinished(called: seq<Work>, turns: nat -> Turn, i: nat): (ws: seq<Work>)
    decreases |called|
  {
    if called == [] then []
    else (if turns(i).done then [] else [called[0]]) + Unfinished(called[1..], turns, i + 1)
  }

  /**
   * One scan calls every procedure that was queued before it or is queued during it exactly once, in
   * queue order; those that return true are gone afterwards and the others keep their order.
   */
  lemma {:induction false} ScanRunsEachOnce(pending: seq<Work>, turns: nat -> Turn, i: nat, quiet: nat)
    requires QuietFrom(turns, quiet)
    ensures var (called, kept) := Scan(pending, turns, i, quiet);
            called == pending + Queued(turns, i, |called|) && kept == Unfinished(called, turns, i)
    decreases if i < quiet then quiet - i else 0, |pending|
  {
    hide QuietFrom;
    if pending != [] {
      ShorterScan(turns, i, quiet);
      var next := pending[1..] + turns(i).queued;
      var (called, kept) := Scan(next, turns, i + 1, quiet);
      ScanRunsEachOnce(next, turns, i + 1, quiet);
      var (all, _) := Scan(pending, turns, i, quiet);
      assert all == [pending[0]] + called && all[1..] == called;
      AppendAssociative(pending[1..], turns(i).queued, Queued(turns, i + 1, |called|));
      AppendAssociative([pending[0]], pending[1..], turns(i).queued + Queued(turns, i + 1, |called|));
      assert [pending[0]] + pending[1..] == pending;
    }
  }

  lemma ShorterScan(turns: nat -> Turn, i: nat, quiet: nat)
    requires QuietFrom(turns, quiet)
    ensures i >= quiet ==> turns(i).queued == []
  {
  }

  // The linked list ----------------------------------------------------------------------------

  class Node {
    const work: Work
    var next: Node?

    constructor (work: Work)
      ensures this.work == work && next == null
    {
      this.work, this.next := work, null;
    }
  }

  function WorkOf(nodes: seq<Node>): (ws: seq<Work>)
    ensures |ws| == |nodes|
  {
    seq(|nodes|, i requires 0 <= i < |nodes| => nodes[i].work)
  }

  function LastOf(nodes: seq<Node>): (p: Node?)
  {
    if nodes == [] then null else nodes[|nodes| - 1]
  }

  lemma SuccessorRemoved(nodes: seq<Node>, k: nat, i: nat)
    requires k < |nodes| && i < |nodes| - 1
    ensures var now, j := nodes[..k] + nodes[k + 1..], if i < k then i else i + 1;
            now[i] == nodes[j] &&
            At<Node?>(now, i + 1, null) == At<Node?>(nodes, if i + 1 == k then k + 1 else j + 1, null)
  {
  }

  ghost predicate Distinct(nodes: seq<Node>)
  {
    forall i, j :: 0 <= i < j < |nodes| ==> nodes[i] != nodes[j]
  }

  lemma DistinctRemoved(nodes: seq<Node>, k: nat)
    requires k < |nodes| && Distinct(nodes)
    ensures var now := nodes[..k] + nodes[k + 1..];
            Distinct(now) && (now == [] <==> |nodes| == 1) && (now != [] ==> now[0] == nodes[if k == 0 then 1 else 0])
  {
  }

  class Queue {
    var workQueue: Node?
    var workQueueLast: Node?              // the node whose `next` is the last link; null for `workQueue` itself
    var ran: seq<Work>                    // every call made so far
    ghost var nodes: seq<Node>
    ghost var Repr: set<Node>             // every node ever linked in

    ghost predicate Linked()
      reads this`workQueue, this`nodes, this`Repr, Repr
    {
      (forall i :: 0 <= i < |nodes| ==> nodes[i] in Repr) &&
      Distinct(nodes) &&
      workQueue == (if nodes == [] then null else nodes[0]) &&
      forall i :: 0 <= i < |nodes| ==> nodes[i].next == At<Node?>(nodes, i + 1, null)
    }

    ghost predicate Valid()
      reads this, Repr
    {
      Linked() && workQueueLast == LastOf(nodes)
    }

    ghost function Contents(): (ws: seq<Work>)
      reads this
    {
      WorkOf(nodes)
    }

    constructor ()
      ensures Valid() && Contents() == [] && ran == []
    {
      workQueue, workQueueLast, ran, nodes, Repr := null, null, [], [], {};
    }

    /** `QueueWorkProc`. */
    method QueueWorkProc(w: Work)
      requires Valid()
      modifies this`workQueue, this`workQueueLast, this`nodes, this`Repr, Repr
      ensures Valid() && |nodes| == |old(nodes)| + 1 && nodes[..|old(nodes)|] == old(nodes)
      ensures nodes[|old(nodes)|].work == w && Contents() == old(Contents()) + [w] && fresh(Repr - old(Repr))
    {
      var q := new Node(w);
      if workQueueLast == null {
        workQueue := q;
      } else {
        workQueueLast.next := q;
      }
      workQueueLast := q;
      nodes := nodes + [q];
      Repr := Repr + {q};
    }

    /** A call of the procedure `w`, which queues some more work. */
    method Call(w: Work, turn: Turn)
      requires Valid()
      modifies this, Repr
      ensures Valid() && ran == old(ran) + [w]
      ensures |nodes| == |old(nodes)| + |turn.queued| && nodes[..|old(nodes)|] == old(nodes)
      ensures fresh(Repr - old(Repr))
      ensures Contents() == old(Contents()) + turn.queued
    {
      hide Linked;
      ran := ran + [w];
      var i := 0;
      while i < |turn.queued|
        invariant 0 <= i <= |turn.queued| && Valid() && ran == old(ran) + [w]
        invariant |nodes| == |old(nodes)| + i && nodes[..|old(nodes)|] == old(nodes)
        invariant fresh(Repr - old(Repr))
        invariant forall k :: 0 <= k < i ==> nodes[|old(nodes)| + k].work == turn.queued[k]
      {
        QueueWorkProc(turn.queued[i]);
        i := i + 1;
      }
      assert forall k :: 0 <= k < |old(nodes)| ==> nodes[k] == old(nodes)[k];
    }

    /** Takes node `k` out of the list: its predecessor, or the head, is given its successor. */
    method Unlink(p: Node?, n: Node?, ghost k: nat)
      requires Linked() && k < |nodes| && p == LastOf(nodes[..k]) && n == nodes[k].next
      modifies this`workQueue, this`nodes, Repr
      ensures Linked() && nodes == old(nodes)[..k] + old(nodes)[k + 1..]
    {
      hide At, Distinct;
      Follows(k);
      assert p == if k > 0 then nodes[k - 1] else null;
      ghost var was := nodes;
      if p != null {
        p.next := n;
      } else {
        workQueue := n;
      }
      nodes := was[..k] + was[k + 1..];
      DistinctRemoved(was, k);
      AfterRemoved(was, k);
      forall i | 0 <= i < |nodes|
        ensures nodes[i] in Repr && nodes[i].next == At<Node?>(nodes, i + 1, null)
      {
        var j := if i < k then i else i + 1;
        SuccessorRemoved(was, k, i);
        assert i + 1 != k ==> was[j] != p && old(was[j].next) == At<Node?>(was, j + 1, null);
      }
    }

    /** Where a scan has got to: `k` nodes have been kept, and `q` is the next one to call. */
    ghost predicate Scanning(k: nat, p: Node?, q: Node?)
      reads this, Repr
    {
      k <= |nodes| && Linked() && p == LastOf(nodes[..k]) &&
      q == (if k < |nodes| then nodes[k] else null) &&
      // only while there is something left to call may work be queued
      (q != null ==> workQueueLast == LastOf(nodes))
    }

    /** One turn of the scan. The successor of `q` is fetched only after its procedure has been called. */
    method ScanTurn(p: Node?, q: Node, turn: Turn, ghost k: nat) returns (p': Node?, q': Node?, ghost k': nat)
      requires Scanning(k, p, q)
      modifies this, Repr
      ensures Scanning(k', p', q') && k <= k' <= k + 1 && fresh(Repr - old(Repr))
      ensures ran == old(ran) + [q.work] && k < |old(nodes)| && q == old(nodes)[k]
      ensures WorkOf(nodes[..k']) == WorkOf(old(nodes)[..k]) + if turn.done then [] else [q.work]
      ensures WorkOf(nodes[k'..]) == WorkOf(old(nodes)[k + 1..]) + turn.queued
    {
      hide Linked, At, WorkOf;
      Call(q.work, turn);
      ghost var called := nodes;
      NodesTurned(old(nodes), called, k, turn);
      q' := q.next;
      assert q' == At<Node?>(nodes, k + 1, null) by { Follows(k); }
      if turn.done {
        Unlink(p, q', k);
        p', k' := p, k;
        AfterRemoved(called, k);
      } else {
        p', k' := q, k + 1;
        AfterKept(called, k);
      }
    }

    /**
     * `ProcessWorkQueue`: `turns` says what each of its calls does, of which those from `quiet` on
     * queue nothing.
     */
    method ProcessWorkQueue(turns: nat -> Turn, ghost quiet: nat)
      requires Valid() && QuietFrom(turns, quiet)
      modifies this, Repr
      ensures Valid() && fresh(Repr - old(Repr))
      ensures var (called, kept) := Scan(old(Contents()), turns, 0, quiet);
              ran == old(ran) + called && Contents() == kept
    {
      hide Linked, QuietFrom, Scan, ScannedTo;
      var p: Node?, q: Node? := null, workQueue;
      var i := 0;
      ghost var k := 0;
      ghost var called: seq<Work> := [];
      assert Scanning(0, p, q) by { ScanBegins(); }
      NothingScanned(Contents(), turns, quiet);
      assert nodes[0..] == nodes;
      while q != null
        invariant Scanning(k, p, q) && fresh(Repr - old(Repr))
        invariant ran == old(ran) + called
        invariant ScannedTo(old(Contents()), turns, quiet, called, WorkOf(nodes[..k]), WorkOf(nodes[k..]), i)
        decreases if i < quiet then quiet - i else 0, |nodes| - k
      {
        ghost var kept, pending := WorkOf(nodes[..k]), WorkOf(nodes[k..]);
        PendingFirst(nodes, k);
        ScanStep(old(Contents()), turns, quiet, called, kept, pending, i);
        ShorterScan(turns, i, quiet);
        called := called + [q.work];
        p, q, k := ScanTurn(p, q, turns(i), k);
        i := i + 1;
      }
      workQueueLast := p;
      assert nodes[..k] == nodes && nodes[k..] == [];
      AllScanned(old(Contents()), turns, quiet, called, WorkOf(nodes), i);
    }

    lemma Follows(k: nat)
      requires Linked() && k < |nodes|
      ensures nodes[k].next == At<Node?>(nodes, k + 1, null)
    {
    }

    lemma ScanBegins()
      requires Valid()
      ensures Scanning(0, null, workQueue)
    {
    }
  }

  lemma PendingFirst(nodes: seq<Node>, k: nat)
    requires k < |nodes|
    ensures var pending := WorkOf(nodes[k..]);
            |pending| == |nodes| - k && pending[0] == nodes[k].work && pending[1..] == WorkOf(nodes[k + 1..])
  {
  }

  lemma NodesTurned(before: seq<Node>, called: seq<Node>, k: nat, turn: Turn)
    requires k < |before| <= |called| && called[..|before|] == before && WorkOf(called) == WorkOf(before) + turn.queued
    ensures called[..k] == before[..k] && called[k] == before[k]
    ensures WorkOf(called[k + 1..]) == WorkOf(before[k + 1..]) + turn.queued
    ensures WorkOf(called[..k + 1]) == WorkOf(called[..k]) + [called[k].work]
  {
    assert called[..k] == called[..|before|][..k];
    assert WorkOf(called[k + 1..]) == WorkOf(called)[k + 1..];
    assert WorkOf(before[k + 1..]) == WorkOf(before)[k + 1..];
    assert (WorkOf(before) + turn.queued)[k + 1..] == WorkOf(before)[k + 1..] + turn.queued;
  }

  lemma AfterRemoved(called: seq<Node>, k: nat)
    requires k < |called|
    ensures var now := called[..k] + called[k + 1..];
            now[..k] == called[..k] && now[k..] == called[k + 1..] &&
            At<Node?>(called, k + 1, null) == (if k < |now| then now[k] else null) &&
            (k < |now| ==> LastOf(now) == LastOf(called))
  {
  }

  lemma AfterKept(called: seq<Node>, k: nat)
    requires k < |called|
    ensures LastOf(called[..k + 1]) == called[k]
    ensures At<Node?>(called, k + 1, null) == if k + 1 < |called| then called[k + 1] else null
  {
  }

  /** After `i` calls, `called`, the procedures `kept` stay and `pending` are still to be called. */
  ghost predicate ScannedTo(before: seq<Work>, turns: nat -> Turn, quiet: nat, called: seq<Work>, kept: seq<Work>,
                            pending: seq<Work>, i: nat)
    requires QuietFrom(turns, quiet)
  {
    var all, rest := Scan(before, turns, 0, quiet), Scan(pending, turns, i, quiet);
    all.0 == called + rest.0 && all.1 == kept + rest.1
  }

  lemma NothingScanned(before: seq<Work>, turns: nat -> Turn, quiet: nat)
    requires QuietFrom(turns, quiet)
    ensures ScannedTo(before, turns, quiet, [], [], before, 0)
  {
    hide Scan;
    var all := Scan(before, turns, 0, quiet);
    assert [] + all.0 == all.0 && [] + all.1 == all.1;
  }

  lemma ScanStep(before: seq<Work>, turns: nat -> Turn, quiet: nat, called: seq<Work>, kept: seq<Work>,
                 pending: seq<Work>, i: nat)
    requires QuietFrom(turns, quiet) && ScannedTo(before, turns, quiet, called, kept, pending, i) && pending != []
    ensures ScannedTo(before, turns, quiet, called + [pending[0]], kept + (if turns(i).done then [] else [pending[0]]),
                      pending[1..] + turns(i).queued, i + 1)
  {
    var rest := Scan(pending[1..] + turns(i).queued, turns, i + 1, quiet);
    AppendAssociative(called, [pending[0]], rest.0);
    AppendAssociative(kept, if turns(i).done then [] else [pending[0]], rest.1);
    assert [] + rest.1 == rest.1;
  }

  lemma AllScanned(before: seq<Work>, turns: nat -> Turn, quiet: nat, called: seq<Work>, kept: seq<Work>, i: nat)
    requires QuietFrom(turns, quiet) && ScannedTo(before, turns, quiet, called, kept, [], i)
    ensures Scan(before, turns, 0, quiet) == (called, kept)
  {
    var all := Scan(before, turns, 0, quiet);
    assert called + [] == called && kept + [] == kept;
  }
}
