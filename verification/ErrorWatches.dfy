/** The list of asynchronous error handlers: nodes owned by their callers, linked newest first. */
module ErrorWatches {
  import opened Bytes
  import opened Packets
  import opened Engine
  import opened Sequences

  class Watcher {
    var next: Watcher?
    var filter: Filter
    var lastError: byte
    var count: nat

    constructor (filter: Filter)
      ensures this.filter == filter && lastError == 0 && count == 0
    {
      this.filter := filter;
      next, lastError, count := null, 0, 0;
    }

    function View(): Watch
      reads this
    {
      Watch(filter, lastError, count)
    }
  }

  class WatchList {
    var first: Watcher?
    ghost var nodes: seq<Watcher>
    ghost var watches: seq<Watch>    // what the nodes hold, newest first

    ghost predicate Valid()
      reads this, nodes
    {
      first == (if nodes == [] then null else nodes[0]) && |watches| == |nodes| &&
      (forall i, j :: 0 <= i < j < |nodes| ==> nodes[i] != nodes[j]) &&
      (forall i {:trigger nodes[i].next} :: 0 <= i < |nodes| ==>
        nodes[i].next == if i + 1 < |nodes| then nodes[i + 1] else null) &&
      forall i {:trigger watches[i]} :: 0 <= i < |nodes| ==> watches[i] == nodes[i].View()
    }

    constructor ()
      ensures Valid() && nodes == [] && watches == []
    {
      first, nodes, watches := null, [], [];
    }

    lemma NewestView()
      requires Valid() && nodes != []
      ensures |watches| == |nodes| && watches[0] == nodes[0].View()
    {
    }

    /** `_AuEnqAsyncHandler`. */
    method Push(w: Watcher)
      requires Valid() && w !in nodes
      modifies this, w
      ensures Valid() && nodes == [w] + old(nodes)
      ensures watches == [old(w.View())] + old(watches)
      ensures w.View() == old(w.View())
    {
      w.next := first;
      first := w;
      nodes, watches := [w] + nodes, [w.View()] + watches;
    }

    /** `_AuDeqAsyncHandler`: unlinks `w` wherever it is; a handler that is not listed changes nothing. */
    method Remove(w: Watcher)
      requires Valid()
      modifies this, nodes
      ensures Valid()
      ensures w !in old(nodes) ==> nodes == old(nodes) && watches == old(watches)
      ensures forall k :: 0 <= k < |old(nodes)| && old(nodes)[k] == w ==>
                nodes == Removed(old(nodes), k) && watches == Removed(old(watches), k)
      ensures forall n <- old(nodes) :: n.View() == old(n.View())
    {
      if first == w {
        first := w.next;
        nodes, watches := Removed(nodes, 0), Removed(watches, 0);
        return;
      }
      var prev: Watcher?, cur := null, first;
      ghost var k := 0;
      while cur != null && cur != w
        invariant k <= |nodes|
        invariant cur == if k < |nodes| then nodes[k] else null
        invariant if k == 0 then prev == null && cur == first else prev == nodes[k - 1]
        invariant w !in nodes[..k]
        decreases |nodes| - k
      {
        prev, cur := cur, cur.next;
        k := k + 1;
      }
      if cur != null {
        prev.next := cur.next;
        nodes, watches := Removed(nodes, k), Removed(watches, k);
      }
    }

    /** Offers an error to each handler in turn until one takes it. */
    method Offer(big: bool, p: Packet, serial: u32) returns (taken: bool)
      requires Valid() && |p| >= HEADER
      modifies this`watches, nodes
      ensures Valid()
      ensures var k := FirstWanting(big, old(watches), p, serial);
              taken == (k < |old(watches)|) &&
              watches == if taken then old(watches)[k := Take(old(watches)[k], p)] else old(watches)
    {
      var cur := first;
      ghost var k := 0;
      while cur != null
        invariant k <= |nodes|
        invariant cur == if k < |nodes| then nodes[k] else null
        invariant FirstWanting(big, watches, p, serial) == k + FirstWanting(big, watches[k..], p, serial)
        decreases |nodes| - k
      {
        assert watches[k] == cur.View();
        if Wants(big, cur.filter, p, serial) {
          cur.lastError := ErrorCode(p);
          cur.count := cur.count + 1;
          watches := watches[k := cur.View()];
          return true;
        }
        assert watches[k..][1..] == watches[k + 1..];
        cur := cur.next;
        k := k + 1;
      }
      return false;
    }
  }
}
