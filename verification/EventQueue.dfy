/** The client's event queue: a linked list with a tail pointer, a length and a list of spare nodes. */
module EventQueue {
  import opened Sequences

  class Node<T> {
    var next: Node?<T>
    var event: T
    ghost var slot: int    // its number on the list it is on

    constructor (event: T)
      ensures this.event == event && next == null
    {
      this.event := event;
      next := null;
    }
  }

  /** Nodes of `all` that are numbered from `base` on and linked to one another, the last one to `after`. */
  ghost predicate Chained<T>(nodes: seq<Node<T>>, after: Node?<T>, base: int, all: set<Node<T>>)
    reads all
  {
    (forall i {:trigger nodes[i]} :: 0 <= i < |nodes| ==> nodes[i] in all && nodes[i].slot == base + i) &&
    forall i {:trigger nodes[i].next} :: 0 <= i < |nodes| ==>
      nodes[i].next == if i + 1 < |nodes| then nodes[i + 1] else after
  }

  lemma Joined<T>(a: seq<Node<T>>, b: seq<Node<T>>, base: int, these: set<Node<T>>, those: set<Node<T>>)
    requires Chained(a, At<Node?<T>>(b, 0, null), base, these) && Chained(b, null, base + |a|, those)
    ensures Chained(a + b, null, base, these + those)
  {
    forall i | 0 <= i < |a + b|
      ensures (a + b)[i] in these + those && (a + b)[i].slot == base + i
      ensures (a + b)[i].next == if i + 1 < |a + b| then (a + b)[i + 1] else null
    {
      assert (a + b)[i] == if i < |a| then a[i] else b[i - |a|];
    }
  }

  lemma InsertedAt<T>(nodes: seq<Node<T>>, k: nat, n: Node<T>, i: nat)
    requires k <= |nodes| && i <= |nodes|
    ensures var r := Inserted(nodes, k, n);
            r[i] == (if i < k then nodes[i] else if i == k then n else nodes[i - 1]) &&
            At<Node?<T>>(r, i + 1, null) ==
              if i + 1 < k then At<Node?<T>>(nodes, i + 1, null)
              else if i + 1 == k then n
              else At<Node?<T>>(nodes, i, null)
  {
  }

  lemma FirstAndLast<T>(nodes: seq<Node<T>>, k: nat, n: Node<T>)
    requires k <= |nodes|
    ensures var r := Inserted(nodes, k, n);
            At<Node?<T>>(r, 0, null) == (if k == 0 then n else nodes[0]) &&
            r[|r| - 1] == if k == |nodes| then n else nodes[|nodes| - 1]
  {
  }

  /** Where `AuRequeueEvent` puts an event: `skip` clamped to the queue. */
  function Clamp(skip: int, n: nat): (k: nat)
    ensures k <= n
  {
    if skip <= 0 then 0 else if skip >= n then n else skip
  }

  class EventQueue<T> {
    var head: Node?<T>
    var tail: Node?<T>
    var length: int
    var spare: Node?<T>

    ghost var live: seq<Node<T>>       // the queued nodes, front first
    ghost var liveSet: set<Node<T>>
    ghost var contents: seq<T>         // the queued events, front first
    ghost var free: seq<Node<T>>       // the spare nodes, next to be used first
    ghost var freeSet: set<Node<T>>
    ghost var Repr: set<Node<T>>       // every node ever made

    /** Both lists are well linked, and no node is on them twice. */
    ghost predicate Valid()
      reads this, Repr
    {
      Repr == liveSet + freeSet && LiveValid(|live|) && FreeValid() && liveSet !! freeSet
    }

    /** What does not touch the queue or its nodes keeps it valid. */
    twostate lemma StillValid()
      requires old(Valid()) && unchanged(this) && forall n <- old(Repr) :: unchanged(n)
      ensures Valid()
    {
    }

    lemma LengthIs()
      requires Valid()
      ensures length == |contents| == |live| && (head == null <==> contents == [])
    {
    }

    lemma FrontIs()
      requires Valid() && contents != []
      ensures head != null && live != [] && head == live[0] && head.event == contents[0]
    {
    }

    lemma NodesListed()
      requires LiveValid(|live|)
      ensures |contents| == |live| && forall n <- live :: n in liveSet
    {
    }

    /** The queued nodes are linked in order and numbered from `base`, skipping the number at `gap`. */
    ghost predicate LiveValid(gap: nat, base: int := 0)
      reads this`head, this`tail, this`length, this`live, this`liveSet, this`contents, liveSet
    {
      head == At<Node?<T>>(live, 0, null) && tail == (if live == [] then null else live[|live| - 1]) &&
      length == |live| == |contents| &&
      (forall i {:trigger live[i]} :: 0 <= i < |live| ==>
        live[i] in liveSet && live[i].slot == base + (if i < gap then i else i + 1) && live[i].event == contents[i]) &&
      forall i {:trigger live[i].next} :: 0 <= i < |live| ==> live[i].next == At<Node?<T>>(live, i + 1, null)
    }

    ghost predicate FreeValid()
      reads this`spare, this`free, this`freeSet, freeSet
    {
      spare == At<Node?<T>>(free, 0, null) && Chained(free, null, -|free|, freeSet)
    }

    constructor ()
      ensures Valid() && contents == [] && live == [] && free == [] && Repr == {}
    {
      head, tail, spare, length := null, null, null, 0;
      live, free, contents, liveSet, freeSet, Repr := [], [], [], {}, {}, {};
    }

    /** A node to fill in: the first spare one, or a new one. It is on neither list afterwards. */
    method TakeNode(event: T) returns (n: Node<T>)
      requires FreeValid()
      modifies this`spare, this`free, this`freeSet, freeSet
      ensures FreeValid()
      ensures n.event == event && freeSet == old(freeSet) - {n}
      ensures free == if old(free) == [] then [] else old(free)[1..]
      ensures if old(free) == [] then fresh(n) else n == old(free)[0] && n in old(freeSet)
    {
      if spare == null {
        n := new Node(event);
      } else {
        n := spare;
        assert n == free[0];
        spare := n.next;
        n.event := event;
        free, freeSet := free[1..], freeSet - {n};
      }
    }

    method PushSpare(n: Node<T>)
      requires FreeValid() && n !in freeSet
      modifies this`spare, this`free, this`freeSet, n
      ensures FreeValid() && freeSet == old(freeSet) + {n}
      ensures free == [n] + old(free)
    {
      n.next := spare;
      spare := n;
      n.slot := -1 - |free|;
      free, freeSet := [n] + free, freeSet + {n};
    }

    method Append(n: Node<T>)
      requires LiveValid(|live|) && n !in liveSet
      modifies this`head, this`tail, this`length, this`live, this`liveSet, this`contents, liveSet, n
      ensures LiveValid(|live|) && liveSet == old(liveSet) + {n}
      ensures contents == old(contents) + [old(n.event)] && live == old(live) + [n]
    {
      n.next := null;
      if tail != null {
        tail.next := n;
      } else {
        head := n;
      }
      tail := n;
      length := length + 1;
      n.slot := |live|;
      live, contents, liveSet := live + [n], contents + [n.event], liveSet + {n};
    }

    /** `_AuEnq`: append an event that its converter accepted; a refused one leaves a spare node behind. */
    method Enqueue(event: T, accepted: bool)
      requires Valid()
      modifies this, Repr
      ensures Valid() && old(Repr) <= Repr && fresh(Repr - old(Repr))
      ensures contents == if accepted then old(contents) + [event] else old(contents)
      ensures old(live) <= live
      ensures |live| + |free| == |old(live)| + |old(free)| + if old(free) == [] then 1 else 0
    {
      hide LiveValid, FreeValid;
      var n := TakeNode(event);
      if accepted {
        Append(n);
      } else {
        PushSpare(n);
      }
      Repr := liveSet + freeSet;
    }

    /** Renumbers the nodes from place `k` on. */
    ghost method OpenGap(k: nat)
      requires LiveValid(|live|) && k <= |live|
      modifies liveSet`slot
      ensures LiveValid(k)
    {
      forall i | k <= i < |live| {
        live[i].slot := i + 1;
      }
    }

    ghost method CloseGap(k: nat)
      requires LiveValid(k) && k <= |live|
      modifies liveSet`slot
      ensures LiveValid(|live|)
    {
      forall i | k <= i < |live| {
        live[i].slot := i;
      }
    }

    ghost method Rebase(base: int)
      requires LiveValid(|live|)
      modifies liveSet`slot
      ensures LiveValid(|live|, base)
    {
      forall i | 0 <= i < |live| {
        live[i].slot := base + i;
      }
    }

    /** The node after which `AuRequeueEvent` inserts, null for the front. */
    method FindPlace(skip: int) returns (prev: Node?<T>)
      requires LiveValid(|live|)
      ensures var k := Clamp(skip, |live|); prev == if k == 0 then null else live[k - 1]
    {
      if skip <= 0 {
        prev := null;
      } else if skip >= length {
        prev := tail;
      } else {
        prev := head;
        var left := skip - 1;
        while left > 0
          invariant 0 <= left < skip && prev == live[skip - 1 - left]
        {
          prev := prev.next;
          left := left - 1;
        }
      }
    }

    /** Counts `n`, which has just been linked in at place `k`, among the queued nodes. */
    ghost method Include(n: Node<T>, k: nat)
      requires n !in liveSet && k <= |live| == |contents| && length == |live| + 1 && n.slot == k &&
               n.next == At<Node?<T>>(live, k, null)
      requires head == (if k == 0 then n else live[0]) && tail == if k == |live| then n else live[|live| - 1]
      requires forall i {:trigger live[i]} :: 0 <= i < |live| ==>
                 live[i] in liveSet && live[i].slot == (if i < k then i else i + 1) && live[i].event == contents[i]
      requires forall i {:trigger live[i].next} :: 0 <= i < |live| ==>
                 live[i].next == if i + 1 == k then n else At<Node?<T>>(live, i + 1, null)
      modifies this`live, this`liveSet, this`contents
      ensures LiveValid(|live|) && liveSet == old(liveSet) + {n}
      ensures contents == Inserted(old(contents), k, n.event) && |live| == |old(live)| + 1
    {
      hide Inserted, At;
      var was := live;
      live, contents, liveSet := Inserted(live, k, n), Inserted(contents, k, n.event), liveSet + {n};
      forall i {:trigger live[i]} | 0 <= i < |live|
        ensures live[i] in liveSet && live[i].slot == i && live[i].event == contents[i]
        ensures live[i].next == At<Node?<T>>(live, i + 1, null)
      {
        InsertedAt(was, k, n, i);
      }
      FirstAndLast(was, k, n);
    }

    /** Links `n` in after `prev`, at place `k` of the queue. */
    method LinkAfter(n: Node<T>, prev: Node<T>, ghost k: nat)
      requires LiveValid(k) && n !in liveSet && 0 < k <= |live| && prev == live[k - 1]
      modifies this`tail, this`length, this`live, this`liveSet, this`contents, liveSet, n
      ensures LiveValid(|live|) && liveSet == old(liveSet) + {n}
      ensures contents == Inserted(old(contents), k, old(n.event)) && |live| == |old(live)| + 1
    {
      hide Inserted;
      assert prev.next == At<Node?<T>>(live, k, null);
      assert prev == tail <==> k == |live|;
      n.next := prev.next;
      prev.next := n;
      if prev == tail {
        tail := n;
      }
      length := length + 1;
      n.slot := k;
      Include(n, k);
    }

    /** Links `n` in at the front. */
    method LinkFirst(n: Node<T>)
      requires LiveValid(0) && n !in liveSet
      modifies this`head, this`tail, this`length, this`live, this`liveSet, this`contents, liveSet, n
      ensures LiveValid(|live|) && liveSet == old(liveSet) + {n}
      ensures contents == Inserted(old(contents), 0, old(n.event)) && |live| == |old(live)| + 1
    {
      hide Inserted;
      n.next := head;
      head := n;
      if tail == null {
        tail := n;
      }
      length := length + 1;
      n.slot := 0;
      Include(n, 0);
    }

    method InsertAt(n: Node<T>, skip: int)
      requires LiveValid(|live|) && n !in liveSet
      modifies this`head, this`tail, this`length, this`live, this`liveSet, this`contents, liveSet, n
      ensures LiveValid(|live|) && liveSet == old(liveSet) + {n} && |live| == |old(live)| + 1
      ensures contents == Inserted(old(contents), Clamp(skip, |old(contents)|), old(n.event))
    {
      var prev := FindPlace(skip);
      OpenGap(Clamp(skip, |live|));
      if prev != null {
        LinkAfter(n, prev, Clamp(skip, |live|));
      } else {
        LinkFirst(n);
      }
    }

    /** `AuRequeueEvent`: insert an event after the first `skip`, at either end when `skip` is out of range. */
    method Requeue(event: T, skip: int)
      requires Valid()
      modifies this, Repr
      ensures Valid() && old(Repr) <= Repr && fresh(Repr - old(Repr))
      ensures contents == Inserted(old(contents), Clamp(skip, |old(contents)|), event)
      ensures |live| + |free| == |old(live)| + |old(free)| + if old(free) == [] then 1 else 0
    {
      hide LiveValid, FreeValid;
      var n := TakeNode(event);
      InsertAt(n, skip);
      Repr := liveSet + freeSet;
    }

    method DetachAfter(prev: Node<T>, n: Node<T>, ghost k: nat)
      requires LiveValid(|live|) && 0 < k < |live| && n == live[k] && prev == live[k - 1]
      modifies this`tail, this`length, this`live, this`liveSet, this`contents, liveSet
      ensures LiveValid(k) && liveSet == old(liveSet) - {n}
      ensures contents == Removed(old(contents), k) && live == Removed(old(live), k)
    {
      hide Removed;
      prev.next := n.next;
      if prev.next == null {
        tail := prev;
      }
      length := length - 1;
      ghost var was := live;
      live, contents, liveSet := Removed(live, k), Removed(contents, k), liveSet - {n};
      forall i {:trigger live[i]} | 0 <= i < |live|
        ensures live[i] in liveSet && live[i].slot == (if i < k then i else i + 1) && live[i].event == contents[i]
        ensures live[i].next == At<Node?<T>>(live, i + 1, null)
      {
        assert live[i] == was[if i < k then i else i + 1];
      }
    }

    method DetachFirst(n: Node<T>)
      requires LiveValid(|live|) && live != [] && n == live[0]
      modifies this`head, this`tail, this`length, this`live, this`liveSet, this`contents, liveSet
      ensures LiveValid(0) && liveSet == old(liveSet) - {n}
      ensures contents == Removed(old(contents), 0) && live == Removed(old(live), 0)
    {
      hide Removed;
      head := n.next;
      if head == null {
        tail := null;
      }
      length := length - 1;
      ghost var was := live;
      live, contents, liveSet := Removed(live, 0), Removed(contents, 0), liveSet - {n};
      forall i {:trigger live[i]} | 0 <= i < |live|
        ensures live[i] in liveSet && live[i].slot == i + 1 && live[i].event == contents[i]
        ensures live[i].next == At<Node?<T>>(live, i + 1, null)
      {
        assert live[i] == was[i + 1];
      }
    }

    method Detach(prev: Node?<T>, n: Node<T>, ghost k: nat)
      requires LiveValid(|live|) && k < |live| && n == live[k]
      requires prev == if k == 0 then null else live[k - 1]
      modifies this`head, this`tail, this`length, this`live, this`liveSet, this`contents, liveSet
      ensures LiveValid(|live|) && liveSet == old(liveSet) - {n} && n in old(liveSet)
      ensures contents == Removed(old(contents), k) && live == Removed(old(live), k)
    {
      if prev != null {
        DetachAfter(prev, n, k);
      } else {
        DetachFirst(n);
      }
      CloseGap(k);
    }

    /** Unlinks the node after `prev` (the front when `prev` is null) and makes it the first spare one. */
    method Unlink(prev: Node?<T>, n: Node<T>, ghost k: nat)
      requires Valid() && k < |live| && n == live[k]
      requires prev == if k == 0 then null else live[k - 1]
      modifies this, Repr
      ensures Valid() && Repr == old(Repr)
      ensures contents == Removed(old(contents), k)
      ensures live == Removed(old(live), k) && free == [n] + old(free)
    {
      hide LiveValid, FreeValid;
      assert n in liveSet && |live| == |contents| by { NodesListed(); }
      Detach(prev, n, k);
      PushSpare(n);
      Repr := liveSet + freeSet;
    }

    /** Makes the spare ones follow the queued nodes, already numbered to precede them. */
    method LinkTail()
      requires live != [] && LiveValid(|live|, -|live| - |free|) && FreeValid() && liveSet !! freeSet
      modifies liveSet
      ensures live != [] && head == live[0]
      ensures Chained(live, At<Node?<T>>(free, 0, null), -|live| - |free|, liveSet) &&
              Chained(free, null, -|free|, freeSet)
    {
      assert live[|live| - 1] in liveSet;
      tail.next := spare;
    }

    /** Puts the queued nodes in front of the spare ones. */
    method SpliceLive()
      requires live != [] && LiveValid(|live|, -|live| - |free|) && FreeValid() && liveSet !! freeSet
      modifies this`head, this`tail, this`length, this`live, this`liveSet, this`contents, liveSet
      modifies this`spare, this`free, this`freeSet
      ensures LiveValid(|live|) && FreeValid() && contents == []
      ensures free == old(live) + old(free) && freeSet == old(liveSet) + old(freeSet) && liveSet == {}
    {
      hide Chained, LiveValid;
      ghost var queued, were := live, free;
      LinkTail();
      Joined(queued, were, -|queued| - |were|, liveSet, freeSet);
      spare := head;
      head, tail := null, null;
      length := 0;
      free, freeSet := queued + were, liveSet + freeSet;
      live, contents, liveSet := [], [], {};
      NothingQueued();
    }

    lemma NothingQueued()
      requires head == null && tail == null && length == 0 && live == [] && contents == []
      ensures LiveValid(0)
    {
    }

    /** The splice of `AuSync` with `discard`: every queued node goes to the front of the spare list. */
    method DiscardAll()
      requires Valid()
      modifies this, Repr
      ensures Valid() && Repr == old(Repr)
      ensures contents == [] && free == old(live) + old(free)
    {
      if head != null {
        Rebase(-|live| - |free|);
        SpliceLive();
      }
    }
  }
}
