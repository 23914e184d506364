/** The cache of bucket attributes: a list of servers, each with a list of copies. */
module BucketCache {
  import opened Bytes
  import opened Options
  import opened Sequences

  /** Attributes as values; a description has its terminator behind it. */
  datatype Attributes = Attributes(id: u32, fields: seq<byte>, length: nat, text: Option<seq<byte>>)

  // What a list of copies holds -----------------------------------------------------------------

  function Search(vs: seq<Attributes>, id: u32): (r: Option<Attributes>)
  {
    if vs == [] then None else if vs[0].id == id then Some(vs[0]) else Search(vs[1..], id)
  }

  /** A search finds the entry with that number, and fails if there is none. */
  lemma {:induction false} SearchFinds(vs: seq<Attributes>, id: u32, k: nat)
    requires k <= |vs| && (forall i :: 0 <= i < k ==> vs[i].id != id) && (k < |vs| ==> vs[k].id == id)
    ensures Search(vs, id) == if k < |vs| then Some(vs[k]) else None
  {
    if k > 0 {
      SearchFinds(vs[1..], id, k - 1);
    }
  }

  ghost predicate UniqueIds(vs: seq<Attributes>)
  {
    forall i, j :: 0 <= i < j < |vs| ==> vs[i].id != vs[j].id
  }

  /** Taking one entry out takes out its number and no other. */
  lemma {:induction false} SearchRemoved(vs: seq<Attributes>, k: nat, id: u32)
    requires k < |vs| && UniqueIds(vs)
    ensures Search(Removed(vs, k), id) == if id == vs[k].id then None else Search(vs, id)
  {
    if k == 0 {
      RemovedFirst(vs);
      if id == vs[0].id {
        SearchFinds(vs[1..], id, |vs| - 1);
      }
    } else {
      SearchRemoved(vs[1..], k - 1, id);
      assert Removed(vs, k)[1..] == Removed(vs[1..], k - 1);
      assert vs[0].id != vs[k].id;
    }
  }

  // Copies --------------------------------------------------------------------------------------

  class BucketAttributes {
    var id: u32
    var fields: seq<byte>                 // everything else in the structure
    var length: nat                       // of the description
    var text: array?<byte>

    constructor (id: u32, fields: seq<byte>, length: nat, text: array?<byte>)
      ensures this.id == id && this.fields == fields && this.length == length && this.text == text
    {
      this.id, this.fields, this.length, this.text := id, fields, length, text;
    }

    ghost predicate Valid()
      reads this
    {
      text != null ==> length < text.Length
    }

    ghost function View(): (v: Attributes)
      requires Valid()
      reads this, text
    {
      Attributes(id, fields, length, if text == null then None else Some(text[..length + 1]))
    }
  }

  /** `copyBucketAttributes`: the structure and the description, neither shared with the original. */
  method CopyBucketAttributes(attr: BucketAttributes) returns (a: BucketAttributes)
    requires attr.Valid()
    ensures a.Valid() && fresh(a) && (a.text != null ==> fresh(a.text)) && a.View() == attr.View()
    ensures a.View().id == attr.id
  {
    a := new BucketAttributes(attr.id, attr.fields, attr.length, attr.text);
    if attr.text != null {
      var old' := attr.text;
      var n := attr.length + 1;
      var text := new byte[n](i requires 0 <= i < n <= old'.Length reads old' => old'[i]);
      a.text := text;
      assert text[..n] == old'[..n];
    }
  }

  // One server's list -----------------------------------------------------------------------------

  class Entry {
    const attr: BucketAttributes
    var next: Entry?

    constructor (attr: BucketAttributes)
      ensures this.attr == attr && next == null
    {
      this.attr, this.next := attr, null;
    }
  }

  class Server {
    const aud: int
    var cache: Entry?
    var next: Server?
    ghost var entries: seq<Entry>
    ghost var stored: seq<Attributes>     // what the entries hold
    ghost var Repr: set<object>

    ghost predicate Valid()
      reads this`cache, this`entries, this`stored, this`Repr, Repr
    {
      this !in Repr && |stored| == |entries| && UniqueIds(stored) &&
      cache == (if entries == [] then null else entries[0]) &&
      (forall i, j :: 0 <= i < j < |entries| ==> entries[i] != entries[j]) &&
      forall i :: 0 <= i < |entries| ==> Linked(i)
    }

    /** Entry `i` is linked to the next and holds a copy that the list has for itself. */
    ghost predicate Linked(i: nat)
      requires i < |entries| && |stored| == |entries|
      reads this`entries, this`stored, this`Repr, Repr
    {
      var e := entries[i];
      e in Repr && e.next == (if i + 1 < |entries| then entries[i + 1] else null) && Kept(i)
    }

    ghost predicate Kept(i: nat)
      requires i < |entries| && |stored| == |entries|
      reads this`entries, this`stored, this`Repr, Repr
    {
      var e := entries[i];
      e in Repr && e.attr in Repr && e.attr.Valid() &&
      (e.attr.text != null ==> e.attr.text in Repr) && e.attr.View() == stored[i]
    }

    constructor (aud: int)
      ensures Valid() && stored == [] && Repr == {} && this.aud == aud && next == null
    {
      this.aud := aud;
      cache, next, entries, stored, Repr := null, null, [], [], {};
    }

    /** The walk over the list: the entry with the number and the one before it. */
    method Find(bucket: u32) returns (e: Entry?, p: Entry?, ghost k: nat)
      requires Valid()
      ensures k <= |entries| && e == (if k < |entries| then entries[k] else null)
      ensures p == if k > 0 then entries[k - 1] else null
      ensures k < |entries| ==> stored[k].id == bucket && e.attr.Valid() && e.attr.View() == stored[k]
      ensures Search(stored, bucket) == if k < |entries| then Some(stored[k]) else None
    {
      hide UniqueIds, Search;
      e, p, k := cache, null, 0;
      while e != null
        invariant k <= |entries| && e == (if k < |entries| then entries[k] else null)
        invariant p == if k > 0 then entries[k - 1] else null
        invariant forall i :: 0 <= i < k ==> stored[i].id != bucket
        decreases |entries| - k
      {
        assert Linked(k);
        if e.attr.id == bucket {
          break;
        }
        p := e;
        e := e.next;
        k := k + 1;
      }
      SearchFinds(stored, bucket, k);
    }

    /** Puts a copy at the front. */
    method Push(attr: BucketAttributes)
      requires Valid() && attr.Valid() && Search(stored, attr.id) == None
      modifies this`cache, this`entries, this`stored, this`Repr
      ensures Valid() && fresh(Repr - old(Repr)) && stored == [old(attr.View())] + old(stored)
    {
      hide Search, UniqueIds, BucketAttributes.Valid, BucketAttributes.View;
      var a := CopyBucketAttributes(attr);
      NewIsUnique(stored, a.View());
      var e := new Entry(a);
      e.next := cache;
      cache := e;
      entries, stored := [e] + entries, [a.View()] + stored;
      Repr := Repr + {e, a} + if a.text != null then {a.text} else {};
      forall i | 0 <= i < |entries|
        ensures Linked(i)
      {
        if i > 0 {
          assert old(Linked(i - 1));
        }
      }
    }

    /** Takes entry `k` out. */
    method Unlink(e: Entry, p: Entry?, ghost k: nat)
      requires Valid() && k < |entries| && e == entries[k] && p == if k > 0 then entries[k - 1] else null
      modifies this`cache, this`entries, this`stored, Repr
      ensures Valid() && stored == Removed(old(stored), k)
    {
      hide UniqueIds;
      assert Linked(k) && (k > 0 ==> Linked(k - 1));
      if p != null {
        p.next := e.next;
      } else {
        cache := e.next;
      }
      entries, stored := Removed(entries, k), Removed(stored, k);
      forall i | 0 <= i < |entries|
        ensures Linked(i)
      {
        assert old(Linked(if i < k then i else i + 1));
      }
      assert UniqueIds(stored) by { RemovedUnique(old(stored), k); }
    }
  }

  lemma {:induction false} NewIsUnique(vs: seq<Attributes>, v: Attributes)
    requires UniqueIds(vs) && Search(vs, v.id) == None
    ensures UniqueIds([v] + vs)
  {
    NotFound(vs, v.id);
  }

  lemma {:induction false} NotFound(vs: seq<Attributes>, id: u32)
    requires Search(vs, id) == None
    ensures forall i :: 0 <= i < |vs| ==> vs[i].id != id
  {
    if vs != [] {
      NotFound(vs[1..], id);
      forall i | 0 < i < |vs|
        ensures vs[i].id != id
      {
        assert vs[i] == vs[1..][i - 1];
      }
    }
  }

  lemma RemovedUnique(vs: seq<Attributes>, k: nat)
    requires UniqueIds(vs) && k < |vs|
    ensures UniqueIds(Removed(vs, k))
  {
  }

  // The cache ---------------------------------------------------------------------------------------

  function FirstOf(recs: seq<Server>): (s: Server?)
  {
    if recs == [] then null else recs[0]
  }

  class Cache {
    var servers: Server?
    ghost var recs: seq<Server>
    ghost var held: map<int, seq<Attributes>>
    ghost var Repr: set<object>

    ghost predicate Valid()
      reads this, Repr
    {
      this !in Repr && servers == FirstOf(recs) && (forall i :: 0 <= i < |recs| ==> Placed(i)) &&
      (forall i, j :: 0 <= i < j < |recs| ==> Apart(i, j)) &&
      forall a :: a in held ==> exists i :: 0 <= i < |recs| && recs[i].aud == a
    }

    ghost predicate Placed(i: nat)
      requires i < |recs|
      reads this`recs, this`held, this`Repr, Repr
    {
      var s := recs[i];
      s in Repr && s.Repr <= Repr && (forall j :: 0 <= j < |recs| ==> recs[j] !in s.Repr) && s.Valid() &&
      s.next == At<Server?>(recs, i + 1, null) && s.aud in held && held[s.aud] == s.stored
    }

    /** Records of different servers share nothing. */
    ghost predicate Apart(i: nat, j: nat)
      requires i < j < |recs|
      reads this`recs, this`Repr, Repr
    {
      recs[i] in Repr && recs[j] in Repr && recs[i] != recs[j] && recs[i].aud != recs[j].aud &&
      recs[i].Repr !! recs[j].Repr
    }

    /** What is cached for a server and a bucket. */
    ghost function Get(aud: int, bucket: u32): (r: Option<Attributes>)
      reads this`held
    {
      if aud in held then Search(held[aud], bucket) else None
    }

    constructor ()
      ensures Valid() && forall a, b :: Get(a, b) == None
    {
      servers, recs, held, Repr := null, [], map[], {};
    }

    /** The walk over the servers. */
    method FindServer(aud: int) returns (s: Server?, p: Server?, ghost k: nat)
      requires Valid()
      ensures k <= |recs| && s == (if k < |recs| then recs[k] else null) && p == if k > 0 then recs[k - 1] else null
      ensures s != null <==> aud in held
      ensures s != null ==> s.aud == aud && Placed(k)
    {
      hide Server.Valid;
      s, p, k := servers, null, 0;
      while s != null
        invariant k <= |recs| && s == (if k < |recs| then recs[k] else null) && p == if k > 0 then recs[k - 1] else null
        invariant forall i :: 0 <= i < k ==> recs[i].aud != aud
        decreases |recs| - k
      {
        assert Placed(k);
        if s.aud == aud {
          return;
        }
        p := s;
        s := s.next;
        k := k + 1;
      }
    }

    /** `_AuLookupBucketInCache`: a copy of its own for the caller, or null. */
    method Lookup(aud: int, bucket: u32) returns (r: BucketAttributes?)
      requires Valid()
      ensures r == null <==> Get(aud, bucket) == None
      ensures r != null ==> r.Valid() && Get(aud, bucket) == Some(r.View())
      ensures r != null ==> fresh(r) && (r.text != null ==> fresh(r.text))
    {
      hide Server.Valid, Search;
      r := null;
      var s, p;
      ghost var k;
      s, p, k := FindServer(aud);
      if s != null {
        var e, q;
        ghost var i;
        e, q, i := s.Find(bucket);
        if e != null {
          r := CopyBucketAttributes(e.attr);
        }
      }
    }

    /** The record of a server that has none yet goes to the front. */
    method NewServer(aud: int) returns (s: Server)
      requires Valid() && aud !in held
      modifies this
      ensures Valid() && fresh(Repr - old(Repr)) && recs != [] && s == recs[0] && s.aud == aud && Placed(0)
      ensures held == old(held)[aud := []]
    {
      hide Server.Valid;
      s := new Server(aud);
      s.next := servers;
      servers := s;
      recs := [s] + recs;
      held := held[aud := []];
      Repr := Repr + {s};
      forall i | 0 <= i < |recs|
        ensures Placed(i)
      {
        if i > 0 {
          assert old(Placed(i - 1));
        }
      }
      forall i, j | 0 <= i < j < |recs|
        ensures Apart(i, j)
      {
        assert old(Placed(j - 1)) && (i > 0 ==> old(Apart(i - 1, j - 1)));
      }
      HeldHasRecord(old(recs), s, old(held));
    }

    /** `_AuAddToBucketCache`: keeps a copy, unless the server already has attributes for that bucket. */
    method Add(aud: int, attr: BucketAttributes)
      requires Valid() && attr.Valid()
      modifies this, Repr
      ensures Valid() && fresh(Repr - old(Repr))
      // the first to be written stays
      ensures forall a, b :: Get(a, b) ==
                if a == aud && b == old(attr.id) && old(Get(a, b)) == None then Some(old(attr.View()))
                                          else old(Get(a, b))
    {
      hide Server.Valid, Search;
      var s, p;
      ghost var k;
      s, p, k := FindServer(aud);
      NothingFound();
      if s == null {
        s := NewServer(aud);
        k := 0;
      }
      var e, q;
      ghost var i;
      e, q, i := s.Find(attr.id);
      if e != null {
        return;
      }
      ghost var was := s.stored;
      PushTo(s, attr, k);
      SearchPushed(was, attr.View());
    }

    /** `_AuRemoveFromBucketCache`. */
    method Remove(aud: int, bucket: u32)
      requires Valid()
      modifies this, Repr
      ensures Valid() && Repr == old(Repr)
      ensures forall a, b :: Get(a, b) == if a == aud && b == bucket then None else old(Get(a, b))
    {
      hide Server.Valid, Search;
      var s, p;
      ghost var k;
      s, p, k := FindServer(aud);
      if s == null {
        return;
      }
      var e, q;
      ghost var i;
      e, q, i := s.Find(bucket);
      if e == null {
        return;
      }
      ghost var was := s.stored;
      StoredUnique(s);
      UnlinkFrom(s, e, q, k, i);
      OneRemoved(was, i);
    }

    method UnlinkFrom(s: Server, e: Entry, q: Entry?, ghost k: nat, ghost i: nat)
      requires Valid() && k < |recs| && s == recs[k] && s.Valid() && i < |s.entries| == |s.stored|
      requires e == s.entries[i] && q == if i > 0 then s.entries[i - 1] else null
      modifies this`held, s`cache, s`entries, s`stored, s.Repr
      ensures Valid() && held == old(held)[s.aud := Removed(old(s.stored), i)]
    {
      hide Search, Server.Valid;
      assert Placed(k);
      s.Unlink(e, q, i);
      held := held[s.aud := s.stored];
      forall i | 0 <= i < |recs|
        ensures Placed(i)
      {
        assert old(Placed(i)) && (i < k ==> old(Apart(i, k))) && (k < i ==> old(Apart(k, i)));
      }
      forall i, j | 0 <= i < j < |recs|
        ensures Apart(i, j)
      {
        assert old(Apart(i, j)) && old(Placed(i)) && old(Placed(j));
      }
    }

    /** `_AuFreeBucketCache`: forgets one server, and no other. */
    method Free(aud: int)
      requires Valid()
      modifies this, Repr
      ensures Valid() && Repr == old(Repr)
      ensures forall a, b :: Get(a, b) == if a == aud then None else old(Get(a, b))
    {
      hide Server.Valid, Search;
      var s, p;
      ghost var k;
      s, p, k := FindServer(aud);
      if s == null {
        return;
      }
      UnlinkServer(s, p, k);
    }

    method UnlinkServer(s: Server, p: Server?, ghost k: nat)
      requires Valid() && k < |recs| && s == recs[k] && p == if k > 0 then recs[k - 1] else null
      modifies this`servers, this`recs, this`held, Repr
      ensures Valid() && held == old(held) - {s.aud}
    {
      hide Server.Valid;
      assert Placed(k) && (k > 0 ==> Placed(k - 1));
      assert s.next == At<Server?>(recs, k + 1, null);
      if p != null {
        p.next := s.next;
      } else {
        servers := s.next;
      }
      ghost var was := recs;
      recs := Removed(recs, k);
      held := held - {s.aud};
      assert forall i :: 0 <= i < |recs| ==> recs[i] == was[if i < k then i else i + 1];
      forall i | 0 <= i < |recs|
        ensures Placed(i)
      {
        var j := if i < k then i else i + 1;
        assert old(Placed(j)) && (j < k ==> old(Apart(j, k))) && (k < j ==> old(Apart(k, j)));
        assert (j < k - 1 ==> old(Apart(j, k - 1))) && (0 <= k - 1 < j ==> old(Apart(k - 1, j)));
        LaterServer(was, k, i);
      }
      forall i, j | 0 <= i < j < |recs|
        ensures Apart(i, j)
      {
        assert old(Apart(if i < k then i else i + 1, if j < k then j else j + 1));
      }
      OthersStay(was, k, held);
    }

    method PushTo(s: Server, attr: BucketAttributes, ghost k: nat)
      requires Valid() && k < |recs| && s == recs[k] && attr.Valid() && Search(s.stored, attr.id) == None
      modifies this`held, this`Repr, s`cache, s`entries, s`stored, s`Repr
      ensures Valid() && fresh(Repr - old(Repr)) && held == old(held)[s.aud := [old(attr.View())] + old(s.stored)]
    {
      hide Search, Server.Valid;
      assert Placed(k);
      s.Push(attr);
      held := held[s.aud := s.stored];
      Repr := Repr + s.Repr;
      forall i | 0 <= i < |recs|
        ensures Placed(i)
      {
        assert old(Placed(i)) && (i < k ==> old(Apart(i, k))) && (k < i ==> old(Apart(k, i)));
      }
      forall i, j | 0 <= i < j < |recs|
        ensures Apart(i, j)
      {
        assert old(Apart(i, j)) && old(Placed(i)) && old(Placed(j));
      }
    }
  }

  lemma StoredUnique(s: Server)
    requires s.Valid()
    ensures UniqueIds(s.stored) && |s.stored| == |s.entries|
  {
  }

  lemma OneRemoved(vs: seq<Attributes>, k: nat)
    requires k < |vs| && UniqueIds(vs)
    ensures forall b :: Search(Removed(vs, k), b) == if b == vs[k].id then None else Search(vs, b)
  {
    forall b
      ensures Search(Removed(vs, k), b) == if b == vs[k].id then None else Search(vs, b)
    {
      SearchRemoved(vs, k, b);
    }
  }

  lemma LaterServer(recs: seq<Server>, k: nat, i: nat)
    requires k < |recs| && i < |recs| - 1
    ensures var now, j := Removed(recs, k), if i < k then i else i + 1;
            now[i] == recs[j] &&
            At<Server?>(now, i + 1, null) == At<Server?>(recs, if i + 1 == k then k + 1 else j + 1, null)
  {
  }

  lemma OthersStay(recs: seq<Server>, k: nat, held: map<int, seq<Attributes>>)
    requires k < |recs| && recs[k].aud !in held
    requires forall a :: a in held ==> exists i :: 0 <= i < |recs| && recs[i].aud == a
    ensures forall a :: a in held ==> exists i :: 0 <= i < |recs| - 1 && Removed(recs, k)[i].aud == a
  {
    forall a | a in held
      ensures exists i :: 0 <= i < |recs| - 1 && Removed(recs, k)[i].aud == a
    {
      var i :| 0 <= i < |recs| && recs[i].aud == a;
      assert Removed(recs, k)[if i < k then i else i - 1] == recs[i];
    }
  }

  lemma NothingFound()
    ensures forall b :: Search([], b) == None
  {
  }

  lemma HeldHasRecord(recs: seq<Server>, s: Server, held: map<int, seq<Attributes>>)
    requires forall a :: a in held ==> exists i :: 0 <= i < |recs| && recs[i].aud == a
    ensures forall a :: a in held || a == s.aud ==> exists i :: 0 <= i < |[s] + recs| && ([s] + recs)[i].aud == a
  {
    assert ([s] + recs)[0] == s;
    forall a | a in held
      ensures exists i :: 0 <= i < |[s] + recs| && ([s] + recs)[i].aud == a
    {
      var i :| 0 <= i < |recs| && recs[i].aud == a;
      assert ([s] + recs)[i + 1].aud == a;
    }
  }

  lemma SearchPushed(vs: seq<Attributes>, v: Attributes)
    ensures forall b :: Search([v] + vs, b) == if b == v.id then Some(v) else Search(vs, b)
  {
    assert ([v] + vs)[1..] == vs;
  }
}
