/** Choosing what to offer the socket: the `InsertIOV` macro of `_AuSend`. */
module Gather {
  import opened Bytes
  import opened Packets
  import opened Sequences

  /** The vectors chosen so far, the bytes still to be skipped and the bytes still wanted. */
  datatype Gather = Gather(vecs: seq<seq<byte>>, before: int, remain: int)

  /** One use of `InsertIOV`: offer the part of `piece` that is neither written nor beyond this try. */
  function InsertIov(g: Gather, piece: seq<byte>): (r: Gather)
    requires g.before >= 0 && g.remain >= 0
    ensures r.before >= 0 && r.remain >= 0
  {
    var len := if |piece| - g.before > g.remain then g.remain else |piece| - g.before;
    if len <= 0 then g.(before := -len)
    else Gather(g.vecs + [piece[g.before..g.before + len]], 0, g.remain - len)
  }

  function GatherAll(g: Gather, pieces: seq<seq<byte>>): (r: Gather)
    requires g.before >= 0 && g.remain >= 0
    decreases |pieces|
  {
    if pieces == [] then g else GatherAll(InsertIov(g, pieces[0]), pieces[1..])
  }

  lemma GatherThree(g: Gather, a: seq<byte>, b: seq<byte>, c: seq<byte>)
    requires g.before >= 0 && g.remain >= 0
    ensures GatherAll(g, [a, b, c]) == InsertIov(InsertIov(InsertIov(g, a), b), c)
  {
    assert [a, b, c][1..] == [b, c] && [b, c][1..] == [c];
    var g2 := InsertIov(InsertIov(g, a), b);
    assert GatherAll(g2, [c]) == InsertIov(g2, c);
    assert GatherAll(InsertIov(g, a), [b, c]) == GatherAll(g2, [c]);
  }

  /** The chosen vectors are exactly bytes `skip` to `skip + todo` of the pieces laid end to end. */
  lemma GatheredSlice(pieces: seq<seq<byte>>, skip: nat, todo: nat)
    requires 0 < todo && skip + todo <= |Concat(pieces)|
    ensures Concat(GatherAll(Gather([], skip, todo), pieces).vecs) == Concat(pieces)[skip..skip + todo]
    ensures forall v <- GatherAll(Gather([], skip, todo), pieces).vecs :: v != []
  {
    GatherFrom([], skip, todo, pieces);
    assert [] + Concat(pieces)[skip..skip + todo] == Concat(pieces)[skip..skip + todo];
  }

  lemma {:induction false} GatherFrom(vecs: seq<seq<byte>>, before: nat, remain: nat, pieces: seq<seq<byte>>)
    requires before + remain <= |Concat(pieces)| && (remain == 0 ==> before == 0)
    requires forall v <- vecs :: v != []
    ensures var r := GatherAll(Gather(vecs, before, remain), pieces).vecs;
            Concat(r) == Concat(vecs) + Concat(pieces)[before..before + remain] && forall v <- r :: v != []
    decreases |pieces|
  {
    if pieces != [] {
      var piece, rest := pieces[0], Concat(pieces[1..]);
      var g := InsertIov(Gather(vecs, before, remain), piece);
      GatherFrom(g.vecs, g.before, g.remain, pieces[1..]);
      if g.vecs != vecs {
        var taken := remain - g.remain;
        var part := piece[before..before + taken];
        ConcatAppend(vecs, [part]);
        assert Concat([part]) == part;
        AppendAssociative(Concat(vecs), part, rest[..g.remain]);
        assert (piece + rest)[before..before + remain] == part + rest[..g.remain];
      } else {
        assert (piece + rest)[before..before + remain] == rest[g.before..g.before + remain];
      }
    }
  }
}
