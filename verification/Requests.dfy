/** Requests as bytes on the wire: a type, a length in four-byte units, and the rest. */
module Requests {
  import opened Bytes
  import opened Packets
  import opened Sequences

  type Request = seq<byte>

  /** A request carries its length in four-byte units in bytes 2 and 3. */
  predicate WfRequest(big: bool, r: Request)
  {
    |r| >= 4 && |r| == 4 * Get16(big, r[2..4])
  }

  ghost predicate WfRequests(big: bool, rs: seq<Request>)
  {
    forall i :: 0 <= i < |rs| ==> WfRequest(big, rs[i])
  }

  /** Cuts a byte stream into requests by their length fields; also returns what could not be cut. */
  function Split(big: bool, wire: seq<byte>): (r: (seq<Request>, seq<byte>))
    decreases |wire|
  {
    if |wire| < 4 then ([], wire) else
    var size := 4 * Get16(big, wire[2..4]);
    if size < 4 || size > |wire| then ([], wire) else
    var rest := Split(big, wire[size..]);
    ([wire[..size]] + rest.0, rest.1)
  }

  /** A wire made of whole requests is always cut back into exactly those requests. */
  lemma {:induction false} SplitConcat(big: bool, rs: seq<Request>)
    requires WfRequests(big, rs)
    ensures Split(big, Concat(rs)) == (rs, [])
  {
    if rs != [] {
      var wire := Concat(rs);
      assert WfRequest(big, rs[0]);
      assert wire[2..4] == rs[0][2..4];
      assert wire[..|rs[0]|] == rs[0] && wire[|rs[0]|..] == Concat(rs[1..]);
      SplitConcat(big, rs[1..]);
      assert [rs[0]] + rs[1..] == rs;
    }
  }

  /** `s` with `data` written over it from index `at` on. */
  ghost function Filled(s: seq<byte>, at: nat, data: seq<byte>): (r: seq<byte>)
    requires at + |data| <= |s|
    ensures |r| == |s| && r[at..at + |data|] == data
  {
    s[..at] + data + s[at + |data|..]
  }

  lemma FilledApart(s: seq<byte>, at: nat, data: seq<byte>, lo: nat, hi: nat)
    requires at + |data| <= |s| && lo <= hi <= |s| && (hi <= at || at + |data| <= lo)
    ensures Filled(s, at, data)[lo..hi] == s[lo..hi]
  {
    assert forall i :: lo <= i < hi ==> Filled(s, at, data)[i] == s[i];
  }

  lemma FilledFurther(s: seq<byte>, data: seq<byte>, at: nat, done: nat, got: nat)
    requires done + got <= |data| && at + done + got <= |s|
    ensures Filled(Filled(s, at, data[..done]), at + done, data[done..][..got]) == Filled(s, at, data[..done + got])
    ensures data[done..][got..] == data[done + got..]
  {
    TakeMore(data, done, |data|, got);
  }

  /** Filling in a field of what lies between `at` and `end` leaves what is before it alone. */
  lemma FieldPlaced(s: seq<byte>, at: nat, end: nat, offset: nat, field: seq<byte>)
    requires at <= end <= |s| && at + offset + |field| <= end
    ensures var r := Filled(s, at + offset, field);
            r[at..end] == Filled(s[at..end], offset, field) && r[..end] == s[..at] + r[at..end] &&
            s[..end] == s[..at] + s[at..end]
  {
    hide Filled;
    var r, part := Filled(s, at + offset, field), Filled(s[at..end], offset, field);
    FilledIs(s, at + offset, field);
    FilledIs(s[at..end], offset, field);
    forall i | 0 <= i < end - at
      ensures r[at..end][i] == part[i]
    {
      assert r[at..end][i] == r[at + i] && s[at..end][i] == s[at + i];
    }
    assert r[at..end] == part;
    assert r[..at] == s[..at];
    TakeMore(r, at, end, end - at);
    TakeMore(s, at, end, end - at);
  }

  lemma FilledIs(s: seq<byte>, at: nat, data: seq<byte>)
    requires at + |data| <= |s|
    ensures forall i :: 0 <= i < |s| ==>
              Filled(s, at, data)[i] == if at <= i < at + |data| then data[i - at] else s[i]
  {
  }

  lemma DataPlaced(s: seq<byte>, at: nat, data: seq<byte>, end: nat)
    requires at + |data| <= end <= |s|
    ensures var r := Filled(s, at, data); r[..end] == s[..at] + data + r[at + |data|..end]
  {
  }

  lemma NothingFilled(s: seq<byte>, data: seq<byte>, at: nat, size: nat)
    requires at + size <= |s|
    ensures Filled(s, at, data[..0]) == s
  {
  }

  /** Of `size` bytes all but `left` have been filled in; `got` more of them follow. */
  lemma FilledAlong(s: seq<byte>, data: seq<byte>, at: nat, size: nat, left: nat, base: nat, done: nat, got: nat)
    requires got <= left <= size <= |data| && at + size <= |s| && base + left <= at + size && done + got <= |data|
    requires left > 0 ==> base == at + size - left && done == size - left
    ensures Filled(Filled(s, at, data[..size - left]), base, data[done..][..got]) ==
            Filled(s, at, data[..size - left + got])
  {
    if got > 0 {
      FilledFurther(s, data, at, size - left, got);
    } else {
      NothingFilled(Filled(s, at, data[..size - left]), data[done..], base, 0);
    }
  }

  /** The two vectors of a padded read: where the data still missing goes, and where the padding goes. */
  datatype Vectors = Vectors(base: nat, len: nat, padBase: nat, padLen: nat) {
    predicate Fit(at: nat, size: nat)
    {
      base + len <= at + size && len <= size && padBase + padLen == PadLength(size) &&
      (len > 0 ==> base == at + size - len && padBase == 0)
    }
  }

  lemma VectorsFit(at: nat, size: nat)
    ensures Vectors(at, size, 0, PadLength(size)).Fit(at, size)
  {
  }

  /** Of a padded read of `size` bytes of `data`, what the vectors `v` ask for is still to come. */
  ghost predicate ReadSoFar(data: seq<byte>, rest: seq<byte>, before: seq<byte>, now: seq<byte>,
                            at: nat, size: nat, v: Vectors)
  {
    var total := v.len + v.padLen;
    v.len <= size && total <= Pad4(size) <= |data| && at + size <= |before| &&
    rest == data[Pad4(size) - total..] && now == Filled(before, at, data[..size - v.len])
  }

  lemma NothingRead(data: seq<byte>, s: seq<byte>, at: nat, size: nat)
    requires Pad4(size) <= |data| && at + size <= |s|
    ensures ReadSoFar(data, data, s, s, at, size, Vectors(at, size, 0, PadLength(size)))
  {
  }

  lemma EnoughToRead(data: seq<byte>, rest: seq<byte>, before: seq<byte>, now: seq<byte>, at: nat, size: nat,
                     v: Vectors)
    requires ReadSoFar(data, rest, before, now, at, size, v)
    ensures v.len + v.padLen <= |rest|
  {
  }

  lemma ReadAll(data: seq<byte>, rest: seq<byte>, before: seq<byte>, now: seq<byte>, at: nat, size: nat, v: Vectors)
    requires ReadSoFar(data, rest, before, now, at, size, v) && v.len + v.padLen == 0
    ensures rest == data[Pad4(size)..] && now == Filled(before, at, data[..size])
  {
  }

  /** What the vectors are after `got` more bytes: the data first, then the padding. */
  lemma ReadMore(data: seq<byte>, rest: seq<byte>, before: seq<byte>, now: seq<byte>, at: nat, size: nat, v: Vectors,
                 got: nat)
    requires ReadSoFar(data, rest, before, now, at, size, v) && v.Fit(at, size) && 0 < got <= v.len + v.padLen
    ensures var first := if got < v.len then got else v.len;
            var v' := if got <= v.len then v.(len := v.len - got, base := v.base + got)
                      else Vectors(v.base, 0, v.padBase + (got - v.len), v.padLen - (got - v.len));
            |now| == |before| && got <= |rest| && v.base + first <= |now| && v'.Fit(at, size) &&
            ReadSoFar(data, rest[got..], before, Filled(now, v.base, rest[..first]), at, size, v')
  {
    hide Filled;
    var first := if got < v.len then got else v.len;
    var total := v.len + v.padLen;
    FilledAlong(before, data, at, size, v.len, v.base, Pad4(size) - total, first);
    SliceTwice(data, Pad4(size) - total, got);
  }
}
