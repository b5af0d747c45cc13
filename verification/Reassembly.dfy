/** The reassembler as a value: an interval map ordered by the source's narrowing
    comparison, and the operations of stream_reassembler.cc on it. Total on every state,
    also where the narrowing misorders the intervals. */
module Reassembly {
  import opened Types
  import Streams

  datatype Interval = Interval(lo: nat, hi: nat, data: seq<byte>)

  datatype Store = Store(t: seq<Interval>, szUnasb: int, unasb: nat, eof2: u64, out: Streams.Stream)

  /** No end of stream announced: the source's `size_t(-1)`. */
  const NO_EOF: u64 := 0xffff_ffff_ffff_ffff

  function Init(capacity: nat): Store {
    Store([], 0, 0, NO_EOF, Streams.Empty(capacity))
  }

  /** Conversion of a `size_t` to a 32-bit `int`. */
  function Narrow(x: nat): int {
    var r := x % 0x1_0000_0000;
    if r < 0x8000_0000 then r else r - 0x1_0000_0000
  }

  /** `comp`, which receives its keys as pairs of `int`. */
  predicate Before(a: Interval, b: Interval) {
    Narrow(a.lo) < Narrow(b.lo) && Narrow(a.hi) < Narrow(b.hi)
  }

  function Piece(lo: nat, hi: nat, data: seq<byte>, index: nat): Interval
    requires index <= lo <= hi <= index + |data|
  {
    Interval(lo, hi, data[lo - index..hi - index])
  }

  /** The pieces of [idx, end) that lie between the intervals of `t`. */
  function Gaps(t: seq<Interval>, idx: nat, end: nat, data: seq<byte>, index: nat): seq<Interval>
    requires index <= idx < end <= index + |data|
    decreases |t|
  {
    if t == [] then [Piece(idx, end, data, index)]
    else
      var head := if idx < t[0].lo then [Piece(idx, Min(t[0].lo, end), data, index)] else [];
      if t[0].hi >= end then head else head + Gaps(t[1..], Max(idx, t[0].hi), end, data, index)
  }

  /** `t[key] = value`: a key equivalent under `Before` is kept and its value replaced. */
  function Put(t: seq<Interval>, iv: Interval): seq<Interval>
    decreases |t|
  {
    if t == [] then [iv]
    else if Before(t[0], iv) then [t[0]] + Put(t[1..], iv)
    else if Before(iv, t[0]) then [iv] + t
    else [t[0].(data := iv.data)] + t[1..]
  }

  function PutAll(t: seq<Interval>, pieces: seq<Interval>): seq<Interval>
    decreases |pieces|
  {
    if pieces == [] then t else PutAll(Put(t, pieces[0]), pieces[1..])
  }

  function Total(t: seq<Interval>): nat {
    if t == [] then 0 else |t[0].data| + Total(t[1..])
  }

  /** Move intervals that start at the first unassembled byte to the output stream. */
  function Drain(s: Store): Store
    decreases |s.t|
  {
    if s.t != [] && s.t[0].lo == s.unasb then
      Drain(s.(t := s.t[1..],
               out := Streams.Write(s.out, s.t[0].data),
               unasb := s.unasb + |s.t[0].data|,
               szUnasb := s.szUnasb - |s.t[0].data|))
    else s
  }

  function Finish(s: Store): Store {
    if s.unasb == s.eof2 then s.(eof2 := NO_EOF, out := Streams.End(s.out)) else s
  }

  /** One past the last byte index the capacity leaves room for. */
  function Limit(s: Store): nat {
    U64(s.out.read + s.out.cap)
  }

  function Insert(s: Store, idx: nat, end: nat, data: seq<byte>, index: nat): Store
    requires index <= idx < end <= index + |data|
  {
    var pieces := Gaps(s.t, idx, end, data, index);
    s.(t := PutAll(s.t, pieces), szUnasb := s.szUnasb + Total(pieces))
  }

  /** The work of `push_substring`, given one past the last index of `data` and the limit. */
  function PushUpTo(s: Store, data: seq<byte>, index: nat, eof: bool, stop: u64, limit: nat): Store
    requires stop <= index + |data|
  {
    var idx := Max(s.unasb, index);
    var end := Min(stop, limit);
    var s1 := if eof then s.(eof2 := stop) else s;
    if end <= idx then Finish(s1) else Finish(Drain(Insert(s1, idx, end, data, index)))
  }

  lemma U64Small(x: nat)
    ensures U64(x) <= x
    ensures x < 0x1_0000_0000_0000_0000 ==> U64(x) == x
  {
  }

  /** `push_substring` */
  function Push(s: Store, data: seq<byte>, index: u64, eof: bool): Store {
    U64Small(index + |data|);
    PushUpTo(s, data, index, eof, U64(index + |data|), Limit(s))
  }
}

/** What the reassembler means: a partial map from byte index to byte. */
module ReassemblyMeaning {
  import opened Types
  import opened Reassembly
  import Streams

  // ---- the interval map as a partial map ----

  /** Byte `k` of the stream, given a slice that starts at `index`. */
  function At(data: seq<byte>, index: nat, k: nat): byte {
    if index <= k < index + |data| then data[k - index] else 0
  }

  function Bytes(iv: Interval): map<nat, byte> {
    map k: nat | iv.lo <= k < iv.hi :: At(iv.data, iv.lo, k)
  }

  function Stored(t: seq<Interval>): map<nat, byte> {
    if t == [] then map[] else Bytes(t[0]) + Stored(t[1..])
  }

  /** Non-empty, sorted, disjoint intervals inside [from, limit). */
  predicate Tidy(t: seq<Interval>, from: nat, limit: nat) {
    t == [] ||
    (from <= t[0].lo < t[0].hi <= limit && |t[0].data| == t[0].hi - t[0].lo && Tidy(t[1..], t[0].hi, limit))
  }

  lemma {:induction false} TidyKeys(t: seq<Interval>, from: nat, limit: nat, k: nat)
    requires Tidy(t, from, limit) && k in Stored(t)
    ensures from <= k < limit
  {
    if k !in Bytes(t[0]) { TidyKeys(t[1..], t[0].hi, limit, k); }
  }

  lemma {:induction false} TidyWeaken(t: seq<Interval>, from: nat, limit: nat, from': nat, limit': nat)
    requires Tidy(t, from, limit) && from' <= from && limit <= limit'
    ensures Tidy(t, from', limit')
  {
    if t != [] { TidyWeaken(t[1..], t[0].hi, limit, t[0].hi, limit'); }
  }

  // ---- the specification ----

  /** The reassembler seen from outside. */
  datatype View = View(out: Streams.Stream, stored: map<nat, byte>, eof2: u64)

  function ViewOf(s: Store): View {
    View(s.out, Stored(s.t), s.eof2)
  }

  /** The bytes of [lo, hi) of the stream that are not in `stored`. */
  function Missing(stored: map<nat, byte>, lo: nat, hi: nat, data: seq<byte>, index: nat): map<nat, byte> {
    map k: nat | lo <= k < hi && k !in stored :: At(data, index, k)
  }

  /** The stored bytes plus those of [lo, hi) that are not held already. */
  function Accept(stored: map<nat, byte>, lo: nat, hi: nat, data: seq<byte>, index: nat): map<nat, byte>
  {
    stored + Missing(stored, lo, hi, data, index)
  }

  /** The first index from `i` on that is not stored. */
  function RunEnd(stored: map<nat, byte>, i: nat, limit: nat): (e: nat)
    ensures i <= e && (i <= limit ==> e <= limit)
    ensures forall k :: i <= k < e ==> k in stored
    ensures e < limit ==> e !in stored
    decreases limit - i
  {
    if i < limit && i in stored then RunEnd(stored, i + 1, limit) else i
  }

  function Slice(stored: map<nat, byte>, i: nat, e: nat): (r: seq<byte>)
    requires i <= e && forall k :: i <= k < e ==> k in stored
    ensures |r| == e - i && forall j :: 0 <= j < |r| ==> r[j] == stored[i + j]
  {
    seq(e - i, j requires 0 <= j < e - i => stored[i + j])
  }

  function From(stored: map<nat, byte>, e: nat): map<nat, byte> {
    map k | k in stored && e <= k :: stored[k]
  }

  /** Where the contiguous prefix of everything held ends. */
  function PrefixEnd(v: View): (e: nat)
    ensures |v.out.written| <= e <= v.out.read + v.out.cap
    ensures forall k :: |v.out.written| <= k < e ==> k in v.stored
  {
    RunEnd(v.stored, |v.out.written|, v.out.read + v.out.cap)
  }

  function AssembleTo(v: View, e: nat): View
    requires |v.out.written| <= e <= v.out.read + v.out.cap
    requires forall k :: |v.out.written| <= k < e ==> k in v.stored
  {
    View(v.out.(written := v.out.written + Slice(v.stored, |v.out.written|, e)), From(v.stored, e), v.eof2)
  }

  function Assemble(v: View): View {
    AssembleTo(v, PrefixEnd(v))
  }

  function Close(v: View): View {
    if |v.out.written| == v.eof2 then v.(eof2 := NO_EOF, out := Streams.End(v.out)) else v
  }

  function AcceptView(v: View, data: seq<byte>, index: nat, eof: bool, stop: u64): View {
    var lo := Max(|v.out.written|, index);
    var hi := Min(stop, v.out.read + v.out.cap);
    View(v.out, Accept(v.stored, lo, hi, data, index), if eof then stop else v.eof2)
  }

  function PushViewUpTo(v: View, data: seq<byte>, index: nat, eof: bool, stop: u64): View {
    Close(Assemble(AcceptView(v, data, index, eof, stop)))
  }

  function PushView(v: View, data: seq<byte>, index: u64, eof: bool): View {
    PushViewUpTo(v, data, index, eof, U64(index + |data|))
  }

  /** A `std::map` is in the order of its own comparison, whatever that order means. */
  predicate Ascending(t: seq<Interval>) {
    forall i :: 0 <= i < |t| - 1 ==> Before(t[i], t[i + 1])
  }

  /** The representation invariant. */
  ghost predicate Valid(s: Store) {
    && s.unasb == |s.out.written|
    && Tidy(s.t, s.unasb + 1, s.out.read + s.out.cap)
    && s.szUnasb == Total(s.t)
    && Ascending(s.t)
  }

  /** How often narrowing has wrapped around at `x`: it does at 2^31 modulo 2^32. */
  function Lap(x: nat): nat {
    (x + 0x8000_0000) / 0x1_0000_0000
  }

  /** One past the last index the window leaves room for. */
  function WindowEnd(s: Store): nat {
    s.out.read + s.out.cap
  }

  /** Nothing is stored or may be pushed past `m`, and narrowing keeps the order of the indices
      from `unasb` to `m`; with nothing stored it does not matter. */
  ghost predicate FitsUpTo(s: Store, m: nat) {
    && WindowEnd(s) < 0x1_0000_0000_0000_0000
    && m <= WindowEnd(s) && Tidy(s.t, s.unasb + 1, m)
    && (s.t == [] || Lap(s.unasb) == Lap(Max(s.unasb, m)))
  }

  /** Narrowing keeps the order of all indices in the window. */
  predicate InOrder(s: Store) {
    Lap(s.unasb) == Lap(WindowEnd(s))
  }

  predicate Fits(s: Store) {
    WindowEnd(s) < 0x1_0000_0000_0000_0000 && (s.t == [] || InOrder(s))
  }

  // ---- the scan finds exactly the missing bytes ----

  lemma PieceIsMissing(lo: nat, hi: nat, data: seq<byte>, index: nat)
    requires index <= lo < hi <= index + |data|
    ensures Stored([Piece(lo, hi, data, index)]) == Missing(map[], lo, hi, data, index)
  {
    assert [Piece(lo, hi, data, index)][1..] == [];
  }

  /** What is missing around a first interval, and what is missing after it. */
  lemma MissingSplit(c: Interval, rest: map<nat, byte>, lo: nat, hi: nat, data: seq<byte>, index: nat)
    requires c.lo < c.hi && forall k :: k in rest ==> c.hi <= k
    ensures Missing(Bytes(c) + rest, lo, hi, data, index)
         == Missing(map[], lo, Min(c.lo, hi), data, index) + Missing(rest, Max(lo, c.hi), hi, data, index)
  {
  }

  lemma MissingNothing(stored: map<nat, byte>, lo: nat, hi: nat, data: seq<byte>, index: nat)
    requires hi <= lo
    ensures Missing(stored, lo, hi, data, index) == map[]
  {
  }

  /** At most one piece, followed by others. */
  lemma {:induction false} JoinPieces(head: seq<Interval>, tail: seq<Interval>, idx: nat, mid: nat, next: nat, end: nat)
    requires |head| <= 1 && Tidy(head, idx, mid) && Tidy(tail, next, end) && idx <= next && mid <= next && mid <= end
    ensures Tidy(head + tail, idx, end) && Stored(head + tail) == Stored(head) + Stored(tail)
  {
    hide Bytes;
    if head == [] {
      assert head + tail == tail;
      TidyWeaken(tail, next, end, idx, end);
    } else {
      TidyWeaken(tail, next, end, head[0].hi, end);
      assert head[1..] == [] && Stored(head) == Bytes(head[0]);
      assert (head + tail)[0] == head[0] && (head + tail)[1..] == tail;
    }
  }

  /** The piece in front of an interval that starts at `lo`. */
  lemma HeadIsMissing(idx: nat, lo: nat, end: nat, data: seq<byte>, index: nat)
    requires index <= idx < end <= index + |data|
    ensures var head := if idx < lo then [Piece(idx, Min(lo, end), data, index)] else [];
      && Tidy(head, idx, Min(lo, end))
      && Stored(head) == Missing(map[], idx, Min(lo, end), data, index)
  {
    if idx < lo {
      PieceIsMissing(idx, Min(lo, end), data, index);
    } else {
      MissingNothing(map[], idx, Min(lo, end), data, index);
    }
  }

  lemma {:induction false} GapsAreMissing(t: seq<Interval>, from: nat, limit: nat, idx: nat, end: nat, data: seq<byte>, index: nat)
    requires Tidy(t, from, limit)
    requires index <= idx < end <= index + |data|
    ensures Tidy(Gaps(t, idx, end, data, index), idx, end)
    ensures Stored(Gaps(t, idx, end, data, index)) == Missing(Stored(t), idx, end, data, index)
    decreases |t|
  {
    hide Missing, Bytes;
    if t == [] {
      PieceIsMissing(idx, end, data, index);
    } else {
      var c := t[0];
      var head := if idx < c.lo then [Piece(idx, Min(c.lo, end), data, index)] else [];
      var tail := if c.hi >= end then [] else Gaps(t[1..], Max(idx, c.hi), end, data, index);
      GapsParts(t, idx, end, data, index, head, tail);
      HeadIsMissing(idx, c.lo, end, data, index);
      forall k | k in Stored(t[1..]) ensures c.hi <= k { TidyKeys(t[1..], c.hi, limit, k); }
      MissingSplit(c, Stored(t[1..]), idx, end, data, index);
      if c.hi >= end {
        MissingNothing(Stored(t[1..]), Max(idx, c.hi), end, data, index);
      } else {
        GapsAreMissing(t[1..], c.hi, limit, Max(idx, c.hi), end, data, index);
      }
      hide Stored, Tidy, Gaps;
      JoinPieces(head, tail, idx, Min(c.lo, end), Max(idx, c.hi), end);
    }
  }

  lemma GapsParts(t: seq<Interval>, idx: nat, end: nat, data: seq<byte>, index: nat, head: seq<Interval>, tail: seq<Interval>)
    requires t != [] && index <= idx < end <= index + |data|
    requires head == if idx < t[0].lo then [Piece(idx, Min(t[0].lo, end), data, index)] else []
    requires tail == if t[0].hi >= end then [] else Gaps(t[1..], Max(idx, t[0].hi), end, data, index)
    ensures Gaps(t, idx, end, data, index) == head + tail
  {
  }

  // ---- insertion ----

  lemma NarrowIs(x: nat)
    ensures Narrow(x) == x - 0x1_0000_0000 * Lap(x)
  {
  }

  lemma LapBetween(a: nat, b: nat, c: nat)
    requires a <= b <= c
    ensures Lap(a) <= Lap(b) <= Lap(c)
  {
  }

  /** Within one lap the narrowed comparison is the order of the intervals. */
  lemma BeforeExact(a: Interval, b: Interval, from: nat, limit: nat)
    requires from <= a.lo < a.hi <= limit && from <= b.lo < b.hi <= limit && Lap(from) == Lap(limit)
    requires a.hi <= b.lo || b.hi <= a.lo
    ensures Before(a, b) <==> a.hi <= b.lo
    ensures Before(b, a) <==> b.hi <= a.lo
  {
    hide Narrow, Lap;
    OneLap(a.lo, from, limit);
    OneLap(a.hi, from, limit);
    OneLap(b.lo, from, limit);
    OneLap(b.hi, from, limit);
  }

  lemma OneLap(x: nat, from: nat, limit: nat)
    requires from <= x <= limit && Lap(from) == Lap(limit)
    ensures Narrow(x) == x - 0x1_0000_0000 * Lap(from)
  {
    NarrowIs(x);
    LapBetween(from, x, limit);
  }

  lemma Apart(a: Interval, b: Interval)
    requires a.lo < a.hi && b.lo < b.hi
    requires Bytes(a).Keys !! Bytes(b).Keys
    ensures a.hi <= b.lo || b.hi <= a.lo
  {
    assert a.lo in Bytes(a).Keys && b.lo in Bytes(b).Keys;
    assert a.lo in Bytes(b).Keys || b.lo in Bytes(a).Keys || a.hi <= b.lo || b.hi <= a.lo;
  }

  lemma MapSwap(a: map<nat, byte>, b: map<nat, byte>, c: map<nat, byte>)
    requires a.Keys !! c.Keys && b.Keys !! c.Keys
    ensures a + (b + c) == (a + b) + c
    ensures c + (a + b) == (a + b) + c
  {
  }

  lemma {:induction false} TidyOrder(t: seq<Interval>, from: nat, limit: nat)
    requires Tidy(t, from, limit)
    ensures forall i :: 0 <= i < |t| ==> from <= t[i].lo < t[i].hi <= limit && |t[i].data| == t[i].hi - t[i].lo
  {
    if t != [] {
      TidyOrder(t[1..], t[0].hi, limit);
      forall i | 0 <= i < |t| ensures from <= t[i].lo < t[i].hi <= limit && |t[i].data| == t[i].hi - t[i].lo {
        if i > 0 { assert t[i] == t[1..][i - 1]; }
      }
    }
  }

  lemma {:induction false} PutAdds(t: seq<Interval>, iv: Interval, from: nat, limit: nat)
    requires Tidy(t, from, limit) && from <= iv.lo < iv.hi <= limit && |iv.data| == iv.hi - iv.lo
    requires t == [] || Lap(from) == Lap(limit)
    requires Bytes(iv).Keys !! Stored(t).Keys
    ensures Tidy(Put(t, iv), from, limit)
    ensures Stored(Put(t, iv)) == Stored(t) + Bytes(iv)
    ensures Total(Put(t, iv)) == Total(t) + |iv.data|
    decreases |t|
  {
    hide Lap;
    if t == [] {
      assert Put(t, iv)[1..] == [];
    } else {
      var c := t[0];
      assert Bytes(iv).Keys !! Bytes(c).Keys && Bytes(iv).Keys !! Stored(t[1..]).Keys;
      Apart(c, iv);
      TidyOrder(t, from, limit);
      BeforeExact(c, iv, from, limit);
      LapBetween(from, c.hi, limit);
      MapSwap(Bytes(c), Stored(t[1..]), Bytes(iv));
      if c.hi <= iv.lo {
        PutAdds(t[1..], iv, c.hi, limit);
        assert Put(t, iv) == [c] + Put(t[1..], iv);
        assert Put(t, iv)[1..] == Put(t[1..], iv);
      } else {
        assert Put(t, iv) == [iv] + t;
        assert Put(t, iv)[1..] == t;
      }
    }
  }

  lemma TidyHead(t: seq<Interval>, from: nat, limit: nat)
    requires Tidy(t, from, limit) && t != []
    ensures Bytes(t[0]).Keys !! Stored(t[1..]).Keys
  {
    forall k | k in Stored(t[1..]) ensures t[0].hi <= k { TidyKeys(t[1..], t[0].hi, limit, k); }
  }

  lemma MapUnion(m: map<nat, byte>, h: map<nat, byte>, rest: map<nat, byte>)
    requires (h + rest).Keys !! m.Keys && h.Keys !! rest.Keys
    ensures h.Keys !! m.Keys && rest.Keys !! (m + h).Keys
    ensures (m + h) + rest == m + (h + rest)
  {
    assert forall k :: k in h || k in rest ==> k in (h + rest).Keys;
  }

  lemma {:induction false} PutAllAdds(t: seq<Interval>, g: seq<Interval>, from: nat, limit: nat)
    requires Tidy(t, from, limit) && Tidy(g, from, limit)
    requires |t| + |g| <= 1 || Lap(from) == Lap(limit)
    requires Stored(g).Keys !! Stored(t).Keys
    ensures Tidy(PutAll(t, g), from, limit)
    ensures Stored(PutAll(t, g)) == Stored(t) + Stored(g)
    ensures Total(PutAll(t, g)) == Total(t) + Total(g)
    decreases |g|
  {
    hide Lap;
    if g != [] {
      TidyHead(g, from, limit);
      MapUnion(Stored(t), Bytes(g[0]), Stored(g[1..]));
      PutAdds(t, g[0], from, limit);
      TidyWeaken(g[1..], g[0].hi, limit, from, limit);
      PutAllAdds(Put(t, g[0]), g[1..], from, limit);
    }
  }

  // ---- the order of the map, without any condition ----

  lemma {:induction false} PutAscends(t: seq<Interval>, iv: Interval)
    requires Ascending(t)
    ensures Ascending(Put(t, iv))
    ensures t != [] ==> (Put(t, iv)[0] == iv && Before(iv, t[0])) || (Put(t, iv)[0].lo == t[0].lo && Put(t, iv)[0].hi == t[0].hi)
    ensures t == [] ==> Put(t, iv) == [iv]
    decreases |t|
  {
    hide Before;
    if t != [] {
      assert forall i :: 0 <= i < |t[1..]| ==> t[1..][i] == t[i + 1];
      if Before(t[0], iv) {
        PutAscends(t[1..], iv);
        HeadBefore(t, iv, Put(t[1..], iv));
        var r := [t[0]] + Put(t[1..], iv);
        assert forall i :: 0 <= i < |r| - 1 ==> r[i + 1] == Put(t[1..], iv)[i];
      } else if Before(iv, t[0]) {
        assert forall i :: 0 <= i < |t| ==> ([iv] + t)[i + 1] == t[i];
      } else {
        var r := [t[0].(data := iv.data)] + t[1..];
        SameKeys(t, r);
      }
    }
  }

  lemma HeadBefore(t: seq<Interval>, iv: Interval, rest: seq<Interval>)
    requires t != [] && Ascending(t) && Before(t[0], iv) && rest != []
    requires |t| == 1 ==> rest == [iv]
    requires |t| > 1 ==> rest[0] == iv || (rest[0].lo == t[1].lo && rest[0].hi == t[1].hi)
    ensures Before(t[0], rest[0])
  {
  }

  lemma SameKeys(t: seq<Interval>, r: seq<Interval>)
    requires Ascending(t) && |r| == |t| && forall i :: 0 <= i < |t| ==> r[i].lo == t[i].lo && r[i].hi == t[i].hi
    ensures Ascending(r)
  {
  }

  lemma {:induction false} PutAllAscends(t: seq<Interval>, g: seq<Interval>)
    requires Ascending(t)
    ensures Ascending(PutAll(t, g))
    decreases |g|
  {
    if g != [] {
      PutAscends(t, g[0]);
      PutAllAscends(Put(t, g[0]), g[1..]);
    }
  }

  lemma TailAscends(t: seq<Interval>)
    requires Ascending(t) && t != []
    ensures Ascending(t[1..])
  {
    assert forall i :: 0 <= i < |t[1..]| ==> t[1..][i] == t[i + 1];
  }

  lemma {:induction false} DrainAscends(s: Store)
    requires Ascending(s.t)
    ensures Ascending(Drain(s).t)
    decreases |s.t|
  {
    if s.t != [] && s.t[0].lo == s.unasb {
      TailAscends(s.t);
      DrainAscends(s.(t := s.t[1..], out := Streams.Write(s.out, s.t[0].data),
                      unasb := s.unasb + |s.t[0].data|, szUnasb := s.szUnasb - |s.t[0].data|));
    }
  }

  /** In every state, also a corrupted one, a push leaves the map in its own order. */
  lemma PushAscends(s: Store, data: seq<byte>, index: u64, eof: bool)
    requires Ascending(s.t)
    ensures Ascending(Push(s, data, index, eof).t)
  {
    hide Ascending, Drain, PutAll, Gaps, Total;
    U64Small(index + |data|);
    var stop := U64(index + |data|);
    var idx, end := Max(s.unasb, index), Min(stop, Limit(s));
    if idx < end {
      PutAllAscends(s.t, Gaps(s.t, idx, end, data, index));
      DrainAscends(Insert(if eof then s.(eof2 := stop) else s, idx, end, data, index));
    }
  }

  // ---- draining ----

  lemma {:induction false} RunAgree(a: map<nat, byte>, b: map<nat, byte>, i: nat, limit: nat)
    requires forall k :: i <= k ==> (k in a <==> k in b)
    ensures RunEnd(a, i, limit) == RunEnd(b, i, limit)
    decreases limit - i
  {
    if i < limit && i in a { RunAgree(a, b, i + 1, limit); }
  }

  lemma {:induction false} RunSkip(stored: map<nat, byte>, i: nat, j: nat, limit: nat)
    requires i <= j <= limit
    requires forall k :: i <= k < j ==> k in stored
    ensures RunEnd(stored, i, limit) == RunEnd(stored, j, limit)
    decreases j - i
  {
    if i < j { RunSkip(stored, i + 1, j, limit); }
  }

  lemma {:induction false} DrainAssembles(s: Store)
    requires s.unasb == |s.out.written|
    requires Tidy(s.t, s.unasb, s.out.read + s.out.cap)
    requires s.szUnasb == Total(s.t) && Ascending(s.t)
    ensures Valid(Drain(s))
    ensures ViewOf(Drain(s)) == Assemble(ViewOf(s))
    decreases |s.t|
  {
    if s.t != [] && s.t[0].lo == s.unasb {
      var c := s.t[0];
      var s1 := s.(t := s.t[1..], out := Streams.Write(s.out, c.data),
                   unasb := s.unasb + |c.data|, szUnasb := s.szUnasb - |c.data|);
      assert Drain(s) == Drain(s1);
      TailTidy(s, s1);
      TailAscends(s.t);
      DrainAssembles(s1);
      AssembleOne(s, s1);
    } else {
      assert Drain(s) == s;
      NothingToAssemble(s);
    }
  }

  /** Draining adds nothing past `m`. */
  lemma {:induction false} DrainTidy(s: Store, m: nat)
    requires Tidy(s.t, s.unasb, m)
    ensures Tidy(Drain(s).t, Drain(s).unasb + 1, m)
    decreases |s.t|
  {
    if s.t != [] && s.t[0].lo == s.unasb {
      DrainTidy(s.(t := s.t[1..], out := Streams.Write(s.out, s.t[0].data),
                   unasb := s.unasb + |s.t[0].data|, szUnasb := s.szUnasb - |s.t[0].data|), m);
    }
  }

  lemma TailTidy(s: Store, s1: Store)
    requires s.unasb == |s.out.written| && s.szUnasb == Total(s.t)
    requires Tidy(s.t, s.unasb, s.out.read + s.out.cap)
    requires s.t != [] && s.t[0].lo == s.unasb
    requires s1 == s.(t := s.t[1..], out := Streams.Write(s.out, s.t[0].data),
                   unasb := s.unasb + |s.t[0].data|, szUnasb := s.szUnasb - |s.t[0].data|)
    ensures s1.unasb == |s1.out.written| && s1.szUnasb == Total(s1.t)
    ensures Tidy(s1.t, s1.unasb, s1.out.read + s1.out.cap)
    ensures s1.out.written == s.out.written + s.t[0].data
  {
  }

  lemma NothingToAssemble(s: Store)
    requires s.unasb == |s.out.written|
    requires Tidy(s.t, s.unasb, s.out.read + s.out.cap) || Tidy(s.t, s.unasb + 1, s.out.read + s.out.cap)
    requires s.szUnasb == Total(s.t) && Ascending(s.t)
    requires s.t == [] || s.t[0].lo != s.unasb
    ensures Valid(s) && Assemble(ViewOf(s)) == ViewOf(s)
  {
    var limit := s.out.read + s.out.cap;
    if s.t != [] { assert Tidy(s.t, s.unasb + 1, limit); }
    forall k | k in Stored(s.t) ensures s.unasb < k { TidyKeys(s.t, s.unasb + 1, limit, k); }
    assert RunEnd(Stored(s.t), s.unasb, limit) == s.unasb;
    assert Assemble(ViewOf(s)).stored == Stored(s.t);
  }

  lemma AssembleOne(s: Store, s1: Store)
    requires s.unasb == |s.out.written|
    requires Tidy(s.t, s.unasb, s.out.read + s.out.cap)
    requires s.t != [] && s.t[0].lo == s.unasb
    requires s1 == s.(t := s.t[1..], out := Streams.Write(s.out, s.t[0].data),
                   unasb := s.unasb + |s.t[0].data|, szUnasb := s.szUnasb - |s.t[0].data|)
    ensures Assemble(ViewOf(s1)) == Assemble(ViewOf(s))
  {
    var c := s.t[0];
    var limit := s.out.read + s.out.cap;
    forall k | k in Stored(s1.t) ensures c.hi <= k { TidyKeys(s1.t, c.hi, limit, k); }
    assert s1.out.written == s.out.written + c.data;
    AssembleSplit(ViewOf(s), c, ViewOf(s1));
  }

  /** Assembling a first interval and then the rest is assembling everything. */
  lemma AssembleSplit(v: View, c: Interval, v1: View)
    requires c.lo == |v.out.written| && c.lo < c.hi <= v.out.read + v.out.cap && |c.data| == c.hi - c.lo
    requires v.stored == Bytes(c) + v1.stored
    requires forall k :: k in v1.stored ==> c.hi <= k
    requires v1.out == v.out.(written := v.out.written + c.data) && v1.eof2 == v.eof2
    ensures Assemble(v) == Assemble(v1)
  {
    hide Bytes, Slice, RunEnd, From;
    var e := SplitParts(v.stored, c, v1.stored, v.out.read + v.out.cap);
    Associative(v.out.written, c.data, Slice(v1.stored, c.hi, e));
    assert PrefixEnd(v) == e == PrefixEnd(v1);
    assert AssembleTo(v, e) == AssembleTo(v1, e);
  }

  lemma SplitParts(whole: map<nat, byte>, c: Interval, rest: map<nat, byte>, limit: nat) returns (e: nat)
    requires c.lo < c.hi <= limit && |c.data| == c.hi - c.lo
    requires whole == Bytes(c) + rest
    requires forall k :: k in rest ==> c.hi <= k
    ensures c.hi <= e && RunEnd(whole, c.lo, limit) == e == RunEnd(rest, c.hi, limit)
    ensures Slice(whole, c.lo, e) == c.data + Slice(rest, c.hi, e)
    ensures From(whole, e) == From(rest, e)
  {
    UnionParts(whole, c, rest);
    RunSkip(whole, c.lo, c.hi, limit);
    RunAgree(whole, rest, c.hi, limit);
    e := RunEnd(rest, c.hi, limit);
    SliceSplit(whole, c, rest, e);
    DropSame(whole, rest, e, c.hi);
  }

  lemma UnionParts(whole: map<nat, byte>, c: Interval, rest: map<nat, byte>)
    requires c.lo < c.hi && whole == Bytes(c) + rest
    requires forall k :: k in rest ==> c.hi <= k
    ensures forall k :: c.lo <= k < c.hi ==> k in whole
    ensures forall k :: c.hi <= k ==> (k in whole <==> k in rest) && (k in whole ==> whole[k] == rest[k])
  {
    assert forall k :: c.lo <= k < c.hi ==> k in Bytes(c);
  }

  lemma SliceSplit(whole: map<nat, byte>, c: Interval, rest: map<nat, byte>, e: nat)
    requires c.lo < c.hi <= e && |c.data| == c.hi - c.lo
    requires whole == Bytes(c) + rest
    requires forall k :: k in rest ==> c.hi <= k
    requires forall k :: c.hi <= k < e ==> k in rest
    ensures forall k :: c.lo <= k < e ==> k in whole
    ensures Slice(whole, c.lo, e) == c.data + Slice(rest, c.hi, e)
  {
    assert forall k :: c.lo <= k < c.hi ==> k in Bytes(c);
    var a, b := Slice(whole, c.lo, e), c.data + Slice(rest, c.hi, e);
    forall j | 0 <= j < e - c.lo ensures a[j] == b[j] {
      if j < |c.data| { assert c.lo + j !in rest; }
    }
  }

  lemma DropSame(whole: map<nat, byte>, rest: map<nat, byte>, e: nat, m: nat)
    requires m <= e
    requires forall k :: m <= k ==> (k in whole <==> k in rest) && (k in whole ==> whole[k] == rest[k])
    ensures From(whole, e) == From(rest, e)
  {
  }

  // ---- the refinement ----

  lemma PushUpToRefines(s: Store, data: seq<byte>, index: nat, eof: bool, stop: u64, limit: nat, m: nat)
    requires Valid(s) && FitsUpTo(s, m) && stop <= index + |data|
    requires limit == WindowEnd(s) && (Min(stop, limit) <= m || Min(stop, limit) <= Max(s.unasb, index))
    ensures var s' := PushUpTo(s, data, index, eof, stop, limit);
      && Valid(s') && ViewOf(s') == PushViewUpTo(ViewOf(s), data, index, eof, stop)
      && Tidy(s'.t, s'.unasb + 1, m)
  {
    hide Stored, Accept, Assemble, Drain, PutAll, Gaps, Total, Close, Lap, Ascending;
    var idx := Max(s.unasb, index);
    var end := Min(stop, limit);
    var s1 := if eof then s.(eof2 := stop) else s;
    var v := AcceptView(ViewOf(s), data, index, eof, stop);
    assert v == View(s.out, Accept(Stored(s.t), idx, end, data, index), s1.eof2);
    if end <= idx {
      AcceptNothing(Stored(s.t), idx, end, data, index);
      NothingToAssemble(s1);
      FinishCloses(s1);
      assert ViewOf(s1) == v;
    } else {
      var s2 := Insert(s1, idx, end, data, index);
      InsertAccepts(s1, idx, end, data, index, m);
      TidyWeaken(s2.t, s2.unasb, m, s2.unasb, limit);
      DrainAssembles(s2);
      DrainTidy(s2, m);
      assert ViewOf(s2) == v;
      FinishCloses(Drain(s2));
    }
  }

  /** `push_substring` refines the partial map: exactly the missing bytes of the pushed string
      that fit the window are added, and the contiguous prefix moves to the output. It is
      enough that no stored byte and no pushed byte of the window lies past `m`, and that
      narrowing keeps the order up to there. */
  lemma PushRefinesUpTo(s: Store, data: seq<byte>, index: u64, eof: bool, m: nat)
    requires Valid(s) && FitsUpTo(s, m)
    requires var end := Min(U64(index + |data|), WindowEnd(s)); end <= m || end <= Max(s.unasb, index)
    ensures var s' := Push(s, data, index, eof);
      && Valid(s') && ViewOf(s') == PushView(ViewOf(s), data, index, eof)
      && Tidy(s'.t, s'.unasb + 1, m)
  {
    hide PushUpTo, PushViewUpTo, ViewOf, Valid, FitsUpTo;
    U64Small(index + |data|);
    FitsBelow(s, m);
    U64Small(WindowEnd(s));
    PushUpToRefines(s, data, index, eof, U64(index + |data|), Limit(s), m);
  }

  lemma FitsBelow(s: Store, m: nat)
    requires FitsUpTo(s, m)
    ensures WindowEnd(s) < 0x1_0000_0000_0000_0000
  {
  }

  /** In particular while narrowing keeps the order of the whole window, or nothing is stored. */
  lemma PushRefines(s: Store, data: seq<byte>, index: u64, eof: bool)
    requires Valid(s) && Fits(s)
    ensures Valid(Push(s, data, index, eof))
    ensures ViewOf(Push(s, data, index, eof)) == PushView(ViewOf(s), data, index, eof)
  {
    PushRefinesUpTo(s, data, index, eof, WindowEnd(s));
  }

  lemma FinishCloses(s: Store)
    requires Valid(s)
    ensures Valid(Finish(s)) && ViewOf(Finish(s)) == Close(ViewOf(s))
    ensures Finish(s).t == s.t && Finish(s).unasb == s.unasb
  {
  }

  lemma AcceptNothing(stored: map<nat, byte>, lo: nat, hi: nat, data: seq<byte>, index: nat)
    requires hi <= lo
    ensures Accept(stored, lo, hi, data, index) == stored
  {
  }

  lemma OnePiece(idx: nat, end: nat, data: seq<byte>, index: nat)
    requires index <= idx < end <= index + |data|
    ensures |Gaps([], idx, end, data, index)| == 1
  {
  }

  lemma InsertAccepts(s: Store, idx: nat, end: nat, data: seq<byte>, index: nat, m: nat)
    requires Valid(s) && FitsUpTo(s, m)
    requires index <= idx < end <= index + |data| && s.unasb <= idx && end <= m
    ensures var s' := Insert(s, idx, end, data, index);
      && Tidy(s'.t, s.unasb, m) && Ascending(s'.t)
      && Stored(s'.t) == Accept(Stored(s.t), idx, end, data, index)
      && s'.szUnasb == Total(s'.t)
  {
    hide Before, Lap;
    var g := Gaps(s.t, idx, end, data, index);
    GapsAreMissing(s.t, s.unasb + 1, m, idx, end, data, index);
    if s.t == [] { OnePiece(idx, end, data, index); }
    TidyWeaken(s.t, s.unasb + 1, m, s.unasb, m);
    TidyWeaken(g, idx, end, s.unasb, m);
    PutAllAdds(s.t, g, s.unasb, m);
    PutAllAscends(s.t, g);
  }
}
