/** What a receiver makes of genuine segments: it holds only bytes of the sender's stream, at
    their own indices, and ends only where that stream ends. */
module Delivery {
  import opened Types
  import opened WrappingIntegers
  import opened TcpSegments
  import opened Sending
  import opened Honesty
  import opened Reassembly
  import opened ReassemblyMeaning
  import opened ReassemblyTheorems
  import opened Receiving
  import Streams

  /** Everything held is a byte of `S`. */
  ghost predicate HoldsOnly(v: View, S: seq<byte>) {
    forall k: nat :: Held(v, k).Some? ==> k < |S| && Held(v, k).value == S[k]
  }

  /** The announced end is the end of `S`, or out of reach. */
  predicate EndsAt(eof2: u64, S: seq<byte>, closed: bool) {
    eof2 != NO_EOF ==> closed && (eof2 <= |S| ==> eof2 == |S|)
  }

  ghost predicate Truthful(st: Store, S: seq<byte>, closed: bool) {
    && Valid(st)
    && HoldsOnly(ViewOf(st), S)
    && EndsAt(st.eof2, S, closed)
    && (st.out.ended ==> closed && st.unasb == |S|)
  }

  lemma HeldPrefix(v: View, S: seq<byte>)
    requires HoldsOnly(v, S)
    ensures v.out.written <= S
  {
    var n := |v.out.written|;
    assert n > 0 ==> Held(v, n - 1) == Some(v.out.written[n - 1]);
    assert forall k: nat :: k < n ==> Held(v, k) == Some(v.out.written[k]);
  }

  /** The receiver of the stream that `s` sends. */
  ghost predicate Faithful(r: Receiver, s: Sender) {
    && Truthful(r.store, s.stream.written, s.finSent)
    && (r.status != Listen ==> r.isn == s.isn && s.next > 0)
  }

  lemma FreshFaithful(capacity: nat, s: Sender)
    ensures Faithful(FreshReceiver(capacity), s)
  {
  }

  // ---- pushing ----

  /** An index without its whole turns of 2^32. */
  function Turn(index: u64): nat {
    index % 0x1_0000_0000
  }

  /** What a genuine segment pushes. */
  predicate Excerpt(data: seq<byte>, index: u64, eof: bool, S: seq<byte>, closed: bool) {
    && (data != [] ==> Turn(index) + |data| <= |S| && data == S[Turn(index)..Turn(index) + |data|])
    && (eof ==> EndsAt(U64(index + |data|), S, closed))
  }

  lemma TurnSmall(index: u64)
    requires index < 0x1_0000_0000
    ensures Turn(index) == index
  {
  }

  lemma TurnIs(index: u64, i: nat, k: int)
    requires index == i + k * 0x1_0000_0000 && i < 0x1_0000_0000
    ensures Turn(index) == i
  {
    SameRemainder(index, i, k);
  }

  /** A stream of `n` bytes stays below the point where narrowing wraps, and the window below
      the next turn of the sequence numbers. */
  predicate Fitting(n: nat, cap: nat) {
    n < 0x8000_0000 && n + cap < 0x1_0000_0000
  }

  /** An excerpt inside the window is where it says. */
  lemma ExcerptAt(data: seq<byte>, index: u64, eof: bool, S: seq<byte>, closed: bool, k: nat)
    requires Excerpt(data, index, eof, S, closed) && |S| < 0x8000_0000
    requires index <= k < index + |data| && k < 0x1_0000_0000
    ensures k < |S| && data[k - index] == S[k]
  {
    TurnSmall(index);
  }

  lemma {:induction false} TidyWithin(t: seq<Interval>, from: nat, limit: nat, m: nat)
    requires Tidy(t, from, limit) && forall k :: k in Stored(t) ==> k < m
    ensures Tidy(t, from, m)
  {
    if t != [] {
      assert t[0].hi - 1 in Bytes(t[0]) && t[0].hi - 1 in Stored(t);
      assert forall k :: k in Stored(t[1..]) ==> k in Stored(t);
      TidyWithin(t[1..], t[0].hi, limit, m);
    }
  }

  /** Nothing past the end of the stream is stored. */
  lemma TruthfulFits(st: Store, S: seq<byte>, closed: bool)
    requires Truthful(st, S, closed) && Fitting(|S|, st.out.cap)
    ensures FitsUpTo(st, Min(|S|, WindowEnd(st))) && WindowEnd(st) < 0x1_0000_0000
  {
    HeldPrefix(ViewOf(st), S);
    ValidWaits(st);
    var m := Min(|S|, WindowEnd(st));
    forall k | k in Stored(st.t) ensures k < m { assert Held(ViewOf(st), k).Some?; }
    TidyWithin(st.t, st.unasb + 1, WindowEnd(st), m);
  }

  /** Of an excerpt, nothing past the end of the stream falls in the window. */
  lemma ExcerptEnds(data: seq<byte>, index: u64, eof: bool, S: seq<byte>, closed: bool, limit: nat)
    requires Excerpt(data, index, eof, S, closed) && |S| < 0x8000_0000 && limit < 0x1_0000_0000
    ensures var end := Min(U64(index + |data|), limit); end <= Min(|S|, limit) || end <= index
  {
    U64Small(index + |data|);
    if data != [] && index < 0x1_0000_0000 { TurnSmall(index); }
  }

  /** What pushing an excerpt does, in whatever window. */
  lemma ExcerptPushed(st: Store, data: seq<byte>, index: u64, eof: bool, S: seq<byte>, closed: bool, k: nat)
    requires Truthful(st, S, closed) && Excerpt(data, index, eof, S, closed) && Fitting(|S|, st.out.cap)
    ensures Valid(Push(st, data, index, eof))
    ensures var v, v', stop := ViewOf(st), ViewOf(Push(st, data, index, eof)), U64(index + |data|);
      && stop <= index + |data|
      && Held(v', k) == (if Held(v, k).Some? then Held(v, k)
                         else if index <= k < Min(stop, v.out.read + v.out.cap) then Some(data[k - index])
                         else None)
      && Pushed(v, v', data, index, eof, stop)
  {
    hide Push, PushView, Excerpt, HoldsOnly, FitsUpTo, U64, Held, Pushed;
    TruthfulFits(st, S, closed);
    ExcerptEnds(data, index, eof, S, closed, WindowEnd(st));
    PushRefinesUpTo(st, data, index, eof, Min(|S|, WindowEnd(st)));
    RefinedHeld(st, data, index, eof, k);
  }

  lemma PushHoldsOnly(st: Store, data: seq<byte>, index: u64, eof: bool, S: seq<byte>, closed: bool)
    requires Truthful(st, S, closed) && Excerpt(data, index, eof, S, closed) && Fitting(|S|, st.out.cap)
    ensures HoldsOnly(ViewOf(Push(st, data, index, eof)), S)
  {
    hide Push, Excerpt, ViewOf;
    TruthfulFits(st, S, closed);
    SameBounds(st);
    forall k: nat | Held(ViewOf(Push(st, data, index, eof)), k).Some?
      ensures k < |S| && Held(ViewOf(Push(st, data, index, eof)), k).value == S[k]
    {
      ExcerptPushed(st, data, index, eof, S, closed, k);
      if Held(ViewOf(st), k).None? { ExcerptAt(data, index, eof, S, closed, k); }
    }
  }

  lemma PushTruthful(st: Store, data: seq<byte>, index: u64, eof: bool, S: seq<byte>, closed: bool)
    requires Truthful(st, S, closed) && Excerpt(data, index, eof, S, closed) && Fitting(|S|, st.out.cap)
    ensures Truthful(Push(st, data, index, eof), S, closed)
    ensures Push(st, data, index, eof).out.cap == st.out.cap
  {
    hide Push, Excerpt, ViewOf, Pushed, HoldsOnly;
    PushHoldsOnly(st, data, index, eof, S, closed);
    ExcerptPushed(st, data, index, eof, S, closed, 0);
    SameBounds(st);
    SameBounds(Push(st, data, index, eof));
    PushedCap(ViewOf(st), ViewOf(Push(st, data, index, eof)), data, index, eof);
    ExcerptFacts(data, index, eof, S, closed);
    HeldPrefix(ViewOf(Push(st, data, index, eof)), S);
    PushEnds(ViewOf(st), ViewOf(Push(st, data, index, eof)), data, index, eof, S, closed);
  }

  lemma PushedCap(v: View, v': View, data: seq<byte>, index: u64, eof: bool)
    requires Pushed(v, v', data, index, eof, U64(index + |data|))
    ensures v'.out.cap == v.out.cap
  {
  }

  lemma ExcerptFacts(data: seq<byte>, index: u64, eof: bool, S: seq<byte>, closed: bool)
    requires Excerpt(data, index, eof, S, closed)
    ensures eof ==> EndsAt(U64(index + |data|), S, closed)
  {
  }

  lemma PushEnds(v: View, v': View, data: seq<byte>, index: u64, eof: bool, S: seq<byte>, closed: bool)
    requires EndsAt(v.eof2, S, closed) && (v.out.ended ==> closed && |v.out.written| == |S|)
    requires Pushed(v, v', data, index, eof, U64(index + |data|)) && v'.out.written <= S
    requires eof ==> EndsAt(U64(index + |data|), S, closed)
    requires |S| < 0x8000_0000
    ensures EndsAt(v'.eof2, S, closed) && (v'.out.ended ==> closed && |v'.out.written| == |S|)
  {
  }

  // ---- the receiver ----

  /** The stream index of a segment is its sequence number past the SYN, up to whole turns. */
  lemma IndexTurns(n: u32, isn: u32, cp: u64) returns (k: int)
    ensures U64(Unwrap(n, isn, cp) - 1) == Offset(n, isn) - 1 + k * 0x1_0000_0000
  {
    var u: int := Unwrap(n, isn, cp);
    UnwrapCongruent(n, isn, cp);
    var i := Turns(u, isn);
    WrapOffset(n, isn);
    var j := Turns(Offset(n, isn), isn);
    var l := U64Mod(u - 1);
    k := i - j + l;
  }

  lemma EndTurns(index: u64, len: nat, i: nat, k: int, S: seq<byte>, closed: bool)
    requires index == i + k * 0x1_0000_0000 && i + len == |S| < 0x8000_0000 && closed
    ensures EndsAt(U64(index + len), S, closed)
  {
    var j := U64Mod(index + len);
  }

  lemma GenuineExcerpt(r: Receiver, s: Sender, seg: TCPSegment)
    requires Genuine(s, seg) && |s.stream.written| < 0x8000_0000
    requires !seg.header.syn ==> r.isn == s.isn
    ensures Excerpt(seg.payload, IndexOf(r, seg.header), seg.header.fin, s.stream.written, s.finSent)
  {
    var h, S := seg.header, s.stream.written;
    if !h.syn {
      var k := IndexTurns(h.seqno, s.isn, r.cp);
      var i, index := Offset(h.seqno, s.isn) - 1, IndexOf(r, h);
      if seg.payload != [] { TurnIs(index, i, k); }
      if h.fin { EndTurns(index, |seg.payload|, i, k, S, s.finSent); }
    } else if h.fin {
      U64Small(r.cp);
    }
  }

  lemma ReceivedIs(r: Receiver, seg: TCPSegment)
    ensures var r', h := SegmentReceived(r, seg), seg.header;
      if r.status == Listen && !h.syn then r' == r.(cp := r'.cp)
      else
        && r'.status != Listen
        && r'.isn == (if h.syn then h.seqno else r.isn)
        && r'.store == Push(r.store, seg.payload, IndexOf(r, h), h.fin)
  {
  }

  /** A genuine segment, however late, repeated or reordered, keeps the receiver faithful. */
  lemma ReceiveFaithful(r: Receiver, s: Sender, seg: TCPSegment)
    requires Faithful(r, s) && Genuine(s, seg)
    requires Fitting(|s.stream.written|, r.store.out.cap)
    ensures Faithful(SegmentReceived(r, seg), s)
    ensures SegmentReceived(r, seg).store.out.cap == r.store.out.cap
  {
    ReceivedIs(r, seg);
    if r.status != Listen || seg.header.syn {
      GenuineExcerpt(r, s, seg);
      PushTruthful(r.store, seg.payload, IndexOf(r, seg.header), seg.header.fin, s.stream.written, s.finSent);
      if seg.header.syn { WrapOffset(seg.header.seqno, s.isn); SynIsn(seg.header.seqno, s.isn); }
    }
  }

  lemma SynIsn(n: u32, isn: u32)
    requires Offset(n, isn) == 0
    ensures n == isn
  {
    WrapOffset(n, isn);
  }

  /** The application reading, or an error flag, changes nothing that is held. */
  lemma OutputFaithful(r: Receiver, s: Sender, r': Receiver)
    requires Faithful(r, s)
    requires r' == r.(store := r.store.(out := r'.store.out))
    requires r'.store.out == r.store.out.(read := r'.store.out.read, error := r'.store.out.error)
    requires r.store.out.read <= r'.store.out.read
    ensures Faithful(r', s)
  {
    var u, limit := r.store.unasb, r.store.out.read + r.store.out.cap;
    TidyWeaken(r.store.t, u + 1, limit, u + 1, r'.store.out.read + r'.store.out.cap);
    forall k: nat ensures Held(ViewOf(r'.store), k) == Held(ViewOf(r.store), k) {}
  }

  /** The sender writing and sending more. */
  lemma SenderFaithful(r: Receiver, s: Sender, s': Sender)
    requires Faithful(r, s) && Grows(s, s')
    ensures Faithful(r, s')
  {
    var S, S' := s.stream.written, s'.stream.written;
    HeldPrefix(ViewOf(r.store), S);
    assert forall k: nat :: k < |S| ==> S[k] == S'[k];
  }
}
