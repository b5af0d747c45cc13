/** When the receiver's acknowledgments are sound. */
module Acknowledging {
  import opened Types
  import opened WrappingIntegers
  import opened TcpSegments
  import opened Sending
  import opened Honesty
  import opened Reassembly
  import opened ReassemblyMeaning
  import opened ReassemblyTheorems
  import opened Receiving
  import opened Delivery
  import Streams

  /** The highest absolute acknowledgment the receiver is entitled to give. */
  function Top(r: Receiver): nat {
    1 + r.store.unasb + (if r.store.out.ended then 1 else 0)
  }

  /** The announced end is behind a byte that is already stored. */
  predicate LastStored(st: Store) {
    0 < st.eof2 < NO_EOF && st.eof2 - 1 in Stored(st.t)
  }

  predicate Settled(st: Store) {
    st.out.ended || LastStored(st)
  }

  /** A FIN that has been noted has either ended the stream or left its last byte waiting. */
  predicate FinSettled(r: Receiver) {
    r.status == FinRecv ==> Settled(r.store)
  }

  /** `ackno` never exceeds what has been assembled, except when a FIN has been noted, nothing
      is stored and the stream has not ended. */
  lemma AcknoSoundIff(r: Receiver)
    requires r.status != Listen && r.store.unasb < 0x8000_0000
    ensures Offset(Ackno(r).value, r.isn) <= Top(r)
      <==> !(r.status == FinRecv && r.store.szUnasb == 0 && !r.store.out.ended)
  {
    OffsetWrap(r.store.unasb + r.status.Number(), r.isn);
    OffsetWrap(r.store.unasb + 1, r.isn);
  }

  lemma SettledIsSound(r: Receiver)
    requires Valid(r.store) && FinSettled(r) && r.status != Listen && r.store.unasb < 0x8000_0000
    ensures Offset(Ackno(r).value, r.isn) <= Top(r)
  {
    AcknoSoundIff(r);
    MemoryBound(r.store);
    if LastStored(r.store) { assert r.store.eof2 - 1 in Stored(r.store.t).Keys; }
  }

  /** The receiver can tell beforehand whether an announced end will settle: the stream has
      already ended, or the data carries the last byte inside the window, or everything
      before the end is assembled, or the last byte before it is stored. */
  predicate Lands(st: Store, data: seq<byte>, index: u64) {
    var stop := U64(index + |data|);
    || st.out.ended
    || (data != [] && stop <= st.out.read + st.out.cap)
    || stop <= st.unasb
    || stop - 1 in Stored(st.t)
  }

  predicate FinLands(r: Receiver, seg: TCPSegment) {
    Lands(r.store, seg.payload, IndexOf(r, seg.header))
  }

  lemma StopExact(data: seq<byte>, index: u64, eof: bool, S: seq<byte>, closed: bool)
    requires Excerpt(data, index, eof, S, closed) && |S| < 0x8000_0000
    ensures U64(index + |data|) == index + |data|
  {
    hide U64;
    if data != [] { TurnRoom(index, |data|); }
    U64Small(index + |data|);
  }

  lemma TurnRoom(index: u64, n: nat)
    requires Turn(index) + n < 0x1_0000_0000
    ensures index + n < 0x1_0000_0000_0000_0000
  {
    var turns := index / 0x1_0000_0000;
    assert index == turns * 0x1_0000_0000 + Turn(index);
    assert turns < 0x1_0000_0000;
  }

  /** The end `stop` is behind a byte that is assembled or stored. */
  predicate Reaches(v: View, stop: u64) {
    stop == 0 || Held(v, stop - 1).Some?
  }

  lemma ReachesIff(v: View, stop: u64)
    ensures Reaches(v, stop) <==> stop <= |v.out.written| || stop - 1 in v.stored
  {
  }

  /** After a push, an announced end is settled exactly when its last byte is held. */
  lemma SettledIffReached(v': View, S: seq<byte>, stop: u64, before: bool)
    requires HoldsOnly(v', S) && |S| < 0x8000_0000 && EndsAt(stop, S, true)
    requires if |v'.out.written| == stop then v'.out.ended else v'.eof2 == stop && v'.out.ended == before
    ensures v'.out.ended || (0 < v'.eof2 < NO_EOF && v'.eof2 - 1 in v'.stored) <==> before || Reaches(v', stop)
  {
    HeldPrefix(v', S);
  }

  /** The last byte is held after the push exactly when the receiver could tell before. */
  lemma ReachedIff(st: Store, data: seq<byte>, index: u64, S: seq<byte>, closed: bool, stop: u64)
    requires Truthful(st, S, closed) && Excerpt(data, index, true, S, closed) && Fitting(|S|, st.out.cap)
    requires stop == index + |data|
    ensures Reaches(ViewOf(Push(st, data, index, true)), stop)
      <==> Reaches(ViewOf(st), stop) || (data != [] && stop <= st.out.read + st.out.cap)
  {
    hide Push, U64, Excerpt, Truthful;
    U64Small(stop);
    SameBounds(st);
    if stop > 0 { ExcerptPushed(st, data, index, true, S, closed, stop - 1); }
  }

  /** A push that announces an end settles it exactly when the receiver could tell before. */
  lemma PushSettles(st: Store, data: seq<byte>, index: u64, S: seq<byte>, closed: bool)
    requires Truthful(st, S, closed) && Excerpt(data, index, true, S, closed)
    requires Fitting(|S|, st.out.cap)
    ensures Settled(Push(st, data, index, true)) <==> Lands(st, data, index)
  {
    StopExact(data, index, true, S, closed);
    PushHoldsOnly(st, data, index, true, S, closed);
    ExcerptPushed(st, data, index, true, S, closed, 0);
    ReachedIff(st, data, index, S, closed, U64(index + |data|));
    LandsIff(st, Push(st, data, index, true), data, index, S, U64(index + |data|));
  }

  lemma LandsIff(st: Store, st': Store, data: seq<byte>, index: u64, S: seq<byte>, stop: u64)
    requires st.unasb == |st.out.written| && stop == U64(index + |data|)
    requires HoldsOnly(ViewOf(st'), S) && |S| < 0x8000_0000 && EndsAt(stop, S, true)
    requires Pushed(ViewOf(st), ViewOf(st'), data, index, true, stop)
    requires Reaches(ViewOf(st'), stop)
      <==> Reaches(ViewOf(st), stop) || (data != [] && stop <= st.out.read + st.out.cap)
    ensures Settled(st') <==> Lands(st, data, index)
  {
    hide HoldsOnly, Held, Reaches, Stored;
    SettledIffReached(ViewOf(st'), S, stop, st.out.ended);
    ReachesIff(ViewOf(st), stop);
  }

  /** For a genuine FIN, the test is exact. */
  lemma FinLandsIff(r: Receiver, s: Sender, seg: TCPSegment)
    requires Faithful(r, s) && Genuine(s, seg) && seg.header.fin
    requires Fitting(|s.stream.written|, r.store.out.cap)
    requires r.status != Listen || seg.header.syn
    ensures FinSettled(SegmentReceived(r, seg)) <==> FinLands(r, seg)
  {
    GenuineExcerpt(r, s, seg);
    PushSettles(r.store, seg.payload, IndexOf(r, seg.header), s.stream.written, s.finSent);
    FinReceived(r, seg);
  }

  lemma FinReceived(r: Receiver, seg: TCPSegment)
    requires seg.header.fin && (r.status != Listen || seg.header.syn)
    ensures var r' := SegmentReceived(r, seg);
      r'.status == FinRecv && r'.store == Push(r.store, seg.payload, IndexOf(r, seg.header), true)
  {
  }

  // ---- what later segments keep ----

  /** A settled end stays settled when more data is pushed. */
  lemma StaysSettled(st: Store, data: seq<byte>, index: u64, S: seq<byte>, closed: bool)
    requires Truthful(st, S, closed) && Excerpt(data, index, false, S, closed)
    requires Fitting(|S|, st.out.cap)
    requires Settled(st)
    ensures Settled(Push(st, data, index, false))
  {
    hide Push, U64, Excerpt;
    var v, v' := ViewOf(st), ViewOf(Push(st, data, index, false));
    PushHoldsOnly(st, data, index, false, S, closed);
    ExcerptPushed(st, data, index, false, S, closed, if LastStored(st) then st.eof2 - 1 else 0);
    ValidWaits(st);
    if !st.out.ended {
      LastReached(st);
      SettledIffReached(v', S, st.eof2, false);
    }
  }

  lemma LastReached(st: Store)
    requires Valid(st) && LastStored(st)
    ensures Held(ViewOf(st), st.eof2 - 1).Some?
  {
  }

  lemma PlainReceived(r: Receiver, seg: TCPSegment)
    requires !seg.header.fin && SegmentReceived(r, seg).status == FinRecv
    ensures r.status == FinRecv && !seg.header.syn
    ensures SegmentReceived(r, seg).store == Push(r.store, seg.payload, IndexOf(r, seg.header), false)
  {
  }

  /** One delivery: the receiver stays settled if a FIN lands. */
  lemma ReceiveSettled(r: Receiver, s: Sender, seg: TCPSegment)
    requires Faithful(r, s) && Genuine(s, seg) && FinSettled(r)
    requires Fitting(|s.stream.written|, r.store.out.cap)
    requires seg.header.fin && (r.status != Listen || seg.header.syn) ==> FinLands(r, seg)
    ensures FinSettled(SegmentReceived(r, seg))
  {
    if seg.header.fin {
      if r.status != Listen || seg.header.syn { FinLandsIff(r, s, seg); }
    } else if SegmentReceived(r, seg).status == FinRecv {
      PlainReceived(r, seg);
      GenuineExcerpt(r, s, seg);
      StaysSettled(r.store, seg.payload, IndexOf(r, seg.header), s.stream.written, s.finSent);
    }
  }

  lemma PushTopGrows(st: Store, data: seq<byte>, index: u64, eof: bool, S: seq<byte>, closed: bool)
    requires Truthful(st, S, closed) && Excerpt(data, index, eof, S, closed) && Fitting(|S|, st.out.cap)
    ensures var st' := Push(st, data, index, eof);
      st.unasb <= st'.unasb && (st.out.ended ==> st'.out.ended)
  {
    hide Push, Excerpt, HoldsOnly, Held, Tidy, Ascending, U64;
    ExcerptPushed(st, data, index, eof, S, closed, 0);
  }

  /** What the receiver may acknowledge never shrinks. */
  lemma TopGrows(r: Receiver, s: Sender, seg: TCPSegment)
    requires Faithful(r, s) && Genuine(s, seg)
    requires Fitting(|s.stream.written|, r.store.out.cap)
    ensures Top(r) <= Top(SegmentReceived(r, seg))
  {
    hide Push, Excerpt, Unwrap;
    ReceivedIs(r, seg);
    if r.status != Listen || seg.header.syn {
      GenuineExcerpt(r, s, seg);
      PushTopGrows(r.store, seg.payload, IndexOf(r, seg.header), seg.header.fin, s.stream.written, s.finSent);
    }
  }

  // ---- a FIN that does not land does harm ----

  /** The receiver acknowledges more than it has assembled. */
  predicate OverAcks(r: Receiver) {
    r.status != Listen && Offset(Ackno(r).value, r.isn) > Top(r)
  }

  /** Data, or a bare segment. */
  ghost predicate Ordinary(s: Sender, seg: TCPSegment) {
    Genuine(s, seg) && !seg.header.syn && !seg.header.fin
  }

  /** One past the last stored index. */
  function StoredEnd(t: seq<Interval>, from: nat): nat {
    if t == [] then from else StoredEnd(t[1..], t[0].hi)
  }

  lemma LastOf(c: Interval)
    requires c.lo < c.hi
    ensures c.hi - 1 in Bytes(c) && forall k :: k in Bytes(c) ==> k < c.hi
  {
  }

  lemma {:induction false} StoredEndIs(t: seq<Interval>, from: nat, limit: nat)
    requires Tidy(t, from, limit) && from <= limit
    ensures from <= StoredEnd(t, from) <= limit
    ensures forall k :: k in Stored(t) ==> k < StoredEnd(t, from)
    ensures t != [] ==> StoredEnd(t, from) > 0 && StoredEnd(t, from) - 1 in Stored(t)
    ensures t == [] ==> StoredEnd(t, from) == from
  {
    if t != [] {
      StoredEndIs(t[1..], t[0].hi, limit);
      LastOf(t[0]);
    }
  }

  /** The bytes from the first missing one to the last stored one. */
  function Filler(r: Receiver, s: Sender): TCPSegment
    requires r.store.unasb <= StoredEnd(r.store.t, r.store.unasb) <= |s.stream.written|
  {
    var u := r.store.unasb;
    Plain(Wrap(u + 1, s.isn), false, false, s.stream.written[u..StoredEnd(r.store.t, u)])
  }

  lemma DecodesNear(v: nat, isn: u32, cp: u64)
    requires 1 <= v <= 0x8000_0000 && cp < 0x8000_0000
    ensures U64(Unwrap(Wrap(v, isn), isn, cp) - 1) == v - 1
  {
    UnwrapExactIff(v, isn, cp);
    U64Small(v - 1);
  }

  lemma StoredInside(r: Receiver, s: Sender)
    requires Faithful(r, s)
    ensures var hi := StoredEnd(r.store.t, r.store.unasb);
      && r.store.unasb <= hi <= |s.stream.written| && hi <= WindowEnd(r.store)
      && (forall k :: k in Stored(r.store.t) ==> k < hi)
      && (hi > r.store.unasb ==> hi - 1 in Stored(r.store.t))
  {
    var st, u := r.store, r.store.unasb;
    HeldPrefix(ViewOf(st), s.stream.written);
    TidyWeaken(st.t, u + 1, WindowEnd(st), u, WindowEnd(st));
    StoredEndIs(st.t, u, WindowEnd(st));
    if st.t != [] { assert Held(ViewOf(st), StoredEnd(st.t, u) - 1).Some?; }
  }

  /** The filler leaves nothing stored and nothing missing in front of the last stored byte. */
  lemma FillerFills(st: Store, data: seq<byte>, S: seq<byte>, closed: bool, hi: nat)
    requires Truthful(st, S, closed) && Fitting(|S|, st.out.cap)
    requires st.unasb <= hi <= WindowEnd(st) && hi <= |S| && data == S[st.unasb..hi]
    requires (forall k :: k in Stored(st.t) ==> k < hi) && st.eof2 != hi
    ensures var st' := Push(st, data, st.unasb, false);
      st'.unasb == hi && st'.szUnasb == 0 && st'.out.ended == st.out.ended
  {
    hide Push, Tidy, Ascending, Excerpt;
    var v, v' := ViewOf(st), ViewOf(Push(st, data, st.unasb, false));
    U64Small(hi);
    FillerExcerpt(st.unasb, hi, S, closed);
    forall k: nat ensures Held(v', k).Some? <==> k < hi { ExcerptPushed(st, data, st.unasb, false, S, closed, k); }
    ExcerptPushed(st, data, st.unasb, false, S, closed, 0);
    HeldUpTo(v', hi);
    MemoryBound(Push(st, data, st.unasb, false));
  }

  lemma FillerExcerpt(u: nat, hi: nat, S: seq<byte>, closed: bool)
    requires u <= hi <= |S| < 0x8000_0000
    ensures Excerpt(S[u..hi], u, false, S, closed)
  {
    TurnSmall(u);
  }

  lemma HeldUpTo(v: View, hi: nat)
    requires Waiting(v) && forall k: nat :: Held(v, k).Some? <==> k < hi
    ensures |v.out.written| == hi && v.stored == map[]
  {
    var w := |v.out.written|;
    assert !Held(v, w).Some?;
    assert w > 0 ==> Held(v, w - 1).Some?;
    assert forall k: nat :: k in v.stored ==> Held(v, k).Some?;
  }

  lemma FillerReceived(r: Receiver, s: Sender, hi: nat)
    requires Faithful(r, s) && r.status == FinRecv && r.store.unasb < 0x8000_0000 && r.cp < 0x8000_0000
    requires hi == StoredEnd(r.store.t, r.store.unasb) && r.store.unasb <= hi <= |s.stream.written|
    ensures var d := Filler(r, s);
      && SegmentReceived(r, d) == r.(cp := r.store.unasb, store := Push(r.store, d.payload, r.store.unasb, false))
      && d.payload == s.stream.written[r.store.unasb..hi]
  {
    hide Push, Unwrap, Wrap, StoredEnd;
    DecodesNear(r.store.unasb + 1, s.isn, r.cp);
  }

  lemma FillerGenuine(r: Receiver, s: Sender, hi: nat)
    requires hi == StoredEnd(r.store.t, r.store.unasb) && r.store.unasb <= hi <= |s.stream.written| < 0x8000_0000
    ensures Ordinary(s, Filler(r, s))
  {
    hide Wrap, Offset, StoredEnd;
    OffsetWrap(r.store.unasb + 1, s.isn);
  }

  lemma FillerOverAcks(r: Receiver, s: Sender)
    requires Faithful(r, s) && r.status == FinRecv && !Settled(r.store) && r.store.eof2 != r.store.unasb && r.cp < 0x8000_0000
    requires Fitting(|s.stream.written|, r.store.out.cap)
    ensures r.store.unasb <= StoredEnd(r.store.t, r.store.unasb) <= |s.stream.written|
    ensures Ordinary(s, Filler(r, s)) && OverAcks(SegmentReceived(r, Filler(r, s)))
  {
    hide Push, Offset, Stored, HoldsOnly, Tidy, Ascending, StoredEnd, Ackno, Filler, SegmentReceived, Ordinary;
    StoredInside(r, s);
    var u, hi := r.store.unasb, StoredEnd(r.store.t, r.store.unasb);
    HeldPrefix(ViewOf(r.store), s.stream.written);
    FillerGenuine(r, s, hi);
    FillerReceived(r, s, hi);
    FillerFills(r.store, s.stream.written[u..hi], s.stream.written, s.finSent, hi);
    AcknoSoundIff(SegmentReceived(r, Filler(r, s)));
  }

  /** The state a FIN leaves behind. */
  lemma FinLeaves(r: Receiver, s: Sender, seg: TCPSegment)
    requires Faithful(r, s) && Genuine(s, seg) && seg.header.fin && r.cp < 0x8000_0000
    requires Fitting(|s.stream.written|, r.store.out.cap)
    requires r.status != Listen || seg.header.syn
    ensures var r' := SegmentReceived(r, seg);
      && Faithful(r', s) && r'.status == FinRecv && r'.cp < 0x8000_0000 && r'.store.out.cap == r.store.out.cap
      && (!r'.store.out.ended ==> r'.store.eof2 != r'.store.unasb)
  {
    hide Push, Unwrap, Excerpt, HoldsOnly, Truthful, Genuine;
    ReceiveFaithful(r, s, seg);
    FinReceived(r, seg);
    CpAfterFin(r, s, seg);
    GenuineExcerpt(r, s, seg);
    FaithfulStore(r, s);
    ExcerptPushed(r.store, seg.payload, IndexOf(r, seg.header), true, s.stream.written, s.finSent, 0);
    EndUnmet(r.store, SegmentReceived(r, seg).store, seg.payload, IndexOf(r, seg.header));
  }

  lemma FaithfulStore(r: Receiver, s: Sender)
    requires Faithful(r, s)
    ensures Truthful(r.store, s.stream.written, s.finSent) && (r.status != Listen ==> r.isn == s.isn)
  {
  }

  lemma EndUnmet(st: Store, st': Store, data: seq<byte>, index: u64)
    requires Valid(st') && Pushed(ViewOf(st), ViewOf(st'), data, index, true, U64(index + |data|))
    ensures !st'.out.ended ==> st'.eof2 != st'.unasb
  {
  }

  lemma CpAfterFin(r: Receiver, s: Sender, seg: TCPSegment)
    requires Faithful(r, s) && Genuine(s, seg) && seg.header.fin && r.cp < 0x8000_0000
    requires |s.stream.written| < 0x8000_0000 && (r.status != Listen || seg.header.syn)
    ensures SegmentReceived(r, seg).cp == IndexOf(r, seg.header) < 0x8000_0000
  {
    if !seg.header.syn {
      WrapOffset(seg.header.seqno, s.isn);
      DecodesNear(Offset(seg.header.seqno, s.isn), s.isn, r.cp);
    }
  }

  /** A genuine FIN lands exactly if no genuine data or bare segment delivered next makes the
      receiver acknowledge more than it has assembled. */
  lemma FinLandsExact(r: Receiver, s: Sender, seg: TCPSegment)
    requires Faithful(r, s) && Genuine(s, seg) && seg.header.fin && r.cp < 0x8000_0000
    requires Fitting(|s.stream.written|, r.store.out.cap)
    requires r.status != Listen || seg.header.syn
    ensures FinLands(r, seg)
      <==> forall d: TCPSegment :: Ordinary(s, d) ==> !OverAcks(SegmentReceived(SegmentReceived(r, seg), d))
  {
    hide SegmentReceived, FinLands, Faithful, OverAcks, Genuine;
    var r' := SegmentReceived(r, seg);
    FinLeaves(r, s, seg);
    FinLandsIff(r, s, seg);
    if FinLands(r, seg) {
      forall d: TCPSegment | Ordinary(s, d) ensures !OverAcks(SegmentReceived(r', d)) { OrdinarySound(r', s, d); }
    } else {
      FillerOverAcks(r', s);
    }
  }

  lemma OrdinarySound(r: Receiver, s: Sender, d: TCPSegment)
    requires Faithful(r, s) && FinSettled(r) && Ordinary(s, d)
    requires Fitting(|s.stream.written|, r.store.out.cap)
    ensures !OverAcks(SegmentReceived(r, d))
  {
    ReceiveSettled(r, s, d);
    ReceiveFaithful(r, s, d);
    HeldPrefix(ViewOf(SegmentReceived(r, d).store), s.stream.written);
    if SegmentReceived(r, d).status != Listen { SettledIsSound(SegmentReceived(r, d)); }
  }
}
