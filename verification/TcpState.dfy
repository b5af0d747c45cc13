/** The summaries of tcp_state.cc. */
module TcpStates {
  import opened Types
  import opened TcpSegments
  import opened Sending
  import opened SenderInvariant
  import opened SenderSteps
  import opened SenderTheorems
  import opened Delivery
  import opened Reassembly
  import Streams
  import Receiving

  datatype SenderSummary = Error | Closed | SynSent | SynAcked | FinSent | FinAcked {
    function Rank(): int {
      match this
      case Error => -1
      case Closed => 0
      case SynSent => 1
      case SynAcked => 2
      case FinSent => 3
      case FinAcked => 4
    }
  }

  datatype ReceiverSummary = ReceiverError | Listening | Receiving | FinReceived

  /** `state_summary` of a sender */
  function SummaryOfSender(s: Sender): SenderSummary {
    if s.stream.error then Error
    else if s.next == 0 then Closed
    else if s.next == BytesInFlight(s) then SynSent
    else if !Streams.Eof(s.stream) then SynAcked
    else if s.next < |s.stream.written| + 2 then SynAcked
    else if BytesInFlight(s) > 0 then FinSent
    else FinAcked
  }

  /** `state_summary` of a receiver */
  function SummaryOfReceiver(r: Receiving.Receiver): ReceiverSummary {
    if r.store.out.error then ReceiverError
    else if Receiving.Ackno(r).None? then Listening
    else if r.store.out.ended then FinReceived
    else Receiving
  }

  function ReceiverRank(r: ReceiverSummary): int {
    match r
    case ReceiverError => -1
    case Listening => 0
    case Receiving => 1
    case FinReceived => 2
  }

  lemma {:induction false} DrainForward(st: Store)
    ensures Drain(st).out.ended == st.out.ended && Drain(st).out.error == st.out.error
    decreases |st.t|
  {
    if st.t != [] && st.t[0].lo == st.unasb {
      DrainForward(st.(t := st.t[1..], out := Streams.Write(st.out, st.t[0].data),
                       unasb := st.unasb + |st.t[0].data|, szUnasb := st.szUnasb - |st.t[0].data|));
    }
  }

  /** No push, in any state, takes the end of the stream back or touches its error flag. */
  lemma PushForward(st: Store, data: seq<byte>, index: u64, eof: bool)
    ensures var st' := Push(st, data, index, eof);
      (st.out.ended ==> st'.out.ended) && st'.out.error == st.out.error
  {
    hide Drain, PutAll, Gaps, Total;
    U64Small(index + |data|);
    var stop := U64(index + |data|);
    var idx, end := Max(st.unasb, index), Min(stop, Limit(st));
    if idx < end { DrainForward(Insert(if eof then st.(eof2 := stop) else st, idx, end, data, index)); }
  }

  /** Whatever arrives in whatever state, the receiver's summary moves only forward: LISTEN,
      SYN_RECV, FIN_RECV. */
  lemma ReceiverForward(r: Receiving.Receiver, seg: TCPSegment)
    ensures ReceiverRank(SummaryOfReceiver(r)) <= ReceiverRank(SummaryOfReceiver(Receiving.SegmentReceived(r, seg)))
    ensures Receiving.SegmentReceived(r, seg).store.out.error == r.store.out.error
  {
    hide Push;
    ReceivedIs(r, seg);
    PushForward(r.store, seg.payload, Receiving.IndexOf(r, seg.header), seg.header.fin);
  }

  lemma SummaryIs(s: Sender, q: seq<Flight>, m: nat)
    requires Flying(s, q, m) && !s.stream.error
    ensures SummaryOfSender(s) ==
      if s.next == 0 then Closed
      else if Base(s, q) == 0 then SynSent
      else if !Streams.Eof(s.stream) || s.next < |s.stream.written| + 2 then SynAcked
      else if Base(s, q) < s.next then FinSent
      else FinAcked
  {
    InFlight(s, q, m);
    TiledOrder(q, Base(s, q), s.next);
  }

  /** The SYN is among the segments that may have to be sent again. */
  predicate SynOutstanding(s: Sender) {
    exists i :: 0 <= i < |s.outstanding| && s.outstanding[i].seg.header.syn
  }

  lemma SynIsFirst(s: Sender, q: seq<Flight>, m: nat)
    requires Flying(s, q, m)
    ensures SynOutstanding(s) <==> q != [] && q[0].abs == 0
  {
    TiledOrder(q, Base(s, q), s.next);
    if q != [] {
      assert Carries(s, q[0]) && s.outstanding[m] == q[0].entry;
      LaterEnds(q, Base(s, q), s.next);
    }
    forall i | 0 <= i < |s.outstanding| && s.outstanding[i].seg.header.syn ensures q != [] && q[0].abs == 0 {
      var j := DisplacedAt(s.outstanding, q, m, i);
      assert Carries(s, q[j]);
    }
  }

  /** The sender's summary in terms of what has been sent and acknowledged. */
  lemma SenderSummaryExact(s: Sender)
    requires Inv(s)
    ensures var all := |s.stream.written| + 2; var ended := s.finSent && s.next == all;
      SummaryOfSender(s) ==
        if s.stream.error then Error
        else if s.next == 0 then Closed
        else if SynOutstanding(s) then SynSent
        else if !ended then SynAcked
        else if s.acked < all then FinSent
        else FinAcked
  {
    var q: seq<Flight>, m: nat :| Flying(s, q, m);
    SynIsFirst(s, q, m);
    InFlight(s, q, m);
    if !s.stream.error { SummaryIs(s, q, m); }
  }

  /** FIN_ACKED means that the SYN, every written byte and the FIN have been acknowledged. */
  lemma FinAckedIff(s: Sender)
    requires Inv(s) && !s.stream.error
    ensures SummaryOfSender(s) == FinAcked <==> s.acked == |s.stream.written| + 2
  {
    var q: seq<Flight>, m: nat :| Flying(s, q, m);
    SummaryIs(s, q, m);
    InFlight(s, q, m);
  }

  /** Bytes are accepted although the summary already says that the FIN is out. */
  predicate Backslides(s: Sender, data: seq<byte>) {
    Min(|data|, Streams.Room(s.stream)) > 0 && (SummaryOfSender(s) == FinSent || SummaryOfSender(s) == FinAcked)
  }

  /** A write lowers the summary exactly if it adds bytes to a stream whose FIN is out. */
  lemma WriteLowersIff(s: Sender, data: seq<byte>)
    requires Inv(s) && !s.stream.error
    ensures SummaryOfSender(Apply(s, Write(data))).Rank() < SummaryOfSender(s).Rank() <==> Backslides(s, data)
  {
    hide SummaryOfSender, Carries, Ordered, Timed;
    var q: seq<Flight>, m: nat :| Flying(s, q, m);
    var s' := Apply(s, Write(data));
    StreamFlies(s, q, m, s');
    SummaryIs(s, q, m);
    SummaryIs(s', q, m);
    TiledOrder(q, Base(s, q), s.next);
    assert |s'.stream.written| == |s.stream.written| + Min(|data|, Streams.Room(s.stream));
  }

  /** No premature acknowledgment and no such write. */
  predicate Orderly(s: Sender, e: Event) {
    Admissible(s, e) && (e.Write? ==> !Backslides(s, e.data))
  }

  predicate AllOrderly(s: Sender, es: seq<Event>)
    decreases |es|
  {
    es == [] || (AllOrderly(s, es[..|es| - 1]) && Orderly(Run(s, es[..|es| - 1]), es[|es| - 1]))
  }

  lemma SummaryStep(s: Sender, q: seq<Flight>, m: nat, e: Event) returns (q': seq<Flight>, m': nat)
    requires Flying(s, q, m) && !s.stream.error && s.next < 0x8000_0000_0000_0000 && Orderly(s, e)
    ensures Flying(Apply(s, e), q', m') && !Apply(s, e).stream.error
    ensures SummaryOfSender(s).Rank() <= SummaryOfSender(Apply(s, e)).Rank()
  {
    hide SummaryOfSender, Flying, Backslides;
    q', m' := ApplyFlies(s, q, m, e);
    if e.Write? {
      IsInv(s, q, m);
      WriteLowersIff(s, e.data);
    } else {
      WritesOnly(s, e);
      SummaryForward(s, q, m, Apply(s, e), q', m');
    }
  }

  lemma IsInv(s: Sender, q: seq<Flight>, m: nat)
    requires Flying(s, q, m)
    ensures Inv(s)
  {
  }

  lemma WritesOnly(s: Sender, e: Event)
    requires !e.Write?
    ensures Apply(s, e).stream.written == s.stream.written
  {
    if e.Fill? && !s.finSent && s.window != UNSET { LoopKeepsWritten(s); }
  }

  lemma SummaryForward(s: Sender, q: seq<Flight>, m: nat, s': Sender, q': seq<Flight>, m': nat)
    requires Flying(s, q, m) && Flying(s', q', m') && !s.stream.error
    requires Forward(s, s') && Base(s, q) <= Base(s', q')
    requires s'.stream.written == s.stream.written
    ensures SummaryOfSender(s).Rank() <= SummaryOfSender(s').Rank()
  {
    SummaryIs(s, q, m);
    SummaryIs(s', q', m');
  }

  lemma {:induction false} AllOrderlyIsAdmissible(s: Sender, es: seq<Event>)
    requires AllOrderly(s, es)
    ensures AllAdmissible(s, es)
    decreases |es|
  {
    if es != [] { AllOrderlyIsAdmissible(s, es[..|es| - 1]); }
  }

  /** Over every run without an error or such a write, the summary moves only forward: CLOSED,
      SYN_SENT, SYN_ACKED, FIN_SENT, FIN_ACKED. */
  lemma {:induction false} SummaryMonotone(s: Sender, es: seq<Event>, i: nat)
    requires Inv(s) && !s.stream.error && AllOrderly(s, es) && i <= |es|
    requires |Run(s, es).stream.written| < 0x7fff_ffff_ffff_fffe
    ensures !Run(s, es).stream.error
    ensures SummaryOfSender(Run(s, es[..i])).Rank() <= SummaryOfSender(Run(s, es)).Rank()
    decreases |es|
  {
    if i == |es| {
      assert es[..i] == es;
    }
    if es != [] {
      var before, e := es[..|es| - 1], es[|es| - 1];
      var s1 := Run(s, before);
      WritesGrow(s1, e);
      SummaryMonotone(s, before, if i < |es| then i else |before|);
      AllOrderlyIsAdmissible(s, before);
      var q, m := RunFlies(s, before);
      q, m := SummaryStep(s1, q, m, e);
      if i < |es| { assert es[..i] == before[..i]; }
    }
  }
}
