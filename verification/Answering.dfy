/** What the receiver acknowledges and reports, exactly. */
module Reporting {
  import opened Types
  import opened WrappingIntegers
  import opened TcpSegments
  import opened Sending
  import opened Honesty
  import opened Reassembly
  import opened ReassemblyMeaning
  import opened ReassemblyTheorems
  import opened Receiving
  import opened Delivery
  import opened Acknowledging
  import opened TcpStates
  import Streams

  /** A SYN has come in again after the stream has ended, and no FIN since. */
  predicate Reopened(r: Receiver) {
    r.status == SynRecv && r.store.out.ended
  }

  /** `ackno` is one past what has been assembled, with the FIN counted once the stream has
      ended; it is one less exactly if a SYN has come in again since. */
  lemma AcknoExactIff(r: Receiver, s: Sender)
    requires Faithful(r, s) && FinSettled(r) && r.status != Listen && |s.stream.written| < 0x8000_0000
    ensures var n := |r.store.out.written|; var ackno := Offset(Ackno(r).value, r.isn);
      && (ackno == 1 + n + (if r.store.out.ended then 1 else 0) <==> !Reopened(r))
      && (Reopened(r) ==> ackno == 1 + n)
  {
    hide Wrap, Offset, Stored, HoldsOnly, Tidy, Ascending;
    HeldPrefix(ViewOf(r.store), s.stream.written);
    EndCounts(r, s);
    OffsetWrap(r.store.unasb + r.status.Number(), r.isn);
    OffsetWrap(r.store.unasb + 1, r.isn);
  }

  /** Nothing is stored once the stream has ended, and something as long as a noted FIN has not
      been reached. */
  lemma EndCounts(r: Receiver, s: Sender)
    requires Faithful(r, s) && FinSettled(r)
    ensures r.store.unasb == |r.store.out.written|
    ensures r.store.out.ended ==> r.store.szUnasb == 0
    ensures r.status == FinRecv && !r.store.out.ended ==> r.store.szUnasb != 0
  {
    MemoryBound(r.store);
    if r.store.out.ended {
      NothingStored(r.store, s.stream.written, s.finSent);
    } else if LastStored(r.store) {
      assert r.store.eof2 - 1 in Stored(r.store.t).Keys;
    }
  }

  lemma NothingStored(st: Store, S: seq<byte>, closed: bool)
    requires Truthful(st, S, closed) && st.unasb == |S|
    ensures st.szUnasb == 0 && Stored(st.t) == map[]
  {
    ValidWaits(st);
    MemoryBound(st);
    assert forall k: nat :: k in Stored(st.t) ==> Held(ViewOf(st), k).Some?;
    assert Stored(st.t).Keys == {};
  }

  // ---- the receiver over a run ----

  /** A segment comes in, or the application reads. */
  datatype Input = Segment(seg: TCPSegment) | Read(n: nat)

  function Receive(r: Receiver, input: Input): Receiver {
    match input
    case Segment(seg) => SegmentReceived(r, seg)
    case Read(n) => r.(store := r.store.(out := Streams.Pop(r.store.out, Min(n, Streams.Size(r.store.out)))))
  }

  function ReceiveAll(r: Receiver, inputs: seq<Input>): Receiver
    decreases |inputs|
  {
    if inputs == [] then r else Receive(ReceiveAll(r, inputs[..|inputs| - 1]), inputs[|inputs| - 1])
  }

  predicate SynHeard(inputs: seq<Input>) {
    exists i :: 0 <= i < |inputs| && inputs[i].Segment? && inputs[i].seg.header.syn
  }

  /** Input `i` is a FIN that follows a SYN or comes with one. */
  predicate FinAt(inputs: seq<Input>, i: nat)
    requires i < |inputs|
  {
    inputs[i].Segment? && inputs[i].seg.header.fin && SynHeard(inputs[..i + 1])
  }

  predicate FinHeard(inputs: seq<Input>) {
    exists i :: 0 <= i < |inputs| && FinAt(inputs, i)
  }

  /** Input `i` is a SYN without a FIN. */
  predicate PlainSyn(inputs: seq<Input>, i: nat)
    requires i < |inputs|
  {
    inputs[i].Segment? && inputs[i].seg.header.syn && !inputs[i].seg.header.fin
  }

  /** A FIN has been heard, and no SYN without one since. */
  predicate FinLast(inputs: seq<Input>) {
    exists i :: 0 <= i < |inputs| && FinAt(inputs, i) && forall j :: i < j < |inputs| ==> !PlainSyn(inputs, j)
  }

  lemma SynHeardExtend(inputs: seq<Input>, x: Input)
    ensures SynHeard(inputs + [x]) <==> SynHeard(inputs) || (x.Segment? && x.seg.header.syn)
  {
    var all := inputs + [x];
    assert all[|inputs|] == x;
    if i :| 0 <= i < |inputs| && inputs[i].Segment? && inputs[i].seg.header.syn { assert all[i] == inputs[i]; }
  }

  lemma FinAtExtend(inputs: seq<Input>, x: Input, i: nat)
    requires i <= |inputs|
    ensures FinAt(inputs + [x], i)
      <==> if i < |inputs| then FinAt(inputs, i) else x.Segment? && x.seg.header.fin && SynHeard(inputs + [x])
    ensures i < |inputs| ==> (PlainSyn(inputs + [x], i) <==> PlainSyn(inputs, i))
  {
    var all := inputs + [x];
    if i < |inputs| {
      assert all[..i + 1] == inputs[..i + 1];
    } else {
      assert all[..i + 1] == all;
    }
  }

  lemma FinHeardExtend(inputs: seq<Input>, x: Input)
    ensures FinHeard(inputs + [x]) <==> FinHeard(inputs) || (x.Segment? && x.seg.header.fin && SynHeard(inputs + [x]))
  {
    hide FinAt, SynHeard;
    var all := inputs + [x];
    FinAtExtend(inputs, x, |inputs|);
    forall i | 0 <= i < |inputs| ensures FinAt(all, i) <==> FinAt(inputs, i) { FinAtExtend(inputs, x, i); }
  }

  lemma FinLastExtend(inputs: seq<Input>, x: Input)
    ensures FinLast(inputs + [x])
      <==> if x.Segment? && x.seg.header.fin && SynHeard(inputs + [x]) then true
           else FinLast(inputs) && !(x.Segment? && x.seg.header.syn && !x.seg.header.fin)
  {
    hide FinAt, SynHeard, PlainSyn;
    var all := inputs + [x];
    FinAtExtend(inputs, x, |inputs|);
    LastPlain(inputs, x);
    forall i | 0 <= i < |inputs| ensures (FinAt(all, i) <==> FinAt(inputs, i)) && (PlainSyn(all, i) <==> PlainSyn(inputs, i)) {
      FinAtExtend(inputs, x, i);
    }
  }

  lemma LastPlain(inputs: seq<Input>, x: Input)
    ensures PlainSyn(inputs + [x], |inputs|) <==> x.Segment? && x.seg.header.syn && !x.seg.header.fin
  {
  }

  lemma ReceiveStatus(r: Receiver, x: Input)
    ensures var r' := Receive(r, x);
      && (r'.status == Listen <==> r.status == Listen && !(x.Segment? && x.seg.header.syn))
      && (r'.status == FinRecv <==>
            if x.Segment? && x.seg.header.fin && r'.status != Listen then true
            else r.status == FinRecv && !(x.Segment? && x.seg.header.syn && !x.seg.header.fin))
  {
    hide Push;
  }

  /** The receiver listens until the first SYN; it has noted a FIN exactly if one has come since
      then and no SYN without a FIN after it. */
  lemma {:induction false} StatusIs(capacity: nat, inputs: seq<Input>)
    ensures var r := ReceiveAll(FreshReceiver(capacity), inputs);
      (r.status == Listen <==> !SynHeard(inputs)) && (r.status == FinRecv <==> FinLast(inputs))
    decreases |inputs|
  {
    hide Receive, FinLast, SynHeard;
    if inputs == [] {
      NoneHeard();
    } else {
      var before, x := inputs[..|inputs| - 1], inputs[|inputs| - 1];
      assert inputs == before + [x];
      StatusIs(capacity, before);
      ReceiveStatus(ReceiveAll(FreshReceiver(capacity), before), x);
      SynHeardExtend(before, x);
      FinLastExtend(before, x);
    }
  }

  lemma NoneHeard()
    ensures !SynHeard([]) && !FinLast([]) && !FinHeard([])
  {
  }

  /** The index of the last segment without a SYN; the next SYN's payload and end are taken to be
      there. */
  lemma SynIndex(r: Receiver, before: TCPSegment, syn: TCPSegment)
    requires !before.header.syn && syn.header.syn
    ensures var r' := SegmentReceived(r, before); var index := U64(Unwrap(before.header.seqno, r.isn, r.cp) - 1);
      && r'.cp == index
      && SegmentReceived(r', syn).store == Push(r'.store, syn.payload, index, syn.header.fin)
      && SegmentReceived(r', syn).cp == index && SegmentReceived(r', syn).isn == syn.header.seqno
  {
    hide Push, Unwrap;
  }

  /** The window is what is left of the capacity, and ends where the reassembler stops taking
      bytes. */
  lemma WindowEndsAt(r: Receiver)
    requires Valid(r.store)
    ensures WindowSize(r) == r.store.out.cap - (|r.store.out.written| - r.store.out.read)
    ensures |r.store.out.written| + WindowSize(r) == WindowEnd(r.store)
  {
  }

  // ---- what it reports ----

  /** Every segment is one that `s` has sent, and every FIN that is heard lands. */
  ghost predicate AllLand(s: Sender, capacity: nat, inputs: seq<Input>)
    decreases |inputs|
  {
    inputs == [] ||
    (var before, x := inputs[..|inputs| - 1], inputs[|inputs| - 1];
     var r := ReceiveAll(FreshReceiver(capacity), before);
     && AllLand(s, capacity, before)
     && (x.Segment? ==> Genuine(s, x.seg))
     && (x.Segment? && x.seg.header.fin && (r.status != Listen || x.seg.header.syn) ==> FinLands(r, x.seg)))
  }

  /** The end is settled exactly if a FIN has been heard. */
  ghost predicate Reported(r: Receiver, s: Sender, heard: bool) {
    && Faithful(r, s) && !r.store.out.error
    && (heard ==> Settled(r.store))
    && (!heard ==> r.store.eof2 == NO_EOF && !r.store.out.ended)
  }

  lemma ReceiveReports(r: Receiver, s: Sender, seg: TCPSegment, heard: bool)
    requires Reported(r, s, heard) && Genuine(s, seg) && Fitting(|s.stream.written|, r.store.out.cap)
    requires seg.header.fin && (r.status != Listen || seg.header.syn) ==> FinLands(r, seg)
    ensures Reported(SegmentReceived(r, seg), s, heard || (seg.header.fin && (r.status != Listen || seg.header.syn)))
  {
    hide Push, Settled, FinLands, Excerpt, HoldsOnly;
    ReceiveFaithful(r, s, seg);
    ReceiverForward(r, seg);
    ReceivedIs(r, seg);
    if r.status != Listen || seg.header.syn {
      GenuineExcerpt(r, s, seg);
      if seg.header.fin {
        FinIsSettled(r, s, seg);
      } else if heard {
        StaysSettled(r.store, seg.payload, IndexOf(r, seg.header), s.stream.written, s.finSent);
      } else {
        NoEnd(r.store, seg.payload, IndexOf(r, seg.header), s.stream.written, s.finSent);
      }
    } else {
      SameStore(r, SegmentReceived(r, seg));
    }
  }

  lemma SameStore(r: Receiver, r': Receiver)
    requires r'.store == r.store
    ensures Settled(r'.store) == Settled(r.store)
  {
  }

  lemma FinIsSettled(r: Receiver, s: Sender, seg: TCPSegment)
    requires Faithful(r, s) && Genuine(s, seg) && seg.header.fin && (r.status != Listen || seg.header.syn)
    requires Fitting(|s.stream.written|, r.store.out.cap) && FinLands(r, seg)
    ensures Settled(SegmentReceived(r, seg).store)
  {
    FinLandsIff(r, s, seg);
    Acknowledging.FinReceived(r, seg);
  }

  lemma NoEnd(st: Store, data: seq<byte>, index: u64, S: seq<byte>, closed: bool)
    requires Truthful(st, S, closed) && Excerpt(data, index, false, S, closed) && Fitting(|S|, st.out.cap)
    requires st.eof2 == NO_EOF && !st.out.ended
    ensures var st' := Push(st, data, index, false); st'.eof2 == NO_EOF && !st'.out.ended
  {
    hide Push, Excerpt;
    ExcerptPushed(st, data, index, false, S, closed, 0);
    PushHoldsOnly(st, data, index, false, S, closed);
    HeldPrefix(ViewOf(Push(st, data, index, false)), S);
  }

  lemma ReadReports(r: Receiver, s: Sender, n: nat, heard: bool)
    requires Reported(r, s, heard)
    ensures Reported(Receive(r, Read(n)), s, heard)
    ensures Receive(r, Read(n)).store.out.cap == r.store.out.cap
  {
    OutputFaithful(r, s, Receive(r, Read(n)));
  }

  lemma {:induction false} AllReported(s: Sender, capacity: nat, inputs: seq<Input>)
    requires AllLand(s, capacity, inputs) && Fitting(|s.stream.written|, capacity)
    ensures var r := ReceiveAll(FreshReceiver(capacity), inputs);
      Reported(r, s, FinHeard(inputs)) && r.store.out.cap == capacity
    decreases |inputs|
  {
    hide Receive, FinHeard, SynHeard, Reported, Genuine, FinLands;
    if inputs == [] {
      FreshReported(s, capacity);
      NoneHeard();
    } else {
      var before, x := inputs[..|inputs| - 1], inputs[|inputs| - 1];
      var r := ReceiveAll(FreshReceiver(capacity), before);
      assert inputs == before + [x];
      AllReported(s, capacity, before);
      StatusIs(capacity, before);
      SynHeardExtend(before, x);
      FinHeardExtend(before, x);
      match x
      case Segment(seg) =>
        SegmentIs(r, seg);
        ReceiveReports(r, s, seg, FinHeard(before));
        CapStays(r, s, seg, FinHeard(before));
      case Read(n) => ReadReports(r, s, n, FinHeard(before));
    }
  }

  lemma SegmentIs(r: Receiver, seg: TCPSegment)
    ensures Receive(r, Segment(seg)) == SegmentReceived(r, seg)
  {
  }

  lemma CapStays(r: Receiver, s: Sender, seg: TCPSegment, heard: bool)
    requires Reported(r, s, heard) && Genuine(s, seg) && Fitting(|s.stream.written|, r.store.out.cap)
    ensures SegmentReceived(r, seg).store.out.cap == r.store.out.cap
  {
    ReceiveFaithful(r, s, seg);
  }

  lemma FreshReported(s: Sender, capacity: nat)
    ensures Reported(FreshReceiver(capacity), s, false) && FreshReceiver(capacity).store.out.cap == capacity
  {
    FreshFaithful(capacity, s);
  }

  /** The receiver's summary over any run on which FINs land: LISTEN until the first SYN, FIN_RECV
      exactly once a FIN has been heard and the whole stream has been assembled, SYN_RECV in
      between. */
  lemma SummaryExact(s: Sender, capacity: nat, inputs: seq<Input>)
    requires AllLand(s, capacity, inputs) && Fitting(|s.stream.written|, capacity)
    ensures var r := ReceiveAll(FreshReceiver(capacity), inputs);
      SummaryOfReceiver(r) ==
        if !SynHeard(inputs) then Listening
        else if FinHeard(inputs) && r.store.out.written == s.stream.written then ReceiverSummary.FinReceived
        else ReceiverSummary.Receiving
  {
    hide ReceiveAll, FinHeard, SynHeard, Faithful;
    AllReported(s, capacity, inputs);
    StatusIs(capacity, inputs);
    EndedIff(ReceiveAll(FreshReceiver(capacity), inputs), s, FinHeard(inputs));
  }

  lemma EndedIff(r: Receiver, s: Sender, heard: bool)
    requires Reported(r, s, heard)
    ensures r.store.out.ended <==> heard && r.store.out.written == s.stream.written
  {
    HeldPrefix(ViewOf(r.store), s.stream.written);
    if heard && r.store.out.written == s.stream.written { NothingStored(r.store, s.stream.written, s.finSent); }
  }

  // ---- an acknowledgment that is taken back ----

  const SYN := Plain(0, true, false, [])
  const FIN := Plain(1, false, true, [])

  function Opened(): Receiver {
    Receiver(Init(8), 0, 0, SynRecv)
  }

  function Ended(): Receiver {
    Receiver(Init(8).(out := Streams.End(Streams.Empty(8))), 0, 0, FinRecv)
  }

  lemma SynOpens()
    ensures Receive(FreshReceiver(8), Segment(SYN)) == Opened()
  {
  }

  lemma NothingPushed(st: Store, eof: bool)
    requires st == Init(8) || (st == Ended().store && !eof)
    ensures Push(st, [], 0, eof) == if eof then Ended().store else st
  {
    U64Small(0);
  }

  lemma FinEnds()
    ensures Receive(Opened(), Segment(FIN)) == Ended()
  {
    hide Push, Unwrap;
    UnwrapExact(1, 0, 0);
    OffsetWrap(1, 0);
    NothingPushed(Init(8), true);
  }

  lemma SynReopens()
    ensures Receive(Ended(), Segment(SYN)) == Ended().(status := SynRecv)
  {
    hide Push;
    NothingPushed(Ended().store, false);
  }

  lemma ReceiveNext(r: Receiver, inputs: seq<Input>, x: Input)
    ensures ReceiveAll(r, inputs + [x]) == Receive(ReceiveAll(r, inputs), x)
  {
    hide Receive;
    assert (inputs + [x])[..|inputs + [x]| - 1] == inputs;
  }

  /** A SYN and a FIN are acknowledged with 2; if the network repeats the SYN, with 1 again. */
  lemma TakenBack()
    ensures Ackno(ReceiveAll(FreshReceiver(8), [Segment(SYN), Segment(FIN)])) == Some(2)
    ensures Ackno(ReceiveAll(FreshReceiver(8), [Segment(SYN), Segment(FIN), Segment(SYN)])) == Some(1)
  {
    hide Receive, ReceiveAll, Wrap, Ackno;
    var r := FreshReceiver(8);
    NoInput(r);
    SynOpens();
    FinEnds();
    SynReopens();
    ReceiveNext(r, [], Segment(SYN));
    ReceiveNext(r, [Segment(SYN)], Segment(FIN));
    ReceiveNext(r, [Segment(SYN), Segment(FIN)], Segment(SYN));
    assert [] + [Segment(SYN)] == [Segment(SYN)];
    assert [Segment(SYN)] + [Segment(FIN)] == [Segment(SYN), Segment(FIN)];
    assert [Segment(SYN), Segment(FIN)] + [Segment(SYN)] == [Segment(SYN), Segment(FIN), Segment(SYN)];
    AcknosAre();
  }

  lemma NoInput(r: Receiver)
    ensures ReceiveAll(r, []) == r
  {
  }

  lemma AcknosAre()
    ensures Ackno(Ended()) == Some(2) && Ackno(Ended().(status := SynRecv)) == Some(1)
  {
  }
}

/** What two connections acknowledge to each other, exactly. */
module Answering {
  import opened Types
  import opened WrappingIntegers
  import opened TcpSegments
  import opened Sending
  import opened CleanClose
  import opened Connecting
  import opened Honesty
  import opened Emission
  import opened Delivery
  import opened Acknowledging
  import opened World
  import opened NoLoss
  import opened Hearing
  import opened Quiescence
  import Reporting
  import Streams
  import Receiving

  /** The end at which an action happens. */
  function At(w: World, act: Action): Conn {
    if act.atA then w.a else w.b
  }

  function Other(w: World, act: Action): Conn {
    if act.atA then w.b else w.a
  }

  /** The segment acknowledges all that has been assembled, and the FIN once the input has ended,
      which is then the whole stream; only the FIN is left out if a SYN has come in again since.
      A reset acknowledges nothing. */
  predicate AcksExactly(r: Receiving.Receiver, s: Sender, seg: TCPSegment) {
    var n := |r.store.out.written|;
    && (seg.header.ack <==> !seg.header.rst && r.status != Receiving.Listen)
    && (seg.header.ack ==>
          Offset(seg.header.ackno, s.isn) == 1 + n + (if r.store.out.ended && !Reporting.Reopened(r) then 1 else 0))
    && (r.store.out.ended ==> n == |s.stream.written|)
  }

  /** On every run on which delivered FINs land, so does every segment that an event emits. */
  lemma AcknowledgesAll(cfgA: Config, cfgB: Config, acts: seq<Action>, act: Action, i: nat)
    requires AllLegal(Start(cfgA, cfgB), acts + [act]) && AllSettle(Start(cfgA, cfgB), acts + [act])
    requires i < |ApplyConn(At(RunWorld(Start(cfgA, cfgB), acts), act), act.event).out|
    ensures var w := RunWorld(Start(cfgA, cfgB), acts); var c := ApplyConn(At(w, act), act.event);
      AcksExactly(c.receiver, Other(w, act).sender, c.out[i])
  {
    hide AllLegal, AllSettle, Careful, AcksExactly, ApplyConn;
    var w0 := Start(cfgA, cfgB);
    RunParts(w0, acts, act);
    RunCareful(cfgA, cfgB, acts);
    RunCareful(cfgA, cfgB, acts + [act]);
    MirrorCareful(RunWorld(w0, acts), act);
    var w := RunWorld(w0, acts);
    StepAcks(if act.atA then w else Mirror(w), act.event, i);
  }

  /** In particular, a FIN that arrives is answered, and if it completes the stream, with an
      acknowledgment of the SYN, every byte written and the FIN. */
  lemma FinIsAcknowledged(cfgA: Config, cfgB: Config, acts: seq<Action>, act: Action)
    requires AllLegal(Start(cfgA, cfgB), acts + [act]) && AllSettle(Start(cfgA, cfgB), acts + [act])
    requires var w := RunWorld(Start(cfgA, cfgB), acts);
      act.event.Arrives? && act.event.seg.header.fin && Hears(At(w, act), act.event.seg)
      && !ValidReset(At(w, act), act.event.seg.header)
      && (At(w, act).receiver.status != Receiving.Listen || act.event.seg.header.syn)
    ensures var w := RunWorld(Start(cfgA, cfgB), acts); var c := ApplyConn(At(w, act), act.event);
      && c.out != []
      && (c.receiver.store.out.ended ==> forall i :: 0 <= i < |c.out| ==>
            c.out[i].header.ack && Offset(c.out[i].header.ackno, Other(w, act).sender.isn) == |Other(w, act).sender.stream.written| + 2)
  {
    hide AllLegal, AllSettle, AcksExactly, ApplyConn, Careful, Legal, LegalA, Bounded, RunWorld, Step, Hears, ValidReset;
    var w := RunWorld(Start(cfgA, cfgB), acts);
    var c, seg := At(w, act), act.event.seg;
    var c' := ApplyConn(c, act.event);
    RunParts(Start(cfgA, cfgB), acts, act);
    RunCareful(cfgA, cfgB, acts);
    MirrorKeeps(w, act);
    FinAnswered(if act.atA then w else Mirror(w), act.event);
    if c'.receiver.store.out.ended {
      forall i | 0 <= i < |c'.out|
        ensures c'.out[i].header.ack && Offset(c'.out[i].header.ackno, Other(w, act).sender.isn) == |Other(w, act).sender.stream.written| + 2
      {
        AcknowledgesAll(cfgA, cfgB, acts, act, i);
        EndAcked(c'.receiver, Other(w, act).sender, c'.out[i]);
      }
    }
  }

  lemma EndAcked(r: Receiving.Receiver, s: Sender, seg: TCPSegment)
    requires AcksExactly(r, s, seg) && r.status == Receiving.FinRecv && r.store.out.ended && !seg.header.rst
    ensures seg.header.ack && Offset(seg.header.ackno, s.isn) == |s.stream.written| + 2
  {
  }

  lemma MirrorKeeps(w: World, act: Action)
    requires Careful(w) && Legal(w, act) && Bounded(w)
    ensures var m := if act.atA then w else Mirror(w);
      Careful(m) && LegalA(m, act.event) && Bounded(m) && m.a == At(w, act) && m.b == Other(w, act)
  {
  }

  lemma FinAnswered(w: World, e: ConnEvent)
    requires Careful(w) && LegalA(w, e) && Bounded(w)
    requires e.Arrives? && e.seg.header.fin && Hears(w.a, e.seg) && !ValidReset(w.a, e.seg.header)
    requires w.a.receiver.status != Receiving.Listen || e.seg.header.syn
    ensures var c' := ApplyConn(w.a, e);
      c'.out != [] && c'.receiver.status == Receiving.FinRecv && NoResets(c'.out)
  {
    hide Connecting.SegmentReceived, Honest, NetGenuine, AcksSound, Receiving.SegmentReceived;
    AnswerIsNoReset(w.a, e.seg);
    ResetIff(w.a, e.seg);
    FinNoted(w.a.receiver, e.seg);
  }

  lemma FinNoted(r: Receiving.Receiver, seg: TCPSegment)
    requires seg.header.fin && (r.status != Receiving.Listen || seg.header.syn)
    ensures Receiving.SegmentReceived(r, seg).status == Receiving.FinRecv
  {
  }

  lemma RunParts(w0: World, acts: seq<Action>, act: Action)
    requires AllLegal(w0, acts + [act]) && AllSettle(w0, acts + [act])
    ensures AllLegal(w0, acts) && AllSettle(w0, acts)
    ensures var w := RunWorld(w0, acts); RunWorld(w0, acts + [act]) == Step(w, act) && Legal(w, act) && Bounded(w) && Bounded(Step(w, act))
  {
    hide Legal, Bounded, Step;
    assert (acts + [act])[..|acts + [act]| - 1] == acts;
  }

  lemma MirrorCareful(w: World, act: Action)
    requires Careful(w) && Careful(Step(w, act)) && Legal(w, act) && Bounded(w) && Bounded(Step(w, act))
    ensures var m := if act.atA then w else Mirror(w);
      && Careful(m) && Careful(StepA(m, act.event)) && LegalA(m, act.event) && Bounded(m) && Bounded(StepA(m, act.event))
      && m.a == At(w, act) && m.b == Other(w, act)
  {
    hide ApplyConn;
  }

  lemma StepAcks(w: World, e: ConnEvent, i: nat)
    requires Careful(w) && Careful(StepA(w, e)) && LegalA(w, e) && Bounded(w) && Bounded(StepA(w, e))
    requires i < |ApplyConn(w.a, e).out|
    ensures AcksExactly(ApplyConn(w.a, e).receiver, w.b.sender, ApplyConn(w.a, e).out[i])
  {
    hide ApplyConn, Honest, NetGenuine, AcksSound, Moves, AcksExactly;
    EventMoves(w.a, e);
    MovesMarked(w.a, e, ApplyConn(w.a, e));
    ReceiverAfter(w, e);
    MarkedExactly(w.a.cfg, ApplyConn(w.a, e).receiver, w.b.sender, ApplyConn(w.a, e).out[i]);
  }

  lemma MovesMarked(c: Conn, e: ConnEvent, c': Conn)
    requires Moves(c, e, c')
    ensures forall i :: 0 <= i < |c'.out| ==> Marked(c.cfg, c'.receiver, c'.out[i])
  {
  }

  lemma ReceiverAfter(w: World, e: ConnEvent)
    requires Careful(StepA(w, e)) && Bounded(StepA(w, e))
    ensures var r := ApplyConn(w.a, e).receiver;
      Faithful(r, w.b.sender) && FinSettled(r) && |w.b.sender.stream.written| < 0x8000_0000
  {
    hide ApplyConn, Honest, NetGenuine, NetAcks, AcksSound, Faithful, FinSettled;
  }

  lemma MarkedExactly(cfg: Config, r: Receiving.Receiver, s: Sender, seg: TCPSegment)
    requires Faithful(r, s) && FinSettled(r) && |s.stream.written| < 0x8000_0000
    requires Marked(cfg, r, seg)
    ensures AcksExactly(r, s, seg)
  {
    hide Offset;
    if r.status != Receiving.Listen { Reporting.AcknoExactIff(r, s); }
  }
}
