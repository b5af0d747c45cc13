/** How a connection ends: by a reset, by giving up, by lingering long enough, or at once if the
    peer closed first. */
module Endings {
  import opened Types
  import opened WrappingIntegers
  import opened TcpSegments
  import opened Sending
  import opened SenderInvariant
  import opened SenderSteps
  import opened SenderTheorems
  import opened SendWindows
  import opened BackOff
  import opened CleanClose
  import opened Connecting
  import opened TcpStates
  import opened Hearing
  import opened Delivery
  import Streams
  import Receiving
  import Reassembly

  // ---- giving up ----

  /** The ninth retransmission since anything new was sent. */
  predicate GivesUp(c: Conn, e: ConnEvent) {
    e.Elapses? && c.active && !Listens(c) && Retransmits(c.sender, e.ms) && c.sender.crtx == 8
  }

  predicate Reset(c: Conn, e: ConnEvent) {
    e.Arrives? && Hears(c, e.seg) && ValidReset(c, e.seg.header)
  }

  /** Ten initial timeouts have passed since the connection last sent anything. */
  predicate Lingered(c: Conn, ms: nat) {
    c.tnow + ms >= c.tlastsent + 10 * c.cfg.rtTimeout
  }

  lemma SendErrors(c: Conn)
    ensures var c' := FillWindowAndSend(c).0;
      && c'.sender.stream.error == c.sender.stream.error && c'.receiver == c.receiver && c'.active == c.active
      && c'.linger == c.linger && c'.tnow == c.tnow && c'.tlast == c.tlast && c'.finreceived == c.finreceived
  {
    hide FillWindow;
    FillKeepsError(c.sender);
  }

  lemma FillCount(s: Sender)
    ensures FillWindow(s).crtx <= s.crtx
  {
    if !s.finSent && s.window != UNSET { LoopRestarts(s); }
  }

  lemma TickStream(s: Sender, ms: nat)
    ensures Tick(s, ms).stream == s.stream
  {
    hide OldestDue;
  }

  /** Time that passes for an open connection that is past listening: on the ninth retransmission
      it sends a reset, with the number of what heads the sender's queue, and raises both error
      flags, otherwise neither; and it closes without an error exactly if everything is
      acknowledged and it has lingered. */
  lemma TimeExact(c: Conn, ms: nat)
    requires c.active && !Listens(c) && c.sender.crtx <= 8
    ensures var c' := TimePasses(c, ms);
      if GivesUp(c, Elapses(ms)) then
        && !c'.active && c'.sender.stream.error && c'.receiver.store.out.error
        && |c'.out| == |c.out| + 1 && c'.out[..|c.out|] == c.out && c'.out[|c.out|].header.rst
        && c'.out[|c.out|].header.seqno == Tick(c.sender, ms).out[0].header.seqno
      else
        && c'.sender.stream.error == c.sender.stream.error && c'.receiver == c.receiver
        && (c'.active <==> !(Finished(c) && Lingered(c, ms)))
  {
    hide Tick, FillWindowAndSend, Age, Finished, Lingered, SendRst;
    TickDoubles(c.sender, ms);
    TickStream(c.sender, ms);
    var c1 := Age(c, ms);
    Aged(c, ms);
    SendErrors(c1);
    RstExact(c1);
  }

  lemma Aged(c: Conn, ms: nat)
    ensures var c' := Age(c, ms);
      && c'.sender == Tick(c.sender, ms) && c'.receiver == c.receiver && c'.out == c.out
      && (c'.active <==> c.active && !(Finished(c) && Lingered(c, ms)))
  {
    hide Tick;
  }

  lemma RstExact(c: Conn)
    ensures var c' := SendRst(c);
      && !c'.active && c'.sender.stream.error && c'.receiver.store.out.error
      && |c'.out| == |c.out| + 1 && c'.out[..|c.out|] == c.out && c'.out[|c.out|].header.rst
      && (c.sender.out != [] ==> c'.out[|c.out|].header.seqno == c.sender.out[0].header.seqno)
  {
  }

  // ---- the error flags over a run ----

  ghost predicate Sane(c: Conn) {
    && c.sender.stream.error == c.receiver.store.out.error
    && (c.sender.stream.error ==> !c.active)
    && (c.active ==> c.sender.crtx <= 8)
  }

  lemma SendSane(c: Conn)
    requires Sane(c)
    ensures Sane(FillWindowAndSend(c).0) && FillWindowAndSend(c).0.sender.stream.error == c.sender.stream.error
  {
    hide FillWindow;
    SendErrors(c);
    FillCount(c.sender);
  }

  lemma AckSane(s: Sender, ackno: u32, win: u16)
    ensures AckReceived(s, ackno, win).crtx == s.crtx && AckReceived(s, ackno, win).stream == s.stream
  {
    AckRestores(s, ackno, win);
    AckKeepsStream(s, ackno, win);
  }

  lemma RespondSane(c: Conn, seg: TCPSegment)
    requires Sane(c)
    ensures Sane(Respond(c, seg)) && Respond(c, seg).sender.stream.error == c.sender.stream.error
  {
    hide FillWindowAndSend;
    SendSane(c);
    var (c1, n) := FillWindowAndSend(c);
    SendSane(c1.(sender := SendEmpty(c1.sender)));
  }

  lemma ArrivalSane(c: Conn, seg: TCPSegment)
    requires Sane(c)
    ensures Sane(SegmentReceived(c, seg))
    ensures SegmentReceived(c, seg).sender.stream.error == (c.sender.stream.error || Reset(c, Arrives(seg)))
  {
    hide Respond, Receiving.SegmentReceived, AckReceived, Finished, Listens;
    if !Hears(c, seg) {
      Dropped(c, seg);
    } else {
      ResetIff(c, seg);
      if !ValidReset(c, seg.header) {
        var c1 := PassiveClose(c, seg.header);
        AbsorbIs(c1, seg);
        AckSane(c.sender, seg.header.ackno, seg.header.win);
        ReceiverForward(c.receiver, seg);
        Absorbed(c1, seg);
        RespondSane(Absorb(c1, seg), seg);
        ClosedSane(c, seg);
      }
    }
  }

  lemma Absorbed(c: Conn, seg: TCPSegment)
    requires c.sender.stream.error == c.receiver.store.out.error && (c.sender.stream.error ==> !c.active) && c.sender.crtx <= 8
    ensures Sane(Absorb(c, seg)) && Absorb(c, seg).sender.stream.error == c.sender.stream.error
  {
    hide Receiving.SegmentReceived, AckReceived;
    AbsorbIs(c, seg);
    AckSane(c.sender, seg.header.ackno, seg.header.win);
    ReceiverForward(c.receiver, seg);
  }

  lemma ClosedSane(c: Conn, seg: TCPSegment)
    requires Hears(c, seg) && !ValidReset(c, seg.header) && Sane(Respond(Absorb(PassiveClose(c, seg.header), seg), seg))
    ensures Sane(SegmentReceived(c, seg))
  {
    hide Respond, Absorb, Finished;
  }

  lemma TickSane(c: Conn, ms: nat)
    requires Sane(c)
    ensures Sane(TimePasses(c, ms))
    ensures TimePasses(c, ms).sender.stream.error == (c.sender.stream.error || GivesUp(c, Elapses(ms)))
  {
    hide Tick, FillWindowAndSend, Finished;
    if c.active && !Listens(c) {
      TimeExact(c, ms);
      TickDoubles(c.sender, ms);
      TickStream(c.sender, ms);
      AgeIs(c, ms);
      if !GivesUp(c, Elapses(ms)) { SendSane(Age(c, ms)); }
    }
  }

  lemma EventSane(c: Conn, e: ConnEvent)
    requires Sane(c)
    ensures Sane(ApplyConn(c, e))
    ensures ApplyConn(c, e).sender.stream.error == (c.sender.stream.error || Reset(c, e) || GivesUp(c, e))
  {
    hide FillWindowAndSend, SegmentReceived, TimePasses, Reset, GivesUp;
    NoFailure(c, e);
    match e
    case Arrives(seg) => ArrivalSane(c, seg);
    case Elapses(ms) => TickSane(c, ms);
    case Connects => SendSane(c);
    case Writes(data) => StreamSane(c, Streams.Write(c.sender.stream, data));
    case Ends => StreamSane(c, Streams.End(c.sender.stream));
    case _ =>
  }

  lemma NoFailure(c: Conn, e: ConnEvent)
    ensures !e.Arrives? ==> !Reset(c, e)
    ensures !e.Elapses? ==> !GivesUp(c, e)
  {
  }

  lemma StreamSane(c: Conn, stream': Streams.Stream)
    requires Sane(c) && stream'.error == c.sender.stream.error
    ensures var c' := FillWindowAndSend(c.(sender := c.sender.(stream := stream'))).0;
      Sane(c') && c'.sender.stream.error == c.sender.stream.error
  {
    hide FillWindowAndSend;
    SendSane(c.(sender := c.sender.(stream := stream')));
  }

  predicate Fails(c: Conn, es: seq<ConnEvent>, i: nat)
    requires i < |es|
  {
    Reset(RunConn(c, es[..i]), es[i]) || GivesUp(RunConn(c, es[..i]), es[i])
  }

  /** Over every run the two error flags agree, an open connection has neither, and they are up
      exactly if a valid reset has been heard or the connection has given up. */
  lemma {:induction false} FailedIff(cfg: Config, es: seq<ConnEvent>)
    ensures var c := RunConn(FreshConn(cfg), es);
      && Sane(c)
      && (c.sender.stream.error <==> exists i :: 0 <= i < |es| && Fails(FreshConn(cfg), es, i))
    decreases |es|
  {
    hide ApplyConn, Reset, GivesUp, Sane;
    if es == [] {
      FreshSane(cfg);
    } else {
      var before, e := es[..|es| - 1], es[|es| - 1];
      FailedIff(cfg, before);
      EventSane(RunConn(FreshConn(cfg), before), e);
      forall i | 0 <= i < |before| ensures Fails(FreshConn(cfg), es, i) <==> Fails(FreshConn(cfg), before, i) {
        assert es[..i] == before[..i];
      }
      assert Fails(FreshConn(cfg), es, |before|) <==> Reset(RunConn(FreshConn(cfg), before), e) || GivesUp(RunConn(FreshConn(cfg), before), e);
    }
  }

  lemma FreshSane(cfg: Config)
    ensures Sane(FreshConn(cfg)) && !FreshConn(cfg).sender.stream.error
  {
  }

  // ---- whose FIN came first ----

  predicate NoFin(seg: TCPSegment) {
    !seg.header.fin
  }

  /** Before the FIN nothing that carries one is outstanding or queued. */
  predicate FinPending(s: Sender) {
    !s.finSent ==> Each(s.outstanding, NoFin) && !AnyFin(s.out)
  }

  lemma {:induction false} AnyFinAppend(a: seq<TCPSegment>, seg: TCPSegment)
    ensures AnyFin(a + [seg]) <==> AnyFin(a) || seg.header.fin
  {
    if a == [] {
      assert a + [seg] == [seg] && [seg][1..] == [];
    } else {
      AnyFinAppend(a[1..], seg);
      assert (a + [seg])[1..] == a[1..] + [seg];
    }
  }

  lemma EmitFins(s: Sender, seg: TCPSegment)
    requires FinPending(s) && !s.finSent
    ensures var s1 := Emit(s, seg);
      (AnyFin(s1.out) <==> seg.header.fin) && (!seg.header.fin ==> Each(s1.outstanding, NoFin))
  {
    AnyFinAppend(s.out, seg);
    if !seg.header.fin { InsertEach(s.outstanding, Entry(s.now, s.now + s.rto, seg), NoFin); }
  }

  lemma DataFins(s: Sender, len: nat)
    requires FinPending(s) && !s.finSent && 0 < len <= Streams.Size(s.stream)
    ensures var s1 := SendData(s, len);
      FinPending(s1) && (s1.finSent ==> AnyFin(s1.out))
      && |s1.out| == |s.out| + 1 && s1.finSent == s1.out[|s.out|].header.fin
      && s1.next > s.next && s1.acked == s.acked && s1.window == s.window
  {
    hide InsertByTime, Wrap, AnyFin, Each;
    var stream := Streams.Pop(s.stream, len);
    var fin := Streams.Eof(stream) && s.acked + s.window - s.next > len;
    EmitFins(s, Plain(Wrap(s.next, s.isn), false, fin, Streams.Buffer(s.stream)[..len]));
  }

  lemma {:induction false} LoopFins(s: Sender)
    requires FinPending(s) && !s.finSent
    ensures var s' := FillLoop(s); FinPending(s') && (s'.finSent ==> AnyFin(s'.out))
    decreases s.acked + s.window - s.next
  {
    hide Emit, Wrap, AnyFin, Each, SendData;
    if s.next < s.acked + s.window {
      EmitFins(s, Plain(Wrap(s.next, s.isn), false, true, []));
      if PayloadSize(s) > 0 {
        DataFins(s, PayloadSize(s));
        if !FillStep(s).1 { LoopFins(FillStep(s).0); }
      }
    }
  }

  /** `fill_window` sends a FIN exactly when it says so. */
  lemma FillFins(s: Sender)
    requires FinPending(s)
    ensures FinPending(FillWindow(s))
    ensures s.finSent ==> FillWindow(s) == s
    ensures !s.finSent ==> (AnyFin(FillWindow(s).out) <==> FillWindow(s).finSent)
  {
    hide FillLoop, AnyFin, InsertByTime;
    if !s.finSent {
      if s.window == UNSET { EmitFins(s, Plain(s.isn, true, Streams.Eof(s.stream), [])); } else { LoopFins(s); }
    }
  }

  lemma TickFins(s: Sender, ms: nat)
    requires FinPending(s)
    ensures FinPending(Tick(s, ms)) && Tick(s, ms).finSent == s.finSent
  {
    hide Retransmit, OldestDue, AnyFin;
    var s1 := s.(now := s.now + ms);
    var due := OldestDue(s.outstanding, |s.outstanding|, s1.now, s.isn, s.acked);
    if due.Some? { AgainFins(s1, due.value); }
  }

  lemma AgainFins(s: Sender, k: nat)
    requires FinPending(s) && k < |s.outstanding|
    ensures FinPending(Retransmit(s, k)) && Retransmit(s, k).finSent == s.finSent
  {
    hide AnyFin;
    AnyFinAppend(s.out, s.outstanding[k].seg);
    if !s.finSent { RetransmitEach(s, k, NoFin); }
  }

  lemma AckFins(s: Sender, ackno: u32, win: u16)
    requires FinPending(s)
    ensures FinPending(AckReceived(s, ackno, win)) && AckReceived(s, ackno, win).finSent == s.finSent
  {
    hide Unwrap, Retain, AnyFin;
    var a := Unwrap(ackno, s.isn, s.acked);
    if !s.finSent {
      RetainEach(s.outstanding, AckedBy(s.isn, a), if a > s.acked then Some(s.now + s.initialRto) else None, NoFin);
    }
  }

  lemma EmptyFins(s: Sender)
    requires FinPending(s)
    ensures FinPending(SendEmpty(s)) && SendEmpty(s).finSent == s.finSent
  {
    AnyFinAppend(s.out, Plain(Wrap(s.next, s.isn), false, false, []));
  }

  /** The connection's own flag says whether its sender's FIN has gone out. */
  predicate FinTracked(c: Conn) {
    FinPending(c.sender) && (c.active ==> (c.finsent <==> c.sender.finSent))
  }

  lemma SendTracks(c: Conn)
    requires FinPending(c.sender) && (c.active ==> (c.finsent <==> c.sender.finSent))
    ensures FinTracked(FillWindowAndSend(c).0) && FillWindowAndSend(c).0.linger == c.linger
  {
    hide FillWindow, Each;
    FillFins(c.sender);
  }

  lemma RespondTracks(c: Conn, seg: TCPSegment)
    requires FinTracked(c)
    ensures FinTracked(Respond(c, seg)) && Respond(c, seg).linger == c.linger && Respond(c, seg).active == c.active
  {
    hide FillWindowAndSend, FinPending, SendEmpty;
    SendTracks(c);
    SendErrors(c);
    var (c1, n) := FillWindowAndSend(c);
    EmptyFins(c1.sender);
    SendTracks(c1.(sender := SendEmpty(c1.sender)));
    SendErrors(c1.(sender := SendEmpty(c1.sender)));
  }

  /** The peer's FIN arrives while this end's has not gone out. */
  predicate PeerCloses(c: Conn, e: ConnEvent) {
    e.Arrives? && Hears(c, e.seg) && !ValidReset(c, e.seg.header) && e.seg.header.fin && !c.sender.finSent
  }

  lemma ArrivalTracks(c: Conn, seg: TCPSegment)
    requires FinTracked(c)
    ensures var c' := SegmentReceived(c, seg);
      && FinTracked(c') && (c'.active ==> (c'.linger <==> c.linger && !PeerCloses(c, Arrives(seg))))
      && (Hears(c, seg) && !ValidReset(c, seg.header) ==> (c'.linger <==> c.linger && !PeerCloses(c, Arrives(seg))))
  {
    hide Respond, Receiving.SegmentReceived, AckReceived, Finished, Listens, FinPending, Absorb, PassiveClose, CloseIfFinished;
    if !Hears(c, seg) {
      Dropped(c, seg);
    } else if ValidReset(c, seg.header) {
      ErrorTracks(c);
      ResetIff(c, seg);
    } else {
      var c1 := PassiveClose(c, seg.header);
      AbsorbIs(c1, seg);
      if seg.header.ack { AckFins(c.sender, seg.header.ackno, seg.header.win); }
      AbsorbLinger(c1, seg);
      PassiveKept(c, seg.header, Respond(Absorb(c1, seg), seg));
      RespondTracks(Absorb(c1, seg), seg);
      HeardIs(c, seg);
    }
  }

  lemma AbsorbLinger(c: Conn, seg: TCPSegment)
    ensures Absorb(c, seg).linger <==> c.linger && (seg.header.fin ==> c.finsent)
    ensures Absorb(c, seg).finsent == c.finsent
    ensures Absorb(c, seg).tlast == c.tnow && (Absorb(c, seg).finreceived <==> c.finreceived || seg.header.fin)
  {
    hide Receiving.SegmentReceived, AckReceived;
  }

  /** Closing changes neither flag, and an open connection has not been closed on the way. */
  lemma PassiveKept(c: Conn, h: TCPHeader, c2: Conn)
    ensures PassiveClose(c, h).linger == c.linger && PassiveClose(c, h).finsent == c.finsent
    ensures PassiveClose(c, h).sender == c.sender && PassiveClose(c, h).receiver == c.receiver
    ensures PassiveClose(c, h).active ==> c.active
    ensures CloseIfFinished(c2, h).linger == c2.linger && CloseIfFinished(c2, h).sender == c2.sender
    ensures CloseIfFinished(c2, h).finsent == c2.finsent && (CloseIfFinished(c2, h).active ==> c2.active)
  {
    hide Finished;
  }

  lemma ErrorTracks(c: Conn)
    requires FinPending(c.sender)
    ensures FinPending(c.sender.(stream := c.sender.stream.(error := true)))
  {
  }

  lemma TickTracks(c: Conn, ms: nat)
    requires FinTracked(c)
    ensures FinTracked(TimePasses(c, ms)) && (TimePasses(c, ms).active ==> TimePasses(c, ms).linger == c.linger)
  {
    hide Tick, FillWindowAndSend, Finished, FinPending, SendEmpty;
    var c1 := Age(c, ms);
    TickFins(c.sender, ms);
    SendTracks(c1);
    SendErrors(c1);
    EmptyFins(c1.sender);
    RstTracks(c1);
  }

  lemma RstTracks(c: Conn)
    requires FinPending(SendEmpty(c.sender))
    ensures FinPending(SendRst(c).sender) && !SendRst(c).active
  {
  }

  lemma EventTracks(c: Conn, e: ConnEvent)
    requires FinTracked(c)
    ensures var c' := ApplyConn(c, e);
      FinTracked(c') && (c'.active ==> (c'.linger <==> c.linger && !PeerCloses(c, e)))
  {
    hide FillWindowAndSend, SegmentReceived, TimePasses, FinPending;
    match e
    case Arrives(seg) => ArrivalTracks(c, seg);
    case Elapses(ms) => TickTracks(c, ms);
    case Connects => SendTracks(c);
    case Writes(data) => StreamTracks(c, Streams.Write(c.sender.stream, data));
    case Ends => StreamTracks(c, Streams.End(c.sender.stream));
    case _ =>
  }

  lemma StreamTracks(c: Conn, stream': Streams.Stream)
    requires FinTracked(c)
    ensures var c' := FillWindowAndSend(c.(sender := c.sender.(stream := stream'))).0;
      FinTracked(c') && c'.linger == c.linger
  {
    hide FillWindowAndSend, AnyFin, Each;
    SendTracks(c.(sender := c.sender.(stream := stream')));
  }

  predicate ClosedFirst(c: Conn, es: seq<ConnEvent>, i: nat)
    requires i < |es|
  {
    PeerCloses(RunConn(c, es[..i]), es[i])
  }

  /** Over every run an open connection will linger exactly if the peer's FIN has not arrived
      before its own went out. */
  lemma {:induction false} LingersIff(cfg: Config, es: seq<ConnEvent>)
    ensures var c := RunConn(FreshConn(cfg), es);
      && FinTracked(c)
      && (c.active ==> (c.linger <==> forall i :: 0 <= i < |es| ==> !ClosedFirst(FreshConn(cfg), es, i)))
    decreases |es|
  {
    hide ApplyConn, PeerCloses, FinTracked;
    if es == [] {
      FreshTracked(cfg);
    } else {
      var before, e := es[..|es| - 1], es[|es| - 1];
      var c := RunConn(FreshConn(cfg), before);
      LingersIff(cfg, before);
      EventTracks(c, e);
      StaysClosed(c, e);
      forall i | 0 <= i < |before| ensures ClosedFirst(FreshConn(cfg), es, i) <==> ClosedFirst(FreshConn(cfg), before, i) {
        assert es[..i] == before[..i];
      }
      assert ClosedFirst(FreshConn(cfg), es, |before|) <==> PeerCloses(c, e);
    }
  }

  lemma StaysClosed(c: Conn, e: ConnEvent)
    ensures ApplyConn(c, e).active ==> c.active
  {
  }

  lemma FreshTracked(cfg: Config)
    ensures FinTracked(FreshConn(cfg)) && FreshConn(cfg).linger
  {
  }

  // ---- when it closes without an error ----

  /** Everything has been sent and acknowledged: the SYN, every byte written and the FIN. */
  predicate AllAcked(s: Sender) {
    s.acked == |s.stream.written| + 2
  }

  lemma AckedIffDone(s: Sender)
    requires Inv(s)
    ensures AllAcked(s) <==> Done(s) && s.finSent
  {
    var q: seq<Flight>, m: nat :| Flying(s, q, m);
    InFlight(s, q, m);
  }

  lemma FinishedIff(c: Conn)
    requires Closing(c)
    ensures Finished(c) <==> AllAcked(c.sender)
  {
    AckedIffDone(c.sender);
  }

  /** A finished sender stays finished while it answers. */
  lemma StaysFinished(c: Conn, seg: TCPSegment)
    requires Closing(c) && Finished(c) && c.sender.next < 0x8000_0000_0000_0000
    ensures Finished(Respond(Absorb(c, seg), seg))
  {
    hide Silent, AckReceived, FillWindow, BytesInFlight;
    AbsorbIs(c, seg);
    FinishedIff(c);
    if seg.header.ack { InvAck(c.sender, seg.header.ackno, seg.header.win); }
    RespondFinished(Absorb(c, seg), seg);
  }

  lemma RespondFinished(c: Conn, seg: TCPSegment)
    requires c.sender.finSent && Finished(c)
    ensures Finished(Respond(c, seg))
  {
    hide StampAll, AnyFin;
  }

  lemma ArrivalCloses(c: Conn, seg: TCPSegment)
    requires Closing(c) && c.sender.next < 0x8000_0000_0000_0000 && Timely(c, Arrives(seg))
    requires Hears(c, seg) && !ValidReset(c, seg.header)
    ensures var c' := SegmentReceived(c, seg);
      c'.active <==> !(!c'.linger && seg.header.ack && AllAcked(c'.sender))
  {
    hide Respond, Absorb, Finished, AllAcked, Inv, Silent;
    ArrivalKeeps(c, seg);
    FinishedIff(SegmentReceived(c, seg));
    HeardIs(c, seg);
    var c1 := PassiveClose(c, seg.header);
    var c2 := Respond(Absorb(c1, seg), seg);
    RespondKeepsErrors(Absorb(c1, seg), seg);
    AbsorbIs(c1, seg);
    AbsorbLinger(c1, seg);
    LingerKept(Absorb(c1, seg), seg);
    ClosedLater(c2, seg.header);
    if !c1.active {
      PassiveOnly(c, seg.header);
      PassiveKeeps(c, seg.header);
      SameSender(c, c1);
      StaysFinished(c1, seg);
    }
  }

  lemma SameSender(c: Conn, c1: Conn)
    requires c1.sender == c.sender
    ensures Finished(c1) == Finished(c)
  {
  }

  lemma LingerKept(c: Conn, seg: TCPSegment)
    ensures var c' := Respond(c, seg);
      c'.linger == c.linger && c'.tlast == c.tlast && c'.finreceived == c.finreceived
  {
    hide FillWindow, StampAll, AnyFin;
  }

  lemma PassiveOnly(c: Conn, h: TCPHeader)
    requires c.active && !PassiveClose(c, h).active
    ensures !c.linger && Finished(c) && h.ack
  {
    hide Finished;
  }

  lemma ClosedLater(c: Conn, h: TCPHeader)
    ensures var c' := CloseIfFinished(c, h);
      && c'.linger == c.linger && c'.sender == c.sender && Finished(c') == Finished(c)
      && (c'.active <==> c.active && !(!c.linger && Finished(c) && h.ack))
  {
  }

  /** On every run: a heard segment that is no valid reset closes the connection exactly if the
      peer closed first, the segment acknowledges something, and everything is acknowledged. */
  lemma ArrivalClosesIff(cfg: Config, es: seq<ConnEvent>, seg: TCPSegment)
    requires AllPlausible(FreshConn(cfg), es + [Arrives(seg)])
    requires var c := RunConn(FreshConn(cfg), es); Hears(c, seg) && !ValidReset(c, seg.header)
    ensures var c' := RunConn(FreshConn(cfg), es + [Arrives(seg)]); var all := es + [Arrives(seg)];
      c'.active <==> !((exists i :: 0 <= i < |all| && ClosedFirst(FreshConn(cfg), all, i)) && seg.header.ack && AllAcked(c'.sender))
  {
    hide ApplyConn, Closing, AllAcked, FinTracked, ClosedFirst, AllPlausible;
    var c, all := RunConn(FreshConn(cfg), es), es + [Arrives(seg)];
    PlausibleParts(cfg, es, Arrives(seg));
    RunKeeps(cfg, es);
    ShortConn(c);
    LingersIff(cfg, es);
    PlausibleIsTimely(c, Arrives(seg));
    ArrivalTracks(c, seg);
    ArrivalCloses(c, seg);
    FirstExtends(cfg, es, Arrives(seg));
    HearsOpen(c, seg);
  }

  lemma HearsOpen(c: Conn, seg: TCPSegment)
    requires Hears(c, seg)
    ensures c.active && ApplyConn(c, Arrives(seg)) == SegmentReceived(c, seg)
  {
  }

  lemma ShortConn(c: Conn)
    requires Closing(c) && Short(c)
    ensures c.sender.next < 0x8000_0000_0000_0000
  {
    ShortNext(c.sender);
  }

  lemma PlausibleParts(cfg: Config, es: seq<ConnEvent>, e: ConnEvent)
    requires AllPlausible(FreshConn(cfg), es + [e])
    ensures var c := RunConn(FreshConn(cfg), es);
      AllPlausible(FreshConn(cfg), es) && Short(c) && Plausible(c, e) && RunConn(FreshConn(cfg), es + [e]) == ApplyConn(c, e)
  {
    hide ApplyConn, Short, Plausible;
    assert (es + [e])[..|es + [e]| - 1] == es;
  }

  lemma FirstExtends(cfg: Config, es: seq<ConnEvent>, e: ConnEvent)
    ensures var all := es + [e];
      (exists i :: 0 <= i < |all| && ClosedFirst(FreshConn(cfg), all, i))
      <==> PeerCloses(RunConn(FreshConn(cfg), es), e) || exists i :: 0 <= i < |es| && ClosedFirst(FreshConn(cfg), es, i)
  {
    hide PeerCloses, RunConn;
    var all := es + [e];
    assert all[..|es|] == es;
    forall i | 0 <= i < |es| ensures ClosedFirst(FreshConn(cfg), all, i) <==> ClosedFirst(FreshConn(cfg), es, i) {
      assert all[..i] == es[..i];
    }
    assert ClosedFirst(FreshConn(cfg), all, |es|) <==> PeerCloses(RunConn(FreshConn(cfg), es), e);
  }

  /** On every run: as time passes, an open connection that is past listening closes without an
      error exactly if everything is acknowledged and ten initial timeouts have passed since it
      last sent something. */
  lemma TimeClosesIff(cfg: Config, es: seq<ConnEvent>, ms: nat)
    requires AllPlausible(FreshConn(cfg), es)
    requires var c := RunConn(FreshConn(cfg), es); c.active && !Listens(c) && !GivesUp(c, Elapses(ms))
    ensures var c := RunConn(FreshConn(cfg), es); var c' := ApplyConn(c, Elapses(ms));
      && (c'.active <==> !(AllAcked(c.sender) && Lingered(c, ms)))
      && !c'.sender.stream.error && !c'.receiver.store.out.error
  {
    hide TimePasses, Closing, AllAcked, GivesUp, Listens;
    var c := RunConn(FreshConn(cfg), es);
    RunKeeps(cfg, es);
    FailedIff(cfg, es);
    FinishedIff(c);
    TimeExact(c, ms);
  }

  /** `tlastsent` is the time of the last event that sent something. */
  lemma LastSentIs(c: Conn, e: ConnEvent)
    requires !e.Collects? && !GivesUp(c, e) && (c.active ==> c.sender.crtx <= 8)
    ensures var c' := ApplyConn(c, e);
      && c'.tlastsent == (if |c'.out| > |c.out| then c'.tnow else c.tlastsent)
      && c'.tnow == c.tnow + (if e.Elapses? && c.active && !Listens(c) then e.ms else 0)
  {
    hide FillWindowAndSend, SegmentReceived, TimePasses;
    match e
    case Arrives(seg) => ArrivalSent(c, seg);
    case Elapses(ms) => TickSent(c, ms);
    case Connects => SendSent(c);
    case Writes(data) => SendSent(c.(sender := c.sender.(stream := Streams.Write(c.sender.stream, data))));
    case Ends => SendSent(c.(sender := c.sender.(stream := Streams.End(c.sender.stream))));
    case _ =>
  }

  /** `time_since_last_segment_received()` counts from the last segment that was heard and was no
      valid reset; `finreceived` says whether one of them was a FIN. */
  lemma LastHeardIs(c: Conn, e: ConnEvent)
    ensures var c' := ApplyConn(c, e);
      if e.Arrives? && Hears(c, e.seg) && !ValidReset(c, e.seg.header)
      then c'.tlast == c.tnow && (c'.finreceived <==> c.finreceived || e.seg.header.fin)
      else c'.tlast == c.tlast && (c'.finreceived <==> c.finreceived)
  {
    hide FillWindowAndSend, TimePasses, SegmentReceived, BytesInFlight;
    match e
    case Arrives(seg) => if Hears(c, seg) { ArrivalHeard(c, seg); } else { Dropped(c, seg); }
    case Elapses(ms) => TickHeard(c, ms);
    case Connects => SendErrors(c);
    case Writes(data) => SendErrors(c.(sender := c.sender.(stream := Streams.Write(c.sender.stream, data))));
    case Ends => SendErrors(c.(sender := c.sender.(stream := Streams.End(c.sender.stream))));
    case _ =>
  }

  lemma TickHeard(c: Conn, ms: nat)
    ensures TimePasses(c, ms).tlast == c.tlast && TimePasses(c, ms).finreceived == c.finreceived
  {
    hide FillWindowAndSend, Tick, Finished, BytesInFlight;
    SendErrors(Age(c, ms));
  }

  lemma ArrivalHeard(c: Conn, seg: TCPSegment)
    requires Hears(c, seg)
    ensures var c' := SegmentReceived(c, seg);
      if ValidReset(c, seg.header) then c'.tlast == c.tlast && c'.finreceived == c.finreceived
      else c'.tlast == c.tnow && (c'.finreceived <==> c.finreceived || seg.header.fin)
  {
    hide Respond, Absorb, Finished, BytesInFlight;
    if !ValidReset(c, seg.header) {
      HeardIs(c, seg);
      AbsorbLinger(PassiveClose(c, seg.header), seg);
      LingerKept(Absorb(PassiveClose(c, seg.header), seg), seg);
    }
  }

  /** `write` accepts what fits, appends it and says how much that was; a closed connection accepts
      nothing. */
  lemma WriteAccepts(c: Conn, data: seq<byte>)
    ensures var (c', n) := WriteBytes(c, data); var s := c.sender.stream;
      if c.active then
        n == Min(|data|, s.cap - (|s.written| - s.read)) && c'.sender.stream.written == s.written + data[..n]
      else n == 0 && c' == c
  {
    hide FillWindow;
    if c.active {
      var s1 := c.sender.(stream := Streams.Write(c.sender.stream, data));
      FillKeepsStream(s1);
    }
  }

  lemma FillKeepsStream(s: Sender)
    ensures FillWindow(s).stream == s.stream.(read := FillWindow(s).stream.read)
  {
    hide FillLoop;
    if !s.finSent && s.window != UNSET { LoopFills(s); }
  }

  // ---- nothing is held back ----

  /** An open connection has handed over everything its sender has queued, and its sender has
      nothing more to send. */
  predicate AllOut(c: Conn) {
    && Unopened(c.sender)
    && (c.active ==> c.sender.out == [] && (c.sender.window == UNSET || FillWindow(c.sender) == c.sender))
  }

  /** Until the window is known, nothing is acknowledged. */
  predicate Unopened(s: Sender) {
    s.window == UNSET ==> s.acked == 0
  }

  lemma SendAllOut(c: Conn)
    requires Unopened(c.sender)
    ensures AllOut(FillWindowAndSend(c).0)
  {
    hide FillWindow, StampAll, AnyFin;
    FilledOnce(c.sender);
  }

  lemma RespondAllOut(c: Conn, seg: TCPSegment)
    requires Unopened(c.sender)
    ensures AllOut(Respond(c, seg))
  {
    hide FillWindowAndSend, FillWindow;
    SendAllOut(c);
    var c1 := FillWindowAndSend(c).0;
    SendAllOut(c1.(sender := SendEmpty(c1.sender)));
  }

  lemma ArrivalAllOut(c: Conn, seg: TCPSegment)
    requires AllOut(c)
    ensures AllOut(SegmentReceived(c, seg))
  {
    hide Respond, Absorb, FillWindow, Finished, BytesInFlight;
    if !Hears(c, seg) {
      Dropped(c, seg);
    } else if ValidReset(c, seg.header) {
      ResetIff(c, seg);
    } else {
      HeardIs(c, seg);
      AbsorbIs(PassiveClose(c, seg.header), seg);
      AckOpens(c.sender, seg.header.ackno, seg.header.win);
      RespondAllOut(Absorb(PassiveClose(c, seg.header), seg), seg);
    }
  }

  lemma AckOpens(s: Sender, ackno: u32, win: u16)
    requires Unopened(s)
    ensures Unopened(AckReceived(s, ackno, win))
  {
    hide Unwrap, Retain;
  }

  lemma TickOpens(s: Sender, ms: nat)
    ensures Tick(s, ms).window == s.window && Tick(s, ms).acked == s.acked
  {
    hide OldestDue;
  }

  lemma TickAllOut(c: Conn, ms: nat)
    requires AllOut(c)
    ensures AllOut(TimePasses(c, ms))
  {
    hide FillWindowAndSend, Age, FillWindow, Tick;
    AgeIs(c, ms);
    TickOpens(c.sender, ms);
    SendAllOut(Age(c, ms));
  }

  lemma StreamAllOut(c: Conn, stream': Streams.Stream)
    requires AllOut(c)
    ensures AllOut(FillWindowAndSend(c.(sender := c.sender.(stream := stream'))).0)
  {
    hide FillWindowAndSend, FillWindow;
    SendAllOut(c.(sender := c.sender.(stream := stream')));
  }

  lemma EventAllOut(c: Conn, e: ConnEvent)
    requires AllOut(c)
    ensures AllOut(ApplyConn(c, e))
  {
    hide FillWindowAndSend, SegmentReceived, TimePasses, FillWindow;
    match e
    case Arrives(seg) => ArrivalAllOut(c, seg);
    case Elapses(ms) => TickAllOut(c, ms);
    case Connects => SendAllOut(c);
    case Writes(data) => StreamAllOut(c, Streams.Write(c.sender.stream, data));
    case Ends => StreamAllOut(c, Streams.End(c.sender.stream));
    case _ =>
  }

  /** Over every run, whatever can be sent has been: the sender's queue is empty, and once its
      window is known the sender would send nothing more. */
  lemma {:induction false} NothingHeldBack(cfg: Config, es: seq<ConnEvent>)
    ensures AllOut(RunConn(FreshConn(cfg), es))
    decreases |es|
  {
    hide ApplyConn, FillWindow;
    if es != [] {
      NothingHeldBack(cfg, es[..|es| - 1]);
      EventAllOut(RunConn(FreshConn(cfg), es[..|es| - 1]), es[|es| - 1]);
    }
  }

  /** What a tick makes the sender retransmit, and what it can send besides, goes out stamped. */
  lemma TickGoesOut(c: Conn, ms: nat)
    requires c.active && !Listens(c) && c.sender.crtx <= 8 && !GivesUp(c, Elapses(ms))
    ensures TimePasses(c, ms).out
         == c.out + StampAll(c.cfg, Receiving.Ackno(c.receiver), FillWindow(Tick(c.sender, ms)).out)
  {
    hide FillWindow, Tick, StampAll, AnyFin;
    TickDoubles(c.sender, ms);
  }

  // ---- the configuration ----

  predicate Configured(c: Conn, cfg: Config) {
    && c.cfg == cfg
    && c.sender.isn == cfg.isn && c.sender.initialRto == cfg.rtTimeout && c.sender.stream.cap == cfg.sendCapacity
    && c.receiver.store.out.cap == cfg.recvCapacity
  }

  lemma FillConfigured(s: Sender)
    ensures FillWindow(s).isn == s.isn && FillWindow(s).initialRto == s.initialRto && FillWindow(s).stream.cap == s.stream.cap
  {
    hide FillLoop, InsertByTime;
    FillKeepsStream(s);
    if !s.finSent && s.window != UNSET { LoopConfigured(s); }
  }

  lemma {:induction false} LoopConfigured(s: Sender)
    ensures FillLoop(s).isn == s.isn && FillLoop(s).initialRto == s.initialRto
    decreases s.acked + s.window - s.next
  {
    hide InsertByTime, Wrap;
    if s.next < s.acked + s.window {
      var (s1, stop) := FillStep(s);
      if !stop { LoopConfigured(s1); }
    }
  }

  lemma SendConfigured(c: Conn, cfg: Config)
    requires Configured(c, cfg)
    ensures Configured(FillWindowAndSend(c).0, cfg)
  {
    hide FillWindow, StampAll, AnyFin;
    FillConfigured(c.sender);
  }

  lemma {:induction false} DrainCap(st: Reassembly.Store)
    ensures Reassembly.Drain(st).out.cap == st.out.cap
    decreases |st.t|
  {
    if st.t != [] && st.t[0].lo == st.unasb {
      DrainCap(st.(t := st.t[1..], out := Streams.Write(st.out, st.t[0].data),
                   unasb := st.unasb + |st.t[0].data|, szUnasb := st.szUnasb - |st.t[0].data|));
    }
  }

  lemma PushCap(st: Reassembly.Store, data: seq<byte>, index: u64, eof: bool)
    ensures Reassembly.Push(st, data, index, eof).out.cap == st.out.cap
  {
    hide Reassembly.Drain, Reassembly.PutAll, Reassembly.Gaps, Reassembly.Total;
    Reassembly.U64Small(index + |data|);
    var stop := U64(index + |data|);
    var idx, end := Max(st.unasb, index), Min(stop, Reassembly.Limit(st));
    if idx < end { DrainCap(Reassembly.Insert(if eof then st.(eof2 := stop) else st, idx, end, data, index)); }
  }

  lemma ReceivedCap(r: Receiving.Receiver, seg: TCPSegment)
    ensures Receiving.SegmentReceived(r, seg).store.out.cap == r.store.out.cap
  {
    hide Reassembly.Push;
    ReceivedIs(r, seg);
    PushCap(r.store, seg.payload, Receiving.IndexOf(r, seg.header), seg.header.fin);
  }

  lemma ArrivalConfigured(c: Conn, seg: TCPSegment, cfg: Config)
    requires Configured(c, cfg)
    ensures Configured(SegmentReceived(c, seg), cfg)
  {
    hide Respond, Receiving.SegmentReceived, AckReceived, Finished, BytesInFlight;
    if !Hears(c, seg) {
      Dropped(c, seg);
    } else if ValidReset(c, seg.header) {
      ResetIff(c, seg);
    } else {
      HeardIs(c, seg);
      var c1 := PassiveClose(c, seg.header);
      AbsorbIs(c1, seg);
      ReceivedCap(c.receiver, seg);
      AckConfigured(c.sender, seg.header.ackno, seg.header.win);
      RespondConfigured(Absorb(c1, seg), seg, cfg);
    }
  }

  lemma AckConfigured(s: Sender, ackno: u32, win: u16)
    ensures var s' := AckReceived(s, ackno, win); s'.isn == s.isn && s'.initialRto == s.initialRto && s'.stream == s.stream
  {
    hide Unwrap, Retain;
  }

  lemma RespondConfigured(c: Conn, seg: TCPSegment, cfg: Config)
    requires Configured(c, cfg)
    ensures Configured(Respond(c, seg), cfg)
  {
    hide FillWindowAndSend;
    SendConfigured(c, cfg);
    var c1 := FillWindowAndSend(c).0;
    SendConfigured(c1.(sender := SendEmpty(c1.sender)), cfg);
  }

  lemma TickConfigured(c: Conn, ms: nat, cfg: Config)
    requires Configured(c, cfg)
    ensures Configured(TimePasses(c, ms), cfg)
  {
    hide FillWindowAndSend, Tick, Finished;
    TickStream(c.sender, ms);
    TickConstants(c.sender, ms);
    SendConfigured(Age(c, ms), cfg);
  }

  lemma TickConstants(s: Sender, ms: nat)
    ensures Tick(s, ms).isn == s.isn && Tick(s, ms).initialRto == s.initialRto
  {
    hide OldestDue;
  }

  /** Over every run a connection keeps to its configuration. */
  lemma {:induction false} AlwaysConfigured(cfg: Config, es: seq<ConnEvent>)
    ensures Configured(RunConn(FreshConn(cfg), es), cfg)
    decreases |es|
  {
    hide ApplyConn, Configured;
    if es == [] {
      FreshConfigured(cfg);
    } else {
      var c, e := RunConn(FreshConn(cfg), es[..|es| - 1]), es[|es| - 1];
      AlwaysConfigured(cfg, es[..|es| - 1]);
      EventConfigured(c, e, cfg);
    }
  }

  lemma FreshConfigured(cfg: Config)
    ensures Configured(FreshConn(cfg), cfg) && FreshConn(cfg).sender.rto == cfg.rtTimeout
  {
  }

  lemma StreamConfigured(c: Conn, stream': Streams.Stream, cfg: Config)
    requires Configured(c, cfg) && stream'.cap == c.sender.stream.cap
    ensures Configured(FillWindowAndSend(c.(sender := c.sender.(stream := stream'))).0, cfg)
  {
    hide FillWindowAndSend;
    SendConfigured(c.(sender := c.sender.(stream := stream')), cfg);
  }

  lemma EventConfigured(c: Conn, e: ConnEvent, cfg: Config)
    requires Configured(c, cfg)
    ensures Configured(ApplyConn(c, e), cfg)
  {
    hide FillWindowAndSend, SegmentReceived, TimePasses;
    match e
    case Arrives(seg) => ArrivalConfigured(c, seg, cfg);
    case Elapses(ms) => TickConfigured(c, ms, cfg);
    case Connects => SendConfigured(c, cfg);
    case Writes(data) => StreamConfigured(c, Streams.Write(c.sender.stream, data), cfg);
    case Ends => StreamConfigured(c, Streams.End(c.sender.stream), cfg);
    case _ =>
  }

  lemma {:induction false} StampCount(cfg: Config, ackno: Option<u32>, segs: seq<TCPSegment>)
    ensures |StampAll(cfg, ackno, segs)| == |segs|
  {
    if segs != [] { StampCount(cfg, ackno, segs[1..]); }
  }

  lemma SendSent(c: Conn)
    ensures var c' := FillWindowAndSend(c).0;
      && c'.tnow == c.tnow && |c'.out| >= |c.out|
      && c'.tlastsent == (if |c'.out| > |c.out| then c'.tnow else c.tlastsent)
  {
    hide FillWindow, AnyFin;
    StampCount(c.cfg, Receiving.Ackno(c.receiver), FillWindow(c.sender).out);
  }

  lemma ArrivalSent(c: Conn, seg: TCPSegment)
    ensures var c' := SegmentReceived(c, seg);
      c'.tnow == c.tnow && c'.tlastsent == (if |c'.out| > |c.out| then c'.tnow else c.tlastsent)
  {
    hide Respond, Absorb, Finished, BytesInFlight;
    if !Hears(c, seg) {
      Dropped(c, seg);
    } else if !ValidReset(c, seg.header) {
      HeardIs(c, seg);
      var c1 := PassiveClose(c, seg.header);
      AbsorbTimes(c1, seg);
      RespondSent(Absorb(c1, seg), seg);
    }
  }

  lemma AbsorbTimes(c: Conn, seg: TCPSegment)
    ensures var c' := Absorb(c, seg); c'.out == c.out && c'.tnow == c.tnow && c'.tlastsent == c.tlastsent
  {
    hide Receiving.SegmentReceived, AckReceived;
  }

  lemma RespondSent(c: Conn, seg: TCPSegment)
    ensures var c' := Respond(c, seg);
      c'.tnow == c.tnow && c'.tlastsent == (if |c'.out| > |c.out| then c'.tnow else c.tlastsent)
  {
    hide FillWindowAndSend, SendEmpty;
    SendSent(c);
    var c2 := FillWindowAndSend(c).0;
    SendSent(c2.(sender := SendEmpty(c2.sender)));
  }

  lemma TickSent(c: Conn, ms: nat)
    requires !GivesUp(c, Elapses(ms)) && (c.active ==> c.sender.crtx <= 8)
    ensures var c' := TimePasses(c, ms);
      && c'.tlastsent == (if |c'.out| > |c.out| then c'.tnow else c.tlastsent)
      && c'.tnow == c.tnow + (if c.active && !Listens(c) then ms else 0)
  {
    hide Tick, FillWindowAndSend, Finished;
    TickDoubles(c.sender, ms);
    SendSent(Age(c, ms));
  }
}
