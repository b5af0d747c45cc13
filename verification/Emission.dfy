/** What a connection puts on the wire: genuine segments, each with the acknowledgment its
    receiver stands by. */
module Emission {
  import opened Types
  import opened TcpSegments
  import opened Sending
  import opened SenderSteps
  import opened SenderInvariant
  import opened CleanClose
  import opened Connecting
  import opened Honesty
  import Streams
  import Receiving

  /** A reset carries neither an acknowledgment nor a window. Any other segment advertises the
      fixed receive capacity, as far as 16 bits go, and acknowledges exactly what the receiver
      acknowledges now. */
  predicate Marked(cfg: Config, r: Receiving.Receiver, seg: TCPSegment) {
    if seg.header.rst then !seg.header.ack && seg.header.win == 0
    else
      && seg.header.win == Min(cfg.recvCapacity, 0xffff)
      && Receiving.Ackno(r) == if seg.header.ack then Some(seg.header.ackno) else None
  }

  predicate Acknowledges(cfg: Config, r: Receiving.Receiver, segs: seq<TCPSegment>) {
    forall i :: 0 <= i < |segs| ==> Marked(cfg, r, segs[i])
  }

  ghost predicate HonestConn(c: Conn) {
    Honest(c.sender) && AllGenuine(c.sender, c.out) && Acknowledges(c.cfg, c.receiver, c.out)
  }

  lemma {:induction false} StampGenuine(s: Sender, cfg: Config, ackno: Option<u32>, segs: seq<TCPSegment>)
    requires AllGenuine(s, segs)
    ensures AllGenuine(s, StampAll(cfg, ackno, segs))
  {
    if segs != [] {
      StampGenuine(s, cfg, ackno, segs[1..]);
      GenuineSame(s, segs[0], Stamp(cfg, ackno, segs[0]));
    }
  }

  lemma {:induction false} StampAcknowledges(r: Receiving.Receiver, cfg: Config, segs: seq<TCPSegment>)
    requires Unstamped(segs)
    ensures Acknowledges(cfg, r, StampAll(cfg, Receiving.Ackno(r), segs))
  {
    if segs != [] { StampAcknowledges(r, cfg, segs[1..]); }
  }

  /** A segment that is moved keeps what the sender put in it, advertises the fixed receive
      capacity, as far as 16 bits go, and acknowledges exactly if there is something to
      acknowledge. */
  lemma {:induction false} StampedAs(cfg: Config, ackno: Option<u32>, segs: seq<TCPSegment>, i: nat)
    requires i < |segs| && Unstamped(segs)
    ensures |StampAll(cfg, ackno, segs)| == |segs|
    ensures var seg, sent := segs[i], StampAll(cfg, ackno, segs)[i];
      && sent.header.win == Min(cfg.recvCapacity, 0xffff)
      && (sent.header.ack <==> ackno.Some?) && (ackno.Some? ==> sent.header.ackno == ackno.value)
      && sent.payload == seg.payload && sent.header.seqno == seg.header.seqno
      && sent.header.syn == seg.header.syn && sent.header.fin == seg.header.fin
  {
    if i > 0 {
      StampedAs(cfg, ackno, segs[1..], i - 1);
      assert StampAll(cfg, ackno, segs)[i] == StampAll(cfg, ackno, segs[1..])[i - 1];
    } else if |segs| > 1 {
      StampedAs(cfg, ackno, segs[1..], 0);
    }
  }

  lemma FlushFields(c: Conn)
    ensures var c' := Flush(c);
      && c'.sender == c.sender.(out := []) && c'.receiver == c.receiver && c'.cfg == c.cfg && c'.active == c.active
      && c'.out == c.out + StampAll(c.cfg, Receiving.Ackno(c.receiver), c.sender.out)
  {
  }

  lemma FlushHonest(c: Conn)
    requires HonestConn(c)
    ensures HonestConn(Flush(c)) && Grows(c.sender, Flush(c).sender)
  {
    FlushFields(c);
    var s', sent := c.sender.(out := []), StampAll(c.cfg, Receiving.Ackno(c.receiver), c.sender.out);
    StreamHonest(c.sender, s');
    OutKept(c.sender, s', c.out);
    StampGenuine(c.sender, c.cfg, Receiving.Ackno(c.receiver), c.sender.out);
    OutKept(c.sender, s', sent);
    AppendGenuine(s', c.out, sent);
    StampAcknowledges(c.receiver, c.cfg, c.sender.out);
  }

  lemma SendHonest(c: Conn)
    requires HonestConn(c) && Small(c.sender)
    ensures var c' := FillWindowAndSend(c).0;
      && HonestConn(c') && Grows(c.sender, c'.sender)
      && c'.receiver == c.receiver && c'.cfg == c.cfg
      && c'.sender.stream.written == c.sender.stream.written
  {
    var s' := FillWindow(c.sender);
    FillHonest(c.sender);
    FillKeepsWritten(c.sender);
    OutKept(c.sender, s', c.out);
    FlushHonest(Filled(c));
    FlushFields(Filled(c));
    GrowsOn(c.sender, s', s'.(out := []));
  }

  /** Only the sender is replaced, by one that is honest and has grown. */
  lemma SenderReplaced(c: Conn, s': Sender)
    requires HonestConn(c) && Honest(s') && Grows(c.sender, s')
    ensures HonestConn(c.(sender := s'))
  {
    OutKept(c.sender, s', c.out);
  }

  lemma EmptyConn(c: Conn)
    requires HonestConn(c)
    ensures HonestConn(c.(sender := SendEmpty(c.sender))) && Grows(c.sender, SendEmpty(c.sender))
  {
    EmptyHonest(c.sender);
    SenderReplaced(c, SendEmpty(c.sender));
  }

  lemma RespondHonest(c: Conn, seg: TCPSegment)
    requires HonestConn(c) && Small(c.sender)
    ensures HonestConn(Respond(c, seg)) && Grows(c.sender, Respond(c, seg).sender)
    ensures Respond(c, seg).receiver == c.receiver && Respond(c, seg).cfg == c.cfg
  {
    SendHonest(c);
    var (c1, n) := FillWindowAndSend(c);
    if n == 0 && Occupies(seg) {
      var c2 := c1.(sender := SendEmpty(c1.sender));
      EmptyConn(c1);
      SendHonest(c2);
      GrowsOn(c.sender, c1.sender, c2.sender);
      GrowsOn(c.sender, c2.sender, Respond(c, seg).sender);
    }
  }

  lemma AbsorbHonest(c: Conn, seg: TCPSegment)
    requires Honest(c.sender) && c.out == [] && c.sender.next < 0x8000_0000_0000_0000
    requires seg.header.ack ==> Expected(c.sender, seg.header.ackno)
    ensures HonestConn(Absorb(c, seg)) && Grows(c.sender, Absorb(c, seg).sender)
    ensures Absorb(c, seg).sender.stream == c.sender.stream
  {
    AbsorbIs(c, seg);
    if seg.header.ack {
      AckHonest(c.sender, seg.header.ackno, seg.header.win);
      InvAck(c.sender, seg.header.ackno, seg.header.win);
    }
  }

  /** The connection's error flags are up and nothing else has changed. */
  predicate Errored(c: Conn, c': Conn) {
    && c'.sender == c.sender.(stream := Streams.SetError(c.sender.stream))
    && c'.receiver == c.receiver.(store := c.receiver.store.(out := Streams.SetError(c.receiver.store.out)))
    && c'.cfg == c.cfg
  }

  lemma AbortHonest(c: Conn)
    requires HonestConn(c)
    ensures HonestConn(Abort(c)) && Grows(c.sender, Abort(c).sender)
    ensures Errored(c, Abort(c))
  {
    StreamHonest(c.sender, Abort(c).sender);
    OutKept(c.sender, Abort(c).sender, c.out);
  }

  lemma RstHonest(c: Conn)
    requires HonestConn(c)
    ensures HonestConn(SendRst(c)) && Grows(c.sender, SendRst(c).sender)
    ensures SendRst(c).receiver == Abort(c).receiver && SendRst(c).cfg == c.cfg
  {
    hide Inv;
    var s := SendEmpty(c.sender);
    EmptyConn(c);
    var seg := s.out[0].(header := s.out[0].header.(rst := true));
    GenuineSame(s, s.out[0], seg);
    var c1 := c.(sender := s.(out := s.out[1..]), out := c.out + [seg]);
    StreamHonest(s, c1.sender);
    OutKept(s, c1.sender, c1.out);
    AbortHonest(c1);
    GrowsOn(c.sender, s, c1.sender);
    GrowsOn(c.sender, c1.sender, SendRst(c).sender);
  }

  /** How an event can change the receiver. */
  predicate ReceiverMoves(c: Conn, e: ConnEvent, r': Receiving.Receiver) {
    || r' == c.receiver
    || r' == Abort(c).receiver
    || (e.Arrives? && r' == Receiving.SegmentReceived(c.receiver, e.seg))
    || (e.Reads? && r' == ReadInbound(c, e.n).receiver)
  }

  /** What every event does to a connection whose queue has been collected. */
  ghost predicate Moves(c: Conn, e: ConnEvent, c': Conn) {
    HonestConn(c') && Grows(c.sender, c'.sender) && ReceiverMoves(c, e, c'.receiver) && c'.cfg == c.cfg
  }

  lemma PassiveCloseIs(c: Conn, seg: TCPSegment)
    ensures var c' := PassiveClose(c, seg.header);
      c'.sender == c.sender && c'.receiver == c.receiver && c'.out == c.out && c'.cfg == c.cfg
  {
  }

  lemma ArrivalHonest(c: Conn, seg: TCPSegment)
    requires Honest(c.sender) && c.out == [] && Small(c.sender)
    requires Timely(c, Arrives(seg))
    ensures Moves(c, Arrives(seg), SegmentReceived(c, seg))
  {
    if c.active && !(Idle(c) && !seg.header.syn) {
      var c1 := PassiveClose(c, seg.header);
      PassiveCloseIs(c, seg);
      if ResetsConnection(c1, seg.header) {
        AbortHonest(c1);
      } else {
        ShortNext(c.sender);
        ArrivalAnswered(c1, seg);
      }
    }
  }

  lemma ArrivalAnswered(c: Conn, seg: TCPSegment)
    requires Honest(c.sender) && c.out == [] && Small(c.sender) && c.sender.next < 0x8000_0000_0000_0000
    requires seg.header.ack ==> Expected(c.sender, seg.header.ackno)
    ensures Moves(c, Arrives(seg), CloseIfFinished(Respond(Absorb(c, seg), seg), seg.header))
  {
    var c1 := Absorb(c, seg);
    AbsorbIs(c, seg);
    AbsorbHonest(c, seg);
    RespondHonest(c1, seg);
    GrowsOn(c.sender, c1.sender, Respond(c1, seg).sender);
  }

  lemma TickKeepsHonest(c: Conn, ms: nat)
    requires HonestConn(c) && Small(c.sender)
    ensures Moves(c, Elapses(ms), TimePasses(c, ms))
  {
    if c.active && !Idle(c) {
      var c1 := Age(c, ms);
      ShortNext(c.sender);
      AgeIs(c, ms);
      TickHonest(c.sender, ms);
      InvTick(c.sender, ms);
      OutKept(c.sender, c1.sender, c.out);
      if c1.sender.crtx > MAX_RETX_ATTEMPTS {
        RstHonest(c1);
        GrowsOn(c.sender, c1.sender, SendRst(c1).sender);
      } else {
        SendHonest(c1);
        GrowsOn(c.sender, c1.sender, FillWindowAndSend(c1).0.sender);
      }
    }
  }

  /** The application's change of the outbound stream, followed by sending. */
  lemma StreamMoves(c: Conn, stream': Streams.Stream, e: ConnEvent)
    requires HonestConn(c)
    requires c.sender.stream.written <= stream'.written && stream'.read == c.sender.stream.read
    requires c.sender.stream.ended ==> stream'.ended
    requires c.sender.finSent ==> stream'.written == c.sender.stream.written
    requires |stream'.written| + 2 < 0x1_0000_0000
    ensures Moves(c, e, FillWindowAndSend(c.(sender := c.sender.(stream := stream'))).0)
  {
    var s1 := c.sender.(stream := stream');
    StreamHonest(c.sender, s1);
    SenderReplaced(c, s1);
    var c1 := c.(sender := s1);
    SendHonest(c1);
    GrowsOn(c.sender, s1, FillWindowAndSend(c1).0.sender);
  }

  lemma SentIsWritten(c: Conn, stream': Streams.Stream)
    ensures FillWindowAndSend(c.(sender := c.sender.(stream := stream'))).0.sender.stream.written == stream'.written
  {
    FillKeepsWritten(c.sender.(stream := stream'));
  }

  lemma NothingOut(c: Conn, r': Receiving.Receiver)
    requires Honest(c.sender) && c.out == []
    ensures HonestConn(c) && HonestConn(c.(receiver := r')) && Grows(c.sender, c.sender)
  {
  }

  /** Every event except a write after the FIN: what goes out is genuine and acknowledges what
      the receiver then has. */
  lemma EventMoves(c: Conn, e: ConnEvent)
    requires Honest(c.sender) && c.out == [] && Small(c.sender) && Small(ApplyConn(c, e).sender) && Timely(c, e)
    requires e.Writes? ==> !c.sender.finSent
    ensures Moves(c, e, ApplyConn(c, e))
  {
    hide SegmentReceived, TimePasses, FillWindowAndSend, Inv, Honest, AllGenuine, Acknowledges, Grows;
    NothingOut(c, ApplyConn(c, e).receiver);
    match e
    case Arrives(seg) => ArrivalHonest(c, seg);
    case Elapses(ms) => TickKeepsHonest(c, ms);
    case Connects => SendHonest(c);
    case Writes(data) =>
      if c.active {
        SentIsWritten(c, Streams.Write(c.sender.stream, data));
        StreamMoves(c, Streams.Write(c.sender.stream, data), e);
      }
    case Ends =>
      if c.active { StreamMoves(c, Streams.End(c.sender.stream), e); }
    case _ =>
  }

  /** Every segment an event emits is a bare reset, or is stamped with the fixed receive capacity
      and with what the connection's own receiver then acknowledges. */
  lemma EmittedAs(c: Conn, e: ConnEvent, i: nat)
    requires Honest(c.sender) && c.out == [] && Small(c.sender) && Small(ApplyConn(c, e).sender) && Timely(c, e)
    requires i < |ApplyConn(c, e).out|
    ensures Marked(c.cfg, ApplyConn(c, e).receiver, ApplyConn(c, e).out[i])
  {
    if e.Writes? && c.sender.finSent {
      if c.active { LateMarked(c, e.data); }
    } else {
      EventMoves(c, e);
    }
  }

  lemma LateMarked(c: Conn, data: seq<byte>)
    requires c.active && c.out == [] && c.sender.finSent && Unstamped(c.sender.out)
    ensures var c' := WriteBytes(c, data).0; Acknowledges(c.cfg, c'.receiver, c'.out)
  {
    var c1 := c.(sender := c.sender.(stream := Streams.Write(c.sender.stream, data)));
    FlushFields(c1);
    StampAcknowledges(c.receiver, c.cfg, c.sender.out);
    var stamped := StampAll(c.cfg, Receiving.Ackno(c.receiver), c.sender.out);
    assert [] + stamped == stamped;
  }
}
