/** A connection that becomes inactive without an error has had everything acknowledged. */
module CleanClose {
  import opened Types
  import opened WrappingIntegers
  import opened TcpSegments
  import opened Sending
  import opened SenderInvariant
  import opened SenderSteps
  import opened SenderTheorems
  import Streams
  import Receiving
  import opened Connecting

  // ---- the sender's steps, seen from the connection ----

  predicate Done(s: Sender) {
    Streams.Eof(s.stream) && BytesInFlight(s) == 0
  }

  /** After any `fill_window`, an ended stream with nothing in flight means that the FIN has
      been sent. */
  lemma InvFill(s: Sender)
    requires Inv(s)
    ensures Inv(FillWindow(s)) && Forward(s, FillWindow(s))
    ensures Done(FillWindow(s)) ==> FillWindow(s).finSent
    ensures s.finSent ==> FillWindow(s) == s
    ensures FillWindow(s).next > 0
  {
    var q: seq<Flight>, m: nat :| Flying(s, q, m);
    var q', m' := FillApplies(s, q, m);
    InFlight(FillWindow(s), q', m');
    var sent, m1 := FillFlies(s, q, m);
  }

  lemma InvAck(s: Sender, ackno: u32, win: u16)
    requires Inv(s) && s.next < 0x8000_0000_0000_0000 && Expected(s, ackno)
    ensures Inv(AckReceived(s, ackno, win)) && Forward(s, AckReceived(s, ackno, win))
    ensures AckReceived(s, ackno, win).stream == s.stream && AckReceived(s, ackno, win).finSent == s.finSent
    ensures AckReceived(s, ackno, win).out == s.out
    ensures Done(s) ==> Done(AckReceived(s, ackno, win))
  {
    var q: seq<Flight>, m: nat :| Flying(s, q, m);
    var q', m' := AckApplies(s, q, m, ackno, win);
    InFlight(s, q, m);
    InFlight(AckReceived(s, ackno, win), q', m');
  }

  lemma TickKeepsStream(s: Sender, ms: nat)
    ensures var s' := Tick(s, ms);
      s'.stream == s.stream && s'.finSent == s.finSent && s'.next == s.next && s'.acked == s.acked
  {
    hide OldestDue;
  }

  lemma InvTick(s: Sender, ms: nat)
    requires Inv(s) && s.next < 0x8000_0000_0000_0000
    ensures Inv(Tick(s, ms)) && Forward(s, Tick(s, ms))
    ensures Tick(s, ms).stream == s.stream && Tick(s, ms).finSent == s.finSent
    ensures Done(s) <==> Done(Tick(s, ms))
  {
    var q: seq<Flight>, m: nat :| Flying(s, q, m);
    hide Tick, AfterTick, BytesInFlight;
    var q', m' := TickApplies(s, q, m, ms);
    TickKeepsStream(s, ms);
    InFlight(s, q, m);
    InFlight(Tick(s, ms), q', m');
  }

  /** Everything else the connection does to its sender. */
  lemma InvStream(s: Sender, s': Sender)
    requires Inv(s)
    requires s' == s.(stream := s'.stream, out := s'.out, crtx := s'.crtx)
    requires s.stream.written <= s'.stream.written && s'.stream.read == s.stream.read
    requires s.stream.ended ==> s'.stream.ended
    ensures Inv(s') && BytesInFlight(s') == BytesInFlight(s)
  {
    var q: seq<Flight>, m: nat :| Flying(s, q, m);
    StreamFlies(s, q, m, s'.(crtx := s.crtx));
    EmptyFlies(s'.(crtx := s.crtx), q, m);
    CrtxFlies(s'.(crtx := s.crtx), q, m, s');
  }

  lemma CrtxFlies(s: Sender, q: seq<Flight>, m: nat, s': Sender)
    requires Flying(s, q, m) && s' == s.(crtx := s'.crtx)
    ensures Flying(s', q, m)
  {
    forall i | 0 <= i < |q| ensures Carries(s', q[i]) { CarriesKept(s, q[i], s', q[i]); }
  }

  /** With the invariant, a finished sender has had the SYN, every byte and the FIN
      acknowledged. */
  lemma DoneMeansAcked(s: Sender)
    requires Inv(s) && Done(s) && s.finSent
    ensures s.acked == s.next == |s.stream.written| + 2
  {
    var q: seq<Flight>, m: nat :| Flying(s, q, m);
    InFlight(s, q, m);
  }

  // ---- the connection ----

  datatype ConnEvent =
    | Arrives(seg: TCPSegment)
    | Writes(data: seq<byte>)
    | Ends
    | Elapses(ms: nat)
    | Connects
    | Reads(n: nat)  // the application reads the inbound stream
    | Collects       // the owner takes the outbound segments

  function ReadInbound(c: Conn, n: nat): Conn {
    var out := c.receiver.store.out;
    c.(receiver := c.receiver.(store := c.receiver.store.(out := Streams.Pop(out, Min(n, Streams.Size(out))))))
  }

  function ApplyConn(c: Conn, e: ConnEvent): Conn {
    match e
    case Arrives(seg) => SegmentReceived(c, seg)
    case Writes(data) => WriteBytes(c, data).0
    case Ends => EndInputStream(c)
    case Elapses(ms) => Connecting.TimePasses(c, ms)
    case Connects => Connect(c)
    case Reads(n) => ReadInbound(c, n)
    case Collects => c.(out := [])
  }

  /** The segment is neither dropped nor the end of the connection. */
  predicate LetIn(c: Conn, seg: TCPSegment) {
    c.active && !(Idle(c) && !seg.header.syn) && !ResetsConnection(c, seg.header)
  }

  /** No acknowledgment of the ISN is let in before the SYN has been sent. */
  predicate Timely(c: Conn, e: ConnEvent) {
    e.Arrives? && LetIn(c, e.seg) && e.seg.header.ack ==> Expected(c.sender, e.seg.header.ackno)
  }

  /** No segment other than a reset carries a SYN together with an acknowledgment of the ISN
      before the own SYN has been sent. */
  predicate Plausible(c: Conn, e: ConnEvent) {
    e.Arrives? && c.active && e.seg.header.syn && !e.seg.header.rst && e.seg.header.ack ==>
      Expected(c.sender, e.seg.header.ackno)
  }

  predicate Short(c: Conn) {
    |c.sender.stream.written| < 0x7fff_ffff_ffff_fffe
  }

  ghost predicate Closing(c: Conn) {
    && Inv(c.sender)
    && (Finished(c) ==> c.sender.finSent)
    && (!c.active && !c.sender.stream.error ==> Finished(c))
    && (c.active && c.sender.next == 0 ==> Silent(c))
  }

  /** Waiting for the peer's SYN, with nothing ever sent. */
  predicate Silent(c: Conn) {
    Idle(c) && c.sender.out == [] && c.out == []
  }

  /** Before its own SYN an open connection only hears segments with a SYN. */
  lemma PlausibleIsTimely(c: Conn, e: ConnEvent)
    requires Closing(c)
    ensures Plausible(c, e) <==> Timely(c, e)
  {
  }

  lemma ShortNext(s: Sender)
    requires Inv(s)
    ensures s.next <= |s.stream.written| + 2
  {
  }

  lemma SendKeeps(c: Conn)
    requires Ready(c)
    ensures Closing(FillWindowAndSend(c).0)
    ensures FillWindowAndSend(c).0.sender == FillWindow(c.sender).(out := [])
    ensures FillWindowAndSend(c).0.active == c.active
  {
    InvFill(c.sender);
    var s := FillWindow(c.sender);
    InvStream(s, s.(out := []));
  }

  lemma AbsorbIs(c: Conn, seg: TCPSegment)
    ensures var c' := Absorb(c, seg);
      && c'.sender == (if seg.header.ack then AckReceived(c.sender, seg.header.ackno, seg.header.win) else c.sender)
      && c'.receiver == Receiving.SegmentReceived(c.receiver, seg)
      && c'.out == c.out && c'.cfg == c.cfg && c'.active == c.active
  {
  }

  /** Ready to fill the window: an inactive connection without error stays finished. */
  ghost predicate Ready(c: Conn) {
    Inv(c.sender) && (!c.active && !c.sender.stream.error ==> Done(c.sender) && c.sender.finSent)
  }

  lemma AbsorbKeeps(c: Conn, seg: TCPSegment)
    requires Closing(c) && c.sender.next < 0x8000_0000_0000_0000
    requires seg.header.ack ==> Expected(c.sender, seg.header.ackno)
    ensures Ready(Absorb(c, seg))
  {
    AbsorbIs(c, seg);
    if seg.header.ack { InvAck(c.sender, seg.header.ackno, seg.header.win); }
  }

  lemma RespondKeeps(c: Conn, seg: TCPSegment)
    requires Ready(c)
    ensures Closing(Respond(c, seg))
  {
    SendKeeps(c);
    var (c1, n) := FillWindowAndSend(c);
    if n == 0 && Occupies(seg) {
      var c2 := c1.(sender := SendEmpty(c1.sender));
      InvStream(c1.sender, c2.sender);
      SendKeeps(c2);
    }
  }

  lemma ArrivalKeeps(c: Conn, seg: TCPSegment)
    requires Closing(c) && c.sender.next < 0x8000_0000_0000_0000
    requires Timely(c, Arrives(seg))
    ensures Closing(SegmentReceived(c, seg))
  {
    if c.active && !(Idle(c) && !seg.header.syn) {
      var c1 := PassiveClose(c, seg.header);
      PassiveKeeps(c, seg.header);
      if ResetsConnection(c1, seg.header) {
        AbortKeeps(c1);
      } else {
        AbsorbKeeps(c1, seg);
        RespondKeeps(Absorb(c1, seg), seg);
        CloseKeeps(Respond(Absorb(c1, seg), seg), seg.header);
      }
    }
  }

  lemma PassiveKeeps(c: Conn, h: TCPHeader)
    requires Closing(c)
    ensures Closing(PassiveClose(c, h)) && PassiveClose(c, h).sender == c.sender
    ensures ResetsConnection(PassiveClose(c, h), h) == ResetsConnection(c, h)
  {
  }

  lemma CloseKeeps(c: Conn, h: TCPHeader)
    requires Closing(c)
    ensures Closing(CloseIfFinished(c, h))
  {
  }

  lemma AbortKeeps(c: Conn)
    requires Closing(c)
    ensures Closing(Abort(c))
  {
    InvStream(c.sender, Abort(c).sender);
  }

  lemma AgeIs(c: Conn, ms: nat)
    ensures var c' := Age(c, ms);
      c'.sender == Sending.Tick(c.sender, ms) && c'.receiver == c.receiver && c'.out == c.out && c'.cfg == c.cfg
    ensures Age(c, ms).active ==> c.active
    ensures !Age(c, ms).active ==> !c.active || Finished(c)
  {
  }

  lemma AgeKeeps(c: Conn, ms: nat)
    requires Closing(c) && c.sender.next < 0x8000_0000_0000_0000
    ensures Ready(Age(c, ms)) && (Done(Age(c, ms).sender) ==> Age(c, ms).sender.finSent)
  {
    AgeIs(c, ms);
    InvTick(c.sender, ms);
  }

  lemma RstKeeps(c: Conn)
    requires Inv(c.sender) && (Done(c.sender) ==> c.sender.finSent)
    ensures Closing(SendRst(c))
  {
    InvStream(c.sender, SendRst(c).sender);
  }

  lemma TickKeeps(c: Conn, ms: nat)
    requires Closing(c) && c.sender.next < 0x8000_0000_0000_0000
    ensures Closing(TimePasses(c, ms))
  {
    if c.active && !Idle(c) {
      var c1 := Age(c, ms);
      AgeKeeps(c, ms);
      if c1.sender.crtx > MAX_RETX_ATTEMPTS {
        RstKeeps(c1);
      } else {
        SendKeeps(c1);
      }
    }
  }

  lemma EventKeeps(c: Conn, e: ConnEvent)
    requires Closing(c) && Short(c) && Plausible(c, e)
    ensures Closing(ApplyConn(c, e))
  {
    hide FillWindowAndSend, SegmentReceived, TimePasses, ReadInbound, Inv, Silent;
    ShortNext(c.sender);
    PlausibleIsTimely(c, e);
    match e
    case Arrives(seg) => ArrivalKeeps(c, seg);
    case Elapses(ms) => TickKeeps(c, ms);
    case Connects => SendKeeps(c);
    case Writes(data) =>
      if c.active { StreamKeeps(c, Streams.Write(c.sender.stream, data)); }
    case Ends =>
      if c.active { StreamKeeps(c, Streams.End(c.sender.stream)); }
    case Reads(n) => ReadKeeps(c, n);
    case Collects => CollectKeeps(c);
  }

  lemma StreamKeeps(c: Conn, stream': Streams.Stream)
    requires Closing(c) && c.active
    requires c.sender.stream.written <= stream'.written && stream'.read == c.sender.stream.read
    requires c.sender.stream.ended ==> stream'.ended
    ensures Closing(FillWindowAndSend(c.(sender := c.sender.(stream := stream'))).0)
  {
    hide FillWindowAndSend;
    var s' := c.sender.(stream := stream');
    InvStream(c.sender, s');
    SendKeeps(c.(sender := s'));
  }

  lemma ReadKeeps(c: Conn, n: nat)
    requires Closing(c)
    ensures Closing(ReadInbound(c, n))
  {
  }

  lemma CollectKeeps(c: Conn)
    requires Closing(c)
    ensures Closing(c.(out := []))
  {
  }

  function RunConn(c: Conn, es: seq<ConnEvent>): Conn
    decreases |es|
  {
    if es == [] then c else ApplyConn(RunConn(c, es[..|es| - 1]), es[|es| - 1])
  }

  /** The run stays below 2^63 bytes and contains no SYN with a premature acknowledgment. */
  predicate AllPlausible(c: Conn, es: seq<ConnEvent>)
    decreases |es|
  {
    es == [] ||
    (AllPlausible(c, es[..|es| - 1])
     && Short(RunConn(c, es[..|es| - 1])) && Plausible(RunConn(c, es[..|es| - 1]), es[|es| - 1]))
  }

  lemma {:induction false} RunKeeps(cfg: Config, es: seq<ConnEvent>)
    requires AllPlausible(FreshConn(cfg), es)
    ensures Closing(RunConn(FreshConn(cfg), es))
    decreases |es|
  {
    if es == [] {
      FreshFlies(cfg.sendCapacity, cfg.rtTimeout, cfg.isn);
    } else {
      RunKeeps(cfg, es[..|es| - 1]);
      EventKeeps(RunConn(FreshConn(cfg), es[..|es| - 1]), es[|es| - 1]);
    }
  }

  /** While its own SYN is not out, an open connection drops everything that carries no SYN. */
  lemma OnlySynLetIn(cfg: Config, es: seq<ConnEvent>, seg: TCPSegment)
    requires AllPlausible(FreshConn(cfg), es)
    ensures var c := RunConn(FreshConn(cfg), es);
      c.sender.next == 0 && !seg.header.syn ==> SegmentReceived(c, seg) == c
  {
    RunKeeps(cfg, es);
  }

  /** Unless a SYN arrives with an acknowledgment of the ISN before the own SYN is out: whatever
      segments arrive, a connection that is inactive without its error flag has sent its FIN,
      and the SYN, every byte written and the FIN have been acknowledged. */
  lemma ClosedCleanly(cfg: Config, es: seq<ConnEvent>)
    requires AllPlausible(FreshConn(cfg), es)
    ensures var c := RunConn(FreshConn(cfg), es);
      !c.active && !c.sender.stream.error ==>
        && c.sender.finSent && Streams.Eof(c.sender.stream)
        && c.sender.acked == c.sender.next == |c.sender.stream.written| + 2
  {
    RunKeeps(cfg, es);
    var c := RunConn(FreshConn(cfg), es);
    if !c.active && !c.sender.stream.error { DoneMeansAcked(c.sender); }
  }
}
