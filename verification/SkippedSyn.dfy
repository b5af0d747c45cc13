/** What becomes of a connection that hears its ISN acknowledged before it has sent its SYN. */
module SkippedSyn {
  import opened Types
  import opened WrappingIntegers
  import opened TcpSegments
  import opened Sending
  import opened SenderInvariant
  import opened SenderSteps
  import opened SenderTheorems
  import opened CleanClose
  import opened Connecting
  import Streams
  import Receiving
  import LostByte

  /** Nothing with a SYN is, or ever will be, sent or queued. */
  predicate Unannounced(c: Conn) {
    Mute(c.sender, []) && forall seg :: seg in c.out ==> !seg.header.syn
  }

  // ---- every event keeps it so ----

  lemma {:induction false} StampNoSyn(cfg: Config, ackno: Option<u32>, segs: seq<TCPSegment>)
    requires forall seg :: seg in segs ==> !seg.header.syn
    ensures forall seg :: seg in StampAll(cfg, ackno, segs) ==> !seg.header.syn
  {
    if segs != [] {
      assert segs[0] in segs && forall seg :: seg in segs[1..] ==> seg in segs;
      StampNoSyn(cfg, ackno, segs[1..]);
    }
  }

  lemma FlushUnannounced(c: Conn)
    requires Unannounced(c)
    ensures Unannounced(Flush(c))
  {
    StampNoSyn(c.cfg, Receiving.Ackno(c.receiver), c.sender.out);
  }

  lemma SendUnannounced(c: Conn)
    requires Unannounced(c)
    ensures Unannounced(FillWindowAndSend(c).0)
  {
    hide Mute, Sending.FillWindow, Flush;
    ApplyMute(c.sender, Fill, []);
    FlushUnannounced(Filled(c));
  }

  lemma BareMute(s: Sender)
    requires Mute(s, [])
    ensures Mute(SendEmpty(s), []) && !SendEmpty(s).out[0].header.syn
  {
  }

  lemma RespondUnannounced(c: Conn, seg: TCPSegment)
    requires Unannounced(c)
    ensures Unannounced(Respond(c, seg))
  {
    hide FillWindowAndSend, Mute, SendEmpty;
    var (c1, n) := FillWindowAndSend(c);
    SendUnannounced(c);
    BareMute(c1.sender);
    SendUnannounced(c1.(sender := SendEmpty(c1.sender)));
  }

  lemma ArrivalUnannounced(c: Conn, seg: TCPSegment)
    requires Unannounced(c)
    ensures Unannounced(SegmentReceived(c, seg))
  {
    hide Mute, Respond, Idle, Finished, ResetsConnection, Absorb;
    var c1 := PassiveClose(c, seg.header);
    AbsorbIs(c1, seg);
    if seg.header.ack { AckMute(c.sender, seg.header.ackno, seg.header.win, []); }
    RespondUnannounced(Absorb(c1, seg), seg);
    StreamMute(c.sender, Streams.SetError(c.sender.stream));
  }

  lemma StreamMute(s: Sender, stream': Streams.Stream)
    requires Mute(s, []) && stream'.read == s.stream.read
    ensures Mute(s.(stream := stream'), [])
  {
  }

  lemma TickUnannounced(c: Conn, ms: nat)
    requires Unannounced(c)
    ensures Unannounced(TimePasses(c, ms))
  {
    hide Mute, Idle, Age, FillWindowAndSend, SendRst;
    var c1 := Age(c, ms);
    AgeIs(c, ms);
    TickMute(c.sender, ms, []);
    SendUnannounced(c1);
    RstUnannounced(c1);
  }

  lemma RstUnannounced(c: Conn)
    requires Unannounced(c)
    ensures Unannounced(SendRst(c))
  {
    BareMute(c.sender);
  }

  lemma EventUnannounced(c: Conn, e: ConnEvent)
    requires Unannounced(c)
    ensures Unannounced(ApplyConn(c, e))
  {
    hide Mute, FillWindowAndSend, SegmentReceived, TimePasses;
    match e
    case Arrives(seg) => ArrivalUnannounced(c, seg);
    case Elapses(ms) => TickUnannounced(c, ms);
    case Connects => SendUnannounced(c);
    case Writes(data) =>
      StreamMute(c.sender, Streams.Write(c.sender.stream, data));
      SendUnannounced(c.(sender := c.sender.(stream := Streams.Write(c.sender.stream, data))));
    case Ends =>
      StreamMute(c.sender, Streams.End(c.sender.stream));
      SendUnannounced(c.(sender := c.sender.(stream := Streams.End(c.sender.stream))));
    case _ =>
  }

  // ---- how it begins ----

  /** The acknowledgment that opens the window. */
  lemma EarlyMute(s: Sender, win: u16)
    requires Inv(s) && s.next == 0 && s.out == []
    ensures Mute(AckReceived(s, s.isn, win), [])
  {
    SynSkipped(s, win, []);
    AckKeepsRest(s, s.isn, win);
  }

  lemma EarlyUnannounced(c: Conn, e: ConnEvent)
    requires Closing(c) && !Plausible(c, e)
    ensures Unannounced(ApplyConn(c, e))
  {
    hide Mute, Respond, Absorb, Inv, AckReceived;
    var seg := e.seg;
    AbsorbIs(c, seg);
    EarlyMute(c.sender, seg.header.win);
    RespondUnannounced(Absorb(c, seg), seg);
  }

  // ---- runs ----

  /** The run stays below 2^63 bytes. */
  predicate AllShort(c: Conn, es: seq<ConnEvent>)
    decreases |es|
  {
    es == [] || (AllShort(c, es[..|es| - 1]) && Short(RunConn(c, es[..|es| - 1])))
  }

  lemma MuteBreaks(s: Sender)
    requires Mute(s, [])
    ensures !Inv(s) && s.next <= |s.stream.written| + 1
  {
    InvCounts(s);
  }

  /** A run either hears no SYN with a premature acknowledgment, and keeps the invariant of the
      connection, or it has heard one, and never sends a SYN. */
  lemma {:induction false} PlausibleOrUnannounced(cfg: Config, es: seq<ConnEvent>)
    requires AllShort(FreshConn(cfg), es)
    ensures var c := RunConn(FreshConn(cfg), es);
      if AllPlausible(FreshConn(cfg), es) then Closing(c) else Unannounced(c)
    decreases |es|
  {
    hide ApplyConn, Closing, Unannounced, Plausible;
    if es == [] {
      RunKeeps(cfg, es);
    } else {
      var before, e := es[..|es| - 1], es[|es| - 1];
      var c := RunConn(FreshConn(cfg), before);
      PlausibleOrUnannounced(cfg, before);
      if !AllPlausible(FreshConn(cfg), before) {
        EventUnannounced(c, e);
      } else if Plausible(c, e) {
        EventKeeps(c, e);
      } else {
        EarlyUnannounced(c, e);
      }
    }
  }

  /** A connection that closes without an error has had its SYN, every byte and its FIN
      acknowledged exactly if no SYN came with an acknowledgment of its ISN before its own SYN
      was out. If one did, the connection never sends a SYN. */
  lemma ClosedCleanlyIff(cfg: Config, es: seq<ConnEvent>)
    requires AllShort(FreshConn(cfg), es)
    ensures var c := RunConn(FreshConn(cfg), es);
      !c.active && !c.sender.stream.error ==>
        (AllPlausible(FreshConn(cfg), es) <==> c.sender.acked == c.sender.next == |c.sender.stream.written| + 2)
    ensures !AllPlausible(FreshConn(cfg), es) ==>
      forall seg :: seg in RunConn(FreshConn(cfg), es).out ==> !seg.header.syn
  {
    hide RunConn, AllPlausible, AllShort, Closing, Mute;
    PlausibleOrUnannounced(cfg, es);
    var c := RunConn(FreshConn(cfg), es);
    if AllPlausible(FreshConn(cfg), es) {
      ClosedCleanly(cfg, es);
    } else {
      MuteBreaks(c.sender);
    }
  }

  // ---- a connection that closes without having been opened ----

  const FIN := Plain(0, false, true, [])

  function Opened(): Sender {
    FreshSender(8, 1000, 0).(window := 8)
  }

  function FinOut(): Sender {
    Sender(0, 1000, Streams.Stream(8, [], 0, true, false), 1, 0, 8, 0, [LostByte.Sent(FIN)], 1000, 0, true, false, [])
  }

  function FinGone(): Sender {
    FinOut().(acked := 1, outstanding := [])
  }

  lemma WindowIsOpen()
    ensures AckReceived(FreshSender(8, 1000, 0), 0, 8) == Opened()
  {
    UnwrapExact(0, 0, 0);
  }

  lemma BareIs()
    ensures SendEmpty(Opened()) == Opened().(out := [Plain(0, false, false, [])])
    ensures FillWindow(Opened()) == Opened()
    ensures FillWindow(SendEmpty(Opened())) == SendEmpty(Opened())
  {
    LostByte.NothingBuffered(Opened());
    LostByte.NothingBuffered(SendEmpty(Opened()));
  }

  lemma FinIsQueued()
    ensures SendFin(Opened().(stream := Streams.End(Opened().stream))) == FinOut().(out := [FIN])
  {
    assert InsertByTime([], LostByte.Sent(FIN)) == [LostByte.Sent(FIN)];
    hide InsertByTime;
  }

  lemma FinIs()
    ensures FillWindow(Opened().(stream := Streams.End(Opened().stream))) == FinOut().(out := [FIN])
  {
    hide SendFin, SendData;
    FinIsQueued();
    var s := Opened().(stream := Streams.End(Opened().stream));
    assert FillStep(s) == (SendFin(s), true);
  }

  lemma FinIsErased()
    ensures Retain([LostByte.Sent(FIN)], AckedBy(0, 1), Some(1000)) == []
  {
    hide Unwrap, Retain;
    LostByte.DecodesTo(0, 1);
    LostByte.RetainHead(LostByte.Sent(FIN), [], AckedBy(0, 1), Some(1000));
  }

  lemma FinIsGone()
    ensures AckReceived(FinOut(), 1, 8) == FinGone()
  {
    hide Unwrap, Retain, AckedBy;
    LostByte.DecodesTo(1, 0);
    FinIsErased();
  }

  /** A SYN acknowledges the ISN: a bare segment is the answer. */
  lemma SynArrives1()
    ensures var c := ApplyConn(FreshConn(LostByte.CFG), Arrives(LostByte.OnWire(Some(0), LostByte.SYN)));
      c.(out := []) == LostByte.A(Opened())
  {
    hide FillWindow, FillWindowAndSend, Receiving.SegmentReceived, AckReceived, PassiveClose, CloseIfFinished, SendEmpty;
    var c, seg := FreshConn(LostByte.CFG), LostByte.OnWire(Some(0), LostByte.SYN);
    var c1 := LostByte.A(Opened());
    LostByte.NotFinished(c);
    LostByte.SynArrives(seg);
    WindowIsOpen();
    assert Absorb(c, seg) == c1;
    BareIs();
    LostByte.SendsNone(c1);
    LostByte.SendsOne(c1.(sender := SendEmpty(Opened())), Opened(), Plain(0, false, false, []));
    LostByte.NotFinished(Respond(c1, seg));
  }

  lemma InputEnds2()
    ensures ApplyConn(LostByte.A(Opened()), Ends).(out := []) == LostByte.Closing(FinOut())
  {
    hide FillWindow, FillWindowAndSend;
    FinIs();
    LostByte.SendsOne(LostByte.A(Opened().(stream := Streams.End(Opened().stream))), FinOut(), FIN);
  }

  lemma AckArrives3()
    ensures ApplyConn(LostByte.Closing(FinOut()), Arrives(LostByte.OnWire(Some(1), LostByte.BARE))) == LostByte.Closing(FinGone())
  {
    hide FillWindowAndSend, Receiving.SegmentReceived, AckReceived, Receiving.Ackno;
    var c, seg := LostByte.Closing(FinOut()), LostByte.OnWire(Some(1), LostByte.BARE);
    LostByte.BareArrives(seg);
    FinIsGone();
    LostByte.AcknosAre();
    assert Absorb(c, seg) == LostByte.Closing(FinGone());
    LostByte.SendsNone(LostByte.Closing(FinGone()));
  }

  /** Ten timeouts later. */
  lemma TimePasses4()
    ensures var c := ApplyConn(LostByte.Closing(FinGone()), Elapses(10000));
      !c.active && c.sender == FinGone().(now := 10000)
  {
    var c1 := Age(LostByte.Closing(FinGone()), 10000);
    assert c1.sender == FinGone().(now := 10000);
    LostByte.SendsNone(c1);
  }

  /** One more step of a run, known state by known state. */
  lemma Extend(c0: Conn, es: seq<ConnEvent>, c: Conn, e: ConnEvent)
    requires AllShort(c0, es) && RunConn(c0, es) == c && Short(c)
    ensures AllShort(c0, es + [e]) && RunConn(c0, es + [e]) == ApplyConn(c, e)
  {
    hide ApplyConn, Short;
    assert (es + [e])[..|es + [e]| - 1] == es;
  }

  /** The same, and the outbound segments are taken. */
  lemma ThenCollect(c0: Conn, es: seq<ConnEvent>, c: Conn, e: ConnEvent, c': Conn)
    requires AllShort(c0, es) && RunConn(c0, es) == c && Short(c)
    requires ApplyConn(c, e).(out := []) == c' && Short(c')
    ensures AllShort(c0, es + [e] + [Collects]) && RunConn(c0, es + [e] + [Collects]) == c'
  {
    Extend(c0, es, c, e);
    Extend(c0, es + [e], ApplyConn(c, e), Collects);
  }

  /** A run on which a connection closes without an error although it has never sent its SYN,
      and only its FIN has been acknowledged. */
  lemma ClosesUnopened() returns (es: seq<ConnEvent>)
    ensures AllShort(FreshConn(LostByte.CFG), es) && !AllPlausible(FreshConn(LostByte.CFG), es)
    ensures var c := RunConn(FreshConn(LostByte.CFG), es);
      !c.active && !c.sender.stream.error && c.sender.acked == c.sender.next == |c.sender.stream.written| + 1
  {
    hide ApplyConn, AllPlausible, AllShort, RunConn;
    var c0 := FreshConn(LostByte.CFG);
    var e1, e3 := Arrives(LostByte.OnWire(Some(0), LostByte.SYN)), Arrives(LostByte.OnWire(Some(1), LostByte.BARE));
    Begin(c0);
    SynArrives1();
    ThenCollect(c0, [], c0, e1, LostByte.A(Opened()));
    var es2 := [] + [e1] + [Collects];
    InputEnds2();
    ThenCollect(c0, es2, LostByte.A(Opened()), Ends, LostByte.Closing(FinOut()));
    var es3 := es2 + [Ends] + [Collects];
    AckArrives3();
    Extend(c0, es3, LostByte.Closing(FinOut()), e3);
    TimePasses4();
    Extend(c0, es3 + [e3], LostByte.Closing(FinGone()), Elapses(10000));
    es := es3 + [e3] + [Elapses(10000)];
    ClosedCleanlyIff(LostByte.CFG, es);
  }

  lemma Begin(c0: Conn)
    ensures AllShort(c0, []) && RunConn(c0, []) == c0
  {
  }
}
