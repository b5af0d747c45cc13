/** Why a FIN has to land: a run of two connections on which the only byte of a stream is
    acknowledged without having arrived. */
module LostByte {
  import opened Types
  import opened WrappingIntegers
  import opened TcpSegments
  import opened Sending
  import opened CleanClose
  import opened Connecting
  import opened Acknowledging
  import opened NoLoss
  import opened World
  import Streams
  import Receiving
  import Reassembly

  const CFG := Config(1000, 8, 8, 0)

  const SYN := Plain(0, true, false, [])
  const DATA := Plain(1, false, false, [7])
  const BARE := Plain(1, false, false, [])
  const FIN := Plain(2, false, true, [])

  function Sent(seg: TCPSegment): Entry {
    Entry(0, 1000, seg)
  }

  // ---- the sender of the byte ----

  function SynSent(): Sender {
    Sender(0, 1000, Streams.Empty(8), 1, 0, 1, 0, [Sent(SYN)], 1000, 0, false, false, [])
  }

  function SynAcked(): Sender {
    Sender(0, 1000, Streams.Empty(8), 1, 0, 8, 1, [], 1000, 0, false, false, [])
  }

  function ByteWritten(): Sender {
    SynAcked().(stream := Streams.Stream(8, [7], 0, false, false))
  }

  function ByteSent(): Sender {
    Sender(0, 1000, Streams.Stream(8, [7], 1, false, false), 2, 0, 8, 1, [Sent(DATA)], 1000, 0, false, false, [])
  }

  function FinSent(): Sender {
    Sender(0, 1000, Streams.Stream(8, [7], 1, true, false), 3, 0, 8, 1, [Sent(DATA), Sent(FIN)], 1000, 0, true, false, [])
  }

  function ByteDropped(): Sender {
    FinSent().(acked := 2, outstanding := [Sent(FIN)])
  }

  lemma SynGoesOut()
    ensures FillWindow(FreshSender(8, 1000, 0)) == SynSent().(out := [SYN])
  {
  }

  /** The sequence numbers of the run decode to themselves. */
  lemma DecodesTo(n: u32, cp: u64)
    requires n <= 2 && cp <= 2
    ensures Unwrap(n, 0, cp) == n
  {
    OffsetWrap(n, 0);
    UnwrapExact(n, 0, cp);
  }

  lemma RetainHead(e: Entry, rest: seq<Entry>, gone: TCPSegment -> bool, d: Option<nat>)
    ensures Retain([e] + rest, gone, d) == (if gone(e.seg) then [] else [Restart(e, d)]) + Retain(rest, gone, d)
    ensures [e] + [] == [e] && Retain([], gone, d) == []
  {
    assert ([e] + rest)[1..] == rest;
  }

  lemma SynGone()
    ensures Unwrap(1, 0, 0) == 1
    ensures Retain([Sent(SYN)], AckedBy(0, 1), Some(1000)) == []
  {
    hide Unwrap, Retain;
    DecodesTo(1, 0);
    DecodesTo(0, 1);
    RetainHead(Sent(SYN), [], AckedBy(0, 1), Some(1000));
  }

  lemma SynIsAcked()
    ensures AckReceived(SynSent(), 1, 8) == SynAcked()
  {
    hide Unwrap, Retain, AckedBy;
    SynGone();
  }

  lemma NothingToSend()
    ensures FillWindow(SynAcked()) == SynAcked()
    ensures SendEmpty(SynAcked()) == SynAcked().(out := [BARE])
    ensures FillWindow(SynAcked().(out := [BARE])) == SynAcked().(out := [BARE])
  {
    hide FillWindow, Wrap;
    NothingBuffered(SynAcked());
    NothingBuffered(SynAcked().(out := [BARE]));
    OneIsOne();
  }

  lemma OneIsOne()
    ensures Wrap(1, 0) == 1
  {
  }

  lemma NothingBuffered(s: Sender)
    requires !s.finSent && s.window != UNSET && s.next < s.acked + s.window
    requires Streams.Size(s.stream) == 0 && !s.stream.ended
    ensures FillWindow(s) == s
  {
    assert FillStep(s) == (s, true);
  }

  lemma ByteGoesOut()
    ensures FillWindow(ByteWritten()) == ByteSent().(out := [DATA])
  {
    var s, s' := ByteWritten(), ByteSent().(out := [DATA]);
    assert Streams.Buffer(s.stream)[..1] == [7];
    assert PayloadSize(s) == 1 && SendData(s, 1) == s';
    hide SendData;
    assert FillStep(s) == (s', false);
    assert FillStep(s') == (s', true) && FillLoop(s') == s';
  }

  lemma FinGoesOut()
    ensures FillWindow(ByteSent().(stream := Streams.End(ByteSent().stream))) == FinSent().(out := [FIN])
  {
    var s := ByteSent().(stream := Streams.End(ByteSent().stream));
    assert FillStep(s) == (SendFin(s), true);
  }

  lemma ByteGone()
    ensures Unwrap(2, 0, 1) == 2
    ensures Retain([Sent(DATA), Sent(FIN)], AckedBy(0, 2), Some(1000)) == [Sent(FIN)]
  {
    hide Unwrap, Retain;
    DecodesTo(2, 1);
    DecodesTo(1, 2);
    DecodesTo(2, 2);
    RetainHead(Sent(FIN), [], AckedBy(0, 2), Some(1000));
    RetainHead(Sent(DATA), [Sent(FIN)], AckedBy(0, 2), Some(1000));
    assert [Sent(DATA)] + [Sent(FIN)] == [Sent(DATA), Sent(FIN)];
  }

  lemma ByteIsDropped()
    ensures AckReceived(FinSent(), 2, 8) == ByteDropped() && FillWindow(ByteDropped()) == ByteDropped()
  {
    hide Unwrap, Retain, AckedBy;
    ByteGone();
  }

  // ---- the receivers ----

  function SynReceived(): Receiving.Receiver {
    Receiving.Receiver(Reassembly.Init(8), 0, 0, Receiving.SynRecv)
  }

  /** The FIN has been noted, the byte before it has not arrived. */
  function FinNoted(): Receiving.Receiver {
    Receiving.Receiver(Reassembly.Init(8).(eof2 := 1), 0, 1, Receiving.FinRecv)
  }

  lemma SynArrives(seg: TCPSegment)
    requires seg.header.syn && !seg.header.fin && seg.header.seqno == 0 && seg.payload == []
    ensures Receiving.SegmentReceived(Receiving.FreshReceiver(8), seg) == SynReceived()
  {
  }

  lemma FinArrives(seg: TCPSegment)
    requires !seg.header.syn && seg.header.fin && seg.header.seqno == 2 && seg.payload == []
    ensures Receiving.SegmentReceived(SynReceived(), seg) == FinNoted()
  {
    assert Receiving.IndexOf(SynReceived(), seg.header) == 1;
  }

  lemma BareArrives(seg: TCPSegment)
    requires !seg.header.syn && !seg.header.fin && seg.header.seqno == 1 && seg.payload == []
    ensures Receiving.SegmentReceived(SynReceived(), seg) == SynReceived()
  {
    assert Receiving.IndexOf(SynReceived(), seg.header) == 0;
  }

  lemma AcknosAre()
    ensures Receiving.Ackno(Receiving.FreshReceiver(8)) == None
    ensures Receiving.Ackno(SynReceived()) == Some(1) && Receiving.Ackno(FinNoted()) == Some(2)
  {
  }

  // ---- the connections ----

  function Between(r: Receiving.Receiver, s: Sender): Conn {
    Conn(CFG, r, s, [], true, 0, 0, 0, true, false, false)
  }

  function Closing(s: Sender): Conn {
    Between(SynReceived(), s).(finsent := true)
  }

  /** The end that has only received. */
  function Misled(): Conn {
    Between(FinNoted(), SynAcked()).(linger := false, finreceived := true)
  }

  function OnWire(ackno: Option<u32>, seg: TCPSegment): TCPSegment {
    Stamp(CFG, ackno, seg)
  }

  lemma SendsOne(c: Conn, s': Sender, seg: TCPSegment)
    requires c.out == [] && s'.out == [] && FillWindow(c.sender) == s'.(out := [seg])
    ensures FillWindowAndSend(c)
         == (c.(sender := s', out := [Stamp(c.cfg, Receiving.Ackno(c.receiver), seg)], tlastsent := c.tnow,
                finsent := c.finsent || seg.header.fin), 1)
  {
    hide FillWindow, Stamp;
    assert [seg][1..] == [];
    var a := Receiving.Ackno(c.receiver);
    assert StampAll(c.cfg, a, [seg]) == [Stamp(c.cfg, a, seg)];
    assert AnyFin([seg]) == seg.header.fin;
    assert [] + [Stamp(c.cfg, a, seg)] == [Stamp(c.cfg, a, seg)];
  }

  lemma SendsNone(c: Conn)
    requires c.sender.out == [] && FillWindow(c.sender) == c.sender
    ensures FillWindowAndSend(c) == (c, 0)
  {
    hide FillWindow;
    assert c.out + [] == c.out;
  }

  lemma Connects1()
    ensures ApplyConn(FreshConn(CFG), Connects)
         == Between(Receiving.FreshReceiver(8), SynSent()).(out := [OnWire(None, SYN)])
  {
    hide FillWindow, FillWindowAndSend;
    SynGoesOut();
    AcknosAre();
    SendsOne(FreshConn(CFG), SynSent(), SYN);
  }

  lemma NotFinished(c: Conn)
    requires !c.sender.stream.ended && c.linger
    ensures forall h :: PassiveClose(c, h) == c && CloseIfFinished(c, h) == c
  {
  }

  lemma SynArrives2()
    ensures ApplyConn(FreshConn(CFG), Arrives(OnWire(None, SYN)))
         == Between(SynReceived(), SynSent()).(out := [OnWire(Some(1), SYN)])
  {
    hide FillWindow, FillWindowAndSend, Receiving.SegmentReceived, PassiveClose, CloseIfFinished, Receiving.Ackno;
    var c, seg := FreshConn(CFG), OnWire(None, SYN);
    var c1 := Between(SynReceived(), FreshSender(8, 1000, 0));
    NotFinished(c);
    SynArrives(seg);
    assert Absorb(c, seg) == c1;
    SynGoesOut();
    AcknosAre();
    SendsOne(c1, SynSent(), SYN);
    assert Respond(c1, seg) == FillWindowAndSend(c1).0;
    NotFinished(FillWindowAndSend(c1).0);
  }

  /** A segment that only draws a bare acknowledgment. */
  lemma DrawsBare(c: Conn, seg: TCPSegment)
    requires c.sender == SynAcked() && c.out == [] && Occupies(seg)
    ensures Respond(c, seg) == c.(out := [Stamp(c.cfg, Receiving.Ackno(c.receiver), BARE)], tlastsent := c.tnow)
  {
    hide FillWindow, FillWindowAndSend, SendEmpty, Stamp, Receiving.Ackno;
    NothingToSend();
    SendsNone(c);
    var c1 := c.(sender := SendEmpty(SynAcked()));
    SendsOne(c1, SynAcked(), BARE);
  }

  lemma SynAckArrives3()
    ensures ApplyConn(Between(Receiving.FreshReceiver(8), SynSent()), Arrives(OnWire(Some(1), SYN)))
         == Between(SynReceived(), SynAcked()).(out := [OnWire(Some(1), BARE)])
  {
    hide FillWindowAndSend, Receiving.SegmentReceived, AckReceived, PassiveClose, CloseIfFinished, Receiving.Ackno, Respond;
    var c, seg := Between(Receiving.FreshReceiver(8), SynSent()), OnWire(Some(1), SYN);
    var c1 := Between(SynReceived(), SynAcked());
    NotFinished(c);
    SynArrives(seg);
    SynIsAcked();
    AcknosAre();
    assert Absorb(c, seg) == c1;
    DrawsBare(c1, seg);
    NotFinished(Respond(c1, seg));
  }

  lemma ByteWritten4()
    ensures ApplyConn(Between(SynReceived(), SynAcked()), Writes([7]))
         == Between(SynReceived(), ByteSent()).(out := [OnWire(Some(1), DATA)])
  {
    hide FillWindow, FillWindowAndSend, Receiving.Ackno;
    assert Streams.Write(Streams.Empty(8), [7]).written == [7];
    ByteGoesOut();
    AcknosAre();
    SendsOne(Between(SynReceived(), ByteWritten()), ByteSent(), DATA);
  }

  lemma InputEnds5()
    ensures ApplyConn(Between(SynReceived(), ByteSent()), Ends)
         == Closing(FinSent()).(out := [OnWire(Some(1), FIN)])
  {
    hide FillWindow, FillWindowAndSend, Receiving.Ackno;
    FinGoesOut();
    AcknosAre();
    SendsOne(Between(SynReceived(), ByteSent().(stream := Streams.End(ByteSent().stream))), FinSent(), FIN);
  }

  lemma FinArrives6()
    ensures ApplyConn(Between(SynReceived(), SynSent()), Arrives(OnWire(Some(1), FIN)))
         == Misled().(out := [OnWire(Some(2), BARE)])
  {
    hide FillWindowAndSend, Receiving.SegmentReceived, AckReceived, PassiveClose, Receiving.Ackno, Respond;
    var c, seg := Between(SynReceived(), SynSent()), OnWire(Some(1), FIN);
    NotFinished(c);
    FinArrives(seg);
    SynIsAcked();
    AcknosAre();
    assert Absorb(c, seg) == Misled();
    DrawsBare(Misled(), seg);
  }

  lemma AckArrives7()
    ensures ApplyConn(Closing(FinSent()), Arrives(OnWire(Some(2), BARE))) == Closing(ByteDropped())
  {
    hide FillWindowAndSend, Receiving.SegmentReceived, AckReceived, Receiving.Ackno, FillWindow;
    var c, seg := Closing(FinSent()), OnWire(Some(2), BARE);
    BareArrives(seg);
    ByteIsDropped();
    AcknosAre();
    assert Absorb(c, seg) == Closing(ByteDropped());
    SendsNone(Closing(ByteDropped()));
  }

  // ---- the run ----

  /** A run that leads to `w`. */
  predicate Leads(acts: seq<Action>, w: World) {
    AllLegal(Start(CFG, CFG), acts) && RunWorld(Start(CFG, CFG), acts) == w
  }

  predicate Tiny(c: Conn) {
    c.cfg == CFG && |c.sender.stream.written| <= 8
  }

  /** One more step of a run. */
  lemma Extend(acts: seq<Action>, w: World, act: Action, w': World)
    requires Leads(acts, w) && Legal(w, act) && Step(w, act) == w' && Tiny(w'.a) && Tiny(w'.b)
    ensures Leads(acts + [act], w')
  {
    hide Legal, Step, Start;
    assert (acts + [act])[..|acts + [act]| - 1] == acts;
  }

  lemma WireHolds(net: set<TCPSegment>, segs: seq<TCPSegment>)
    ensures forall seg :: seg in segs ==> seg in net + Wire(segs)
  {
  }

  /** An event at `a` whose outcome is known. */
  lemma AtA(acts: seq<Action>, w: World, e: ConnEvent, c: Conn, sent: seq<TCPSegment>) returns (w': World)
    requires Leads(acts, w) && LegalA(w, e)
    requires ApplyConn(w.a, e) == c.(out := sent) && c.out == [] && Tiny(c) && Tiny(w.b)
    ensures Leads(acts + [Action(true, e)], w')
    ensures w'.a == c && w'.b == w.b && w'.ba == w.ba && w.ab <= w'.ab && forall seg :: seg in sent ==> seg in w'.ab
  {
    hide ApplyConn, Leads, LegalA, Wire, Tiny;
    w' := World(c, w.b, w.ab + Wire(sent), w.ba);
    WireHolds(w.ab, sent);
    Extend(acts, w, Action(true, e), w');
  }

  /** An event at `b`. */
  lemma AtB(acts: seq<Action>, w: World, e: ConnEvent, c: Conn, sent: seq<TCPSegment>) returns (w': World)
    requires Leads(acts, w) && LegalA(Mirror(w), e)
    requires ApplyConn(w.b, e) == c.(out := sent) && c.out == [] && Tiny(c) && Tiny(w.a)
    ensures Leads(acts + [Action(false, e)], w')
    ensures w'.b == c && w'.a == w.a && w'.ab == w.ab && w.ba <= w'.ba && forall seg :: seg in sent ==> seg in w'.ba
  {
    hide ApplyConn, Leads, LegalA, Wire, Tiny;
    w' := World(w.a, c, w.ab, w.ba + Wire(sent));
    WireHolds(w.ba, sent);
    Extend(acts, w, Action(false, e), w');
  }

  function A(s: Sender): Conn {
    Between(SynReceived(), s)
  }

  lemma Begun() returns (acts: seq<Action>, w: World)
    ensures Leads(acts, w)
    ensures w.a == Between(Receiving.FreshReceiver(8), SynSent()) && w.b == FreshConn(CFG) && OnWire(None, SYN) in w.ab
  {
    hide ApplyConn, OnWire;
    Connects1();
    w := AtA([], Start(CFG, CFG), Connects, Between(Receiving.FreshReceiver(8), SynSent()), [OnWire(None, SYN)]);
    acts := [] + [Action(true, Connects)];
  }

  lemma Answered() returns (acts: seq<Action>, w: World)
    ensures Leads(acts, w)
    ensures w.a == Between(Receiving.FreshReceiver(8), SynSent()) && w.b == A(SynSent()) && OnWire(Some(1), SYN) in w.ba
  {
    hide ApplyConn, OnWire, Leads;
    acts, w := Begun();
    var e := Arrives(OnWire(None, SYN));
    SynArrives2();
    w := AtB(acts, w, e, A(SynSent()), [OnWire(Some(1), SYN)]);
    acts := acts + [Action(false, e)];
  }

  /** The handshake, as far as it is needed. */
  lemma Opened() returns (acts: seq<Action>, w: World)
    ensures Leads(acts, w) && w.a == A(SynAcked()) && w.b == A(SynSent())
  {
    hide ApplyConn, OnWire, Leads;
    acts, w := Answered();
    var e := Arrives(OnWire(Some(1), SYN));
    SynAckArrives3();
    w := AtA(acts, w, e, A(SynAcked()), [OnWire(Some(1), BARE)]);
    acts := acts + [Action(true, e)];
  }

  /** The byte and the FIN go out. */
  lemma AllSent() returns (acts: seq<Action>, w: World)
    ensures Leads(acts, w) && w.a == Closing(FinSent()) && w.b == A(SynSent()) && OnWire(Some(1), FIN) in w.ab
  {
    hide ApplyConn, OnWire, Leads;
    acts, w := Opened();
    ByteWritten4();
    w := AtA(acts, w, Writes([7]), A(ByteSent()), [OnWire(Some(1), DATA)]);
    acts := acts + [Action(true, Writes([7]))];
    InputEnds5();
    w := AtA(acts, w, Ends, Closing(FinSent()), [OnWire(Some(1), FIN)]);
    acts := acts + [Action(true, Ends)];
  }

  /** Only the FIN arrives, and it is acknowledged. */
  lemma Closed() returns (acts: seq<Action>, w: World)
    ensures Leads(acts, w) && w.a == Closing(ByteDropped()) && w.b == Misled()
  {
    hide ApplyConn, OnWire, Leads;
    acts, w := AllSent();
    var e, e' := Arrives(OnWire(Some(1), FIN)), Arrives(OnWire(Some(2), BARE));
    FinArrives6();
    w := AtB(acts, w, e, Misled(), [OnWire(Some(2), BARE)]);
    acts := acts + [Action(false, e)];
    AckArrives7();
    w := AtA(acts, w, e', Closing(ByteDropped()), []);
    acts := acts + [Action(true, e')];
  }

  lemma NotOutstanding(s: Sender, e: Entry)
    requires s.outstanding == [e] && e.seg.payload == []
    ensures !InOutstanding(s, 0)
  {
  }

  /** A legal run of two connections, on which one FIN does not land: the byte that was written
      is neither at the peer, nor outstanding, nor in the sender's buffer, and more has been
      acknowledged than has been assembled. */
  lemma ByteIsLost() returns (acts: seq<Action>)
    ensures AllLegal(Start(CFG, CFG), acts) && !AllSettle(Start(CFG, CFG), acts)
    ensures var w := RunWorld(Start(CFG, CFG), acts);
      !NothingForgotten(w.a, w.b) && w.a.sender.acked > Top(w.b.receiver)
  {
    var w;
    acts, w := Closed();
    NotOutstanding(ByteDropped(), Sent(FIN));
    assert !InOutstanding(w.a.sender, 0) && w.a.sender.stream.read == 1 && |w.b.receiver.store.out.written| == 0;
    if AllSettle(Start(CFG, CFG), acts) { NoByteForgotten(CFG, CFG, acts); }
  }
}
