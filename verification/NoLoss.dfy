/** No byte that the peer has not assembled is ever forgotten. */
module NoLoss {
  import opened Types
  import opened WrappingIntegers
  import opened TcpSegments
  import opened Sending
  import opened SenderInvariant
  import opened SenderSteps
  import opened SenderTheorems
  import opened CleanClose
  import opened Connecting
  import opened Honesty
  import opened Emission
  import opened Delivery
  import opened Acknowledging
  import opened World
  import opened ReassemblyMeaning
  import Streams
  import Receiving

  // ---- only an arriving acknowledgment moves `acked` ----

  lemma SendAcked(c: Conn)
    ensures FillWindowAndSend(c).0.sender.acked == c.sender.acked
  {
    FillKeepsWritten(c.sender);
  }

  lemma RespondAcked(c: Conn, seg: TCPSegment)
    ensures Respond(c, seg).sender.acked == c.sender.acked
  {
    SendAcked(c);
    var (c1, n) := FillWindowAndSend(c);
    SendAcked(c1.(sender := SendEmpty(c1.sender)));
  }

  lemma TickAcked(c: Conn, ms: nat)
    ensures TimePasses(c, ms).sender.acked == c.sender.acked
  {
    if c.active && !Idle(c) {
      AgeIs(c, ms);
      SendAcked(Age(c, ms));
    }
  }

  predicate AckedBySegment(s: Sender, e: ConnEvent, acked: nat) {
    e.Arrives? && e.seg.header.ack && acked == AckReceived(s, e.seg.header.ackno, e.seg.header.win).acked
  }

  lemma ArrivalAcked(c: Conn, seg: TCPSegment)
    ensures var acked := SegmentReceived(c, seg).sender.acked;
      acked == c.sender.acked || AckedBySegment(c.sender, Arrives(seg), acked)
  {
    if c.active && !(Idle(c) && !seg.header.syn) {
      var c1 := PassiveClose(c, seg.header);
      PassiveCloseIs(c, seg);
      if !ResetsConnection(c1, seg.header) {
        AbsorbIs(c1, seg);
        RespondAcked(Absorb(c1, seg), seg);
      }
    }
  }

  lemma AckedMoves(c: Conn, e: ConnEvent)
    ensures var acked := ApplyConn(c, e).sender.acked;
      acked == c.sender.acked || AckedBySegment(c.sender, e, acked)
  {
    hide FillWindowAndSend, SegmentReceived, TimePasses, AckReceived;
    match e
    case Arrives(seg) => ArrivalAcked(c, seg);
    case Elapses(ms) => TickAcked(c, ms);
    case Writes(data) => SendAcked(c.(sender := c.sender.(stream := Streams.Write(c.sender.stream, data))));
    case Ends => SendAcked(c.(sender := c.sender.(stream := Streams.End(c.sender.stream))));
    case _ => SendAcked(c);
  }

  /** An accepted acknowledgment is the number its 32 bits say. */
  lemma AckIsOffset(s: Sender, ackno: u32, win: u16)
    requires s.next < 0x1_0000_0000
    ensures var acked := AckReceived(s, ackno, win).acked;
      acked == s.acked || acked == Offset(ackno, s.isn)
  {
    UnwrapCongruent(ackno, s.isn, s.acked);
    var a := Unwrap(ackno, s.isn, s.acked);
    if a <= s.next { OffsetWrap(a, s.isn); }
  }

  // ---- one direction ----

  predicate AcksSound(isn: u32, top: nat, rev: set<TCPSegment>) {
    forall seg :: seg in rev && seg.header.ack ==> Offset(seg.header.ackno, isn) <= top
  }

  /** Nothing beyond what `y` has assembled is acknowledged, now or later. */
  predicate Sound(x: Conn, y: Conn, rev: set<TCPSegment>) {
    && FinSettled(y.receiver)
    && x.sender.acked <= Top(y.receiver)
    && AcksSound(x.sender.isn, Top(y.receiver), rev)
  }

  lemma SenderSound(x: Conn, y: Conn, net: set<TCPSegment>, rev: set<TCPSegment>, e: ConnEvent)
    requires Link(x, y, net, rev) && Sound(x, y, rev) && Small(x.sender)
    requires e.Arrives? ==> e.seg in rev
    requires ApplyConn(x, e).sender.isn == x.sender.isn
    ensures Sound(Collected(ApplyConn(x, e)), y, rev)
  {
    AckedMoves(x, e);
    if AckedBySegment(x.sender, e, ApplyConn(x, e).sender.acked) {
      ShortNext(x.sender);
      AckIsOffset(x.sender, e.seg.header.ackno, e.seg.header.win);
    }
  }

  /** A FIN that reaches an open receiver lands. */
  predicate Settles(y: Conn, e: ConnEvent) {
    && e.Arrives? && y.active && e.seg.header.fin
    && (y.receiver.status != Receiving.Listen || e.seg.header.syn)
    ==> FinLands(y.receiver, e.seg)
  }

  lemma OutputSettled(r: Receiving.Receiver, r': Receiving.Receiver)
    requires FinSettled(r) && OutputMoves(r, r') && r'.store.out.ended == r.store.out.ended
    ensures FinSettled(r') && Top(r') == Top(r)
  {
  }

  lemma ReceiverSettled(x: Conn, y: Conn, e: ConnEvent, r': Receiving.Receiver)
    requires Faithful(y.receiver, x.sender) && FinSettled(y.receiver) && ReceiverMoves(y, e, r')
    requires e.Arrives? ==> Genuine(x.sender, e.seg)
    requires Settles(y, e) && (!y.active ==> OutputMoves(y.receiver, r'))
    requires Fitting(|x.sender.stream.written|, y.receiver.store.out.cap)
    ensures FinSettled(r') && Top(y.receiver) <= Top(r')
  {
    OutputOnly(y, e, r');
    if OutputMoves(y.receiver, r') {
      OutputSettled(y.receiver, r');
    } else {
      ReceiveSettled(y.receiver, x.sender, e.seg);
      TopGrows(y.receiver, x.sender, e.seg);
    }
  }

  lemma InactiveOutput(y: Conn, e: ConnEvent)
    requires !y.active
    ensures OutputMoves(y.receiver, ApplyConn(y, e).receiver)
  {
    hide FillWindow, StampAll, AnyFin;
  }

  lemma NewAcksSound(cfg: Config, r: Receiving.Receiver, s: Sender, top: nat, rev: set<TCPSegment>, segs: seq<TCPSegment>)
    requires Faithful(r, s) && FinSettled(r) && |s.stream.written| < 0x8000_0000
    requires AcksSound(s.isn, top, rev) && top <= Top(r) && Acknowledges(cfg, r, segs)
    ensures AcksSound(s.isn, Top(r), rev + Wire(segs))
  {
    HeldPrefix(ViewOf(r.store), s.stream.written);
    forall seg | seg in Wire(segs) && seg.header.ack ensures Offset(seg.header.ackno, s.isn) <= Top(r) {
      var i :| 0 <= i < |segs| && segs[i] == seg;
      SettledIsSound(r);
    }
  }

  lemma ReceiverSound(x: Conn, y: Conn, net: set<TCPSegment>, rev: set<TCPSegment>, e: ConnEvent, y': Conn)
    requires Link(x, y, net, rev) && Sound(x, y, rev) && Moves(y, e, y')
    requires e.Arrives? ==> e.seg in net
    requires Settles(y, e) && y' == ApplyConn(y, e)
    requires Fitting(|x.sender.stream.written|, y.cfg.recvCapacity)
    ensures Sound(x, Collected(y'), rev + Wire(y'.out))
  {
    if !y.active { InactiveOutput(y, e); }
    ReceiverFaithful(x, y, e, y'.receiver);
    ReceiverSettled(x, y, e, y'.receiver);
    NewAcksSound(y'.cfg, y'.receiver, x.sender, Top(y.receiver), rev, y'.out);
  }

  // ---- the world ----

  predicate SettlesIn(w: World, act: Action) {
    Settles(if act.atA then w.a else w.b, act.event)
  }

  /** Every FIN that is delivered lands. */
  predicate AllSettle(w: World, acts: seq<Action>)
    decreases |acts|
  {
    acts == [] || (AllSettle(w, acts[..|acts| - 1]) && SettlesIn(RunWorld(w, acts[..|acts| - 1]), acts[|acts| - 1]))
  }

  ghost predicate Careful(w: World) {
    && Linked(w)
    && Sound(w.a, w.b, w.ba) && Sound(w.b, w.a, w.ab)
    && Closing(w.a) && Closing(w.b)
  }

  lemma StepACareful(w: World, e: ConnEvent)
    requires Careful(w) && LegalA(w, e) && Settles(w.a, e) && Bounded(w) && Bounded(StepA(w, e))
    ensures Careful(StepA(w, e))
  {
    StepALinked(w, e);
    EventMoves(w.a, e);
    var c := ApplyConn(w.a, e);
    SenderSound(w.a, w.b, w.ab, w.ba, e);
    ReceiverSound(w.b, w.a, w.ba, w.ab, e, c);
    EventKeeps(w.a, e);
    CollectKeeps(c);
  }

  lemma StepCareful(w: World, act: Action)
    requires Careful(w) && Legal(w, act) && SettlesIn(w, act) && Bounded(w) && Bounded(Step(w, act))
    ensures Careful(Step(w, act))
  {
    StepACareful(if act.atA then w else Mirror(w), act.event);
  }

  lemma {:induction false} RunCareful(cfgA: Config, cfgB: Config, acts: seq<Action>)
    requires AllLegal(Start(cfgA, cfgB), acts) && AllSettle(Start(cfgA, cfgB), acts)
    ensures Careful(RunWorld(Start(cfgA, cfgB), acts))
    decreases |acts|
  {
    if acts == [] {
      StartLinked(cfgA, cfgB);
    } else {
      RunCareful(cfgA, cfgB, acts[..|acts| - 1]);
      StepCareful(RunWorld(Start(cfgA, cfgB), acts[..|acts| - 1]), acts[|acts| - 1]);
    }
  }

  // ---- what it means ----

  /** Byte `k` is in a segment that will be sent again. */
  predicate InOutstanding(s: Sender, k: nat) {
    exists i :: 0 <= i < |s.outstanding| && CarriesByte(s, s.outstanding[i].seg, k)
  }

  predicate CarriesByte(s: Sender, seg: TCPSegment, k: nat) {
    var first := Offset(seg.header.seqno, s.isn) - 1;
    !seg.header.syn && k < |s.stream.written| && first <= k < first + |seg.payload| && seg.payload[k - first] == s.stream.written[k]
  }

  lemma {:induction false} TileAt(q: seq<Flight>, b: nat, e: nat, k: nat) returns (j: nat)
    requires Tiled(q, b, e) && b <= k < e
    ensures j < |q| && q[j].abs <= k < End(q[j])
  {
    if k < End(q[0]) {
      j := 0;
    } else {
      j := TileAt(q[1..], End(q[0]), e, k);
      j := j + 1;
    }
  }

  /** Every entry of the queue is somewhere in `outstanding`. */
  lemma EntryAt(o: seq<Entry>, q: seq<Flight>, m: nat, j: nat) returns (i: nat)
    requires Displaced(o, q, m) && j < |q|
    ensures i < |o| && o[i] == q[j].entry
  {
    if j == 0 {
      i := m;
    } else {
      EntriesAt(q[1..]);
      assert Remove(o, m)[j - 1] == q[j].entry;
      i := if j - 1 < m then j - 1 else j;
    }
  }

  /** A byte that is sent but not acknowledged is in an outstanding segment. */
  lemma UnackedOutstanding(s: Sender, k: nat)
    requires Inv(s) && Small(s) && s.acked <= k + 1 && k < s.stream.read
    ensures InOutstanding(s, k)
  {
    var q: seq<Flight>, m: nat :| Flying(s, q, m);
    TiledOrder(q, Base(s, q), s.next);
    var j := TileAt(q, Base(s, q), s.next, k + 1);
    var i := EntryAt(s.outstanding, q, m, j);
    FlightCarries(s, q[j], k);
  }

  lemma FlightCarries(s: Sender, f: Flight, k: nat)
    requires Carries(s, f) && Counted(s) && Small(s) && f.abs <= k + 1 < End(f) <= s.next && k < s.stream.read
    ensures CarriesByte(s, f.entry.seg, k)
  {
    OffsetWrap(f.abs, s.isn);
  }

  /** Each byte written at `x` has been assembled at `y`, or waits in an outstanding segment,
      or in the sender's buffer. */
  predicate NothingForgotten(x: Conn, y: Conn) {
    forall k :: |y.receiver.store.out.written| <= k < |x.sender.stream.written| ==>
      InOutstanding(x.sender, k) || x.sender.stream.read <= k
  }

  lemma SoundForgetsNothing(x: Conn, y: Conn, net: set<TCPSegment>, rev: set<TCPSegment>)
    requires Link(x, y, net, rev) && Sound(x, y, rev) && Small(x.sender)
    ensures NothingForgotten(x, y)
  {
    forall k | |y.receiver.store.out.written| <= k < |x.sender.stream.written|
      ensures InOutstanding(x.sender, k) || x.sender.stream.read <= k
    {
      if k < x.sender.stream.read { UnackedOutstanding(x.sender, k); }
    }
  }

  /** On every run on which delivered FINs land: acknowledgments never run ahead of what the
      peer has assembled, and no byte still missing there is dropped here. */
  lemma NoByteForgotten(cfgA: Config, cfgB: Config, acts: seq<Action>)
    requires AllLegal(Start(cfgA, cfgB), acts) && AllSettle(Start(cfgA, cfgB), acts)
    ensures var w := RunWorld(Start(cfgA, cfgB), acts);
      && w.a.sender.acked <= Top(w.b.receiver) && NothingForgotten(w.a, w.b)
      && w.b.sender.acked <= Top(w.a.receiver) && NothingForgotten(w.b, w.a)
  {
    RunCareful(cfgA, cfgB, acts);
    var w := RunWorld(Start(cfgA, cfgB), acts);
    SoundForgetsNothing(w.a, w.b, w.ab, w.ba);
    SoundForgetsNothing(w.b, w.a, w.ba, w.ab);
  }

  lemma ClosedDelivers(x: Conn, y: Conn, net: set<TCPSegment>, rev: set<TCPSegment>)
    requires Link(x, y, net, rev) && Sound(x, y, rev) && Closing(x)
    requires !x.active && !x.sender.stream.error
    ensures y.receiver.store.out.ended && y.receiver.store.out.written == x.sender.stream.written
  {
    DoneMeansAcked(x.sender);
    LinkDelivers(x, y, net, rev);
  }

  /** On such runs a connection that closes cleanly has delivered its whole stream: the peer
      has assembled every byte and seen the end. */
  lemma CleanCloseDelivers(cfgA: Config, cfgB: Config, acts: seq<Action>)
    requires AllLegal(Start(cfgA, cfgB), acts) && AllSettle(Start(cfgA, cfgB), acts)
    ensures var w := RunWorld(Start(cfgA, cfgB), acts);
      !w.a.active && !w.a.sender.stream.error ==>
        w.b.receiver.store.out.ended && w.b.receiver.store.out.written == w.a.sender.stream.written
  {
    RunCareful(cfgA, cfgB, acts);
    var w := RunWorld(Start(cfgA, cfgB), acts);
    if !w.a.active && !w.a.sender.stream.error { ClosedDelivers(w.a, w.b, w.ab, w.ba); }
  }
}
