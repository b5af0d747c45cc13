/** Two connections and a network that may lose, duplicate and reorder whatever they send. */
module World {
  import opened Types
  import opened TcpSegments
  import opened Sending
  import opened SenderSteps
  import opened SenderInvariant
  import opened CleanClose
  import opened Connecting
  import opened Honesty
  import opened Emission
  import opened Delivery
  import opened ReassemblyMeaning
  import Streams
  import Receiving

  /** `ab` holds every segment `a` has ever sent, `ba` every one `b` has: any of them may be
      delivered at any time, again, or never. */
  datatype World = World(a: Conn, b: Conn, ab: set<TCPSegment>, ba: set<TCPSegment>)

  datatype Action = Action(atA: bool, event: ConnEvent)

  function Start(cfgA: Config, cfgB: Config): World {
    World(FreshConn(cfgA), FreshConn(cfgB), {}, {})
  }

  function Mirror(w: World): World {
    World(w.b, w.a, w.ba, w.ab)
  }

  function Wire(segs: seq<TCPSegment>): set<TCPSegment> {
    set seg | seg in segs
  }

  /** The queue is handed to the network. */
  function Collected(c: Conn): Conn {
    c.(out := [])
  }

  /** One event at `a`. */
  function StepA(w: World, e: ConnEvent): World {
    var c := ApplyConn(w.a, e);
    World(Collected(c), w.b, w.ab + Wire(c.out), w.ba)
  }

  function Step(w: World, act: Action): World {
    if act.atA then StepA(w, act.event) else Mirror(StepA(Mirror(w), act.event))
  }

  predicate LegalA(w: World, e: ConnEvent) {
    && (e.Arrives? ==> e.seg in w.ba)
    && (e.Writes? ==> !w.a.sender.finSent)
    && !e.Collects?
  }

  /** Only segments that were sent arrive, and the application does not write once its FIN is
      out. */
  predicate Legal(w: World, act: Action) {
    if act.atA then LegalA(w, act.event) else LegalA(Mirror(w), act.event)
  }

  /** Both streams stay below 2^31 bytes and, with the other end's capacity, below 2^32. */
  predicate Bounded(w: World) {
    && Fitting(|w.a.sender.stream.written|, w.b.cfg.recvCapacity)
    && Fitting(|w.b.sender.stream.written|, w.a.cfg.recvCapacity)
  }

  function RunWorld(w: World, acts: seq<Action>): World
    decreases |acts|
  {
    if acts == [] then w else Step(RunWorld(w, acts[..|acts| - 1]), acts[|acts| - 1])
  }

  predicate AllLegal(w: World, acts: seq<Action>)
    decreases |acts|
  {
    Bounded(RunWorld(w, acts)) &&
    (acts == [] || (AllLegal(w, acts[..|acts| - 1]) && Legal(RunWorld(w, acts[..|acts| - 1]), acts[|acts| - 1])))
  }

  // ---- one direction of the conversation ----

  ghost predicate NetGenuine(s: Sender, net: set<TCPSegment>) {
    forall seg :: seg in net ==> Genuine(s, seg)
  }

  /** Nobody acknowledges a sender that has not spoken. */
  predicate NetAcks(s: Sender, rev: set<TCPSegment>) {
    forall seg :: seg in rev && seg.header.ack ==> s.next > 0
  }

  /** `x` sends to `y` over `net`, and hears back over `rev`. */
  ghost predicate Link(x: Conn, y: Conn, net: set<TCPSegment>, rev: set<TCPSegment>) {
    && Honest(x.sender)
    && NetGenuine(x.sender, net)
    && Faithful(y.receiver, x.sender)
    && y.receiver.store.out.cap == y.cfg.recvCapacity
    && NetAcks(x.sender, rev)
  }

  ghost predicate Linked(w: World) {
    && Link(w.a, w.b, w.ab, w.ba) && Link(w.b, w.a, w.ba, w.ab)
    && w.a.out == [] && w.b.out == []
  }

  lemma NetKept(s: Sender, s': Sender, net: set<TCPSegment>)
    requires NetGenuine(s, net) && Grows(s, s')
    ensures NetGenuine(s', net)
  {
    forall seg | seg in net ensures Genuine(s', seg) { GenuineKept(s, s', seg); }
  }

  lemma WireGenuine(s: Sender, net: set<TCPSegment>, segs: seq<TCPSegment>)
    requires NetGenuine(s, net) && AllGenuine(s, segs)
    ensures NetGenuine(s, net + Wire(segs))
  {
  }

  /** An event at the sending end. */
  lemma SenderMoves(x: Conn, y: Conn, net: set<TCPSegment>, rev: set<TCPSegment>, e: ConnEvent, x': Conn)
    requires Link(x, y, net, rev) && Moves(x, e, x')
    ensures Link(Collected(x'), y, net + Wire(x'.out), rev)
  {
    var s := x'.sender;
    NetKept(x.sender, s, net);
    WireGenuine(s, net, x'.out);
    SenderFaithful(y.receiver, x.sender, s);
  }

  /** Reading and error flags only touch those two fields of the output stream. */
  predicate OutputMoves(r: Receiving.Receiver, r': Receiving.Receiver) {
    && r' == r.(store := r.store.(out := r'.store.out))
    && r'.store.out == r.store.out.(read := r'.store.out.read, error := r'.store.out.error)
    && r.store.out.read <= r'.store.out.read
  }

  lemma OutputOnly(y: Conn, e: ConnEvent, r': Receiving.Receiver)
    requires ReceiverMoves(y, e, r')
    ensures OutputMoves(y.receiver, r') || (e.Arrives? && r' == Receiving.SegmentReceived(y.receiver, e.seg))
  {
    if e.Reads? && r' == ReadInbound(y, e.n).receiver {
      assert OutputMoves(y.receiver, r');
    } else if r' == Abort(y).receiver {
      assert OutputMoves(y.receiver, r');
    }
  }

  lemma ReceiverFaithful(x: Conn, y: Conn, e: ConnEvent, r': Receiving.Receiver)
    requires Faithful(y.receiver, x.sender) && ReceiverMoves(y, e, r')
    requires e.Arrives? ==> Genuine(x.sender, e.seg)
    requires Fitting(|x.sender.stream.written|, y.receiver.store.out.cap)
    ensures Faithful(r', x.sender)
    ensures r'.store.out.cap == y.receiver.store.out.cap
  {
    OutputOnly(y, e, r');
    if OutputMoves(y.receiver, r') {
      OutputFaithful(y.receiver, x.sender, r');
    } else {
      ReceiveFaithful(y.receiver, x.sender, e.seg);
    }
  }

  lemma AcksHeard(cfg: Config, r: Receiving.Receiver, s: Sender, rev: set<TCPSegment>, segs: seq<TCPSegment>)
    requires NetAcks(s, rev) && Acknowledges(cfg, r, segs) && (r.status != Receiving.Listen ==> s.next > 0)
    ensures NetAcks(s, rev + Wire(segs))
  {
    forall seg | seg in Wire(segs) && seg.header.ack ensures s.next > 0 {
      var i :| 0 <= i < |segs| && segs[i] == seg;
    }
  }

  /** An event at the receiving end. */
  lemma ReceiverStep(x: Conn, y: Conn, net: set<TCPSegment>, rev: set<TCPSegment>, e: ConnEvent, y': Conn)
    requires Link(x, y, net, rev) && Moves(y, e, y')
    requires e.Arrives? ==> e.seg in net
    requires Fitting(|x.sender.stream.written|, y.cfg.recvCapacity)
    ensures Link(x, Collected(y'), net, rev + Wire(y'.out))
  {
    ReceiverFaithful(x, y, e, y'.receiver);
    AcksHeard(y'.cfg, y'.receiver, x.sender, rev, y'.out);
  }

  lemma StepALinked(w: World, e: ConnEvent)
    requires Linked(w) && LegalA(w, e) && Bounded(w) && Bounded(StepA(w, e))
    ensures Linked(StepA(w, e))
  {
    EventMoves(w.a, e);
    var c := ApplyConn(w.a, e);
    SenderMoves(w.a, w.b, w.ab, w.ba, e, c);
    ReceiverStep(w.b, w.a, w.ba, w.ab, e, c);
  }

  lemma StepLinked(w: World, act: Action)
    requires Linked(w) && Legal(w, act) && Bounded(w) && Bounded(Step(w, act))
    ensures Linked(Step(w, act))
  {
    StepALinked(if act.atA then w else Mirror(w), act.event);
  }

  lemma StartLinked(cfgA: Config, cfgB: Config)
    ensures Linked(Start(cfgA, cfgB))
  {
    FreshFlies(cfgA.sendCapacity, cfgA.rtTimeout, cfgA.isn);
    FreshFlies(cfgB.sendCapacity, cfgB.rtTimeout, cfgB.isn);
    FreshFaithful(cfgA.recvCapacity, FreshConn(cfgB).sender);
    FreshFaithful(cfgB.recvCapacity, FreshConn(cfgA).sender);
  }

  lemma {:induction false} RunLinked(cfgA: Config, cfgB: Config, acts: seq<Action>)
    requires AllLegal(Start(cfgA, cfgB), acts)
    ensures Linked(RunWorld(Start(cfgA, cfgB), acts))
    decreases |acts|
  {
    if acts == [] {
      StartLinked(cfgA, cfgB);
    } else {
      RunLinked(cfgA, cfgB, acts[..|acts| - 1]);
      StepLinked(RunWorld(Start(cfgA, cfgB), acts[..|acts| - 1]), acts[|acts| - 1]);
    }
  }

  // ---- stream safety ----

  /** What `y` has assembled is a prefix of what was written at `x`, and when its input has
      ended it is all of it. */
  predicate Delivered(x: Conn, y: Conn) {
    var sent, got := x.sender.stream, y.receiver.store.out;
    && got.written <= sent.written
    && (got.ended ==> sent.ended && x.sender.finSent && got.written == sent.written)
  }

  lemma LinkDelivers(x: Conn, y: Conn, net: set<TCPSegment>, rev: set<TCPSegment>)
    requires Link(x, y, net, rev)
    ensures Delivered(x, y)
  {
    HeldPrefix(ViewOf(y.receiver.store), x.sender.stream.written);
  }

  /** On every run, whatever the network loses, repeats and reorders: both ends' output is a
      prefix of what was written at the other end, and an ended input is all of it. */
  lemma Safety(cfgA: Config, cfgB: Config, acts: seq<Action>)
    requires AllLegal(Start(cfgA, cfgB), acts)
    ensures var w := RunWorld(Start(cfgA, cfgB), acts);
      Delivered(w.a, w.b) && Delivered(w.b, w.a)
  {
    RunLinked(cfgA, cfgB, acts);
    var w := RunWorld(Start(cfgA, cfgB), acts);
    LinkDelivers(w.a, w.b, w.ab, w.ba);
    LinkDelivers(w.b, w.a, w.ba, w.ab);
  }
}
