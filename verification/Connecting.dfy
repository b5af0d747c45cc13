/** A connection as a value (tcp_connection.cc). */
module Connecting {
  import opened Types
  import opened WrappingIntegers
  import opened TcpSegments
  import Streams
  import Reassembly
  import Receiving
  import Sending

  datatype Config = Config(rtTimeout: u16, recvCapacity: u64, sendCapacity: u64, isn: u32)

  const MAX_RETX_ATTEMPTS: nat := 8

  datatype Conn = Conn(
    cfg: Config, receiver: Receiving.Receiver, sender: Sending.Sender, out: seq<TCPSegment>, linger: bool,
    tnow: nat, tlast: nat, tlastsent: nat, active: bool, finreceived: bool, finsent: bool)

  function FreshConn(cfg: Config): Conn {
    Conn(cfg, Receiving.FreshReceiver(cfg.recvCapacity), Sending.FreshSender(cfg.sendCapacity, cfg.rtTimeout, cfg.isn), [], true,
         0, 0, 0, true, false, false)
  }

  /** Fill in the fields that the receiver determines. */
  function Stamp(cfg: Config, ackno: Option<u32>, seg: TCPSegment): TCPSegment {
    var h := if ackno.Some? then seg.header.(ack := true, ackno := ackno.value) else seg.header;
    seg.(header := h.(win := if cfg.recvCapacity > 0xffff then 0xffff else cfg.recvCapacity))
  }

  function StampAll(cfg: Config, ackno: Option<u32>, segs: seq<TCPSegment>): seq<TCPSegment> {
    if segs == [] then [] else [Stamp(cfg, ackno, segs[0])] + StampAll(cfg, ackno, segs[1..])
  }

  predicate AnyFin(segs: seq<TCPSegment>) {
    segs != [] && (segs[0].header.fin || AnyFin(segs[1..]))
  }

  /** Move what the sender has queued to the connection's own queue. */
  function Flush(c: Conn): Conn {
    var segs := c.sender.out;
    c.(sender := c.sender.(out := []),
       out := c.out + StampAll(c.cfg, Receiving.Ackno(c.receiver), segs),
       tlastsent := if segs == [] then c.tlastsent else c.tnow,
       finsent := c.finsent || AnyFin(segs))
  }

  /** The move of one segment. */
  function FlushOne(c: Conn): Conn
    requires c.sender.out != []
  {
    var seg := c.sender.out[0];
    c.(sender := c.sender.(out := c.sender.out[1..]),
       out := c.out + [Stamp(c.cfg, Receiving.Ackno(c.receiver), seg)],
       tlastsent := c.tnow, finsent := c.finsent || seg.header.fin)
  }

  lemma FlushStep(c: Conn)
    requires c.sender.out != []
    ensures Flush(FlushOne(c)) == Flush(c)
  {
    var ackno, rest := Receiving.Ackno(c.receiver), c.sender.out[1..];
    assert (c.out + [Stamp(c.cfg, ackno, c.sender.out[0])]) + StampAll(c.cfg, ackno, rest)
        == c.out + ([Stamp(c.cfg, ackno, c.sender.out[0])] + StampAll(c.cfg, ackno, rest));
  }

  function Filled(c: Conn): Conn {
    c.(sender := Sending.FillWindow(c.sender))
  }

  /** `fill_window_and_send`, and how many segments it sent */
  function FillWindowAndSend(c: Conn): (Conn, nat) {
    (Flush(Filled(c)), |Filled(c).sender.out|)
  }

  /** The outbound stream has ended and everything sent is acknowledged. */
  predicate Finished(c: Conn) {
    Streams.Eof(c.sender.stream) && Sending.BytesInFlight(c.sender) == 0
  }

  /** Waiting for the peer's SYN without having sent one. */
  predicate Idle(c: Conn) {
    && Sending.BytesInFlight(c.sender) == 0
    && !Streams.Eof(c.sender.stream)
    && Receiving.Ackno(c.receiver).None?
  }

  function Abort(c: Conn): Conn {
    c.(sender := c.sender.(stream := Streams.SetError(c.sender.stream)),
       receiver := c.receiver.(store := c.receiver.store.(out := Streams.SetError(c.receiver.store.out))),
       active := false)
  }

  predicate ResetsConnection(c: Conn, h: TCPHeader) {
    h.rst && (Receiving.Ackno(c.receiver).None? || h.seqno == Receiving.Ackno(c.receiver).value)
  }

  predicate Occupies(seg: TCPSegment) {
    |seg.payload| > 0 || seg.header.syn || seg.header.fin
  }

  /** `segment_received` up to the passive-close test. */
  function PassiveClose(c: Conn, h: TCPHeader): Conn {
    if !c.linger && Finished(c) && h.ack && h.ackno == Wrap(c.sender.next, c.sender.isn) then c.(active := false) else c
  }

  /** What the segment does to both halves. */
  function Absorb(c: Conn, seg: TCPSegment): Conn {
    var c1 := if seg.header.fin then c.(finreceived := true, linger := c.linger && c.finsent) else c;
    var c2 := c1.(tlast := c1.tnow, receiver := Receiving.SegmentReceived(c1.receiver, seg));
    if seg.header.ack then c2.(sender := Sending.AckReceived(c2.sender, seg.header.ackno, seg.header.win)) else c2
  }

  /** New segments if there are any, otherwise a bare acknowledgment if one is due. */
  function Respond(c: Conn, seg: TCPSegment): Conn {
    var (c1, n) := FillWindowAndSend(c);
    if n == 0 && Occupies(seg) then FillWindowAndSend(c1.(sender := Sending.SendEmpty(c1.sender))).0 else c1
  }

  function CloseIfFinished(c: Conn, h: TCPHeader): Conn {
    if !c.linger && Finished(c) && h.ack then c.(active := false) else c
  }

  /** `segment_received` */
  function SegmentReceived(c: Conn, seg: TCPSegment): Conn {
    if !c.active then c
    else if Idle(c) && !seg.header.syn then c
    else
      var c1 := PassiveClose(c, seg.header);
      if ResetsConnection(c1, seg.header) then Abort(c1)
      else CloseIfFinished(Respond(Absorb(c1, seg), seg), seg.header)
  }

  /** `write`; the second component is the number of bytes accepted */
  function WriteBytes(c: Conn, data: seq<byte>): (Conn, nat) {
    if !c.active then (c, 0)
    else
      (FillWindowAndSend(c.(sender := c.sender.(stream := Streams.Write(c.sender.stream, data)))).0,
       Min(|data|, Streams.Room(c.sender.stream)))
  }

  /** `sendRST`, which resets with whatever heads the sender's queue */
  function SendRst(c: Conn): Conn {
    var s := Sending.SendEmpty(c.sender);
    var seg := s.out[0];
    Abort(c.(sender := s.(out := s.out[1..]), out := c.out + [seg.(header := seg.header.(rst := true))]))
  }

  /** `tick` up to the retransmission. */
  function Age(c: Conn, ms: nat): Conn {
    var c1 := c.(tnow := c.tnow + ms);
    var c2 := if Finished(c1) && c1.tnow - c1.tlastsent >= 10 * c1.cfg.rtTimeout then c1.(linger := false, active := false) else c1;
    c2.(sender := Sending.Tick(c2.sender, ms))
  }

  /** `tick` */
  function TimePasses(c: Conn, ms: nat): Conn {
    if !c.active || Idle(c) then c
    else
      var c1 := Age(c, ms);
      if c1.sender.crtx > MAX_RETX_ATTEMPTS then SendRst(c1) else FillWindowAndSend(c1).0
  }

  /** `end_input_stream` */
  function EndInputStream(c: Conn): Conn {
    if !c.active then c
    else FillWindowAndSend(c.(sender := c.sender.(stream := Streams.End(c.sender.stream)))).0
  }

  /** `connect` */
  function Connect(c: Conn): Conn {
    FillWindowAndSend(c).0
  }
}

/** The connection object. */
module TcpConnections {
  import opened Types
  import opened WrappingIntegers
  import opened TcpSegments
  import opened Connecting
  import Streams
  import ByteStreams
  import StreamReassemblers
  import Receiving
  import TcpReceivers
  import Sending
  import TcpSenders

  class TCPConnection {
    const cfg: Config
    const receiver: TcpReceivers.TCPReceiver
    const sender: TcpSenders.TCPSender
    var segmentsOut: seq<TCPSegment>
    var lingerAfterStreamsFinish: bool
    var tnow: nat
    var tlast: nat
    var tlastsent: nat
    var isActive: bool
    var finreceived: bool
    var finsent: bool

    ghost function Inbound(): set<object> {
      {receiver, receiver.reassembler, receiver.reassembler.output}
    }

    ghost function Outbound(): set<object> {
      {sender, sender.stream}
    }

    ghost predicate Valid()
      reads this, Inbound(), Outbound()
    {
      receiver.Valid() && sender.Valid() && sender.stream != receiver.reassembler.output
    }

    ghost function Model(): Conn
      requires Valid()
      reads this, Inbound(), Outbound()
    {
      Conn(cfg, receiver.Model(), sender.Model(), segmentsOut, lingerAfterStreamsFinish, tnow, tlast, tlastsent,
           isActive, finreceived, finsent)
    }

    constructor (cfg: Config)
      ensures Valid() && fresh(Inbound()) && fresh(Outbound())
      ensures Model() == FreshConn(cfg)
    {
      this.cfg := cfg;
      receiver := new TcpReceivers.TCPReceiver(cfg.recvCapacity);
      sender := new TcpSenders.TCPSender(cfg.sendCapacity, cfg.rtTimeout, cfg.isn);
      segmentsOut, lingerAfterStreamsFinish, tnow, tlast, tlastsent := [], true, 0, 0, 0;
      isActive, finreceived, finsent := true, false, false;
    }

    method FillWindowAndSend() returns (res: nat)
      requires Valid()
      modifies this, Outbound()
      ensures Valid() && (Model(), res) == Connecting.FillWindowAndSend(old(Model()))
    {
      sender.FillWindow();
      res := Drain();
    }

    /** The loop that moves the sender's segments to the connection's queue. */
    method Drain() returns (res: nat)
      requires Valid()
      modifies this, sender
      ensures Valid() && Model() == Flush(old(Model())) && res == |old(sender.segmentsOut)|
    {
      res := 0;
      while sender.segmentsOut != []
        invariant Valid() && res + |sender.segmentsOut| == |old(sender.segmentsOut)|
        invariant Flush(Model()) == Flush(old(Model()))
        decreases |sender.segmentsOut|
      {
        FlushStep(Model());
        DrainOne();
        res := res + 1;
      }
    }

    method DrainOne()
      requires Valid() && sender.segmentsOut != []
      modifies this, sender
      ensures Valid() && Model() == FlushOne(old(Model()))
      ensures sender.segmentsOut == old(sender.segmentsOut)[1..]
    {
      hide Receiving.Ackno;
      var seg := sender.segmentsOut[0];
      var ackno := receiver.Ackno();
      var h := seg.header;
      if ackno.Some? {
        h := h.(ack := true, ackno := ackno.value);
      }
      if cfg.recvCapacity > 0xffff {
        h := h.(win := 0xffff);
      } else {
        h := h.(win := cfg.recvCapacity);
      }
      segmentsOut := segmentsOut + [seg.(header := h)];
      sender.segmentsOut := sender.segmentsOut[1..];
      tlastsent := tnow;
      if seg.header.fin {
        finsent := true;
      }
    }

    method IsFinished() returns (finished: bool)
      requires Valid()
      ensures finished == Finished(Model())
    {
      var inFlight := sender.BytesInFlight();
      finished := sender.stream.Eof() && inFlight == 0;
    }

    method IsIdle() returns (idle: bool)
      requires Valid()
      ensures idle == Idle(Model())
    {
      var inFlight := sender.BytesInFlight();
      var ackno := receiver.Ackno();
      idle := inFlight == 0 && !sender.stream.Eof() && ackno.None?;
    }

    method Abort()
      requires Valid()
      modifies this, Inbound(), Outbound()
      ensures Valid() && Model() == Connecting.Abort(old(Model()))
    {
      isActive := false;
      sender.stream.SetError();
      receiver.reassembler.output.SetError();
    }

    method SegmentReceived(seg: TCPSegment)
      requires Valid()
      modifies this, Inbound(), Outbound()
      ensures Valid() && Model() == Connecting.SegmentReceived(old(Model()), seg)
    {
      if !isActive {
        return;
      }
      var idle := IsIdle();
      if idle && !seg.header.syn {
        return;
      }
      PassiveClose(seg.header);
      var ackno := receiver.Ackno();
      if seg.header.rst && (ackno.None? || seg.header.seqno == ackno.value) {
        Abort();
        return;
      }
      Absorb(seg);
      Respond(seg);
      CloseIfFinished(seg.header);
    }

    method PassiveClose(h: TCPHeader)
      requires Valid()
      modifies this`isActive
      ensures Valid() && Model() == Connecting.PassiveClose(old(Model()), h)
    {
      var finished := IsFinished();
      if !lingerAfterStreamsFinish && finished && h.ack && h.ackno == Wrap(sender.nextSeqno, sender.isn) {
        isActive := false;
      }
    }

    method CloseIfFinished(h: TCPHeader)
      requires Valid()
      modifies this`isActive
      ensures Valid() && Model() == Connecting.CloseIfFinished(old(Model()), h)
    {
      var finished := IsFinished();
      if !lingerAfterStreamsFinish && finished && h.ack {
        isActive := false;
      }
    }

    method Absorb(seg: TCPSegment)
      requires Valid()
      modifies this, Inbound(), sender
      ensures Valid() && Model() == Connecting.Absorb(old(Model()), seg)
    {
      hide Receiving.SegmentReceived, Sending.AckReceived;
      if seg.header.fin {
        finreceived := true;
        if !finsent {
          lingerAfterStreamsFinish := false;
        }
      }
      tlast := tnow;
      receiver.SegmentReceived(seg);
      if seg.header.ack {
        sender.AckReceived(seg.header.ackno, seg.header.win);
      }
    }

    method Respond(seg: TCPSegment)
      requires Valid()
      modifies this, Outbound()
      ensures Valid() && Model() == Connecting.Respond(old(Model()), seg)
    {
      hide Connecting.FillWindowAndSend, Sending.SendEmpty;
      var n := FillWindowAndSend();
      var seqOccupied := |seg.payload| > 0 || seg.header.syn || seg.header.fin;
      if n == 0 && seqOccupied {
        sender.SendEmptySegment();
        n := FillWindowAndSend();
      }
    }

    method Write(data: seq<byte>) returns (written: nat)
      requires Valid()
      modifies this, Outbound()
      ensures Valid() && (Model(), written) == Connecting.WriteBytes(old(Model()), data)
    {
      if !isActive {
        return 0;
      }
      written := sender.stream.Write(data);
      var _ := FillWindowAndSend();
    }

    method Tick(ms: nat)
      requires Valid()
      modifies this, Inbound(), Outbound()
      ensures Valid() && Model() == Connecting.TimePasses(old(Model()), ms)
    {
      if !isActive {
        return;
      }
      var idle := IsIdle();
      if idle {
        return;
      }
      Age(ms);
      if sender.crtx > MAX_RETX_ATTEMPTS {
        SendRst();
        return;
      }
      var _ := FillWindowAndSend();
    }

    method Age(ms: nat)
      requires Valid()
      modifies this, sender
      ensures Valid() && Model() == Connecting.Age(old(Model()), ms)
    {
      hide Sending.Tick, Sending.BytesInFlight;
      tnow := tnow + ms;
      var finished := IsFinished();
      if finished {
        if tnow - tlastsent >= 10 * cfg.rtTimeout {
          lingerAfterStreamsFinish := false;
          isActive := false;
        }
      }
      sender.Tick(ms);
    }

    method EndInputStream()
      requires Valid()
      modifies this, Outbound()
      ensures Valid() && Model() == Connecting.EndInputStream(old(Model()))
    {
      if !isActive {
        return;
      }
      sender.stream.EndInput();
      var _ := FillWindowAndSend();
    }

    method Connect()
      requires Valid()
      modifies this, Outbound()
      ensures Valid() && Model() == Connecting.Connect(old(Model()))
    {
      var _ := FillWindowAndSend();
    }

    method SendRst()
      requires Valid()
      modifies this, Inbound(), Outbound()
      ensures Valid() && Model() == Connecting.SendRst(old(Model()))
    {
      sender.SendEmptySegment();
      var seg := sender.segmentsOut[0];
      sender.segmentsOut := sender.segmentsOut[1..];
      segmentsOut := segmentsOut + [seg.(header := seg.header.(rst := true))];
      Abort();
    }

    predicate Active()
      reads this
    {
      isActive
    }

    function TimeSinceLastSegmentReceived(): int
      reads this
    {
      tnow - tlast
    }
  }
}
