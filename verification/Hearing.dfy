/** What a connection makes of the segments it hears and of the time that passes: which reset
    ends it, how far an acknowledgment lets it send, and when it gives up. */
module Hearing {
  import opened Types
  import opened WrappingIntegers
  import opened TcpSegments
  import opened Sending
  import opened SendWindows
  import opened SenderInvariant
  import opened CleanClose
  import opened Connecting
  import opened TcpStates
  import opened Quiescence
  import opened Delivery
  import opened Honesty
  import opened Emission
  import Streams
  import Receiving

  // ---- resets ----

  /** Nothing is in flight, the input is open, and no SYN has been received. */
  predicate Listens(c: Conn) {
    BytesInFlight(c.sender) == 0 && !Streams.Eof(c.sender.stream) && c.receiver.status == Receiving.Listen
  }

  /** The connection is open, and no longer waiting for the peer's SYN, or this is a SYN. */
  predicate Hears(c: Conn, seg: TCPSegment) {
    c.active && (seg.header.syn || !Listens(c))
  }

  /** A reset is valid if nothing has been received yet, or at the next number expected. */
  predicate ValidReset(c: Conn, h: TCPHeader) {
    h.rst && (Receiving.Ackno(c.receiver).None? || Receiving.Ackno(c.receiver) == Some(h.seqno))
  }

  lemma Dropped(c: Conn, seg: TCPSegment)
    requires !Hears(c, seg)
    ensures SegmentReceived(c, seg) == c
  {
  }

  lemma HeardIs(c: Conn, seg: TCPSegment)
    requires Hears(c, seg) && !ValidReset(c, seg.header)
    ensures var c1 := PassiveClose(c, seg.header);
      && c1 == c.(active := c1.active)
      && SegmentReceived(c, seg) == CloseIfFinished(Respond(Absorb(c1, seg), seg), seg.header)
  {
    hide Respond, Absorb, CloseIfFinished, BytesInFlight;
  }

  lemma FillKeepsError(s: Sender)
    ensures FillWindow(s).stream.error == s.stream.error
  {
    if !s.finSent && s.window != UNSET { LoopFills(s); }
  }

  lemma RespondKeepsErrors(c: Conn, seg: TCPSegment)
    ensures var c' := Respond(c, seg);
      c'.sender.stream.error == c.sender.stream.error && c'.receiver == c.receiver && c'.active == c.active
  {
    hide FillWindow, StampAll, AnyFin;
    FillKeepsError(c.sender);
    var (c1, n) := FillWindowAndSend(c);
    FillKeepsError(SendEmpty(c1.sender));
  }

  lemma AckKeepsStream(s: Sender, ackno: u32, win: u16)
    ensures AckReceived(s, ackno, win).stream == s.stream
  {
    hide Unwrap, Retain;
  }

  /** A valid reset that is heard closes the connection at once, raises both error flags, and
      changes and sends nothing else. Any other segment raises neither flag. */
  lemma ResetIff(c: Conn, seg: TCPSegment)
    requires Hears(c, seg)
    ensures var c' := SegmentReceived(c, seg);
      if ValidReset(c, seg.header) then
        && !c'.active && c'.out == c.out
        && c'.sender == c.sender.(stream := c.sender.stream.(error := true))
        && c'.receiver == c.receiver.(store := c.receiver.store.(out := c.receiver.store.out.(error := true)))
      else
        && c'.sender.stream.error == c.sender.stream.error
        && c'.receiver.store.out.error == c.receiver.store.out.error
        && c'.receiver == Receiving.SegmentReceived(c.receiver, seg)
  {
    hide Respond, Receiving.SegmentReceived, AckReceived, Finished;
    var c1 := PassiveClose(c, seg.header);
    if !ValidReset(c, seg.header) {
      var c2 := Absorb(c1, seg);
      AbsorbIs(c1, seg);
      AckKeepsStream(c.sender, seg.header.ackno, seg.header.win);
      ReceiverForward(c.receiver, seg);
      RespondKeepsErrors(c2, seg);
    }
  }

  // ---- acknowledgments ----

  /** After a heard segment whose acknowledgment is taken, the connection has sent exactly as far
      as the window in that segment allows. */
  lemma AnsweredWithin(c: Conn, seg: TCPSegment)
    requires Hears(c, seg) && !ValidReset(c, seg.header)
    requires seg.header.ack && Takes(c.sender, seg.header.ackno)
    ensures var s, s', a := c.sender, SegmentReceived(c, seg).sender, Unwrap(seg.header.ackno, c.sender.isn, c.sender.acked);
      && s'.acked == a && s'.window == Max(1, seg.header.win) && (s'.zeroWindow <==> seg.header.win == 0)
      && (if s.finSent then s'.next == s.next && s'.stream == s.stream else FillsUpTo(s, s', a + Max(1, seg.header.win)))
  {
    hide Receiving.SegmentReceived, AckReceived, Finished, Takes, Unwrap, FillsUpTo, FillWindow, Respond;
    var c1 := PassiveClose(c, seg.header);
    AbsorbIs(c1, seg);
    AnsweredUpTo(c.sender, seg.header.ackno, seg.header.win);
    RespondFills(Absorb(c1, seg), seg);
    SameFill(c.sender, FillWindow(AckReceived(c.sender, seg.header.ackno, seg.header.win)),
             SegmentReceived(c, seg).sender, Unwrap(seg.header.ackno, c.sender.isn, c.sender.acked) + Max(1, seg.header.win));
  }

  lemma SameFill(s: Sender, s1: Sender, s2: Sender, edge: int)
    requires s2.stream == s1.stream && s2.next == s1.next && s2.finSent == s1.finSent
    ensures FillsUpTo(s, s1, edge) == FillsUpTo(s, s2, edge)
  {
  }

  /** Answering fills the window once, and a bare acknowledgment changes nothing of that. */
  lemma RespondFills(c: Conn, seg: TCPSegment)
    ensures var s, s' := FillWindow(c.sender), Respond(c, seg).sender;
      s'.stream == s.stream && s'.next == s.next && s'.finSent == s.finSent
      && s'.acked == s.acked && s'.window == s.window && s'.zeroWindow == s.zeroWindow
  {
    hide FillWindow, StampAll, AnyFin;
    var (c1, n) := FillWindowAndSend(c);
    if n == 0 {
      NothingSent(c.sender);
    }
  }

  lemma NothingSent(s: Sender)
    requires FillWindow(s).out == []
    ensures FillWindow(s) == s && s.out == []
    ensures FillWindow(SendEmpty(s)) == SendEmpty(s)
  {
    var sent := FillSpends(s);
    assert s.out + sent == [] ==> s.out == [];
    FillIdle(s);
  }

  // ---- what goes out in answer ----

  predicate NoResets(segs: seq<TCPSegment>) {
    forall i :: 0 <= i < |segs| ==> !segs[i].header.rst
  }

  lemma {:induction false} StampNoResets(cfg: Config, ackno: Option<u32>, segs: seq<TCPSegment>)
    requires Unstamped(segs)
    ensures NoResets(StampAll(cfg, ackno, segs)) && |StampAll(cfg, ackno, segs)| == |segs|
  {
    if segs != [] {
      assert forall i :: 0 <= i < |segs[1..]| ==> segs[1..][i] == segs[i + 1];
      StampNoResets(cfg, ackno, segs[1..]);
      assert Unmarked(segs[0]);
    }
  }

  lemma SendNoResets(c: Conn)
    requires HonestConn(c) && Small(c.sender) && NoResets(c.out)
    ensures NoResets(FillWindowAndSend(c).0.out)
    ensures |FillWindowAndSend(c).0.out| == |c.out| + FillWindowAndSend(c).1
  {
    hide FillWindow, Inv;
    FillHonest(c.sender);
    FlushFields(Filled(c));
    StampNoResets(c.cfg, Receiving.Ackno(c.receiver), FillWindow(c.sender).out);
  }

  lemma RespondNoResets(c: Conn, seg: TCPSegment)
    requires HonestConn(c) && Small(c.sender) && NoResets(c.out)
    ensures NoResets(Respond(c, seg).out)
    ensures Occupies(seg) ==> Respond(c, seg).out != []
  {
    hide FillWindowAndSend, HonestConn, SendEmpty;
    SendHonest(c);
    SendNoResets(c);
    var (c1, n) := FillWindowAndSend(c);
    if n == 0 && Occupies(seg) {
      EmptyConn(c1);
      var c2 := c1.(sender := SendEmpty(c1.sender));
      EmptyStream(c1.sender);
      SendNoResets(c2);
      BareGoesOut(c2);
    }
  }

  lemma EmptyStream(s: Sender)
    ensures SendEmpty(s).stream == s.stream && SendEmpty(s).out != []
  {
  }

  lemma BareGoesOut(c: Conn)
    requires c.sender.out != []
    ensures FillWindowAndSend(c).1 > 0
  {
    var sent := FillSpends(c.sender);
  }

  /** A heard segment that is no valid reset draws no reset, and if it occupies sequence numbers it
      draws something. */
  lemma AnswerIsNoReset(c: Conn, seg: TCPSegment)
    requires Honest(c.sender) && c.out == [] && Small(c.sender) && Timely(c, Arrives(seg))
    requires Hears(c, seg) && !ValidReset(c, seg.header)
    ensures NoResets(SegmentReceived(c, seg).out)
    ensures Occupies(seg) ==> SegmentReceived(c, seg).out != []
  {
    hide Respond, Absorb, Honest, HonestConn;
    var c1 := PassiveClose(c, seg.header);
    PassiveCloseIs(c, seg);
    ShortSender(c.sender);
    AbsorbHonest(c1, seg);
    AbsorbIs(c1, seg);
    RespondNoResets(Absorb(c1, seg), seg);
  }

  lemma ShortSender(s: Sender)
    requires Honest(s) && Small(s)
    ensures s.next < 0x8000_0000_0000_0000
  {
    ShortNext(s);
  }
}
