/** Two connections that only exchange segments fall silent. */
module Quiescence {
  import opened Types
  import opened WrappingIntegers
  import opened TcpSegments
  import opened Sending
  import opened Connecting
  import opened CleanClose
  import opened Emission
  import Streams
  import Receiving

  /** Sequence numbers still to be sent: the SYN, the buffered bytes and the FIN. */
  function Unsent(s: Sender): nat {
    (if s.window == UNSET then 1 else 0) + Streams.Size(s.stream) + (if s.finSent then 0 else 1)
  }

  /** A segment that occupies sequence space may draw a bare acknowledgment; that one draws
      nothing by itself. */
  function Weight(segs: seq<TCPSegment>): nat {
    if segs == [] then 0 else (if Occupies(segs[0]) then 2 else 1) + Weight(segs[1..])
  }

  lemma {:induction false} WeightAppend(a: seq<TCPSegment>, b: seq<TCPSegment>)
    ensures Weight(a + b) == Weight(a) + Weight(b)
  {
    if a == [] {
      assert a + b == b;
    } else {
      WeightAppend(a[1..], b);
      assert (a + b)[1..] == a[1..] + b;
    }
  }

  lemma WeightOne(seg: TCPSegment)
    ensures Weight([seg]) == if Occupies(seg) then 2 else 1
  {
    assert [seg][1..] == [];
  }

  lemma {:induction false} WeightStamped(cfg: Config, ackno: Option<u32>, segs: seq<TCPSegment>)
    ensures Weight(StampAll(cfg, ackno, segs)) == Weight(segs)
    ensures |StampAll(cfg, ackno, segs)| == |segs|
    ensures forall i :: 0 <= i < |segs| ==> Occupies(StampAll(cfg, ackno, segs)[i]) == Occupies(segs[i])
  {
    if segs != [] {
      WeightStamped(cfg, ackno, segs[1..]);
      assert StampAll(cfg, ackno, segs)[1..] == StampAll(cfg, ackno, segs[1..]);
      forall i | 0 <= i < |segs| ensures Occupies(StampAll(cfg, ackno, segs)[i]) == Occupies(segs[i]) {
        if i > 0 { assert StampAll(cfg, ackno, segs)[i] == StampAll(cfg, ackno, segs[1..])[i - 1] && segs[i] == segs[1..][i - 1]; }
      }
    }
  }

  predicate AllOccupy(segs: seq<TCPSegment>) {
    forall i :: 0 <= i < |segs| ==> Occupies(segs[i])
  }

  // ---- new segments use up unsent sequence numbers ----

  /** From `s` to `s'` only segments that occupy sequence space went out, each at the expense
      of something unsent. */
  predicate Spends(s: Sender, s': Sender, sent: seq<TCPSegment>) {
    s'.out == s.out + sent && AllOccupy(sent) && |sent| + Unsent(s') <= Unsent(s)
  }

  lemma StepSpends(s: Sender) returns (sent: seq<TCPSegment>)
    requires !s.finSent && s.next < s.acked + s.window
    ensures Spends(s, FillStep(s).0, sent)
    ensures !FillStep(s).1 ==> !FillStep(s).0.finSent
  {
    var s' := FillStep(s).0;
    sent := if PayloadSize(s) == 0 && !Streams.Eof(s.stream) then [] else [s'.out[|s.out|]];
  }

  lemma {:induction false} LoopSpends(s: Sender) returns (sent: seq<TCPSegment>)
    requires !s.finSent
    ensures Spends(s, FillLoop(s), sent)
    decreases s.acked + s.window - s.next
  {
    if s.next >= s.acked + s.window {
      sent := [];
    } else {
      hide FillStep;
      sent := StepSpends(s);
      var (s1, stop) := FillStep(s);
      if !stop {
        var more := LoopSpends(s1);
        assert FillLoop(s) == FillLoop(s1);
        assert s.out + (sent + more) == (s.out + sent) + more;
        sent := sent + more;
      }
    }
  }

  lemma FillSpends(s: Sender) returns (sent: seq<TCPSegment>)
    ensures Spends(s, FillWindow(s), sent)
  {
    if s.finSent {
      sent := [];
    } else if s.window == UNSET {
      sent := [FillWindow(s).out[|s.out|]];
    } else {
      sent := LoopSpends(s);
    }
  }

  lemma {:induction false} WeightOccupied(sent: seq<TCPSegment>)
    requires AllOccupy(sent)
    ensures Weight(sent) == 2 * |sent|
  {
    if sent != [] { WeightOccupied(sent[1..]); }
  }

  // ---- the connection ----

  /** What a connection may still cause to be sent, and what it has queued. */
  function Potential(c: Conn): nat {
    3 * Unsent(c.sender) + Weight(c.sender.out) + Weight(c.out)
  }

  lemma FlushPotential(c: Conn)
    ensures Potential(Flush(c)) == Potential(c)
  {
    WeightStamped(c.cfg, Receiving.Ackno(c.receiver), c.sender.out);
    WeightAppend(c.out, StampAll(c.cfg, Receiving.Ackno(c.receiver), c.sender.out));
  }

  lemma SendPotential(c: Conn)
    ensures Potential(FillWindowAndSend(c).0) <= Potential(c)
  {
    var sent := FillSpends(c.sender);
    WeightAppend(c.sender.out, sent);
    WeightOccupied(sent);
    FlushPotential(Filled(c));
  }

  lemma EmptyPotential(c: Conn)
    ensures Potential(c.(sender := SendEmpty(c.sender))) == Potential(c) + 1
  {
    var seg := SendEmpty(c.sender).out[|c.sender.out|];
    WeightOne(seg);
    WeightAppend(c.sender.out, [seg]);
  }

  lemma RespondPotential(c: Conn, seg: TCPSegment)
    ensures Potential(Respond(c, seg)) <= Potential(c) + (if Occupies(seg) then 1 else 0)
  {
    SendPotential(c);
    var (c1, n) := FillWindowAndSend(c);
    if n == 0 && Occupies(seg) {
      EmptyPotential(c1);
      SendPotential(c1.(sender := SendEmpty(c1.sender)));
    }
  }

  lemma AckUnsent(s: Sender, ackno: u32, win: u16)
    ensures AckReceived(s, ackno, win).out == s.out && Unsent(AckReceived(s, ackno, win)) <= Unsent(s)
  {
  }

  lemma AbsorbPotential(c: Conn, seg: TCPSegment)
    ensures Potential(Absorb(c, seg)) <= Potential(c)
  {
    AbsorbIs(c, seg);
    AckUnsent(c.sender, seg.header.ackno, seg.header.win);
  }

  /** A delivery costs more than the answer it can draw. */
  lemma ArrivalPotential(c: Conn, seg: TCPSegment)
    ensures Potential(SegmentReceived(c, seg)) < Potential(c) + Weight([seg])
  {
    hide Respond, Absorb, CloseIfFinished, PassiveClose, Abort, Potential, Idle, ResetsConnection;
    WeightOne(seg);
    if c.active && !(Idle(c) && !seg.header.syn) {
      var c1 := PassiveClose(c, seg.header);
      PassiveCloseIs(c, seg);
      SameQueues(c, c1);
      if ResetsConnection(c1, seg.header) {
        AbortQueues(c1);
      } else {
        AnswerPotential(c1, seg);
      }
    }
  }

  lemma AbortQueues(c: Conn)
    ensures Potential(Abort(c)) == Potential(c)
  {
    SameQueues(c, Abort(c));
  }

  lemma AnswerPotential(c: Conn, seg: TCPSegment)
    ensures Potential(CloseIfFinished(Respond(Absorb(c, seg), seg), seg.header))
         <= Potential(c) + (if Occupies(seg) then 1 else 0)
  {
    AbsorbPotential(c, seg);
    var c2 := Respond(Absorb(c, seg), seg);
    RespondPotential(Absorb(c, seg), seg);
    SameQueues(c2, CloseIfFinished(c2, seg.header));
  }

  lemma SameQueues(c: Conn, c': Conn)
    requires c'.out == c.out && c'.sender == c.sender.(stream := c.sender.stream.(error := c'.sender.stream.error))
    ensures Potential(c') == Potential(c)
  {
  }

  // ---- exactly what a delivery draws ----

  /** A `fill_window` that sends nothing changes nothing, and neither does the next one. */
  lemma FillIdle(s: Sender)
    requires FillWindow(s).out == s.out
    ensures FillWindow(s) == s
    ensures FillWindow(SendEmpty(s)) == SendEmpty(s)
  {
    if !s.finSent && s.window != UNSET && s.next < s.acked + s.window {
      var (s1, stop) := FillStep(s);
      if PayloadSize(s) == 0 {
        assert FillStep(SendEmpty(s)) == (SendEmpty(s), true);
      } else if !stop {
        var more := LoopSpends(s1);
      }
    }
  }

  /** To a connection with empty queues, every segment is answered with new sequence space, or
      with exactly one bare acknowledgment, at the next sequence number, if it occupies sequence
      space itself, or not at all. */
  lemma Answers(c: Conn, seg: TCPSegment)
    requires c.out == [] && c.sender.out == []
    ensures var c' := Respond(c, seg);
      || (AllOccupy(c'.out) && |c'.out| + Unsent(c'.sender) <= Unsent(c.sender) && (Occupies(seg) ==> c'.out != []))
      || (Occupies(seg) && |c'.out| == 1 && !Occupies(c'.out[0]) && Unsent(c'.sender) == Unsent(c.sender)
          && c'.out[0].header.seqno == Wrap(c.sender.next, c.sender.isn) && c'.sender.next == c.sender.next)
  {
    var sent := FillSpends(c.sender);
    var c1 := FillWindowAndSend(c).0;
    WeightStamped(c.cfg, Receiving.Ackno(c.receiver), sent);
    FilledOut(c, sent);
    if sent == [] && Occupies(seg) {
      FillIdle(c.sender);
      BareAnswer(c, c1);
    } else {
      assert Respond(c, seg) == c1;
    }
  }

  lemma FilledOut(c: Conn, sent: seq<TCPSegment>)
    requires c.out == [] && c.sender.out == [] && FillWindow(c.sender).out == [] + sent
    ensures FillWindowAndSend(c).1 == |sent|
    ensures FillWindowAndSend(c).0.out == StampAll(c.cfg, Receiving.Ackno(c.receiver), sent)
    ensures FillWindowAndSend(c).0.sender == FillWindow(c.sender).(out := [])
  {
    assert [] + sent == sent;
    var stamped := StampAll(c.cfg, Receiving.Ackno(c.receiver), sent);
    assert [] + stamped == stamped;
  }

  lemma BareAnswer(c: Conn, c1: Conn)
    requires c1.out == [] && c1.sender.out == [] && c1.sender == c.sender
    requires FillWindow(SendEmpty(c.sender)) == SendEmpty(c.sender)
    ensures var c' := FillWindowAndSend(c1.(sender := SendEmpty(c1.sender))).0;
      && |c'.out| == 1 && !Occupies(c'.out[0]) && Unsent(c'.sender) == Unsent(c.sender)
      && c'.out[0].header.seqno == Wrap(c.sender.next, c.sender.isn) && c'.sender.next == c.sender.next
  {
    var s := SendEmpty(c.sender);
    WeightStamped(c1.cfg, Receiving.Ackno(c1.receiver), s.out);
  }

  // ---- two connections ----

  /** Segments in flight are consumed by delivery or lost; nothing else happens. */
  datatype Exchange = Exchange(a: Conn, b: Conn, ab: seq<TCPSegment>, ba: seq<TCPSegment>)

  /** Segment `i` on its way to `a`, or to `b`, is delivered or lost. */
  datatype Fate = Fate(toA: bool, i: nat, lost: bool)

  function Without(segs: seq<TCPSegment>, i: nat): seq<TCPSegment>
    requires i < |segs|
  {
    segs[..i] + segs[i + 1..]
  }

  predicate Enabled(x: Exchange, f: Fate) {
    f.i < if f.toA then |x.ba| else |x.ab|
  }

  function ToA(x: Exchange, i: nat, lost: bool): Exchange
    requires i < |x.ba|
  {
    if lost then x.(ba := Without(x.ba, i))
    else
      var c := SegmentReceived(x.a, x.ba[i]);
      Exchange(c.(out := []), x.b, x.ab + c.out, Without(x.ba, i))
  }

  function Turned(x: Exchange): Exchange {
    Exchange(x.b, x.a, x.ba, x.ab)
  }

  function Befall(x: Exchange, f: Fate): Exchange
    requires Enabled(x, f)
  {
    if f.toA then ToA(x, f.i, f.lost) else Turned(ToA(Turned(x), f.i, f.lost))
  }

  function Measure(x: Exchange): nat {
    Potential(x.a) + Potential(x.b) + Weight(x.ab) + Weight(x.ba)
  }

  lemma WeightWithout(segs: seq<TCPSegment>, i: nat)
    requires i < |segs|
    ensures Weight(segs) == Weight(Without(segs, i)) + Weight([segs[i]])
    ensures Weight([segs[i]]) > 0
  {
    assert segs == segs[..i] + ([segs[i]] + segs[i + 1..]);
    WeightAppend(segs[..i], [segs[i]] + segs[i + 1..]);
    WeightAppend([segs[i]], segs[i + 1..]);
    WeightAppend(segs[..i], segs[i + 1..]);
    WeightOne(segs[i]);
  }

  lemma ToADecreases(x: Exchange, i: nat, lost: bool)
    requires i < |x.ba|
    ensures Measure(ToA(x, i, lost)) < Measure(x)
  {
    WeightWithout(x.ba, i);
    if !lost {
      var c := SegmentReceived(x.a, x.ba[i]);
      ArrivalPotential(x.a, x.ba[i]);
      WeightAppend(x.ab, c.out);
    }
  }

  /** Every delivery and every loss strictly decreases the measure. */
  lemma Decreases(x: Exchange, f: Fate)
    requires Enabled(x, f)
    ensures Measure(Befall(x, f)) < Measure(x)
  {
    ToADecreases(if f.toA then x else Turned(x), f.i, f.lost);
  }

  predicate AllEnabled(x: Exchange, fates: seq<Fate>)
    decreases |fates|
  {
    fates == [] || (Enabled(x, fates[0]) && AllEnabled(Befall(x, fates[0]), fates[1..]))
  }

  /** Without ticks, writes and duplication, any two connections fall silent, from whatever
      state: no exchange is longer than three times what is unsent plus what is in flight. */
  lemma {:induction false} FallsSilent(x: Exchange, fates: seq<Fate>)
    requires AllEnabled(x, fates)
    ensures |fates| <= Measure(x)
    decreases |fates|
  {
    if fates != [] {
      Decreases(x, fates[0]);
      FallsSilent(Befall(x, fates[0]), fates[1..]);
    }
  }
}
