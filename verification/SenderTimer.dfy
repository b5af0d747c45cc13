/** One retransmission timer, as section 5 of RFC 6298 describes it: a queue of
    unacknowledged segments and a single expiry time. */
module OneTimers {
  import opened Types
  import opened TcpSegments

  datatype Numbered = Numbered(abs: nat, seg: TCPSegment)

  datatype TimerValue = Timer(now: nat, initialRto: u16, rto: u32, expiry: Option<nat>, unacked: seq<Numbered>)

  /** The timer runs exactly while something is unacknowledged. */
  type OneTimer = t: TimerValue | t.expiry.Some? <==> t.unacked != [] witness Timer(0, 0, 0, None, [])

  /** What the timer is told. */
  datatype Signal =
    | Sends(segs: seq<Numbered>)
    | NewAck(ackno: nat)
    | Elapses(ms: nat, zeroWindow: bool)
    | Nothing

  function Outstanding(unacked: seq<Numbered>, ackno: nat): seq<Numbered> {
    if unacked != [] && unacked[0].abs + LengthInSequenceSpace(unacked[0].seg) <= ackno
    then Outstanding(unacked[1..], ackno)
    else unacked
  }

  /** The next state and the segment to retransmit, if any. */
  function Step(t: OneTimer, signal: Signal): (OneTimer, Option<TCPSegment>) {
    match signal
    case Sends(segs) =>
      // (5.1) start the timer if it is not running
      (t.(unacked := t.unacked + segs,
          expiry := if t.expiry.None? && segs != [] then Some(t.now + t.rto) else t.expiry), None)
    case NewAck(ackno) =>
      // (5.2), (5.3) stop the timer or restart it
      var left := Outstanding(t.unacked, ackno);
      (t.(rto := t.initialRto, unacked := left,
          expiry := if left == [] then None else Some(t.now + t.initialRto)), None)
    case Elapses(ms, zeroWindow) =>
      var now := t.now + ms;
      if t.expiry.Some? && t.expiry.value <= now then
        // (5.4) to (5.6) retransmit the earliest segment, back off, restart
        var rto := if zeroWindow then t.rto else 2 * t.rto % 0x1_0000_0000;
        (t.(now := now, rto := rto, expiry := Some(now + rto)), Some(t.unacked[0].seg))
      else (t.(now := now), None)
    case Nothing => (t, None)
  }

  /** `k` timeouts in a row, each at the moment the timer expires. */
  function Expiries(t: OneTimer, k: nat): OneTimer
    requires t.expiry.Some? && t.now <= t.expiry.value
  {
    if k == 0 then t
    else
      var t1 := Expiries(t, k - 1);
      if t1.expiry.Some? && t1.now <= t1.expiry.value then Step(t1, Elapses(t1.expiry.value - t1.now, false)).0 else t1
  }

  /** `p` times the timeout `r`, and one `r` less since `start`. */
  predicate Grown(t: OneTimer, start: nat, r: nat, p: nat) {
    t.now == start + (p - 1) * r && t.rto == p * r && t.expiry == Some(t.now + t.rto)
  }

  /** From a timeout of `r` on, the k-th expiry in a row comes after r, 3r, 7r, ..., that is
      (2^k - 1) * r, and leaves a timeout of 2^k * r, as long as that fits the register. */
  lemma {:induction false} ExpiriesAt(t: OneTimer, k: nat)
    requires t.expiry == Some(t.now + t.rto) && Pow2(k) * t.rto < 0x1_0000_0000
    ensures Grown(Expiries(t, k), t.now, t.rto, Pow2(k))
  {
    if k > 0 {
      hide Grown, Step;
      var p := Pow2(k - 1);
      Smaller(p, t.rto);
      ExpiriesAt(t, k - 1);
      GrowsOnce(Expiries(t, k - 1), t.now, t.rto, p);
    }
  }

  lemma Smaller(p: nat, r: nat)
    ensures p * r <= (2 * p) * r
  {
  }

  lemma GrowsOnce(t: OneTimer, start: nat, r: nat, p: nat)
    requires Grown(t, start, r, p) && (2 * p) * r < 0x1_0000_0000
    ensures t.expiry.Some? && t.now <= t.expiry.value
    ensures Grown(Step(t, Elapses(t.expiry.value - t.now, false)).0, start, r, 2 * p)
  {
    DoubleIs(p, r);
    hide Step;
    ExpiresOnce(t);
  }

  lemma ExpiresOnce(t: OneTimer)
    requires t.expiry == Some(t.now + t.rto)
    ensures var t' := Step(t, Elapses(t.rto, false)).0;
      t'.now == t.now + t.rto && t'.rto == 2 * t.rto % 0x1_0000_0000 && t'.expiry == Some(t'.now + t'.rto)
  {
  }

  lemma DoubleIs(p: nat, r: nat)
    ensures (2 * p) * r == 2 * (p * r) && (2 * p - 1) * r == (p - 1) * r + p * r
  {
  }
}

/** The sender's per-segment deadlines behave as one timer. */
module SenderTimer {
  import opened Types
  import opened WrappingIntegers
  import opened TcpSegments
  import opened Sending
  import opened SenderInvariant
  import opened SenderSteps
  import opened SenderTheorems
  import opened OneTimers

  function NumberedOf(q: seq<Flight>): seq<Numbered> {
    if q == [] then [] else [Numbered(q[0].abs, q[0].entry.seg)] + NumberedOf(q[1..])
  }

  function TimerOf(s: Sender, q: seq<Flight>): OneTimer {
    Timer(s.now, s.initialRto, s.rto, if q == [] then None else Some(q[0].entry.deadline), NumberedOf(q))
  }

  /** Number segments from `a` on. */
  function NumberFrom(segs: seq<TCPSegment>, a: nat): seq<Numbered> {
    if segs == [] then []
    else [Numbered(a, segs[0])] + NumberFrom(segs[1..], a + LengthInSequenceSpace(segs[0]))
  }

  function AckSignal(s: Sender, ackno64: u64): Signal {
    if s.acked < ackno64 <= s.next then NewAck(ackno64) else Nothing
  }

  /** What a step of the sender tells the timer. */
  function SignalOf(s: Sender, e: Event): Signal {
    match e
    case Fill =>
      var out := FillWindow(s).out;
      if |s.out| <= |out| then Sends(NumberFrom(out[|s.out|..], s.next)) else Nothing
    case Ack(ackno, _) => AckSignal(s, Unwrap(ackno, s.isn, s.acked))
    case Elapse(ms) => Elapses(ms, s.zeroWindow)
    case _ => Nothing
  }

  lemma {:induction false} NumberedAppend(a: seq<Flight>, b: seq<Flight>)
    ensures NumberedOf(a + b) == NumberedOf(a) + NumberedOf(b)
  {
    if a == [] {
      assert a + b == b;
    } else {
      NumberedAppend(a[1..], b);
      assert (a + b)[1..] == a[1..] + b;
      Associative([Numbered(a[0].abs, a[0].entry.seg)], NumberedOf(a[1..]), NumberedOf(b));
    }
  }

  lemma {:induction false} TiledNumbers(q: seq<Flight>, a: nat, b: nat)
    requires Tiled(q, a, b)
    ensures NumberFrom(Segments(q), a) == NumberedOf(q)
  {
    if q != [] {
      TiledNumbers(q[1..], End(q[0]), b);
      assert Segments(q)[1..] == Segments(q[1..]);
    }
  }

  lemma {:induction false} RestartedNumbers(q: seq<Flight>, d: Option<nat>)
    ensures NumberedOf(Restarted(q, d)) == NumberedOf(q)
  {
    if q != [] && d.Some? {
      RestartedNumbers(q[1..], d);
      assert Restarted(q, d)[1..] == Restarted(q[1..], d);
    }
  }

  lemma {:induction false} UnackedNumbers(q: seq<Flight>, a: nat)
    ensures NumberedOf(Unacked(q, a)) == Outstanding(NumberedOf(q), a)
  {
    if q != [] && End(q[0]) <= a {
      UnackedNumbers(q[1..], a);
      assert NumberedOf(q)[1..] == NumberedOf(q[1..]);
    }
  }

  lemma FillTimer(s: Sender, q: seq<Flight>, m: nat) returns (q': seq<Flight>, m': nat)
    requires Flying(s, q, m)
    ensures Flying(FillWindow(s), q', m')
    ensures TimerOf(FillWindow(s), q') == Step(TimerOf(s, q), SignalOf(s, Fill)).0
  {
    var sent;
    sent, m' := FillFlies(s, q, m);
    q' := q + sent;
    SentTimer(s, FillWindow(s), q, sent);
  }

  lemma SentTimer(s: Sender, s': Sender, q: seq<Flight>, sent: seq<Flight>)
    requires Sent(s, s', sent)
    ensures TimerOf(s', q + sent) == Step(TimerOf(s, q), Sends(NumberFrom(s'.out[|s.out|..], s.next))).0
  {
    assert s'.out[|s.out|..] == Segments(sent);
    TiledNumbers(sent, s.next, s'.next);
    NumberedAppend(q, sent);
    if q != [] { assert (q + sent)[0] == q[0]; } else { assert q + sent == sent; }
  }

  lemma AckTimer(s: Sender, q: seq<Flight>, m: nat, ackno: u32, win: u16) returns (q': seq<Flight>, m': nat)
    requires Flying(s, q, m) && s.next < 0x8000_0000_0000_0000 && Expected(s, ackno)
    ensures Flying(AckReceived(s, ackno, win), q', m')
    ensures TimerOf(AckReceived(s, ackno, win), q') == Step(TimerOf(s, q), SignalOf(s, Ack(ackno, win))).0
  {
    hide Flying, TimerOf, AckAt, Step;
    UnwrapCongruent(ackno, s.isn, s.acked);
    q', m' := AckAtTimer(s, q, m, Unwrap(ackno, s.isn, s.acked), win);
  }

  lemma AckAtTimer(s: Sender, q: seq<Flight>, m: nat, a: u64, win: u16) returns (q': seq<Flight>, m': nat)
    requires Flying(s, q, m) && s.next < 0x8000_0000_0000_0000 && (s.next > 0 || a > 0)
    ensures Flying(AckAt(s, a, win), q', m')
    ensures TimerOf(AckAt(s, a, win), q')
         == Step(TimerOf(s, q), AckSignal(s, a)).0
  {
    q', m' := AckAtFlies(s, q, m, a, win);
    AckTimerValue(s, q, a, win);
  }

  lemma AckTimerValue(s: Sender, q: seq<Flight>, a: u64, win: u16)
    requires q != [] ==> s.acked < End(q[0])
    ensures TimerOf(AckAt(s, a, win), AfterAck(s, q, a)) == Step(TimerOf(s, q), AckSignal(s, a)).0
  {
    if s.acked < a <= s.next {
      var left := Unacked(q, a);
      UnackedNumbers(q, a);
      RestartedNumbers(left, Some(s.now + s.initialRto));
      EmptyNumbers(left);
    } else if s.acked == a {
      assert Unacked(q, a) == q;
    }
  }

  lemma EmptyNumbers(q: seq<Flight>)
    ensures NumberedOf(q) == [] <==> q == []
  {
  }

  function Listed(seg: Option<TCPSegment>): seq<TCPSegment> {
    if seg.Some? then [seg.value] else []
  }

  lemma TickTimer(s: Sender, q: seq<Flight>, m: nat, ms: nat) returns (q': seq<Flight>, m': nat)
    requires Flying(s, q, m) && s.next < 0x8000_0000_0000_0000
    ensures Flying(Tick(s, ms), q', m')
    ensures TimerOf(Tick(s, ms), q') == Step(TimerOf(s, q), Elapses(ms, s.zeroWindow)).0
    ensures Tick(s, ms).out == s.out + Listed(Step(TimerOf(s, q), Elapses(ms, s.zeroWindow)).1)
  {
    q', m' := TickFlies(s, q, m, ms);
    TickIs(s, q, m, ms);
    TickTimerValue(s, q, m, ms, Tick(s, ms));
  }

  lemma TickTimerValue(s: Sender, q: seq<Flight>, m: nat, ms: nat, s': Sender)
    requires q != [] ==> m < |s.outstanding| && s.outstanding[m] == q[0].entry
    requires s' == Expire(s.(now := s.now + ms), q, m)
    ensures TimerOf(s', AfterTick(q, s.now + ms, s'.rto)) == Step(TimerOf(s, q), Elapses(ms, s.zeroWindow)).0
    ensures s'.out == s.out + Listed(Step(TimerOf(s, q), Elapses(ms, s.zeroWindow)).1)
  {
    var s1 := s.(now := s.now + ms);
    if Fires(q, s1.now) {
      RetransmitTimer(s1, q, m);
      Wait(s, s1, q, ms);
    } else {
      IdleTimer(s, s1, q, ms);
    }
  }

  lemma Wait(s: Sender, s1: Sender, q: seq<Flight>, ms: nat)
    requires s1 == s.(now := s.now + ms)
    ensures Step(TimerOf(s, q), Elapses(ms, s.zeroWindow)) == Step(TimerOf(s1, q), Elapses(0, s.zeroWindow))
  {
  }

  lemma IdleTimer(s: Sender, s1: Sender, q: seq<Flight>, ms: nat)
    requires s1 == s.(now := s.now + ms)
    requires q == [] || q[0].entry.deadline > s1.now
    ensures Step(TimerOf(s, q), Elapses(ms, s.zeroWindow)) == (TimerOf(s1, q), None)
    ensures s1.out == s.out + Listed(None)
  {
  }

  lemma RetransmitTimer(s: Sender, q: seq<Flight>, m: nat)
    requires q != [] && m < |s.outstanding| && s.outstanding[m] == q[0].entry && q[0].entry.deadline <= s.now
    ensures var s' := Retransmit(s, m);
      && s'.out == s.out + Listed(Step(TimerOf(s, q), Elapses(0, s.zeroWindow)).1)
      && TimerOf(s', Resent(q, s.now, s.now + s'.rto)) == Step(TimerOf(s, q), Elapses(0, s.zeroWindow)).0
  {
    var d := s.now + Retransmit(s, m).rto;
    ResentAt(q, s.now, d);
    RestartedNumbers(q[1..], Some(d));
    assert Step(TimerOf(s, q), Elapses(0, s.zeroWindow)).1 == Some(q[0].entry.seg);
  }

  /** Each step of the sender is the step of the single timer it signals; a tick retransmits
      what the timer says, and nothing else is ever retransmitted. */
  lemma TimerRefines(s: Sender, q: seq<Flight>, m: nat, e: Event) returns (q': seq<Flight>, m': nat)
    requires Flying(s, q, m) && s.next < 0x8000_0000_0000_0000 && Admissible(s, e)
    ensures Flying(Apply(s, e), q', m')
    ensures TimerOf(Apply(s, e), q') == Step(TimerOf(s, q), SignalOf(s, e)).0
    ensures e.Elapse? ==> Apply(s, e).out == s.out + Listed(Step(TimerOf(s, q), SignalOf(s, e)).1)
  {
    hide Flying, FillWindow, AckReceived, Tick;
    match e
    case Fill => q', m' := FillTimer(s, q, m);
    case Ack(ackno, win) => q', m' := AckTimer(s, q, m, ackno, win);
    case Elapse(ms) => q', m' := TickTimer(s, q, m, ms);
    case Empty =>
      q', m' := q, m;
      EmptyFlies(s, q, m);
    case _ =>
      q', m' := q, m;
      StreamFlies(s, q, m, Apply(s, e));
  }

  function SignalsOf(s: Sender, es: seq<Event>): seq<Signal>
    decreases |es|
  {
    if es == [] then []
    else SignalsOf(s, es[..|es| - 1]) + [SignalOf(Run(s, es[..|es| - 1]), es[|es| - 1])]
  }

  /** The timer after a run of signals. */
  function TimerRun(t: OneTimer, signals: seq<Signal>): OneTimer
    decreases |signals|
  {
    if signals == [] then t else Step(TimerRun(t, signals[..|signals| - 1]), signals[|signals| - 1]).0
  }

  /** What the timer retransmits over a run of signals. */
  function TimerSends(t: OneTimer, signals: seq<Signal>): seq<TCPSegment>
    decreases |signals|
  {
    if signals == [] then []
    else
      var before, signal := signals[..|signals| - 1], signals[|signals| - 1];
      TimerSends(t, before) + Listed(Step(TimerRun(t, before), signal).1)
  }

  /** What the sender's ticks send over a run. */
  function TickSegments(s: Sender, es: seq<Event>): seq<TCPSegment>
    decreases |es|
  {
    if es == [] then []
    else
      var before, e := es[..|es| - 1], es[|es| - 1];
      TickSegments(s, before) + (if e.Elapse? then New(Run(s, before), Apply(Run(s, before), e)) else [])
  }

  /** The segments queued by a step that only appends to the queue. */
  function New(s: Sender, s': Sender): seq<TCPSegment> {
    if |s.out| <= |s'.out| then s'.out[|s.out|..] else []
  }

  /** Over every run, the per-segment deadlines are the single timer's, and what the ticks send
      is what it retransmits. */
  lemma {:induction false} TimerRunRefines(s: Sender, q0: seq<Flight>, m0: nat, es: seq<Event>) returns (q: seq<Flight>, m: nat)
    requires Flying(s, q0, m0) && AllAdmissible(s, es)
    requires |Run(s, es).stream.written| < 0x7fff_ffff_ffff_fffe
    ensures Flying(Run(s, es), q, m)
    ensures TimerOf(Run(s, es), q) == TimerRun(TimerOf(s, q0), SignalsOf(s, es))
    ensures TickSegments(s, es) == TimerSends(TimerOf(s, q0), SignalsOf(s, es))
    decreases |es|
  {
    hide Flying, TimerOf, Step, Apply, SignalOf;
    if es == [] {
      q, m := q0, m0;
    } else {
      var before, e := es[..|es| - 1], es[|es| - 1];
      var s1 := Run(s, before);
      WritesGrow(s1, e);
      var q1, m1 := TimerRunRefines(s, q0, m0, before);
      FlyingShort(s1, q1, m1);
      q, m := TimerRefines(s1, q1, m1, e);
      var signals := SignalsOf(s, es);
      assert signals[..|signals| - 1] == SignalsOf(s, before);
      StepSends(s1, q1, e);
    }
  }

  lemma FlyingShort(s: Sender, q: seq<Flight>, m: nat)
    requires Flying(s, q, m)
    ensures s.next <= |s.stream.written| + 2
  {
  }

  /** Only a tick makes the timer send, and then the sender sends the same. */
  lemma StepSends(s: Sender, q: seq<Flight>, e: Event)
    requires e.Elapse? ==> Apply(s, e).out == s.out + Listed(Step(TimerOf(s, q), SignalOf(s, e)).1)
    ensures Listed(Step(TimerOf(s, q), SignalOf(s, e)).1) == if e.Elapse? then New(s, Apply(s, e)) else []
  {
    hide FillWindow, TimerOf, Tick;
  }
}

/** Exponential back-off, and what the sender counts as consecutive retransmissions. */
module BackOff {
  import opened Types
  import opened TcpSegments
  import opened WrappingIntegers
  import opened Sending
  import opened SenderTheorems
  import opened SendWindows
  import Streams

  /** How many ticks of a run retransmit. */
  function Timeouts(s: Sender, es: seq<Event>): nat
    decreases |es|
  {
    if es == [] then 0
    else
      var before, e := es[..|es| - 1], es[|es| - 1];
      Timeouts(s, before) + (if e.Elapse? && Retransmits(Run(s, before), e.ms) then 1 else 0)
  }

  /** A tick queues a segment. */
  predicate Retransmits(s: Sender, ms: nat) {
    |Tick(s, ms).out| > |s.out|
  }

  lemma TickDoubles(s: Sender, ms: nat)
    ensures var s' := Tick(s, ms);
      && s'.rto == (if Retransmits(s, ms) && !s.zeroWindow then s.rto * 2 % 0x1_0000_0000 else s.rto)
      && s'.crtx == s.crtx + (if Retransmits(s, ms) then 1 else 0)
      && s'.zeroWindow == s.zeroWindow
  {
    hide OldestDue, InsertByTime, SetDeadlines;
  }

  lemma OthersKeepRto(s: Sender, e: Event)
    requires !e.Ack? && !e.Elapse?
    ensures Apply(s, e).rto == s.rto && Apply(s, e).zeroWindow == s.zeroWindow
  {
    hide FillLoop;
    if e.Fill? && !s.finSent && s.window != UNSET {
      LoopFills(s);
      LoopKeepsRto(s);
    }
  }

  lemma {:induction false} LoopKeepsRto(s: Sender)
    ensures FillLoop(s).rto == s.rto
    decreases s.acked + s.window - s.next
  {
    hide InsertByTime, Wrap;
    if s.next < s.acked + s.window {
      var (s1, stop) := FillStep(s);
      if !stop { LoopKeepsRto(s1); }
    }
  }

  lemma DoubleAgain(p: nat, r: nat)
    ensures (p * r % 0x1_0000_0000) * 2 % 0x1_0000_0000 == (2 * p) * r % 0x1_0000_0000
  {
    var q, x := p * r / 0x1_0000_0000, p * r % 0x1_0000_0000;
    assert (2 * p) * r == 2 * (p * r) == x * 2 + (2 * q) * 0x1_0000_0000;
    SameRemainder((2 * p) * r, x * 2, 2 * q);
  }

  /** Without an acknowledgment, k timeouts multiply the timeout by 2^k, in a 32-bit register, and
      leave it alone while the peer's window is zero. */
  lemma {:induction false} BacksOff(s: Sender, es: seq<Event>)
    requires forall i :: 0 <= i < |es| ==> !es[i].Ack?
    ensures Run(s, es).rto == if s.zeroWindow then s.rto else Pow2(Timeouts(s, es)) * s.rto % 0x1_0000_0000
    ensures Run(s, es).zeroWindow == s.zeroWindow
    decreases |es|
  {
    hide Apply, Retransmits;
    if es != [] {
      var before, e := es[..|es| - 1], es[|es| - 1];
      BacksOff(s, before);
      if e.Elapse? {
        TickIs(Run(s, before), e);
        TickDoubles(Run(s, before), e.ms);
        DoubleAgain(Pow2(Timeouts(s, before)), s.rto);
      } else {
        OthersKeepRto(Run(s, before), e);
      }
    }
  }

  lemma TickIs(s: Sender, e: Event)
    requires e.Elapse?
    ensures Apply(s, e) == Tick(s, e.ms)
  {
  }

  /** An acknowledgment that is taken and new brings the timeout back to its initial value; any
      other leaves it. */
  lemma AckRestores(s: Sender, ackno: u32, win: u16)
    ensures AckReceived(s, ackno, win).rto
         == if Takes(s, ackno) && Unwrap(ackno, s.isn, s.acked) > s.acked then s.initialRto else s.rto
    ensures AckReceived(s, ackno, win).crtx == s.crtx
  {
    hide Unwrap, Retain;
  }

  // ---- the count of consecutive retransmissions ----

  /** Retransmissions since new data, a FIN or a bare segment was last queued. Acknowledgments
      do not come into it, and neither does the SYN. */
  function Retries(s: Sender, es: seq<Event>): nat
    decreases |es|
  {
    if es == [] then 0
    else
      var before, e := es[..|es| - 1], es[|es| - 1];
      var s1 := Run(s, before);
      if e.Elapse? then Retries(s, before) + (if Retransmits(s1, e.ms) then 1 else 0)
      else if e.Empty? || (e.Fill? && s1.window != UNSET && Apply(s1, e).next > s1.next) then 0
      else Retries(s, before)
  }

  lemma {:induction false} LoopRestarts(s: Sender)
    requires !s.finSent
    ensures FillLoop(s).crtx == if FillLoop(s).next > s.next then 0 else s.crtx
    ensures FillLoop(s).next >= s.next
    decreases s.acked + s.window - s.next
  {
    hide InsertByTime, Wrap;
    if s.next < s.acked + s.window {
      var (s1, stop) := FillStep(s);
      if !stop {
        DataFills(s, PayloadSize(s));
        LoopRestarts(s1);
      }
    }
  }

  lemma CountStep(s: Sender, e: Event)
    requires !e.Elapse?
    ensures Apply(s, e).crtx
         == if e.Empty? || (e.Fill? && s.window != UNSET && Apply(s, e).next > s.next) then 0 else s.crtx
  {
    hide FillLoop, AckReceived;
    if e.Ack? { AckRestores(s, e.ackno, e.win); }
    if e.Fill? && !s.finSent && s.window != UNSET { LoopRestarts(s); }
  }

  /** `consecutive_retransmissions()` starts over when something new is sent, not when something
      is acknowledged. */
  lemma {:induction false} CountIs(s: Sender, es: seq<Event>)
    requires s.crtx == 0
    ensures Run(s, es).crtx == Retries(s, es)
    decreases |es|
  {
    hide Apply, Retransmits;
    if es != [] {
      var before, e := es[..|es| - 1], es[|es| - 1];
      CountIs(s, before);
      if e.Elapse? {
        TickIs(Run(s, before), e);
        TickDoubles(Run(s, before), e.ms);
      } else {
        CountStep(Run(s, before), e);
      }
    }
  }
}
