/** What every run of the sender satisfies. */
module SenderTheorems {
  import opened Types
  import opened WrappingIntegers
  import opened TcpSegments
  import opened Sending
  import opened SenderInvariant
  import opened SenderSteps
  import Streams

  // ---- bytes in flight ----

  lemma {:induction false} FlightSizeAppend(a: seq<Entry>, b: seq<Entry>)
    ensures FlightSize(a + b) == FlightSize(a) + FlightSize(b)
  {
    if a == [] {
      assert a + b == b;
    } else {
      FlightSizeAppend(a[1..], b);
      assert (a + b)[1..] == a[1..] + b;
    }
  }

  lemma {:induction false} TiledSize(q: seq<Flight>, b: nat, e: nat)
    requires Tiled(q, b, e)
    ensures FlightSize(Entries(q)) == e - b
  {
    if q != [] {
      TiledSize(q[1..], End(q[0]), e);
      assert Entries(q)[1..] == Entries(q[1..]);
    }
  }

  /** `bytes_in_flight()` is the length of the tiled space, and zero exactly when everything
      sent has been acknowledged. */
  lemma InFlight(s: Sender, q: seq<Flight>, m: nat)
    requires Flying(s, q, m)
    ensures BytesInFlight(s) == s.next - Base(s, q)
    ensures BytesInFlight(s) == 0 <==> s.acked == s.next
    ensures BytesInFlight(s) == 0 <==> q == []
  {
    TiledSize(q, Base(s, q), s.next);
    TiledOrder(q, Base(s, q), s.next);
    if q != [] {
      SplitAt(s.outstanding, m);
      FlightSizeAppend(s.outstanding[..m], [s.outstanding[m]] + s.outstanding[m + 1..]);
      FlightSizeAppend([s.outstanding[m]], s.outstanding[m + 1..]);
      FlightSizeAppend(s.outstanding[..m], s.outstanding[m + 1..]);
      assert [s.outstanding[m]][1..] == [];
      assert Entries(q)[1..] == Entries(q[1..]);
    }
  }

  // ---- what goes out is the stream ----

  function Payloads(segs: seq<TCPSegment>): seq<byte> {
    if segs == [] then [] else segs[0].payload + Payloads(segs[1..])
  }

  lemma CarriesPayload(s: Sender, f: Flight)
    requires Carries(s, f) && f.abs >= 1
    ensures var seg := f.entry.seg;
      && !seg.header.syn && f.abs - 1 + |seg.payload| <= s.stream.read
      && seg.payload == s.stream.written[f.abs - 1..f.abs - 1 + |seg.payload|]
      && (seg.header.fin ==> s.finSent && End(f) == s.next)
  {
  }

  lemma {:induction false} PayloadsAreSlice(s: Sender, q: seq<Flight>, b: nat)
    requires Tiled(q, b, s.next) && 1 <= b <= 1 + s.stream.read
    requires s.next == 1 + s.stream.read + (if s.finSent then 1 else 0)
    requires forall i :: 0 <= i < |q| ==> Carries(s, q[i])
    requires q == [] ==> b == 1 + s.stream.read
    ensures Payloads(Segments(q)) == s.stream.written[b - 1..s.stream.read]
  {
    hide Carries, Segments, Payloads;
    NoPayloads();
    if q != [] {
      var seg, rest := q[0].entry.seg, q[1..];
      CarriesPayload(s, q[0]);
      PayloadsSplit(q);
      if seg.header.fin {
        TiledOrder(rest, s.next, s.next);
        assert rest == [];
      } else {
        assert forall i :: 0 <= i < |rest| ==> rest[i] == q[i + 1];
        if rest == [] {
          FinOnly(s, q, b);
        } else {
          TiledOrder(rest, End(q[0]), s.next);
        }
        PayloadsAreSlice(s, rest, End(q[0]));
        SliceJoin(s.stream.written, b - 1, End(q[0]) - 1, s.stream.read);
      }
    }
  }

  lemma NoPayloads()
    ensures Payloads(Segments([])) == []
  {
  }

  lemma PayloadsSplit(q: seq<Flight>)
    requires q != []
    ensures Payloads(Segments(q)) == q[0].entry.seg.payload + Payloads(Segments(q[1..]))
  {
    assert Segments(q)[1..] == Segments(q[1..]);
  }

  /** If the last flight carries no FIN, none has been sent. */
  lemma FinOnly(s: Sender, q: seq<Flight>, b: nat)
    requires |q| == 1 && Tiled(q, b, s.next) && Carries(s, q[0]) && 1 <= b && !q[0].entry.seg.header.fin
    requires s.next == 1 + s.stream.read + (if s.finSent then 1 else 0)
    ensures End(q[0]) == 1 + s.stream.read
  {
    assert q[1..] == [];
  }

  /** The segments occupy [a, b), one after the other. */
  predicate Consecutive(segs: seq<TCPSegment>, a: nat, b: nat, isn: u32) {
    if segs == [] then a == b
    else
      var end := a + LengthInSequenceSpace(segs[0]);
      segs[0].header.seqno == Wrap(a, isn) && a < end && Consecutive(segs[1..], end, b, isn)
  }

  lemma {:induction false} TiledConsecutive(s: Sender, q: seq<Flight>, a: nat, b: nat)
    requires Tiled(q, a, b) && forall i :: 0 <= i < |q| ==> Carries(s, q[i])
    ensures Consecutive(Segments(q), a, b, s.isn)
  {
    if q != [] {
      assert Carries(s, q[0]);
      assert forall i :: 0 <= i < |q[1..]| ==> q[1..][i] == q[i + 1];
      TiledConsecutive(s, q[1..], End(q[0]), b);
      assert Segments(q)[1..] == Segments(q[1..]);
    }
  }

  lemma {:induction false} SegmentsAt(q: seq<Flight>)
    ensures |Segments(q)| == |q| && forall i :: 0 <= i < |q| ==> Segments(q)[i] == q[i].entry.seg
  {
    if q != [] {
      SegmentsAt(q[1..]);
      forall i | 0 <= i < |q| ensures Segments(q)[i] == q[i].entry.seg {
        if i > 0 { assert Segments(q)[i] == Segments(q[1..])[i - 1]; }
      }
    }
  }

  /** `fill_window` after the handshake's first segment: what it emits is, in order and at
      consecutive sequence numbers, exactly what it takes from the stream, in pieces of at
      most 1000 bytes; it does not overrun the window, and it stops only with the FIN out,
      the window full, or nothing buffered and the input still open. */
  lemma FillWindowSends(s: Sender)
    requires Inv(s) && s.next > 0
    ensures var s' := FillWindow(s);
      && s.out <= s'.out
      && s.stream.read <= s'.stream.read && s'.stream.written == s.stream.written
      && (var segs := s'.out[|s.out|..];
          && Payloads(segs) == s.stream.written[s.stream.read..s'.stream.read]
          && Consecutive(segs, s.next, s'.next, s.isn)
          && forall seg :: seg in segs ==> |seg.payload| <= 1000)
      && s'.next <= Max(s.next, s.acked + s.window)
      && Exhausted(s')
  {
    var q: seq<Flight>, m: nat :| Flying(s, q, m);
    var sent, m' := FillFlies(s, q, m);
    SentSegments(s, FillWindow(s), q, sent);
  }

  lemma SentSegments(s: Sender, s': Sender, q: seq<Flight>, sent: seq<Flight>)
    requires Queued(s, q) && Sent(s, s', sent) && s.next > 0
    requires s'.next == 1 + s'.stream.read + (if s'.finSent then 1 else 0)
    requires s.finSent ==> s' == s
    requires forall i :: 0 <= i < |q + sent| ==> Carries(s', (q + sent)[i])
    ensures s'.out[|s.out|..] == Segments(sent)
    ensures Payloads(Segments(sent)) == s.stream.written[s.stream.read..s'.stream.read]
    ensures Consecutive(Segments(sent), s.next, s'.next, s.isn)
    ensures forall seg :: seg in Segments(sent) ==> |seg.payload| <= MAX_PAYLOAD_SIZE
  {
    SuffixCarries(s', q, sent);
    TiledConsecutive(s', sent, s.next, s'.next);
    SegmentsSmall(s', sent);
    SentPayloads(s, s', sent);
  }

  lemma SuffixCarries(s: Sender, q: seq<Flight>, sent: seq<Flight>)
    requires forall i :: 0 <= i < |q + sent| ==> Carries(s, (q + sent)[i])
    ensures forall i :: 0 <= i < |sent| ==> Carries(s, sent[i])
  {
    forall i | 0 <= i < |sent| ensures Carries(s, sent[i]) { assert sent[i] == (q + sent)[|q| + i]; }
  }

  lemma SegmentsSmall(s: Sender, sent: seq<Flight>)
    requires forall i :: 0 <= i < |sent| ==> Carries(s, sent[i])
    ensures forall seg :: seg in Segments(sent) ==> |seg.payload| <= MAX_PAYLOAD_SIZE
  {
    SegmentsAt(sent);
  }

  lemma SentPayloads(s: Sender, s': Sender, sent: seq<Flight>)
    requires Counted(s) && Sent(s, s', sent) && s.next > 0
    requires s'.next == 1 + s'.stream.read + (if s'.finSent then 1 else 0)
    requires s.finSent ==> s' == s
    requires forall i :: 0 <= i < |sent| ==> Carries(s', sent[i])
    ensures Payloads(Segments(sent)) == s.stream.written[s.stream.read..s'.stream.read]
  {
    TiledOrder(sent, s.next, s'.next);
    if !s.finSent { PayloadsAreSlice(s', sent, s.next); }
  }

  // ---- acknowledgments before the SYN ----

  /** Before the SYN has been sent, an acknowledgment breaks the invariant exactly when it
      acknowledges the ISN itself: the window opens although nothing has been sent. */
  lemma EarlyAck(s: Sender, ackno: u32, win: u16)
    requires Inv(s) && s.next == 0
    ensures Inv(AckReceived(s, ackno, win)) <==> ackno != s.isn
  {
    var q: seq<Flight>, m: nat :| Flying(s, q, m);
    if ackno == s.isn {
      WindowOpens(s, win);
      InvCounts(AckReceived(s, s.isn, win));
    } else {
      var q', m' := AckFlies(s, q, m, ackno, win);
    }
  }

  lemma WindowOpens(s: Sender, win: u16)
    requires s.next == 0 && s.acked == 0
    ensures var s' := AckReceived(s, s.isn, win); s'.next == 0 && s'.window != UNSET
  {
    UnwrapExact(0, s.isn, 0);
  }

  lemma InvCounts(s: Sender)
    ensures Inv(s) ==> Counted(s)
  {
  }

  // ---- runs ----

  datatype Event =
    | Write(data: seq<byte>)
    | EndInput
    | Fill
    | Ack(ackno: u32, win: u16)
    | Elapse(ms: nat)
    | Empty
    | Collect  // the owner takes the queued segments

  function Apply(s: Sender, e: Event): Sender {
    match e
    case Write(data) => s.(stream := Streams.Write(s.stream, data))
    case EndInput => s.(stream := Streams.End(s.stream))
    case Fill => FillWindow(s)
    case Ack(ackno, win) => AckReceived(s, ackno, win)
    case Elapse(ms) => Tick(s, ms)
    case Empty => SendEmpty(s)
    case Collect => s.(out := [])
  }

  function Run(s: Sender, es: seq<Event>): Sender
    decreases |es|
  {
    if es == [] then s else Apply(Run(s, es[..|es| - 1]), es[|es| - 1])
  }

  predicate Admissible(s: Sender, e: Event) {
    e.Ack? ==> Expected(s, e.ackno)
  }

  predicate AllAdmissible(s: Sender, es: seq<Event>)
    decreases |es|
  {
    es == [] || (AllAdmissible(s, es[..|es| - 1]) && Admissible(Run(s, es[..|es| - 1]), es[|es| - 1]))
  }

  /** Nothing that counts progress ever goes back. */
  predicate Forward(s: Sender, s': Sender) {
    && s.next <= s'.next && s.acked <= s'.acked
    && s.stream.written <= s'.stream.written && s.stream.read <= s'.stream.read
    && (s.stream.ended ==> s'.stream.ended) && s.stream.error == s'.stream.error
    && (s.finSent ==> s'.finSent)
  }

  /** One step keeps the invariant; the oldest unacknowledged number never goes back. */
  lemma ApplyFlies(s: Sender, q: seq<Flight>, m: nat, e: Event) returns (q': seq<Flight>, m': nat)
    requires Flying(s, q, m) && s.next < 0x8000_0000_0000_0000 && Admissible(s, e)
    ensures Flying(Apply(s, e), q', m')
    ensures Base(s, q) <= Base(Apply(s, e), q')
    ensures Forward(s, Apply(s, e))
  {
    hide Flying, FillWindow, AckReceived, Tick, AfterTick;
    match e
    case Fill => q', m' := FillApplies(s, q, m);
    case Ack(ackno, win) => q', m' := AckApplies(s, q, m, ackno, win);
    case Elapse(ms) => q', m' := TickApplies(s, q, m, ms);
    case Empty =>
      q', m' := q, m;
      EmptyFlies(s, q, m);
    case _ =>
      q', m' := q, m;
      StreamFlies(s, q, m, Apply(s, e));
  }

  lemma TickApplies(s: Sender, q: seq<Flight>, m: nat, ms: nat) returns (q': seq<Flight>, m': nat)
    requires Flying(s, q, m) && s.next < 0x8000_0000_0000_0000
    ensures Flying(Tick(s, ms), q', m')
    ensures Base(s, q) <= Base(Tick(s, ms), q')
    ensures Forward(s, Tick(s, ms))
  {
    hide Flying, OldestDue;
    q', m' := TickFlies(s, q, m, ms);
  }

  lemma FillApplies(s: Sender, q: seq<Flight>, m: nat) returns (q': seq<Flight>, m': nat)
    requires Flying(s, q, m)
    ensures Flying(FillWindow(s), q', m')
    ensures Base(s, q) <= Base(FillWindow(s), q')
    ensures Forward(s, FillWindow(s))
  {
    var sent;
    sent, m' := FillFlies(s, q, m);
    q' := q + sent;
    if q != [] { assert q'[0] == q[0]; } else { assert q' == sent; }
  }

  lemma AckApplies(s: Sender, q: seq<Flight>, m: nat, ackno: u32, win: u16) returns (q': seq<Flight>, m': nat)
    requires Flying(s, q, m) && s.next < 0x8000_0000_0000_0000 && Expected(s, ackno)
    ensures Flying(AckReceived(s, ackno, win), q', m')
    ensures Base(s, q) <= Base(AckReceived(s, ackno, win), q')
    ensures Forward(s, AckReceived(s, ackno, win))
  {
    hide Flying, AckAt;
    UnwrapCongruent(ackno, s.isn, s.acked);
    var a := Unwrap(ackno, s.isn, s.acked);
    q', m' := AckAtFlies(s, q, m, a, win);
    AckForward(s, a, win);
    if s.acked <= a <= s.next { AckBase(s, q, m, a); }
  }

  lemma AckForward(s: Sender, a: u64, win: u16)
    ensures Forward(s, AckAt(s, a, win)) && AckAt(s, a, win).next == s.next
  {
  }

  lemma AckBase(s: Sender, q: seq<Flight>, m: nat, a: u64)
    requires Flying(s, q, m) && s.acked <= a <= s.next
    ensures forall d :: var r := Restarted(Unacked(q, a), d); Base(s, q) <= if r == [] then s.next else r[0].abs
  {
    TiledOrder(q, Base(s, q), s.next);
    var k := UnackedTiled(q, a, Base(s, q), s.next);
    forall d ensures var r := Restarted(Unacked(q, a), d); Base(s, q) <= if r == [] then s.next else r[0].abs {
      RestartedAt(q[k..], d);
    }
  }

  /** In every reachable state the outstanding segments tile the space up to the next
      sequence number, whatever was written, acknowledged and timed out, for streams of any
      length below 2^63. */
  lemma {:induction false} RunFlies(s: Sender, es: seq<Event>) returns (q: seq<Flight>, m: nat)
    requires Inv(s) && AllAdmissible(s, es)
    requires |Run(s, es).stream.written| < 0x7fff_ffff_ffff_fffe
    ensures Flying(Run(s, es), q, m)
    ensures s.stream.written <= Run(s, es).stream.written
    decreases |es|
  {
    if es == [] {
      q, m :| Flying(s, q, m);
    } else {
      var before, e := es[..|es| - 1], es[|es| - 1];
      var s1 := Run(s, before);
      WritesGrow(s1, e);
      q, m := RunFlies(s, before);
      assert s1.next <= |s1.stream.written| + 2;
      q, m := ApplyFlies(s1, q, m, e);
    }
  }

  /** The 32-bit sequence number of an entry, decoded relative to `acked`, is where its bytes
      are in the stream. */
  predicate Decodes(s: Sender, e: Entry) {
    var a := Unwrap(e.seg.header.seqno, s.isn, s.acked);
    && s.acked < a + LengthInSequenceSpace(e.seg) <= s.next
    && (a == 0 <==> e.seg.header.syn)
    && (a > 0 ==> a - 1 + |e.seg.payload| <= |s.stream.written|
                  && e.seg.payload == s.stream.written[a - 1..a - 1 + |e.seg.payload|])
  }

  /** In every reachable state at most 65535 sequence numbers are unacknowledged, and every
      outstanding sequence number decodes exactly, for streams of any length below 2^63. */
  lemma RunDecodes(s: Sender, es: seq<Event>)
    requires Inv(s) && AllAdmissible(s, es)
    requires |Run(s, es).stream.written| < 0x7fff_ffff_ffff_fffe
    ensures var s' := Run(s, es);
      s'.next <= s'.acked + 0xffff && forall i :: 0 <= i < |s'.outstanding| ==> Decodes(s', s'.outstanding[i])
  {
    var q, m := RunFlies(s, es);
    FlyingDecodes(Run(s, es), q, m);
  }

  lemma FlyingDecodes(s: Sender, q: seq<Flight>, m: nat)
    requires Flying(s, q, m) && s.next < 0x8000_0000_0000_0000
    ensures forall i :: 0 <= i < |s.outstanding| ==> Decodes(s, s.outstanding[i])
  {
    FlightsDecode(s, q, m, s.acked);
    TiledOrder(q, Base(s, q), s.next);
    forall i | 0 <= i < |s.outstanding| ensures Decodes(s, s.outstanding[i]) {
      var j := DisplacedAt(s.outstanding, q, m, i);
      if q != [] { LaterEnds(q, Base(s, q), s.next); }
      FlightDecodes(s, q[j]);
    }
  }

  lemma FlightDecodes(s: Sender, f: Flight)
    requires Carries(s, f) && s.acked < End(f) <= s.next
    requires Unwrap(f.entry.seg.header.seqno, s.isn, s.acked) == f.abs
    ensures Decodes(s, f.entry)
  {
  }

  lemma WritesGrow(s: Sender, e: Event)
    ensures s.stream.written <= Apply(s, e).stream.written
  {
    if e.Fill? && !s.finSent && s.window != UNSET { LoopKeepsWritten(s); }
  }

  lemma {:induction false} LoopKeepsWritten(s: Sender)
    ensures FillLoop(s).stream.written == s.stream.written && FillLoop(s).acked == s.acked && FillLoop(s).window == s.window
    decreases s.acked + s.window - s.next
  {
    if s.next < s.acked + s.window {
      var (s1, stop) := FillStep(s);
      if !stop { LoopKeepsWritten(s1); }
    }
  }

  // ---- the SYN that is never sent ----

  predicate NoSyn(seg: TCPSegment) {
    !seg.header.syn
  }

  predicate Each(o: seq<Entry>, p: TCPSegment -> bool) {
    forall e :: e in o ==> p(e.seg)
  }

  /** The window is open, sequence numbers are counted as if there were no SYN, and there is
      none to send or to send again, except what is queued among `queued`. */
  predicate Mute(s: Sender, queued: seq<TCPSegment>) {
    && s.window != UNSET
    && s.next == s.stream.read + (if s.finSent then 1 else 0)
    && Each(s.outstanding, NoSyn)
    && forall seg :: seg in s.out ==> seg in queued || !seg.header.syn
  }

  lemma {:induction false} InsertEach(o: seq<Entry>, e: Entry, p: TCPSegment -> bool)
    requires Each(o, p) && p(e.seg)
    ensures Each(InsertByTime(o, e), p)
    decreases |o|
  {
    if o != [] && o[|o| - 1].sentAt > e.sentAt { InsertEach(o[..|o| - 1], e, p); }
  }

  lemma {:induction false} RetainEach(o: seq<Entry>, gone: TCPSegment -> bool, deadline: Option<nat>, p: TCPSegment -> bool)
    requires Each(o, p)
    ensures Each(Retain(o, gone, deadline), p)
  {
    if o != [] {
      assert o[0] in o && forall e :: e in o[1..] ==> e in o;
      RetainEach(o[1..], gone, deadline, p);
    }
  }

  lemma {:induction false} DeadlinesEach(o: seq<Entry>, deadline: nat, p: TCPSegment -> bool)
    requires Each(o, p)
    ensures Each(SetDeadlines(o, deadline), p)
  {
    if o != [] {
      assert o[0] in o && forall e :: e in o[1..] ==> e in o;
      DeadlinesEach(o[1..], deadline, p);
    }
  }

  /** Sending a segment again neither adds nor changes one. */
  lemma RetransmitEach(s: Sender, k: nat, p: TCPSegment -> bool)
    requires k < |s.outstanding| && Each(s.outstanding, p)
    ensures Each(Retransmit(s, k).outstanding, p) && p(s.outstanding[k].seg)
  {
    var e := s.outstanding[k];
    var rto := if s.zeroWindow then s.rto else Double(s.rto);
    var again := Entry(s.now, s.now + rto, e.seg);
    InsertEach(s.outstanding[..k] + s.outstanding[k + 1..], again, p);
    DeadlinesEach(InsertByTime(s.outstanding[..k] + s.outstanding[k + 1..], again), s.now + rto, p);
  }

  lemma EmitMute(s: Sender, seg: TCPSegment, queued: seq<TCPSegment>)
    requires Mute(s, queued) && !seg.header.syn
    ensures var s1 := Emit(s, seg);
      && Mute(s1, queued) && s1.next == s.next && s1.acked == s.acked && s1.window == s.window
      && s1.stream == s.stream && s1.finSent == s.finSent
  {
    InsertEach(s.outstanding, Entry(s.now, s.now + s.rto, seg), NoSyn);
  }

  lemma StepMute(s: Sender, queued: seq<TCPSegment>)
    requires Mute(s, queued) && s.next < s.acked + s.window && !s.finSent
    ensures var (s1, stop) := FillStep(s);
      && Mute(s1, queued)
      && (!stop ==> s1.next > s.next && s1.acked == s.acked && s1.window == s.window && !s1.finSent)
  {
    hide Emit, Wrap;
    EmitMute(s, Plain(Wrap(s.next, s.isn), false, true, []), queued);
    if 0 < PayloadSize(s) { DataMute(s, PayloadSize(s), queued); }
  }

  lemma DataMute(s: Sender, len: nat, queued: seq<TCPSegment>)
    requires Mute(s, queued) && !s.finSent && 0 < len <= Streams.Size(s.stream)
    ensures var s1 := SendData(s, len);
      && Mute(s1, queued) && |s1.out| == |s.out| + 1 && s1.finSent == s1.out[|s.out|].header.fin
      && s1.next > s.next && s1.acked == s.acked && s1.window == s.window
  {
    hide InsertByTime, Wrap;
    var stream := Streams.Pop(s.stream, len);
    var fin := Streams.Eof(stream) && s.acked + s.window - s.next > len;
    EmitMute(s, Plain(Wrap(s.next, s.isn), false, fin, Streams.Buffer(s.stream)[..len]), queued);
  }

  lemma {:induction false} LoopMute(s: Sender, queued: seq<TCPSegment>)
    requires Mute(s, queued) && !s.finSent
    ensures Mute(FillLoop(s), queued)
    decreases s.acked + s.window - s.next
  {
    hide FillStep, Mute;
    if s.next < s.acked + s.window {
      StepMute(s, queued);
      var (s1, stop) := FillStep(s);
      if !stop { LoopMute(s1, queued); }
    }
  }

  lemma TickMute(s: Sender, ms: nat, queued: seq<TCPSegment>)
    requires Mute(s, queued)
    ensures Mute(Tick(s, ms), queued)
  {
    hide Retransmit, OldestDue, Each;
    var s1 := s.(now := s.now + ms);
    var due := OldestDue(s.outstanding, |s.outstanding|, s1.now, s.isn, s.acked);
    if due.Some? { RetransmitMute(s1, due.value, queued); }
  }

  lemma RetransmitMute(s: Sender, k: nat, queued: seq<TCPSegment>)
    requires Mute(s, queued) && k < |s.outstanding|
    ensures Mute(Retransmit(s, k), queued)
  {
    RetransmitEach(s, k, NoSyn);
  }

  lemma ApplyMute(s: Sender, e: Event, queued: seq<TCPSegment>)
    requires Mute(s, queued)
    ensures Mute(Apply(s, e), queued)
  {
    hide FillLoop, AckReceived, Tick, Wrap;
    match e
    case Fill => if !s.finSent { LoopMute(s, queued); }
    case Ack(ackno, win) => AckMute(s, ackno, win, queued);
    case Elapse(ms) => TickMute(s, ms, queued);
    case _ =>
  }

  lemma AckMute(s: Sender, ackno: u32, win: u16, queued: seq<TCPSegment>)
    requires Mute(s, queued)
    ensures Mute(AckReceived(s, ackno, win), queued)
  {
    hide Unwrap, Retain;
    var a := Unwrap(ackno, s.isn, s.acked);
    RetainEach(s.outstanding, AckedBy(s.isn, a), if a > s.acked then Some(s.now + s.initialRto) else None, NoSyn);
  }

  lemma {:induction false} RunMute(s: Sender, es: seq<Event>, queued: seq<TCPSegment>)
    requires Mute(s, queued)
    ensures Mute(Run(s, es), queued)
    decreases |es|
  {
    hide Apply, Mute;
    if es != [] {
      RunMute(s, es[..|es| - 1], queued);
      ApplyMute(Run(s, es[..|es| - 1]), es[|es| - 1], queued);
    }
  }

  /** After an acknowledgment of the ISN before the SYN, the sender never introduces itself,
      whatever follows: no run sends or resends a SYN, the window is never again the one that
      would make it do so, and everything goes out one sequence number early. */
  lemma SynSkipped(s: Sender, win: u16, es: seq<Event>)
    requires Inv(s) && s.next == 0
    ensures var s1 := AckReceived(s, s.isn, win); var s' := Run(s1, es);
      && (forall seg :: seg in s'.out ==> seg in s1.out || !seg.header.syn)
      && (forall e :: e in s'.outstanding ==> !e.seg.header.syn)
      && s'.window != UNSET && s'.next == s'.stream.read + (if s'.finSent then 1 else 0)
  {
    hide Run;
    var q: seq<Flight>, m: nat :| Flying(s, q, m);
    NothingFlies(s, q, m);
    WindowOpens(s, win);
    var s1 := AckReceived(s, s.isn, win);
    AckKeepsRest(s, s.isn, win);
    RunMute(s1, es, s1.out);
  }

  lemma AckKeepsRest(s: Sender, ackno: u32, win: u16)
    ensures var s' := AckReceived(s, ackno, win);
      && s'.out == s.out && s'.stream == s.stream && s'.finSent == s.finSent && s'.next == s.next
      && (s.outstanding == [] ==> s'.outstanding == [])
  {
    hide Unwrap;
  }

  lemma NothingFlies(s: Sender, q: seq<Flight>, m: nat)
    requires Flying(s, q, m) && s.next == 0
    ensures s.outstanding == [] && s.acked == 0 && s.stream.read == 0 && !s.finSent
  {
    TiledOrder(q, Base(s, q), s.next);
  }
}
