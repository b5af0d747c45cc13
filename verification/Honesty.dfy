/** Every segment a connection emits is a genuine excerpt of its outbound stream and carries
    the acknowledgment its receiver stands by. */
module Honesty {
  import opened Types
  import opened WrappingIntegers
  import opened TcpSegments
  import opened Sending
  import opened SenderInvariant
  import opened SenderSteps
  import opened SenderTheorems
  import opened CleanClose
  import Streams

  /** The segment is what its 32-bit sequence number says, for a stream below 2^32. */
  ghost predicate Genuine(s: Sender, seg: TCPSegment) {
    var h := seg.header;
    var a := Offset(h.seqno, s.isn);
    var stream := s.stream.written;
    if h.syn then
      a == 0 && s.next > 0 && seg.payload == [] && (h.fin ==> s.finSent && stream == [])
    else
      && (seg.payload != [] || h.fin ==> 1 <= a && a - 1 + |seg.payload| <= |stream|
                                         && seg.payload == stream[a - 1..a - 1 + |seg.payload|])
      && (h.fin ==> s.finSent && a - 1 + |seg.payload| == |stream|)
  }

  /** Nothing has been written after the FIN went out. */
  predicate Punctual(s: Sender) {
    s.finSent ==> s.stream.read == |s.stream.written|
  }

  predicate Small(s: Sender) {
    |s.stream.written| + 2 < 0x1_0000_0000
  }

  ghost predicate AllGenuine(s: Sender, segs: seq<TCPSegment>) {
    forall i :: 0 <= i < |segs| ==> Genuine(s, segs[i])
  }

  /** The sender leaves the acknowledgment, the window and resetting to the connection. */
  predicate Unmarked(seg: TCPSegment) {
    !seg.header.ack && !seg.header.rst && seg.header.win == 0
  }

  predicate Unstamped(segs: seq<TCPSegment>) {
    forall i :: 0 <= i < |segs| ==> Unmarked(segs[i])
  }

  ghost predicate Honest(s: Sender) {
    Inv(s) && Punctual(s) && AllGenuine(s, s.out) && Unstamped(s.out)
  }

  /** The sender's progress, as the other end may rely on it. */
  predicate Grows(s: Sender, s': Sender) {
    && s'.isn == s.isn && s.next <= s'.next && s.stream.written <= s'.stream.written
    && (s.finSent ==> s'.finSent && s'.stream.written == s.stream.written)
  }

  lemma GrowsOn(s: Sender, s1: Sender, s2: Sender)
    requires Grows(s, s1) && Grows(s1, s2)
    ensures Grows(s, s2)
  {
  }

  lemma GenuineKept(s: Sender, s': Sender, seg: TCPSegment)
    requires Genuine(s, seg) && Grows(s, s')
    ensures Genuine(s', seg)
  {
  }

  /** Only these three fields and the payload matter. */
  lemma GenuineSame(s: Sender, seg: TCPSegment, seg': TCPSegment)
    requires Genuine(s, seg) && seg'.payload == seg.payload
    requires seg'.header.seqno == seg.header.seqno && seg'.header.syn == seg.header.syn && seg'.header.fin == seg.header.fin
    ensures Genuine(s, seg')
  {
  }

  lemma CarriesGenuine(s: Sender, f: Flight)
    requires Carries(s, f) && Counted(s) && Punctual(s) && Small(s) && f.abs < End(f) <= s.next
    ensures Genuine(s, f.entry.seg) && Unmarked(f.entry.seg)
  {
    OffsetWrap(f.abs, s.isn);
  }

  lemma FlightsGenuine(s: Sender, q: seq<Flight>)
    requires Queued(s, q) && Punctual(s) && Small(s)
    ensures AllGenuine(s, Segments(q)) && Unstamped(Segments(q))
  {
    TiledOrder(q, Base(s, q), s.next);
    SegmentsAt(q);
    forall i | 0 <= i < |q| ensures Genuine(s, Segments(q)[i]) && Unmarked(Segments(q)[i]) { CarriesGenuine(s, q[i]); }
  }

  /** What waits for acknowledgment is genuine too. */
  lemma OutstandingGenuine(s: Sender, k: nat)
    requires Inv(s) && Punctual(s) && Small(s) && k < |s.outstanding|
    ensures Genuine(s, s.outstanding[k].seg) && Unmarked(s.outstanding[k].seg)
  {
    var q: seq<Flight>, m: nat :| Flying(s, q, m);
    TiledOrder(q, Base(s, q), s.next);
    var j := DisplacedAt(s.outstanding, q, m, k);
    CarriesGenuine(s, q[j]);
  }

  lemma OutKept(s: Sender, s': Sender, segs: seq<TCPSegment>)
    requires AllGenuine(s, segs) && Grows(s, s')
    ensures AllGenuine(s', segs)
  {
    forall i | 0 <= i < |segs| ensures Genuine(s', segs[i]) { GenuineKept(s, s', segs[i]); }
  }

  lemma AppendGenuine(s: Sender, a: seq<TCPSegment>, b: seq<TCPSegment>)
    requires AllGenuine(s, a) && AllGenuine(s, b)
    ensures AllGenuine(s, a + b)
  {
  }

  // ---- the sender's operations ----

  lemma FillKeepsWritten(s: Sender)
    ensures FillWindow(s).stream.written == s.stream.written && FillWindow(s).acked == s.acked
    ensures s.window != UNSET ==> FillWindow(s).window == s.window
  {
    if !s.finSent && s.window != UNSET { LoopKeepsWritten(s); }
  }

  lemma {:induction false} LoopPunctual(s: Sender)
    requires !s.finSent
    ensures Punctual(FillLoop(s))
    decreases s.acked + s.window - s.next
  {
    if s.next < s.acked + s.window {
      var (s1, stop) := FillStep(s);
      if !stop { LoopPunctual(s1); }
    }
  }

  lemma FillPunctual(s: Sender)
    requires Punctual(s)
    ensures Punctual(FillWindow(s))
  {
    if !s.finSent && s.window != UNSET { LoopPunctual(s); }
  }

  lemma FillHonest(s: Sender)
    requires Honest(s) && Small(s)
    ensures Honest(FillWindow(s)) && Grows(s, FillWindow(s))
  {
    var s' := FillWindow(s);
    var q: seq<Flight>, m: nat :| Flying(s, q, m);
    var sent, m' := FillFlies(s, q, m);
    FillPunctual(s);
    OutKept(s, s', s.out);
    FlightsGenuine(s', q + sent);
    SegmentsAppend(q, sent);
    SuffixGenuine(s', Segments(q), Segments(sent));
    AppendGenuine(s', s.out, Segments(sent));
  }

  lemma SuffixGenuine(s: Sender, a: seq<TCPSegment>, b: seq<TCPSegment>)
    requires AllGenuine(s, a + b) && Unstamped(a + b)
    ensures AllGenuine(s, b) && Unstamped(b)
  {
    forall i | 0 <= i < |b| ensures Genuine(s, b[i]) && Unmarked(b[i]) { assert b[i] == (a + b)[|a| + i]; }
  }

  lemma AckHonest(s: Sender, ackno: u32, win: u16)
    requires Honest(s) && s.next < 0x8000_0000_0000_0000 && Expected(s, ackno)
    ensures Honest(AckReceived(s, ackno, win)) && Grows(s, AckReceived(s, ackno, win))
  {
    InvAck(s, ackno, win);
    OutKept(s, AckReceived(s, ackno, win), s.out);
  }

  /** A tick sends nothing, or one outstanding segment again. */
  lemma TickSends(s: Sender, ms: nat) returns (sent: seq<TCPSegment>)
    ensures Tick(s, ms).out == s.out + sent
    ensures sent == [] || exists k :: 0 <= k < |s.outstanding| && sent == [s.outstanding[k].seg]
  {
    var due := OldestDue(s.outstanding, |s.outstanding|, s.now + ms, s.isn, s.acked);
    sent := if due.None? then [] else [s.outstanding[due.value].seg];
  }

  lemma TickGrows(s: Sender, ms: nat)
    ensures Grows(s, Tick(s, ms)) && Tick(s, ms).stream == s.stream && Tick(s, ms).finSent == s.finSent
  {
    hide OldestDue;
  }

  lemma TickHonest(s: Sender, ms: nat)
    requires Honest(s) && Small(s) && s.next < 0x8000_0000_0000_0000
    ensures Honest(Tick(s, ms)) && Grows(s, Tick(s, ms))
  {
    hide Inv, Tick, Genuine;
    InvTick(s, ms);
    TickGrows(s, ms);
    var s' := Tick(s, ms);
    var sent := TickSends(s, ms);
    OutKept(s, s', s.out);
    if sent != [] {
      var k :| 0 <= k < |s.outstanding| && sent == [s.outstanding[k].seg];
      OutstandingGenuine(s, k);
      GenuineKept(s, s', sent[0]);
    }
  }

  lemma EmptyGenuine(s: Sender)
    requires AllGenuine(s, s.out) && Unstamped(s.out)
    ensures AllGenuine(SendEmpty(s), SendEmpty(s).out) && Unstamped(SendEmpty(s).out)
  {
    OutKept(s, SendEmpty(s), s.out);
    assert Genuine(SendEmpty(s), Plain(Wrap(s.next, s.isn), false, false, []));
  }

  lemma EmptyHonest(s: Sender)
    requires Honest(s)
    ensures Honest(SendEmpty(s)) && Grows(s, SendEmpty(s))
  {
    InvStream(s, SendEmpty(s));
    EmptyGenuine(s);
  }

  predicate Within(part: seq<TCPSegment>, whole: seq<TCPSegment>) {
    forall i :: 0 <= i < |part| ==> part[i] in whole
  }

  lemma PartGenuine(s: Sender, whole: seq<TCPSegment>, part: seq<TCPSegment>)
    requires AllGenuine(s, whole) && Within(part, whole)
    ensures AllGenuine(s, part)
    ensures Unstamped(whole) ==> Unstamped(part)
  {
    forall i | 0 <= i < |part| ensures Genuine(s, part[i]) && (Unstamped(whole) ==> Unmarked(part[i])) {
      var j :| 0 <= j < |whole| && whole[j] == part[i];
    }
  }

  /** Writing before the FIN, ending, failing, and handing over the queue. */
  lemma StreamHonest(s: Sender, s': Sender)
    requires Honest(s)
    requires s' == s.(stream := s'.stream, out := s'.out)
    requires s.stream.written <= s'.stream.written && s'.stream.read == s.stream.read
    requires s.stream.ended ==> s'.stream.ended
    requires s.finSent ==> s'.stream.written == s.stream.written
    requires Within(s'.out, s.out)
    ensures Honest(s') && Grows(s, s')
  {
    InvStream(s, s');
    PartGenuine(s, s.out, s'.out);
    OutKept(s, s', s'.out);
  }
}
