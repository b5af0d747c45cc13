/** What the sender keeps in every reachable state: its outstanding segments, put in the
    order of their absolute sequence numbers, tile the space between the oldest
    unacknowledged segment and the next sequence number. */
module SenderInvariant {
  import opened Types
  import opened WrappingIntegers
  import opened TcpSegments
  import opened Sending
  import Streams

  /** An outstanding entry together with the absolute sequence number it was sent at. */
  datatype Flight = Flight(abs: nat, entry: Entry)

  function End(f: Flight): nat {
    f.abs + LengthInSequenceSpace(f.entry.seg)
  }

  function Entries(q: seq<Flight>): seq<Entry> {
    if q == [] then [] else [q[0].entry] + Entries(q[1..])
  }

  function Remove<T>(o: seq<T>, m: nat): seq<T>
    requires m < |o|
  {
    o[..m] + o[m + 1..]
  }

  /** `outstanding` is the queue with its first element moved to position `m`: only the
      oldest segment is ever sent again, and it then moves behind the others. */
  ghost predicate Displaced(o: seq<Entry>, q: seq<Flight>, m: nat) {
    if q == [] then o == []
    else m < |o| && o[m] == q[0].entry && Remove(o, m) == Entries(q[1..])
  }

  /** The flights cover [b, e) one after the other. */
  ghost predicate Tiled(q: seq<Flight>, b: nat, e: nat) {
    if q == [] then b == e
    else q[0].abs == b && b < End(q[0]) && Tiled(q[1..], End(q[0]), e)
  }

  function Base(s: Sender, q: seq<Flight>): nat {
    if q == [] then s.next else q[0].abs
  }

  /** What has been sent, counted from the stream. */
  ghost predicate Counted(s: Sender) {
    && s.acked <= s.next
    && (s.next == 0 <==> s.window == UNSET)
    && (s.next == 0 ==> s.stream.read == 0 && !s.finSent)
    && (s.next > 0 ==> 1 <= s.window < 0x1_0000 && s.next == 1 + s.stream.read + (if s.finSent then 1 else 0))
    && (s.finSent ==> s.stream.ended)
    && s.next <= s.acked + 0xffff
  }

  /** A flight is the slice of the written stream that belongs to its sequence number. */
  ghost predicate Carries(s: Sender, f: Flight) {
    var seg := f.entry.seg;
    && seg == Plain(Wrap(f.abs, s.isn), f.abs == 0, seg.header.fin, seg.payload)
    && |seg.payload| <= MAX_PAYLOAD_SIZE
    && (f.abs == 0 ==> seg.payload == [])
    && (f.abs > 0 ==> f.abs - 1 + |seg.payload| <= s.stream.read
                      && seg.payload == s.stream.written[f.abs - 1..f.abs - 1 + |seg.payload|])
    && (seg.header.fin ==> s.finSent && End(f) == s.next)
  }

  /** A flight keeps carrying its slice while the stream grows. */
  lemma CarriesKept(s: Sender, f: Flight, s': Sender, f': Flight)
    requires Carries(s, f) && f'.abs == f.abs && f'.entry.seg == f.entry.seg
    requires s'.isn == s.isn && s.stream.written <= s'.stream.written && s.stream.read <= s'.stream.read
    requires s.finSent ==> s'.finSent && s'.next == s.next
    ensures Carries(s', f')
  {
  }

  /** Deadlines grow with the sequence number and none is later than a timer started now. */
  ghost predicate Timed(s: Sender, q: seq<Flight>) {
    && (forall i, j :: 0 <= i < j < |q| ==> q[i].entry.deadline <= q[j].entry.deadline)
    && (forall i :: 0 <= i < |q| ==> q[i].entry.deadline <= s.now + s.rto)
  }

  ghost predicate ByTime(o: seq<Entry>, now: nat) {
    forall i, j :: 0 <= i <= j < |o| ==> o[i].sentAt <= o[j].sentAt <= now
  }

  ghost predicate Ordered(o: seq<Entry>, now: nat, q: seq<Flight>, m: nat) {
    Displaced(o, q, m) && ByTime(o, now)
  }

  /** The queue `q` fits everything but the `outstanding` list. */
  ghost predicate Queued(s: Sender, q: seq<Flight>) {
    && Tiled(q, Base(s, q), s.next)
    && Base(s, q) <= s.acked
    && (q != [] ==> s.acked < End(q[0]))
    && Counted(s)
    && (forall i :: 0 <= i < |q| ==> Carries(s, q[i]))
    && Timed(s, q)
  }

  ghost predicate Flying(s: Sender, q: seq<Flight>, m: nat) {
    Ordered(s.outstanding, s.now, q, m) && Queued(s, q)
  }

  ghost predicate Inv(s: Sender) {
    exists q: seq<Flight>, m: nat :: Flying(s, q, m)
  }

  lemma FreshFlies(capacity: nat, rto: u16, isn: u32)
    ensures Flying(FreshSender(capacity, rto, isn), [], 0)
  {
  }

  // ---- tiling ----

  lemma {:induction false} TiledOrder(q: seq<Flight>, b: nat, e: nat)
    requires Tiled(q, b, e)
    ensures b <= e && forall i :: 0 <= i < |q| ==> b <= q[i].abs < End(q[i]) <= e
  {
    if q != [] {
      TiledOrder(q[1..], End(q[0]), e);
      forall i | 0 <= i < |q| ensures b <= q[i].abs < End(q[i]) <= e {
        if i > 0 { assert q[i] == q[1..][i - 1]; }
      }
    }
  }

  lemma {:induction false} TiledAppend(q: seq<Flight>, b: nat, e: nat, f: Flight)
    requires Tiled(q, b, e) && f.abs == e && e < End(f)
    ensures Tiled(q + [f], b, End(f))
  {
    if q == [] {
      assert (q + [f])[1..] == [];
    } else {
      TiledAppend(q[1..], End(q[0]), e, f);
      assert (q + [f])[1..] == q[1..] + [f];
    }
  }

  lemma {:induction false} EntriesAt(q: seq<Flight>)
    ensures |Entries(q)| == |q| && forall i :: 0 <= i < |q| ==> Entries(q)[i] == q[i].entry
  {
    if q != [] {
      EntriesAt(q[1..]);
      forall i | 0 <= i < |q| ensures Entries(q)[i] == q[i].entry {
        if i > 0 { assert Entries(q)[i] == Entries(q[1..])[i - 1]; }
      }
    }
  }

  lemma {:induction false} EntriesAppend(q: seq<Flight>, f: Flight)
    ensures Entries(q + [f]) == Entries(q) + [f.entry]
  {
    if q == [] {
      assert (q + [f])[1..] == [];
    } else {
      EntriesAppend(q[1..], f);
      assert (q + [f])[1..] == q[1..] + [f];
      Associative([q[0].entry], Entries(q[1..]), [f.entry]);
    }
  }

  // ---- sending a new segment ----

  lemma InsertAtEnd(o: seq<Entry>, e: Entry)
    requires ByTime(o, e.sentAt)
    ensures InsertByTime(o, e) == o + [e] && ByTime(o + [e], e.sentAt)
  {
  }

  lemma DisplacedAppend(o: seq<Entry>, q: seq<Flight>, m: nat, f: Flight) returns (m': nat)
    requires Displaced(o, q, m)
    ensures Displaced(o + [f.entry], q + [f], m')
  {
    if q == [] {
      m' := 0;
      assert (q + [f])[1..] == [];
      assert Remove(o + [f.entry], 0) == [];
    } else {
      m' := m;
      EntriesAppend(q[1..], f);
      assert (q + [f])[1..] == q[1..] + [f];
      assert Remove(o + [f.entry], m) == Remove(o, m) + [f.entry];
    }
  }

  lemma OrderedAppend(o: seq<Entry>, now: nat, q: seq<Flight>, m: nat, f: Flight) returns (m': nat)
    requires Ordered(o, now, q, m) && f.entry.sentAt == now
    ensures Ordered(InsertByTime(o, f.entry), now, q + [f], m')
  {
    InsertAtEnd(o, f.entry);
    m' := DisplacedAppend(o, q, m, f);
  }

  lemma QueuedAppend(s: Sender, q: seq<Flight>, f: Flight, s': Sender)
    requires Queued(s, q) && !s.finSent
    requires s'.isn == s.isn && s'.now == s.now && s'.rto == s.rto && s'.acked == s.acked && s'.next == End(f)
    requires s.stream.written == s'.stream.written && s.stream.read <= s'.stream.read
    requires f.abs == s.next && f.abs < End(f) && f.entry.deadline == s.now + s.rto
    requires Counted(s') && Carries(s', f)
    ensures Queued(s', q + [f])
  {
    TiledAppend(q, Base(s, q), s.next, f);
    forall i | 0 <= i < |q + [f]| ensures Carries(s', (q + [f])[i]) {
      if i < |q| { CarriesKept(s, q[i], s', q[i]); }
    }
  }

  /** Emitting a segment that carries the stream at the next sequence number. */
  lemma EmitFlies(s: Sender, q: seq<Flight>, m: nat, seg: TCPSegment, s': Sender) returns (f: Flight, m': nat)
    requires Flying(s, q, m)
    requires s' == Emit(s, seg).(stream := s'.stream, next := s.next + LengthInSequenceSpace(seg), window := s'.window,
                                 finSent := s'.finSent, crtx := s'.crtx)
    requires !s.finSent && s.stream.written == s'.stream.written && s.stream.read <= s'.stream.read
    requires LengthInSequenceSpace(seg) > 0
    requires Counted(s')
    requires Carries(s', NewFlight(s, seg))
    ensures f == NewFlight(s, seg)
    ensures Flying(s', q + [f], m')
  {
    f := NewFlight(s, seg);
    m' := OrderedAppend(s.outstanding, s.now, q, m, f);
    QueuedAppend(s, q, f, s');
  }

  /** From `s` to `s'` exactly the segments `sent` went out, each with a fresh deadline; the
      window is not overrun, and it is left open only for want of anything to send. */
  ghost predicate Sent(s: Sender, s': Sender, sent: seq<Flight>) {
    && s'.out == s.out + Segments(sent)
    && Tiled(sent, s.next, s'.next)
    && (forall i :: 0 <= i < |sent| ==>
          sent[i].entry.sentAt == s.now && sent[i].entry.deadline == s.now + s.rto)
    && s' == s.(out := s'.out, outstanding := s'.outstanding, next := s'.next, window := s'.window, crtx := s'.crtx,
                stream := s'.stream, finSent := s'.finSent)
    && s'.stream.cap == s.stream.cap && s'.stream.written == s.stream.written
    && s'.stream.ended == s.stream.ended && s'.stream.error == s.stream.error
    && s.stream.read <= s'.stream.read && s.next <= s'.next && (s.finSent ==> s'.finSent)
    && (s.window != UNSET ==> s'.window == s.window && s'.next <= Max(s.next, s.acked + s.window))
  }

  /** Why `fill_window` stops once the SYN is out. */
  predicate Exhausted(s: Sender) {
    || s.finSent
    || s.next >= s.acked + s.window
    || (Streams.Size(s.stream) == 0 && !s.stream.ended)
  }

  function Segments(q: seq<Flight>): seq<TCPSegment> {
    if q == [] then [] else [q[0].entry.seg] + Segments(q[1..])
  }

  lemma {:induction false} SegmentsAppend(a: seq<Flight>, b: seq<Flight>)
    ensures Segments(a + b) == Segments(a) + Segments(b)
  {
    if a == [] {
      assert a + b == b;
    } else {
      SegmentsAppend(a[1..], b);
      assert (a + b)[1..] == a[1..] + b;
      Associative([a[0].entry.seg], Segments(a[1..]), Segments(b));
    }
  }

  lemma SegmentsOne(f: Flight)
    ensures Segments([f]) == [f.entry.seg]
    ensures f.abs < End(f) ==> Tiled([f], f.abs, End(f))
  {
    assert [f][1..] == [];
  }

  function NewFlight(s: Sender, seg: TCPSegment): Flight {
    Flight(s.next, Entry(s.now, s.now + s.rto, seg))
  }

  lemma SynFlies(s: Sender, q: seq<Flight>, m: nat) returns (f: Flight, m': nat)
    requires Flying(s, q, m) && s.window == UNSET
    ensures Flying(SendSyn(s), q + [f], m')
    ensures Sent(s, SendSyn(s), [f])
  {
    var seg := Plain(s.isn, true, Streams.Eof(s.stream), []);
    f, m' := EmitFlies(s, q, m, seg, SendSyn(s));
    SegmentsOne(f);
  }

  lemma FinFlies(s: Sender, q: seq<Flight>, m: nat) returns (f: Flight, m': nat)
    requires Flying(s, q, m) && !s.finSent && 0 < s.next < s.acked + s.window && Streams.Eof(s.stream)
    ensures Flying(SendFin(s), q + [f], m')
    ensures Sent(s, SendFin(s), [f])
  {
    hide InsertByTime, Wrap;
    f, m' := EmitFlies(s, q, m, Plain(Wrap(s.next, s.isn), false, true, []), SendFin(s));
    SegmentsOne(f);
  }

  lemma DataCarries(s: Sender, len: nat)
    requires Counted(s) && !s.finSent && 0 < s.next
    requires 0 < len <= MAX_PAYLOAD_SIZE && len <= Streams.Size(s.stream) && s.next + len <= s.acked + s.window
    ensures var s' := SendData(s, len);
      && |s'.out| == |s.out| + 1
      && (var seg := s'.out[|s.out|];
          && Counted(s') && Carries(s', NewFlight(s, seg))
          && s'.next == s.next + LengthInSequenceSpace(seg)
          && s' == Emit(s, seg).(stream := s'.stream, next := s'.next, finSent := s'.finSent, crtx := 0)
          && Sent(s, s', [NewFlight(s, seg)]))
  {
    var s' := SendData(s, len);
    var seg := s'.out[|s.out|];
    assert seg.payload == s.stream.written[s.next - 1..s.next - 1 + len];
    SegmentsOne(NewFlight(s, seg));
  }

  lemma DataFlies(s: Sender, q: seq<Flight>, m: nat, len: nat) returns (f: Flight, m': nat)
    requires Flying(s, q, m) && !s.finSent && 0 < s.next
    requires 0 < len <= MAX_PAYLOAD_SIZE && len <= Streams.Size(s.stream) && s.next + len <= s.acked + s.window
    ensures Flying(SendData(s, len), q + [f], m')
    ensures Sent(s, SendData(s, len), [f])
  {
    var s' := SendData(s, len);
    DataCarries(s, len);
    f, m' := EmitFlies(s, q, m, s'.out[|s.out|], s');
  }

  lemma {:induction false} TiledConcat(q: seq<Flight>, r: seq<Flight>, b: nat, mid: nat, e: nat)
    requires Tiled(q, b, mid) && Tiled(r, mid, e)
    ensures Tiled(q + r, b, e)
  {
    if q == [] {
      assert q + r == r;
    } else {
      assert (q + r)[1..] == q[1..] + r;
      TiledConcat(q[1..], r, End(q[0]), mid, e);
    }
  }

  lemma SentTwice(s: Sender, s1: Sender, s2: Sender, a: seq<Flight>, b: seq<Flight>)
    requires Sent(s, s1, a) && Sent(s1, s2, b) && s.window != UNSET
    ensures Sent(s, s2, a + b)
  {
    TiledConcat(a, b, s.next, s1.next, s2.next);
    SegmentsAppend(a, b);
    Associative(s.out, Segments(a), Segments(b));
  }

  lemma StepFlies(s: Sender, q: seq<Flight>, m: nat) returns (sent: seq<Flight>, m': nat)
    requires Flying(s, q, m) && !s.finSent && 0 < s.next < s.acked + s.window
    ensures Flying(FillStep(s).0, q + sent, m')
    ensures Sent(s, FillStep(s).0, sent)
    ensures if FillStep(s).1 then Exhausted(FillStep(s).0) else !FillStep(s).0.finSent && s.next < FillStep(s).0.next
  {
    sent, m' := [], m;
    if PayloadSize(s) != 0 {
      var f;
      f, m' := DataFlies(s, q, m, PayloadSize(s));
      sent := [f];
    } else if Streams.Eof(s.stream) {
      var f;
      f, m' := FinFlies(s, q, m);
      sent := [f];
    } else {
      assert q + sent == q;
    }
  }

  /** The loop keeps the invariant, only appends to the queue, and sends what it can. */
  lemma {:induction false} LoopFlies(s: Sender, q: seq<Flight>, m: nat) returns (sent: seq<Flight>, m': nat)
    requires Flying(s, q, m) && !s.finSent && 0 < s.next
    ensures Flying(FillLoop(s), q + sent, m')
    ensures Sent(s, FillLoop(s), sent) && Exhausted(FillLoop(s))
    decreases s.acked + s.window - s.next
  {
    if s.next >= s.acked + s.window {
      sent, m' := [], m;
      assert q + sent == q;
    } else {
      sent, m' := StepFlies(s, q, m);
      var (s1, stop) := FillStep(s);
      if stop {
        assert FillLoop(s) == s1;
      } else {
        assert FillLoop(s) == FillLoop(s1);
        var more;
        more, m' := LoopFlies(s1, q + sent, m');
        SentTwice(s, s1, FillLoop(s1), sent, more);
        Associative(q, sent, more);
        sent := sent + more;
      }
    }
  }

  /** `fill_window` is safe and greedy. */
  lemma FillFlies(s: Sender, q: seq<Flight>, m: nat) returns (sent: seq<Flight>, m': nat)
    requires Flying(s, q, m)
    ensures Flying(FillWindow(s), q + sent, m')
    ensures Sent(s, FillWindow(s), sent)
    ensures s.next > 0 ==> Exhausted(FillWindow(s))
    ensures FillWindow(s).next > 0
  {
    if s.finSent {
      sent, m' := [], m;
      assert q + sent == q;
    } else if s.window == UNSET {
      var f;
      f, m' := SynFlies(s, q, m);
      sent := [f];
    } else {
      sent, m' := LoopFlies(s, q, m);
    }
  }

  // ---- acknowledgments ----

  /** The queue after an acknowledgment: the fully acknowledged front is gone. */
  function Unacked(q: seq<Flight>, acked: nat): seq<Flight> {
    if q != [] && End(q[0]) <= acked then Unacked(q[1..], acked) else q
  }

  function Restarted(q: seq<Flight>, deadline: Option<nat>): seq<Flight> {
    if q == [] || deadline.None? then q
    else [Flight(q[0].abs, q[0].entry.(deadline := deadline.value))] + Restarted(q[1..], deadline)
  }

  lemma {:induction false} RestartedAt(q: seq<Flight>, deadline: Option<nat>)
    ensures var r := Restarted(q, deadline);
      && |r| == |q|
      && forall i :: 0 <= i < |q| ==> r[i] == if deadline.Some? then Flight(q[i].abs, q[i].entry.(deadline := deadline.value)) else q[i]
  {
    var r := Restarted(q, deadline);
    if q != [] && deadline.Some? {
      RestartedAt(q[1..], deadline);
      forall i | 0 <= i < |q| ensures r[i] == Flight(q[i].abs, q[i].entry.(deadline := deadline.value)) {
        if i > 0 { assert r[i] == Restarted(q[1..], deadline)[i - 1] && q[i] == q[1..][i - 1]; }
      }
    }
  }

  lemma {:induction false} RestartedTiled(q: seq<Flight>, deadline: Option<nat>, b: nat, e: nat)
    requires Tiled(q, b, e)
    ensures Tiled(Restarted(q, deadline), b, e)
  {
    if q != [] && deadline.Some? {
      RestartedTiled(q[1..], deadline, End(q[0]), e);
      assert Restarted(q, deadline)[1..] == Restarted(q[1..], deadline);
    }
  }

  lemma {:induction false} UnackedTiled(q: seq<Flight>, acked: nat, b: nat, e: nat) returns (k: nat)
    requires Tiled(q, b, e) && b <= acked <= e
    ensures k <= |q| && Unacked(q, acked) == q[k..]
    ensures var r := q[k..]; if r == [] then acked == e else r[0].abs <= acked < End(r[0]) && Tiled(r, r[0].abs, e)
    ensures k > 0 <==> q != [] && End(q[0]) <= acked
  {
    if q != [] && End(q[0]) <= acked {
      k := UnackedTiled(q[1..], acked, End(q[0]), e);
      assert q[1..][k..] == q[k + 1..];
      k := k + 1;
    } else {
      k := 0;
    }
  }

  lemma {:induction false} RetainAppend(a: seq<Entry>, b: seq<Entry>, gone: TCPSegment -> bool, d: Option<nat>)
    ensures Retain(a + b, gone, d) == Retain(a, gone, d) + Retain(b, gone, d)
  {
    if a == [] {
      assert a + b == b;
    } else {
      RetainAppend(a[1..], b, gone, d);
      assert (a + b)[1..] == a[1..] + b;
      Associative(if gone(a[0].seg) then [] else [Restart(a[0], d)], Retain(a[1..], gone, d), Retain(b, gone, d));
    }
  }

  /** `gone` tells exactly the flights that end at or before `acked`. */
  ghost predicate Decides(gone: TCPSegment -> bool, q: seq<Flight>, acked: nat) {
    forall i :: 0 <= i < |q| ==> (gone(q[i].entry.seg) <==> End(q[i]) <= acked)
  }

  lemma {:induction false} RetainAll(q: seq<Flight>, gone: TCPSegment -> bool, acked: nat, d: Option<nat>)
    requires Decides(gone, q, acked) && forall i :: 0 <= i < |q| ==> acked < End(q[i])
    ensures Retain(Entries(q), gone, d) == Entries(Restarted(q, d))
    ensures |Retain(Entries(q), gone, d)| == |q|
  {
    if q != [] {
      assert forall i :: 0 <= i < |q[1..]| ==> q[1..][i] == q[i + 1];
      RetainAll(q[1..], gone, acked, d);
      assert Entries(q)[1..] == Entries(q[1..]);
      var r := Restarted(q, d);
      if d.Some? { assert r[1..] == Restarted(q[1..], d); }
    }
  }

  /** On a tiling, erasing what is acknowledged drops a prefix. */
  lemma {:induction false} RetainQueue(q: seq<Flight>, gone: TCPSegment -> bool, acked: nat, d: Option<nat>, b: nat, e: nat)
    requires Decides(gone, q, acked) && Tiled(q, b, e)
    ensures Retain(Entries(q), gone, d) == Entries(Restarted(Unacked(q, acked), d))
  {
    if q != [] {
      if End(q[0]) <= acked {
        assert forall i :: 0 <= i < |q[1..]| ==> q[1..][i] == q[i + 1];
        RetainQueue(q[1..], gone, acked, d, End(q[0]), e);
        assert Entries(q)[1..] == Entries(q[1..]);
      } else {
        LaterEnds(q, b, e);
        RetainAll(q, gone, acked, d);
      }
    }
  }

  lemma LaterEnds(q: seq<Flight>, b: nat, e: nat)
    requires Tiled(q, b, e) && q != []
    ensures forall i :: 0 <= i < |q| ==> End(q[0]) <= End(q[i])
  {
    TiledOrder(q[1..], End(q[0]), e);
    forall i | 0 <= i < |q| ensures End(q[0]) <= End(q[i]) {
      if i > 0 { assert q[i] == q[1..][i - 1]; }
    }
  }
}
