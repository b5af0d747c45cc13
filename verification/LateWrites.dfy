/** What becomes of bytes that are written after the FIN. */
module LateWrites {
  import opened Types
  import opened WrappingIntegers
  import opened TcpSegments
  import opened Sending
  import opened SenderInvariant
  import opened SenderSteps
  import opened SenderTheorems
  import opened CleanClose
  import opened Connecting
  import opened Honesty
  import Streams

  /** The segment carries nothing, or bytes that were read from the stream. */
  ghost predicate Behind(s: Sender, seg: TCPSegment) {
    seg.payload == [] || exists a: nat :: seg.header.seqno == Wrap(a, s.isn) && BytesAt(s, seg, a)
  }

  /** The payload is the slice of the stream that starts at absolute number `a`, and none of it
      lies past what has been read. */
  predicate BytesAt(s: Sender, seg: TCPSegment, a: nat) {
    1 <= a && a - 1 + |seg.payload| <= s.stream.read && seg.payload == s.stream.written[a - 1..a - 1 + |seg.payload|]
  }

  /** `s` has become `s'` without reading or numbering anything. */
  predicate Stuck(s: Sender, s': Sender) {
    && s'.finSent && s'.next == s.next && s'.isn == s.isn && s'.stream.read == s.stream.read
    && s.stream.written <= s'.stream.written
  }

  lemma BehindKept(s: Sender, s': Sender, seg: TCPSegment)
    requires Behind(s, seg) && Stuck(s, s')
    ensures Behind(s', seg)
  {
    if seg.payload != [] {
      var a: nat :| seg.header.seqno == Wrap(a, s.isn) && BytesAt(s, seg, a);
      assert seg.header.seqno == Wrap(a, s'.isn) && BytesAt(s', seg, a);
    }
  }

  lemma OutstandingBehind(s: Sender, q: seq<Flight>, m: nat, k: nat)
    requires Flying(s, q, m) && k < |s.outstanding|
    ensures Behind(s, s.outstanding[k].seg)
  {
    var j := DisplacedAt(s.outstanding, q, m, k);
    var f := q[j];
    assert Carries(s, f);
    if f.entry.seg.payload != [] { assert f.entry.seg.header.seqno == Wrap(f.abs, s.isn) && BytesAt(s, f.entry.seg, f.abs); }
  }

  /** Once the FIN is out, no step reads from the stream or uses a sequence number. */
  lemma StepStuck(s: Sender, e: Event)
    requires s.finSent
    ensures Stuck(s, Apply(s, e))
  {
    hide OldestDue;
  }

  /** What one step then sends is old. */
  lemma StepBehind(s: Sender, q: seq<Flight>, m: nat, e: Event, i: nat)
    requires Flying(s, q, m) && s.finSent && i < |Apply(s, e).out|
    ensures Apply(s, e).out[i] in s.out || Behind(s, Apply(s, e).out[i])
  {
    hide Tick, Flying, Behind, AckReceived;
    match e
    case Elapse(ms) =>
      var sent := TickSends(s, ms);
      if i >= |s.out| {
        var k :| 0 <= k < |s.outstanding| && sent == [s.outstanding[k].seg];
        OutstandingBehind(s, q, m, k);
      }
    case Ack(ackno, win) => AckKeepsOut(s, ackno, win);
    case Empty =>
      if i >= |s.out| { BareBehind(s, Apply(s, e).out[i]); }
    case _ =>
  }

  lemma AckKeepsOut(s: Sender, ackno: u32, win: u16)
    ensures AckReceived(s, ackno, win).out == s.out
  {
  }

  lemma BareBehind(s: Sender, seg: TCPSegment)
    requires seg.payload == []
    ensures Behind(s, seg)
  {
  }

  /** After the FIN, over every run: no byte is read from the stream any more, no sequence number
      is used, and no segment carries a byte that had not been read before, so that whatever is
      written later is never sent. */
  lemma {:induction false} NeverSent(s: Sender, es: seq<Event>)
    requires Inv(s) && s.finSent && AllAdmissible(s, es)
    requires |Run(s, es).stream.written| < 0x7fff_ffff_ffff_fffe
    ensures Stuck(s, Run(s, es))
    ensures forall i :: 0 <= i < |Run(s, es).out| ==> Run(s, es).out[i] in s.out || Behind(Run(s, es), Run(s, es).out[i])
    decreases |es|
  {
    if es != [] {
      var before, e := es[..|es| - 1], es[|es| - 1];
      var s1, s' := Run(s, before), Run(s, es);
      WritesGrow(s1, e);
      NeverSent(s, before);
      StepStuck(s1, e);
      var q, m := RunFlies(s, before);
      forall i | 0 <= i < |s'.out| ensures s'.out[i] in s.out || Behind(s', s'.out[i]) {
        StepBehind(s1, q, m, e, i);
        StaysBehind(s, s1, s', s'.out[i]);
      }
    }
  }

  lemma StaysBehind(s: Sender, s1: Sender, s': Sender, seg: TCPSegment)
    requires Stuck(s1, s') && (seg in s1.out || Behind(s1, seg))
    requires forall i :: 0 <= i < |s1.out| ==> s1.out[i] in s.out || Behind(s1, s1.out[i])
    ensures seg in s.out || Behind(s', seg)
  {
    if Behind(s1, seg) { BehindKept(s1, s', seg); }
  }

  /** When the window has room for everything buffered, a `fill_window` after an accepted write
      sends it all exactly if the FIN was not out. */
  lemma SentIff(s: Sender, data: seq<byte>)
    requires Inv(s) && s.next > 0 && Min(|data|, Streams.Room(s.stream)) > 0
    requires var s1 := Apply(s, Write(data)); s1.acked + s1.window - s1.next > Streams.Size(s1.stream)
    ensures var s1 := Apply(s, Write(data));
      FillWindow(s1).stream.read == |s1.stream.written| <==> !s.finSent
  {
    var s1 := Apply(s, Write(data));
    WrittenKeeps(s, data);
    if !s.finSent {
      hide FillWindow, Inv, Exhausted, Apply;
      FillWindowSends(s1);
      FillPunctual(s1);
      FillKeepsWritten(s1);
      InvFill(s1);
      AllRead(s1, FillWindow(s1));
    }
  }

  lemma WrittenKeeps(s: Sender, data: seq<byte>)
    requires Inv(s) && s.next > 0
    ensures var s1 := Apply(s, Write(data));
      && Inv(s1) && s1.next == s.next && s1.finSent == s.finSent && s1.window != UNSET
      && s1.stream.read == s.stream.read
      && |s1.stream.written| == |s.stream.written| + Min(|data|, Streams.Room(s.stream))
  {
    InvStream(s, Apply(s, Write(data)));
    InvCounts(s);
  }

  lemma AllRead(s: Sender, s': Sender)
    requires Inv(s) && Inv(s') && s.next > 0 && !s.finSent
    requires s'.acked == s.acked && s'.window == s.window && s'.next > 0
    requires s'.stream.written == s.stream.written && Exhausted(s') && Punctual(s')
    requires s.acked + s.window - s.next > Streams.Size(s.stream)
    ensures s'.stream.read == |s'.stream.written|
  {
    InvCounts(s);
    InvCounts(s');
  }

  /** The connection accepts what is written once its FIN is out, and sends nothing then. */
  lemma LateWrite(c: Conn, data: seq<byte>)
    requires c.active && c.sender.finSent && c.sender.out == []
    ensures var (c', n) := WriteBytes(c, data);
      && n == Min(|data|, Streams.Room(c.sender.stream))
      && c'.sender.stream.written == c.sender.stream.written + data[..n]
      && c'.out == c.out && c'.sender.next == c.sender.next && c'.sender.finSent
    ensures FillWindow(c.sender) == c.sender
  {
  }
}
