/** The sender as a value (tcp_sender.cc). */
module Sending {
  import opened Types
  import opened WrappingIntegers
  import opened TcpSegments
  import Streams

  const MAX_PAYLOAD_SIZE: nat := 1000

  /** An element of the `outstanding` multimap, which is ordered by `sentAt`. */
  datatype Entry = Entry(sentAt: nat, deadline: nat, seg: TCPSegment)

  /** The window before the SYN has been sent. */
  const UNSET: int := -1

  datatype Sender = Sender(
    isn: u32, initialRto: u16, stream: Streams.Stream, next: nat, now: nat, window: int, acked: u64,
    outstanding: seq<Entry>, rto: u32, crtx: nat, finSent: bool, zeroWindow: bool, out: seq<TCPSegment>)

  function FreshSender(capacity: nat, rto: u16, isn: u32): Sender {
    Sender(isn, rto, Streams.Empty(capacity), 0, 0, UNSET, 0, [], rto, 0, false, false, [])
  }

  /** `multimap::insert`: after every element whose key is not greater. */
  function InsertByTime(o: seq<Entry>, e: Entry): seq<Entry>
    decreases |o|
  {
    if o == [] || o[|o| - 1].sentAt <= e.sentAt then o + [e]
    else InsertByTime(o[..|o| - 1], e) + [o[|o| - 1]]
  }

  function FlightSize(o: seq<Entry>): nat {
    if o == [] then 0 else LengthInSequenceSpace(o[0].seg) + FlightSize(o[1..])
  }

  /** `bytes_in_flight` */
  function BytesInFlight(s: Sender): nat {
    FlightSize(s.outstanding)
  }

  /** Queue a segment and remember it with its retransmission deadline. */
  function Emit(s: Sender, seg: TCPSegment): Sender {
    s.(out := s.out + [seg], outstanding := InsertByTime(s.outstanding, Entry(s.now, s.now + s.rto, seg)))
  }

  // ---- fill_window ----

  function SendSyn(s: Sender): Sender {
    var fin := Streams.Eof(s.stream);
    Emit(s, Plain(s.isn, true, fin, [])).(window := 1, finSent := s.finSent || fin, next := if fin then 2 else 1)
  }

  function SendFin(s: Sender): Sender {
    Emit(s, Plain(Wrap(s.next, s.isn), false, true, [])).(next := s.next + 1, finSent := true, crtx := 0)
  }

  function SendData(s: Sender, len: nat): Sender
    requires len <= Streams.Size(s.stream)
  {
    var stream := Streams.Pop(s.stream, len);
    var fin := Streams.Eof(stream) && s.acked + s.window - s.next > len;
    var seg := Plain(Wrap(s.next, s.isn), false, fin, Streams.Buffer(s.stream)[..len]);
    Emit(s, seg).(stream := stream, next := s.next + len + (if fin then 1 else 0), finSent := s.finSent || fin, crtx := 0)
  }

  function PayloadSize(s: Sender): int {
    Min(MAX_PAYLOAD_SIZE, Min(Streams.Size(s.stream), s.acked + s.window - s.next))
  }

  /** One pass of the loop, and whether it returns from the function. */
  function FillStep(s: Sender): (Sender, bool)
    requires s.next < s.acked + s.window
  {
    if PayloadSize(s) == 0 then
      (if Streams.Eof(s.stream) then SendFin(s) else s, true)
    else
      var s1 := SendData(s, PayloadSize(s));
      (s1, s1.out[|s.out|].header.fin)
  }

  function FillLoop(s: Sender): Sender
    decreases s.acked + s.window - s.next
  {
    if s.next >= s.acked + s.window then s
    else
      var (s1, stop) := FillStep(s);
      if stop then s1 else FillLoop(s1)
  }

  /** `fill_window` */
  function FillWindow(s: Sender): Sender {
    if s.finSent then s
    else if s.window == UNSET then SendSyn(s)
    else FillLoop(s)
  }

  // ---- ack_received ----

  predicate FullyAcked(seg: TCPSegment, isn: u32, acked: u64) {
    Unwrap(seg.header.seqno, isn, acked) + LengthInSequenceSpace(seg) <= acked
  }

  function AckedBy(isn: u32, acked: u64): TCPSegment -> bool {
    seg => FullyAcked(seg, isn, acked)
  }

  function Restart(e: Entry, deadline: Option<nat>): Entry {
    if deadline.Some? then e.(deadline := deadline.value) else e
  }

  /** The erase loop: acknowledged segments go, the others get a new deadline if asked. */
  function Retain(o: seq<Entry>, gone: TCPSegment -> bool, deadline: Option<nat>): seq<Entry> {
    if o == [] then []
    else (if gone(o[0].seg) then [] else [Restart(o[0], deadline)]) + Retain(o[1..], gone, deadline)
  }

  function AckAt(s: Sender, ackno64: u64, win: u16): Sender {
    if ackno64 > s.next || ackno64 < s.acked then s
    else
      var isNew := ackno64 > s.acked;
      var rto := if isNew then s.initialRto else s.rto;
      s.(rto := rto, acked := ackno64, window := Max(1, win), zeroWindow := win == 0,
         outstanding := Retain(s.outstanding, AckedBy(s.isn, ackno64), if isNew then Some(s.now + rto) else None))
  }

  /** `ack_received` */
  function AckReceived(s: Sender, ackno: u32, win: u16): Sender {
    AckAt(s, Unwrap(ackno, s.isn, s.acked), win)
  }

  // ---- tick ----

  /** Among the first `n` entries, the due one with the smallest sequence number. */
  function OldestDue(o: seq<Entry>, n: nat, now: nat, isn: u32, acked: u64): (k: Option<nat>)
    requires n <= |o|
    ensures k.Some? ==> k.value < n
  {
    if n == 0 then None
    else
      var best := OldestDue(o, n - 1, now, isn, acked);
      if now < o[n - 1].deadline then best
      else if best.None? || Unwrap(o[n - 1].seg.header.seqno, isn, acked) < Unwrap(o[best.value].seg.header.seqno, isn, acked)
      then Some(n - 1)
      else best
  }

  function SetDeadlines(o: seq<Entry>, deadline: nat): seq<Entry> {
    if o == [] then [] else [o[0].(deadline := deadline)] + SetDeadlines(o[1..], deadline)
  }

  /** Exponential back-off in a 32-bit register. */
  function Double(rto: u32): u32 {
    (rto * 2) % 0x1_0000_0000
  }

  /** Send entry `k` again and restart every deadline. */
  function Retransmit(s: Sender, k: nat): Sender
    requires k < |s.outstanding|
  {
    var seg := s.outstanding[k].seg;
    var rto := if s.zeroWindow then s.rto else Double(s.rto);
    var o := InsertByTime(s.outstanding[..k] + s.outstanding[k + 1..], Entry(s.now, s.now + rto, seg));
    s.(rto := rto, crtx := s.crtx + 1, out := s.out + [seg], outstanding := SetDeadlines(o, s.now + rto))
  }

  /** `tick` */
  function Tick(s: Sender, ms: nat): Sender {
    var s1 := s.(now := s.now + ms);
    var due := OldestDue(s.outstanding, |s.outstanding|, s1.now, s.isn, s.acked);
    if due.None? then s1 else Retransmit(s1, due.value)
  }

  /** `send_empty_segment` */
  function SendEmpty(s: Sender): Sender {
    s.(out := s.out + [Plain(Wrap(s.next, s.isn), false, false, [])], crtx := 0)
  }
}

/** The sender object. */
module TcpSenders {
  import opened Types
  import opened WrappingIntegers
  import opened TcpSegments
  import opened Sending
  import Streams
  import ByteStreams

  class TCPSender {
    const isn: u32
    const initialRto: u16
    const stream: ByteStreams.ByteStream
    var segmentsOut: seq<TCPSegment>
    var nextSeqno: nat
    var now: nat
    var window: int
    var acked: u64
    var outstanding: seq<Entry>
    var rto: u32
    var crtx: nat
    var finSent: bool
    var zeroWindow: bool

    ghost predicate Valid()
      reads this, stream
    {
      stream.Valid()
    }

    ghost function Model(): Sender
      requires Valid()
      reads this, stream
    {
      Sender(isn, initialRto, stream.Model(), nextSeqno, now, window, acked, outstanding, rto, crtx, finSent,
             zeroWindow, segmentsOut)
    }

    constructor (capacity: u64, retxTimeout: u16, isn: u32)
      ensures Valid() && fresh(stream)
      ensures Model() == FreshSender(capacity, retxTimeout, isn)
    {
      this.isn, initialRto := isn, retxTimeout;
      stream := new ByteStreams.ByteStream(capacity);
      segmentsOut, nextSeqno, now, window, acked, outstanding := [], 0, 0, UNSET, 0, [];
      rto, crtx, finSent, zeroWindow := retxTimeout, 0, false, false;
    }

    method BytesInFlight() returns (res: nat)
      requires Valid()
      ensures res == Sending.BytesInFlight(Model())
    {
      res := 0;
      var c := 0;
      while c < |outstanding|
        invariant 0 <= c <= |outstanding|
        invariant res + FlightSize(outstanding[c..]) == FlightSize(outstanding)
      {
        assert outstanding[c..][1..] == outstanding[c + 1..];
        var h := outstanding[c].seg.header;
        var flags := (if h.syn then 1 else 0) + (if h.fin then 1 else 0);
        res := res + |outstanding[c].seg.payload| + flags;
        c := c + 1;
      }
      assert outstanding[c..] == [];
    }

    method Push(seg: TCPSegment)
      requires Valid()
      modifies this
      ensures Valid() && Model() == Emit(old(Model()), seg)
    {
      segmentsOut := segmentsOut + [seg];
      outstanding := InsertByTime(outstanding, Entry(now, now + rto, seg));
    }

    method FillWindow()
      requires Valid()
      modifies this, stream
      ensures Valid() && Model() == Sending.FillWindow(old(Model()))
    {
      hide InsertByTime, FillStep;
      if finSent {
        return;
      }
      if window == UNSET {
        window := 1;
        var fin := stream.Eof();
        Push(Plain(isn, true, fin, []));
        if fin {
          finSent := true;
          nextSeqno := 2;
        } else {
          nextSeqno := 1;
        }
        return;
      }
      var stop := false;
      while !stop && nextSeqno < acked + window
        invariant Valid()
        invariant (if stop then Model() else FillLoop(Model())) == FillLoop(old(Model()))
        decreases acked + window - nextSeqno, !stop
      {
        ghost var before := Model();
        stop := SendNext();
        assert Model() == FillStep(before).0;
      }
    }

    /** One pass of the sending loop. */
    method SendNext() returns (stop: bool)
      requires Valid() && nextSeqno < acked + window
      modifies this, stream
      ensures Valid() && (Model(), stop) == FillStep(old(Model()))
      ensures acked == old(acked) && window == old(window) && nextSeqno >= old(nextSeqno) + (if stop then 0 else 1)
    {
      var len := Min(MAX_PAYLOAD_SIZE, Min(stream.BufferSize(), acked + window - nextSeqno));
      assert len == PayloadSize(Model());
      if len == 0 {
        if stream.Eof() {
          Push(Plain(Wrap(nextSeqno, isn), false, true, []));
          nextSeqno := nextSeqno + 1;
          finSent := true;
          crtx := 0;
        }
        return true;
      }
      stop := SendOne(len);
    }

    method SendOne(len: nat) returns (fin: bool)
      requires Valid() && 0 < len <= Streams.Size(stream.Model())
      modifies this, stream
      ensures Valid() && Model() == SendData(old(Model()), len)
      ensures fin == segmentsOut[|old(segmentsOut)|].header.fin
      ensures acked == old(acked) && window == old(window) && nextSeqno > old(nextSeqno)
    {
      hide InsertByTime, Wrap;
      var data := stream.Read(len);
      fin := stream.Eof() && acked + window - nextSeqno > |data|;
      Push(Plain(Wrap(nextSeqno, isn), false, fin, data));
      if fin {
        finSent := true;
        nextSeqno := nextSeqno + 1;
      }
      crtx := 0;
      nextSeqno := nextSeqno + len;
    }

    method AckReceived(ackno: u32, win: u16)
      requires Valid()
      modifies this
      ensures Valid() && Model() == Sending.AckReceived(old(Model()), ackno, win)
    {
      hide Unwrap, Retain, AckedBy;
      var ackno64 := Unwrap(ackno, isn, acked);
      if ackno64 > nextSeqno {
        return;
      }
      if ackno64 >= acked {
        var isNew := ackno64 > acked;
        if isNew {
          rto := initialRto;
        }
        acked := ackno64;
        window := Max(1, win);
        zeroWindow := win == 0;
        EraseAcked(isNew);
      }
    }

    /** One pass of a loop that keeps, replaces or drops an entry. */
    static lemma Splice(done: seq<Entry>, rest: seq<Entry>, kept: seq<Entry>)
      requires rest != [] && |kept| <= 1
      ensures var o, c := done + rest, |done|;
        && o[c] == rest[0] && o[c := rest[0]] == o
        && (if kept == [] then o[..c] + o[c + 1..] else o[c := kept[0]]) == (done + kept) + rest[1..]
    {
    }

    static lemma RetainOne(done: seq<Entry>, rest: seq<Entry>, gone: TCPSegment -> bool, deadline: Option<nat>)
      requires rest != []
      ensures var kept := if gone(rest[0].seg) then [] else [Sending.Restart(rest[0], deadline)];
        (done + kept) + Retain(rest[1..], gone, deadline) == done + Retain(rest, gone, deadline)
    {
      var kept := if gone(rest[0].seg) then [] else [Sending.Restart(rest[0], deadline)];
      Associative(done, kept, Retain(rest[1..], gone, deadline));
    }

    /** The loop that erases acknowledged segments and restarts the others. */
    method EraseAcked(isNew: bool)
      requires Valid()
      modifies this`outstanding
      ensures outstanding == Retain(old(outstanding), AckedBy(isn, acked), if isNew then Some(now + rto) else None)
    {
      hide Unwrap, LengthInSequenceSpace;
      ghost var deadline := if isNew then Some(now + rto) else None;
      ghost var gone := AckedBy(isn, acked);
      ghost var done, rest := [], outstanding;
      var c := 0;
      while c < |outstanding|
        invariant outstanding == done + rest && |done| == c
        invariant done + Retain(rest, gone, deadline) == Retain(old(outstanding), gone, deadline)
        decreases |outstanding| - c
      {
        var e := outstanding[c];
        ghost var kept := if gone(e.seg) then [] else [Sending.Restart(e, deadline)];
        Splice(done, rest, kept);
        RetainOne(done, rest, gone, deadline);
        if FullyAcked(e.seg, isn, acked) {
          outstanding := outstanding[..c] + outstanding[c + 1..];
        } else {
          if isNew {
            outstanding := outstanding[c := e.(deadline := now + rto)];
          }
          c := c + 1;
        }
        done, rest := done + kept, rest[1..];
      }
      assert done + [] == done;
    }

    method Tick(ms: nat)
      requires Valid()
      modifies this
      ensures Valid() && Model() == Sending.Tick(old(Model()), ms)
    {
      hide Sending.Retransmit, OldestDue;
      now := now + ms;
      var iter := FindDue();
      if iter.Some? {
        Retransmit(iter.value);
      }
    }

    method Retransmit(iter: nat)
      requires Valid() && iter < |outstanding|
      modifies this
      ensures Valid() && Model() == Sending.Retransmit(old(Model()), iter)
    {
      hide InsertByTime, SetDeadlines;
      if !zeroWindow {
        rto := rto * 2 % 0x1_0000_0000;
      }
      var seg := outstanding[iter].seg;
      outstanding := outstanding[..iter] + outstanding[iter + 1..];
      outstanding := InsertByTime(outstanding, Entry(now, now + rto, seg));
      segmentsOut := segmentsOut + [seg];
      crtx := crtx + 1;
      Restart();
    }

    /** The last loop of `tick`: every deadline restarts. */
    method Restart()
      requires Valid()
      modifies this`outstanding
      ensures outstanding == SetDeadlines(old(outstanding), now + rto)
    {
      ghost var done, rest := [], outstanding;
      var c := 0;
      while c < |outstanding|
        invariant outstanding == done + rest && |done| == c
        invariant done + SetDeadlines(rest, now + rto) == SetDeadlines(old(outstanding), now + rto)
        decreases |outstanding| - c
      {
        ghost var e := outstanding[c].(deadline := now + rto);
        Splice(done, rest, [e]);
        Associative(done, [e], SetDeadlines(rest[1..], now + rto));
        outstanding := outstanding[c := outstanding[c].(deadline := now + rto)];
        done, rest := done + [e], rest[1..];
        c := c + 1;
      }
    }

    /** The first pass over `outstanding` and the search for the smallest sequence number. */
    method FindDue() returns (iter: Option<nat>)
      ensures iter == OldestDue(outstanding, |outstanding|, now, isn, acked)
    {
      iter := None;
      var c := 0;
      while c < |outstanding|
        invariant 0 <= c <= |outstanding|
        invariant iter == OldestDue(outstanding, c, now, isn, acked)
      {
        if now >= outstanding[c].deadline {
          if iter.None? || Unwrap(outstanding[c].seg.header.seqno, isn, acked)
                         < Unwrap(outstanding[iter.value].seg.header.seqno, isn, acked) {
            iter := Some(c);
          }
        }
        c := c + 1;
      }
    }

    method SendEmptySegment()
      requires Valid()
      modifies this
      ensures Valid() && Model() == SendEmpty(old(Model()))
    {
      segmentsOut := segmentsOut + [Plain(Wrap(nextSeqno, isn), false, false, [])];
      crtx := 0;
    }
  }
}
