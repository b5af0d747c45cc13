/** Acknowledgments, timeouts and the application's own steps keep the sender's invariant. */
module SenderSteps {
  import opened Types
  import opened WrappingIntegers
  import opened TcpSegments
  import opened Sending
  import opened SenderInvariant
  import Streams

  // ---- list facts ----

  lemma {:induction false} RetainByTime(o: seq<Entry>, gone: TCPSegment -> bool, d: Option<nat>, lo: nat, now: nat)
    requires ByTime(o, now) && forall i :: 0 <= i < |o| ==> lo <= o[i].sentAt
    ensures var r := Retain(o, gone, d); ByTime(r, now) && forall i :: 0 <= i < |r| ==> lo <= r[i].sentAt
  {
    if o != [] { RetainByTime(o[1..], gone, d, o[0].sentAt, now); }
  }

  lemma {:induction false} SetDeadlinesAt(o: seq<Entry>, d: nat)
    ensures |SetDeadlines(o, d)| == |o|
    ensures forall i :: 0 <= i < |o| ==> SetDeadlines(o, d)[i] == o[i].(deadline := d)
  {
    if o != [] { SetDeadlinesAt(o[1..], d); }
  }

  lemma {:induction false} SetDeadlinesEntries(q: seq<Flight>, d: nat)
    ensures SetDeadlines(Entries(q), d) == Entries(Restarted(q, Some(d)))
  {
    if q != [] {
      SetDeadlinesEntries(q[1..], d);
      assert Entries(q)[1..] == Entries(q[1..]);
      assert Restarted(q, Some(d))[1..] == Restarted(q[1..], Some(d));
    }
  }

  lemma SplitAt<T>(o: seq<T>, m: nat)
    requires m < |o|
    ensures o == o[..m] + ([o[m]] + o[m + 1..])
  {
  }

  lemma RemoveMiddle<T>(a: seq<T>, x: T, b: seq<T>)
    ensures Remove(a + ([x] + b), |a|) == a + b
    ensures (a + ([x] + b))[|a|] == x
  {
  }

  lemma FirstInPlace(q: seq<Flight>)
    ensures Displaced(Entries(q), q, 0)
  {
    if q != [] { assert Remove(Entries(q), 0) == Entries(q[1..]); }
  }

  // ---- decoding ----

  /** Every outstanding segment lies within 65535 + 1002 sequence numbers of `acked`, so its
      32-bit number decodes exactly, relative to any acknowledgment that is still possible. */
  lemma FlightsDecode(s: Sender, q: seq<Flight>, m: nat, acked: u64)
    requires Flying(s, q, m) && s.next < 0x8000_0000_0000_0000 && s.acked <= acked <= s.next
    ensures forall i :: 0 <= i < |q| ==> Unwrap(q[i].entry.seg.header.seqno, s.isn, acked) == q[i].abs
    ensures Decides(AckedBy(s.isn, acked), q, acked)
  {
    TiledOrder(q, Base(s, q), s.next);
    forall i | 0 <= i < |q|
      ensures Unwrap(q[i].entry.seg.header.seqno, s.isn, acked) == q[i].abs
    {
      assert Carries(s, q[0]) && Carries(s, q[i]);
      UnwrapExact(q[i].abs, s.isn, acked);
    }
  }

  // ---- ack_received ----

  /** An acknowledgment of the ISN itself before the SYN has been sent would be taken as
      new window; every other one is harmless. */
  predicate Expected(s: Sender, ackno: u32) {
    s.next > 0 || ackno != s.isn
  }

  lemma RetainParts(o: seq<Entry>, m: nat, gone: TCPSegment -> bool, d: Option<nat>)
    requires m < |o|
    ensures var a, z := Retain(o[..m], gone, d), Retain(o[m + 1..], gone, d);
      && Retain(o, gone, d) == a + ((if gone(o[m].seg) then [] else [Restart(o[m], d)]) + z)
      && Retain(Remove(o, m), gone, d) == a + z
  {
    SplitAt(o, m);
    RetainAppend(o[..m], [o[m]] + o[m + 1..], gone, d);
    RetainAppend([o[m]], o[m + 1..], gone, d);
    assert [o[m]][1..] == [];
    assert Retain([o[m]], gone, d) == (if gone(o[m].seg) then [] else [Restart(o[m], d)]);
    RetainAppend(o[..m], o[m + 1..], gone, d);
  }

  lemma TailDecides(gone: TCPSegment -> bool, q: seq<Flight>, acked: nat)
    requires Decides(gone, q, acked) && q != []
    ensures Decides(gone, q[1..], acked)
  {
    assert forall i :: 0 <= i < |q[1..]| ==> q[1..][i] == q[i + 1];
  }

  lemma RetainDisplaced(o: seq<Entry>, q: seq<Flight>, m: nat, gone: TCPSegment -> bool, acked: nat, d: Option<nat>, b: nat, e: nat)
    returns (m': nat)
    requires Displaced(o, q, m) && Tiled(q, b, e) && Decides(gone, q, acked)
    ensures Displaced(Retain(o, gone, d), Restarted(Unacked(q, acked), d), m')
  {
    m' := 0;
    if q != [] {
      RetainParts(o, m, gone, d);
      TailDecides(gone, q, acked);
      assert gone(o[m].seg) <==> End(q[0]) <= acked;
      if End(q[0]) <= acked {
        assert Retain(o, gone, d) == Retain(Remove(o, m), gone, d);
        RetainQueue(q[1..], gone, acked, d, End(q[0]), e);
        FirstInPlace(Restarted(Unacked(q, acked), d));
      } else {
        m' := HeadStays(o, q, m, gone, acked, d, b, e);
      }
    }
  }

  lemma HeadStays(o: seq<Entry>, q: seq<Flight>, m: nat, gone: TCPSegment -> bool, acked: nat, d: Option<nat>, b: nat, e: nat)
    returns (m': nat)
    requires Displaced(o, q, m) && Tiled(q, b, e) && Decides(gone, q, acked)
    requires q != [] && acked < End(q[0])
    ensures Displaced(Retain(o, gone, d), Restarted(q, d), m')
  {
    RetainParts(o, m, gone, d);
    TailDecides(gone, q, acked);
    LaterEnds(q, b, e);
    var a, z := Retain(o[..m], gone, d), Retain(o[m + 1..], gone, d);
    RemoveMiddle(a, Restart(o[m], d), z);
    RetainAll(q[1..], gone, acked, d) by { assert forall i :: 0 <= i < |q[1..]| ==> q[1..][i] == q[i + 1]; }
    RestartedHead(q, d);
    m' := |a|;
  }

  lemma RestartedHead(q: seq<Flight>, d: Option<nat>)
    requires q != []
    ensures var r := Restarted(q, d);
      r != [] && r[0] == Flight(q[0].abs, Restart(q[0].entry, d)) && r[1..] == Restarted(q[1..], d)
  {
  }

  lemma AckFlies(s: Sender, q: seq<Flight>, m: nat, ackno: u32, win: u16) returns (q': seq<Flight>, m': nat)
    requires Flying(s, q, m) && s.next < 0x8000_0000_0000_0000 && Expected(s, ackno)
    ensures Flying(AckReceived(s, ackno, win), q', m')
  {
    UnwrapCongruent(ackno, s.isn, s.acked);
    q', m' := AckAtFlies(s, q, m, Unwrap(ackno, s.isn, s.acked), win);
  }

  /** The deadline an acknowledgment gives to what stays outstanding. */
  function AckDeadline(s: Sender, a: nat): Option<nat> {
    if a > s.acked then Some(s.now + s.initialRto) else None
  }

  function AfterAck(s: Sender, q: seq<Flight>, a: nat): seq<Flight> {
    if a < s.acked || a > s.next then q else Restarted(Unacked(q, a), AckDeadline(s, a))
  }

  lemma AckAtFlies(s: Sender, q: seq<Flight>, m: nat, a: u64, win: u16) returns (q': seq<Flight>, m': nat)
    requires Flying(s, q, m) && s.next < 0x8000_0000_0000_0000 && (s.next > 0 || a > 0)
    ensures Flying(AckAt(s, a, win), q', m')
    ensures q' == AfterAck(s, q, a)
  {
    hide Flying;
    q' := AfterAck(s, q, a);
    if a < s.acked || a > s.next {
      m' := m;
    } else {
      m' := AckAccepted(s, q, m, a, win);
    }
  }

  lemma AckFields(s: Sender, a: u64, win: u16)
    requires s.acked <= a <= s.next
    ensures var s' := AckAt(s, a, win);
      && s'.isn == s.isn && s'.stream == s.stream && s'.next == s.next && s'.now == s.now && s'.finSent == s.finSent
      && s'.acked == a && 1 <= s'.window < 0x1_0000
      && s'.rto == (if a > s.acked then s.initialRto else s.rto)
      && s'.outstanding == Retain(s.outstanding, AckedBy(s.isn, a), AckDeadline(s, a))
  {
  }

  lemma AckAccepted(s: Sender, q: seq<Flight>, m: nat, a: u64, win: u16) returns (m': nat)
    requires Flying(s, q, m) && s.next < 0x8000_0000_0000_0000 && s.acked <= a <= s.next && s.next > 0
    ensures Flying(AckAt(s, a, win), Restarted(Unacked(q, a), AckDeadline(s, a)), m')
  {
    hide AckAt, Retain, Restarted, Unacked, Ordered, AckedBy, Decides, Unwrap;
    FlightsDecode(s, q, m, a);
    m' := AckOrder(s.outstanding, s.now, q, m, AckedBy(s.isn, a), a, AckDeadline(s, a), Base(s, q), s.next);
    AckFields(s, a, win);
    AckQueue(s, q, a, AckDeadline(s, a), AckAt(s, a, win));
  }

  lemma AckOrder(o: seq<Entry>, now: nat, q: seq<Flight>, m: nat, gone: TCPSegment -> bool, a: nat, d: Option<nat>, b: nat, e: nat)
    returns (m': nat)
    requires Ordered(o, now, q, m) && Tiled(q, b, e) && Decides(gone, q, a)
    ensures Ordered(Retain(o, gone, d), now, Restarted(Unacked(q, a), d), m')
  {
    m' := RetainDisplaced(o, q, m, gone, a, d, b, e);
    RetainByTime(o, gone, d, 0, now);
  }

  lemma AckQueue(s: Sender, q: seq<Flight>, a: u64, d: Option<nat>, s': Sender)
    requires Queued(s, q) && s.acked <= a <= s.next && s.next > 0
    requires s'.isn == s.isn && s'.stream == s.stream && s'.next == s.next && s'.now == s.now && s'.finSent == s.finSent
    requires s'.acked == a && 1 <= s'.window < 0x1_0000
    requires if a > s.acked then d == Some(s.now + s'.rto) else d == None && s'.rto == s.rto
    ensures Queued(s', Restarted(Unacked(q, a), d))
  {
    var k := UnackedTiled(q, a, Base(s, q), s.next);
    var r := q[k..];
    RestartedAt(r, d);
    if r != [] { RestartedTiled(r, d, r[0].abs, s.next); }
    forall i | 0 <= i < |r| ensures Carries(s', Restarted(r, d)[i]) { CarriesKept(s, q[k + i], s', Restarted(r, d)[i]); }
  }

  // ---- tick ----

  lemma {:induction false} OldestDueIsDue(o: seq<Entry>, n: nat, now: nat, isn: u32, acked: u64)
    requires n <= |o|
    ensures var k := OldestDue(o, n, now, isn, acked);
      && (k.None? <==> forall i :: 0 <= i < n ==> now < o[i].deadline)
      && (k.Some? ==>
            && o[k.value].deadline <= now
            && forall i :: 0 <= i < n && o[i].deadline <= now ==>
                 Unwrap(o[k.value].seg.header.seqno, isn, acked) <= Unwrap(o[i].seg.header.seqno, isn, acked))
  {
    if n > 0 { OldestDueIsDue(o, n - 1, now, isn, acked); }
  }

  lemma DisplacedAt(o: seq<Entry>, q: seq<Flight>, m: nat, i: nat) returns (j: nat)
    requires Displaced(o, q, m) && i < |o|
    ensures j < |q| && o[i] == q[j].entry && (j == 0 <==> i == m)
  {
    EntriesAt(q[1..]);
    if i == m {
      j := 0;
    } else if i < m {
      j := i + 1;
      assert o[i] == Remove(o, m)[i];
    } else {
      j := i;
      assert o[i] == Remove(o, m)[i - 1];
    }
  }

  /** A tick retransmits exactly when the oldest segment's deadline has passed, and then
      that segment and no other. */
  lemma OldestFires(s: Sender, q: seq<Flight>, m: nat, now: nat)
    requires Flying(s, q, m) && s.next < 0x8000_0000_0000_0000
    ensures OldestDue(s.outstanding, |s.outstanding|, now, s.isn, s.acked)
         == if q != [] && q[0].entry.deadline <= now then Some(m) else None
  {
    var o := s.outstanding;
    var k := OldestDue(o, |o|, now, s.isn, s.acked);
    OldestDueIsDue(o, |o|, now, s.isn, s.acked);
    if q != [] {
      FlightsDecode(s, q, m, s.acked);
      TiledOrder(q[1..], End(q[0]), s.next);
      if k.Some? {
        var j := DisplacedAt(o, q, m, k.value);
        assert o[m] == q[0].entry;
        assert forall i :: 0 < i < |q| ==> q[i] == q[1..][i - 1];
      }
    }
  }

  predicate Fires(q: seq<Flight>, now: nat) {
    q != [] && q[0].entry.deadline <= now
  }

  /** The sender when its timer is looked at. */
  function Expire(s: Sender, q: seq<Flight>, m: nat): Sender {
    if Fires(q, s.now) && m < |s.outstanding| then Retransmit(s, m) else s
  }

  function AfterTick(q: seq<Flight>, now: nat, rto: nat): seq<Flight> {
    if Fires(q, now) then Resent(q, now, now + rto) else q
  }

  lemma TickFlies(s: Sender, q: seq<Flight>, m: nat, ms: nat) returns (q': seq<Flight>, m': nat)
    requires Flying(s, q, m) && s.next < 0x8000_0000_0000_0000
    ensures Flying(Tick(s, ms), q', m')
    ensures q' == AfterTick(q, s.now + ms, Tick(s, ms).rto)
  {
    hide Tick, Expire, AfterTick, Flying;
    TickIs(s, q, m, ms);
    q', m' := ExpireFlies(s, q, m, s.(now := s.now + ms));
  }

  lemma ExpireFlies(s: Sender, q: seq<Flight>, m: nat, s1: Sender) returns (q': seq<Flight>, m': nat)
    requires Flying(s, q, m) && s1 == s.(now := s1.now) && s.now <= s1.now
    ensures Flying(Expire(s1, q, m), q', m')
    ensures q' == AfterTick(q, s1.now, Expire(s1, q, m).rto)
  {
    hide Flying, Retransmit, Resent;
    LaterFlies(s, q, m, s1);
    SameOutstanding(s, q, m);
    q', m' := q, m;
    if Fires(q, s1.now) { q', m' := RetransmitFlies(s1, q, m); }
  }

  lemma SameOutstanding(s: Sender, q: seq<Flight>, m: nat)
    requires Flying(s, q, m)
    ensures q != [] ==> m < |s.outstanding|
  {
  }

  lemma TickIs(s: Sender, q: seq<Flight>, m: nat, ms: nat)
    requires Flying(s, q, m) && s.next < 0x8000_0000_0000_0000
    ensures Tick(s, ms) == Expire(s.(now := s.now + ms), q, m)
  {
    hide Retransmit, OldestDue;
    OldestFires(s, q, m, s.now + ms);
  }

  lemma LaterFlies(s: Sender, q: seq<Flight>, m: nat, s1: Sender)
    requires Flying(s, q, m) && s1 == s.(now := s1.now) && s.now <= s1.now
    ensures Flying(s1, q, m)
  {
    forall i | 0 <= i < |q| ensures Carries(s1, q[i]) { CarriesKept(s, q[i], s1, q[i]); }
  }

  function Resent(q: seq<Flight>, now: nat, d: nat): seq<Flight>
    requires q != []
  {
    [Flight(q[0].abs, Entry(now, d, q[0].entry.seg))] + Restarted(q[1..], Some(d))
  }

  lemma RetransmitFlies(s: Sender, q: seq<Flight>, m: nat) returns (q': seq<Flight>, m': nat)
    requires Flying(s, q, m) && q != []
    ensures q' == Resent(q, s.now, s.now + Retransmit(s, m).rto)
    ensures Flying(Retransmit(s, m), q', m')
  {
    hide Resent, Queued;
    var s' := Retransmit(s, m);
    q' := Resent(q, s.now, s.now + s'.rto);
    m' := ResentOrder(s.outstanding, s.now, q, m, s.now + s'.rto);
    ResentQueue(s, q, s');
  }

  lemma ResentOrder(o: seq<Entry>, now: nat, q: seq<Flight>, m: nat, d: nat) returns (m': nat)
    requires Ordered(o, now, q, m) && q != []
    ensures Ordered(SetDeadlines(InsertByTime(Remove(o, m), Entry(now, d, q[0].entry.seg)), d), now, Resent(q, now, d), m')
  {
    hide Restarted, SetDeadlines, Entries, InsertByTime;
    var o1, e := Remove(o, m), Entry(now, d, q[0].entry.seg);
    assert ByTime(o1, now) by { assert forall i :: 0 <= i < |o1| ==> o1[i] == o[if i < m then i else i + 1]; }
    InsertAtEnd(o1, e);
    SetDeadlinesAt(o1 + [e], d);
    SetDeadlinesAt(o1, d);
    SetDeadlinesEntries(q[1..], d);
    var o' := SetDeadlines(o1 + [e], d);
    assert o' == SetDeadlines(o1, d) + [e];
    m' := |o1|;
    assert Remove(o', m') == SetDeadlines(o1, d);
    assert Resent(q, now, d)[1..] == Restarted(q[1..], Some(d));
  }

  lemma ResentQueue(s: Sender, q: seq<Flight>, s': Sender)
    requires Queued(s, q) && q != []
    requires s'.isn == s.isn && s'.stream == s.stream && s'.next == s.next && s'.now == s.now && s'.finSent == s.finSent
    requires s'.acked == s.acked && s'.window == s.window
    ensures Queued(s', Resent(q, s.now, s.now + s'.rto))
  {
    hide Resent, Restarted, Carries;
    var d := s.now + s'.rto;
    var q' := Resent(q, s.now, d);
    ResentAt(q, s.now, d);
    RestartedTiled(q[1..], Some(d), End(q[0]), s.next);
    forall i | 0 <= i < |q'| ensures Carries(s', q'[i]) { CarriesKept(s, q[i], s', q'[i]); }
  }

  lemma ResentAt(q: seq<Flight>, now: nat, d: nat)
    requires q != []
    ensures var q' := Resent(q, now, d);
      && |q'| == |q| && q'[1..] == Restarted(q[1..], Some(d))
      && forall i :: 0 <= i < |q| ==>
           q'[i].abs == q[i].abs && q'[i].entry.seg == q[i].entry.seg && q'[i].entry.deadline == d
  {
    RestartedAt(q[1..], Some(d));
    var q' := Resent(q, now, d);
    forall i | 0 <= i < |q|
      ensures q'[i].abs == q[i].abs && q'[i].entry.seg == q[i].entry.seg && q'[i].entry.deadline == d
    {
      if i > 0 { assert q'[i] == Restarted(q[1..], Some(d))[i - 1] && q[1..][i - 1] == q[i]; }
    }
  }

  // ---- the application's steps ----

  lemma EmptyFlies(s: Sender, q: seq<Flight>, m: nat)
    requires Flying(s, q, m)
    ensures Flying(SendEmpty(s), q, m)
  {
    forall i | 0 <= i < |q| ensures Carries(SendEmpty(s), q[i]) { CarriesKept(s, q[i], SendEmpty(s), q[i]); }
  }

  /** More written data, an ended or a failed stream, a drained queue. */
  lemma StreamFlies(s: Sender, q: seq<Flight>, m: nat, s': Sender)
    requires Flying(s, q, m)
    requires s' == s.(stream := s'.stream, out := s'.out)
    requires s.stream.written <= s'.stream.written && s'.stream.read == s.stream.read
    requires s.stream.ended ==> s'.stream.ended
    ensures Flying(s', q, m)
  {
    forall i | 0 <= i < |q| ensures Carries(s', q[i]) { CarriesKept(s, q[i], s', q[i]); }
  }
}
