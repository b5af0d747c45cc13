/** What every run of a network interface satisfies. */
module ArpRuns {
  import opened Types
  import opened Arp

  datatype Event = Send(datagram: Datagram, hop: u32) | Receive(frame: Frame) | Elapse(ms: nat)

  function Apply(s: Interface, e: Event): Interface {
    match e
    case Send(d, hop) => SendDatagram(s, d, hop)
    case Receive(frame) => RecvFrame(s, frame).0
    case Elapse(ms) => Tick(s, ms)
  }

  function Run(s: Interface, es: seq<Event>): Interface
    decreases |es|
  {
    if es == [] then s else Apply(Run(s, es[..|es| - 1]), es[|es| - 1])
  }

  // ---- what an event does to datagrams ----

  /** A datagram on its way to `hop`, sent to Ethernet address `mac`. */
  datatype Sent = Sent(hop: u32, mac: Mac, datagram: Datagram)

  function Tagged(hop: u32, mac: Mac, ds: seq<Datagram>): seq<Sent> {
    if ds == [] then [] else [Sent(hop, mac, ds[0])] + Tagged(hop, mac, ds[1..])
  }

  /** The frame is broadcast or sent to this interface. */
  predicate ToMe(mac: Mac, frame: Frame) {
    frame.dst == 0xffff_ffff_ffff || frame.dst == mac
  }

  /** The ARP message in a frame for this interface, if there is one. */
  function Heard(s: Interface, frame: Frame): Option<ArpMessage> {
    if frame.payload.ArpPayload? && ToMe(s.mac, frame) then frame.payload.message else None
  }

  function EmittedBy(s: Interface, e: Event): seq<Sent> {
    match e
    case Send(d, hop) => if hop in s.cache then [Sent(hop, s.cache[hop].mac, d)] else []
    case Receive(frame) =>
      var m := Heard(s, frame);
      if m.Some? then Tagged(m.value.senderIp, m.value.senderMac, For(s.pending, m.value.senderIp)) else []
    case Elapse(_) => []
  }

  /** Given to `send_datagram` while an unanswered request for its hop is cooling down. */
  predicate Drops(s: Interface, e: Event) {
    e.Send? && e.hop !in s.cache && e.hop in s.cooldown
  }

  function DroppedBy(s: Interface, e: Event): seq<Waiting> {
    if Drops(s, e) then [Waiting(e.hop, e.datagram)] else []
  }

  function GivenBy(e: Event): seq<Waiting> {
    if e.Send? then [Waiting(e.hop, e.datagram)] else []
  }

  function Emitted(s: Interface, es: seq<Event>): seq<Sent>
    decreases |es|
  {
    if es == [] then [] else Emitted(s, es[..|es| - 1]) + EmittedBy(Run(s, es[..|es| - 1]), es[|es| - 1])
  }

  function Dropped(s: Interface, es: seq<Event>): seq<Waiting>
    decreases |es|
  {
    if es == [] then [] else Dropped(s, es[..|es| - 1]) + DroppedBy(Run(s, es[..|es| - 1]), es[|es| - 1])
  }

  function Given(es: seq<Event>): seq<Waiting>
    decreases |es|
  {
    if es == [] then [] else Given(es[..|es| - 1]) + GivenBy(es[|es| - 1])
  }

  /** The datagrams given for `hop` and not dropped, in order. */
  function Accepted(s: Interface, es: seq<Event>, hop: u32): seq<Datagram>
    decreases |es|
  {
    if es == [] then []
    else
      var before, e := es[..|es| - 1], es[|es| - 1];
      Accepted(s, before, hop) + (if e.Send? && e.hop == hop && !Drops(Run(s, before), e) then [e.datagram] else [])
  }

  function OfHop(log: seq<Sent>, hop: u32): seq<Datagram> {
    if log == [] then [] else (if log[0].hop == hop then [log[0].datagram] else []) + OfHop(log[1..], hop)
  }

  lemma {:induction false} OfHopAppend(a: seq<Sent>, b: seq<Sent>, hop: u32)
    ensures OfHop(a + b, hop) == OfHop(a, hop) + OfHop(b, hop)
  {
    if a == [] {
      assert a + b == b;
    } else {
      OfHopAppend(a[1..], b, hop);
      assert (a + b)[1..] == a[1..] + b;
      Associative(if a[0].hop == hop then [a[0].datagram] else [], OfHop(a[1..], hop), OfHop(b, hop));
    }
  }

  lemma {:induction false} OfHopTagged(hop: u32, mac: Mac, ds: seq<Datagram>, hop': u32)
    ensures OfHop(Tagged(hop, mac, ds), hop') == if hop == hop' then ds else []
  {
    if ds != [] {
      OfHopTagged(hop, mac, ds[1..], hop');
      assert Tagged(hop, mac, ds)[1..] == Tagged(hop, mac, ds[1..]);
    }
  }

  // ---- mappings ----

  /** The latest mapping announced for `ip`, and when. */
  function LastHeard(s: Interface, es: seq<Event>, ip: u32): Option<Mapping>
    decreases |es|
  {
    if es == [] then None
    else
      var before, e := es[..|es| - 1], es[|es| - 1];
      var at := Run(s, before);
      var m := if e.Receive? then Heard(at, e.frame) else None;
      if m.Some? && m.value.senderIp == ip then Some(Mapping(m.value.senderMac, at.now)) else LastHeard(s, before, ip)
  }

  lemma HeardCache(s: Interface, frame: Frame)
    ensures var m, s' := Heard(s, frame), RecvFrame(s, frame).0;
      && s'.now == s.now && s'.cooldown == s.cooldown && s'.mac == s.mac && s'.ip == s.ip
      && s'.cache == (if m.Some? then s.cache[m.value.senderIp := Mapping(m.value.senderMac, s.now)] else s.cache)
      && s'.pending == (if m.Some? then NotFor(s.pending, m.value.senderIp) else s.pending)
  {
  }

  /** The cache holds exactly the latest announcement of every address, for 30 seconds. */
  lemma {:induction false} CacheIs(mac: Mac, ip: u32, es: seq<Event>, a: u32)
    ensures var s, last := Run(FreshInterface(mac, ip), es), LastHeard(FreshInterface(mac, ip), es, a);
      && (a in s.cache <==> last.Some? && s.now < last.value.learnedAt + 30000)
      && (a in s.cache ==> s.cache[a] == last.value)
    decreases |es|
  {
    if es != [] {
      var before, e := es[..|es| - 1], es[|es| - 1];
      CacheIs(mac, ip, before, a);
      hide Heard, InsertByHop, Cooling;
      var s := Run(FreshInterface(mac, ip), before);
      if e.Receive? { HeardCache(s, e.frame); }
    }
  }

  /** Every datagram goes to the address its hop announced last, less than 30 seconds ago. */
  lemma FreshlyMapped(mac: Mac, ip: u32, es: seq<Event>, e: Event, i: nat)
    requires i < |EmittedBy(Run(FreshInterface(mac, ip), es), e)|
    ensures var s0, x := FreshInterface(mac, ip), EmittedBy(Run(FreshInterface(mac, ip), es), e)[i];
      var last := LastHeard(s0, es + [e], x.hop);
      last.Some? && last.value.mac == x.mac && Run(s0, es + [e]).now < last.value.learnedAt + 30000
  {
    var s0 := FreshInterface(mac, ip);
    var s := Run(s0, es);
    assert (es + [e])[..|es|] == es;
    match e
    case Send(d, hop) => CacheIs(mac, ip, es, hop);
    case Receive(frame) =>
      HeardCache(s, frame);
      var m := Heard(s, frame).value;
      TaggedAt(m.senderIp, m.senderMac, For(s.pending, m.senderIp), i);
  }

  lemma {:induction false} TaggedAt(hop: u32, mac: Mac, ds: seq<Datagram>, i: nat)
    requires i < |Tagged(hop, mac, ds)|
    ensures Tagged(hop, mac, ds)[i].hop == hop && Tagged(hop, mac, ds)[i].mac == mac
  {
    if i > 0 { TaggedAt(hop, mac, ds[1..], i - 1); }
  }

  // ---- requests ----

  predicate Requests(s: Interface, e: Event, hop: u32) {
    e.Send? && e.hop == hop && hop !in s.cache && hop !in s.cooldown
  }

  /** The times at which an ARP request for `hop` was broadcast. */
  function RequestTimes(s: Interface, es: seq<Event>, hop: u32): seq<nat>
    decreases |es|
  {
    if es == [] then []
    else
      var before, e := es[..|es| - 1], es[|es| - 1];
      RequestTimes(s, before, hop) + (if Requests(Run(s, before), e, hop) then [Run(s, before).now] else [])
  }

  /** Cooling down is having asked less than five seconds ago. */
  predicate CoolingIs(s: Interface, times: seq<nat>, hop: u32) {
    && (hop in s.cooldown <==> times != [] && s.now < times[|times| - 1] + 5000)
    && (hop in s.cooldown ==> s.cooldown[hop] == times[|times| - 1])
  }

  predicate Spaced(times: seq<nat>, now: nat) {
    && (forall i, j :: 0 <= i < j < |times| ==> times[i] + 5000 <= times[j])
    && (forall i :: 0 <= i < |times| ==> times[i] <= now)
  }

  /** Two requests for the same address are at least five seconds apart. */
  lemma {:induction false} RequestsSpaced(mac: Mac, ip: u32, es: seq<Event>, hop: u32)
    ensures var s, times := Run(FreshInterface(mac, ip), es), RequestTimes(FreshInterface(mac, ip), es, hop);
      CoolingIs(s, times, hop) && Spaced(times, s.now)
    decreases |es|
  {
    if es != [] {
      var before, e := es[..|es| - 1], es[|es| - 1];
      RequestsSpaced(mac, ip, before, hop);
      var s, times := Run(FreshInterface(mac, ip), before), RequestTimes(FreshInterface(mac, ip), before, hop);
      RequestStep(s, e, hop, times);
    }
  }

  lemma RequestStep(s: Interface, e: Event, hop: u32, times: seq<nat>)
    requires CoolingIs(s, times, hop) && Spaced(times, s.now)
    ensures var times' := times + (if Requests(s, e, hop) then [s.now] else []);
      CoolingIs(Apply(s, e), times', hop) && Spaced(times', Apply(s, e).now)
  {
    hide InsertByHop, RecvFrame, Spaced, RequestFrame, DatagramFrame;
    assert times + [] == times;
    match e
    case Send(_, _) =>
      if Requests(s, e, hop) {
        AskAgain(times, s.now);
        assert (times + [s.now])[|times|] == s.now;
      }
    case Receive(frame) => HeardCache(s, frame);
    case Elapse(ms) => CoolingLater(s, times, hop, ms);
  }

  lemma CoolingLater(s: Interface, times: seq<nat>, hop: u32, ms: nat)
    requires CoolingIs(s, times, hop) && Spaced(times, s.now)
    ensures CoolingIs(Tick(s, ms), times, hop) && Spaced(times, Tick(s, ms).now)
  {
  }

  lemma AskAgain(times: seq<nat>, now: nat)
    requires Spaced(times, now) && (times != [] ==> times[|times| - 1] + 5000 <= now)
    ensures Spaced(times + [now], now)
  {
  }

  // ---- order and conservation ----

  /** Nothing waits for an address that is known. */
  predicate Apart(s: Interface) {
    forall hop :: hop in s.cache ==> For(s.pending, hop) == []
  }

  lemma ApplyApart(s: Interface, e: Event)
    requires Apart(s)
    ensures Apart(Apply(s, e))
  {
    var s' := Apply(s, e);
    match e
    case Send(d, hop) =>
      forall a | a in s'.cache ensures For(s'.pending, a) == [] {
        InsertFor(s.pending, Waiting(hop, d), a);
      }
    case Receive(frame) =>
      HeardCache(s, frame);
      var m := Heard(s, frame);
      if m.Some? {
        forall a | a in s'.cache ensures For(s'.pending, a) == [] { ForOthers(s.pending, m.value.senderIp, a); }
      }
    case Elapse(_) =>
  }

  lemma {:induction false} RunApart(mac: Mac, ip: u32, es: seq<Event>)
    ensures Apart(Run(FreshInterface(mac, ip), es))
    decreases |es|
  {
    if es != [] {
      RunApart(mac, ip, es[..|es| - 1]);
      ApplyApart(Run(FreshInterface(mac, ip), es[..|es| - 1]), es[|es| - 1]);
    }
  }

  /** One event, for one hop: what is accepted is emitted or queues up behind the rest. */
  lemma HopStep(s: Interface, e: Event, hop: u32)
    requires Apart(s)
    ensures OfHop(EmittedBy(s, e), hop) + For(Apply(s, e).pending, hop)
         == For(s.pending, hop) + (if e.Send? && e.hop == hop && !Drops(s, e) then [e.datagram] else [])
  {
    hide InsertByHop, For, NotFor, OfHop, Tagged, Heard;
    HopNone(hop);
    match e
    case Send(d, h) =>
      InsertFor(s.pending, Waiting(h, d), hop);
      if h in s.cache { OneOfHop(Sent(h, s.cache[h].mac, d), hop); }
    case Receive(frame) =>
      HeardCache(s, frame);
      var m := Heard(s, frame);
      if m.Some? {
        ForOthers(s.pending, m.value.senderIp, hop);
        OfHopTagged(m.value.senderIp, m.value.senderMac, For(s.pending, m.value.senderIp), hop);
      }
    case Elapse(_) =>
  }

  lemma HopNone(hop: u32)
    ensures OfHop([], hop) == [] && For([], hop) == []
  {
  }

  lemma OneOfHop(x: Sent, hop: u32)
    ensures OfHop([x], hop) == if x.hop == hop then [x.datagram] else []
  {
    assert [x][1..] == [];
  }

  /** Over every run and for every next hop: the datagrams that were not dropped leave exactly
      once and in the order they were given, and the rest are still waiting in that order. */
  lemma {:induction false} InOrder(mac: Mac, ip: u32, es: seq<Event>, hop: u32)
    ensures var s0 := FreshInterface(mac, ip);
      OfHop(Emitted(s0, es), hop) + For(Run(s0, es).pending, hop) == Accepted(s0, es, hop)
    decreases |es|
  {
    if es != [] {
      var s0, before, e := FreshInterface(mac, ip), es[..|es| - 1], es[|es| - 1];
      var s := Run(s0, before);
      InOrder(mac, ip, before, hop);
      RunApart(mac, ip, before);
      HopStep(s, e, hop);
      OfHopAppend(Emitted(s0, before), EmittedBy(s, e), hop);
      var sent, now := OfHop(Emitted(s0, before), hop), OfHop(EmittedBy(s, e), hop);
      Associative(sent, now, For(Apply(s, e).pending, hop));
      Associative(sent, For(s.pending, hop), if e.Send? && e.hop == hop && !Drops(s, e) then [e.datagram] else []);
    }
  }

  function Unaddressed(log: seq<Sent>): seq<Waiting> {
    if log == [] then [] else [Waiting(log[0].hop, log[0].datagram)] + Unaddressed(log[1..])
  }

  lemma {:induction false} UnaddressedAppend(a: seq<Sent>, b: seq<Sent>)
    ensures Unaddressed(a + b) == Unaddressed(a) + Unaddressed(b)
  {
    if a == [] {
      assert a + b == b;
    } else {
      UnaddressedAppend(a[1..], b);
      assert (a + b)[1..] == a[1..] + b;
      Associative([Waiting(a[0].hop, a[0].datagram)], Unaddressed(a[1..]), Unaddressed(b));
    }
  }

  lemma {:induction false} SplitPending(p: seq<Waiting>, hop: u32, mac: Mac)
    ensures multiset(p) == multiset(Unaddressed(Tagged(hop, mac, For(p, hop)))) + multiset(NotFor(p, hop))
  {
    hide Unaddressed, Tagged, For, NotFor;
    if p == [] {
      Unfold([], hop, mac);
    } else {
      var x, sent, kept := p[0], Unaddressed(Tagged(hop, mac, For(p[1..], hop))), NotFor(p[1..], hop);
      SplitPending(p[1..], hop, mac);
      Unfold(p, hop, mac);
      assert p == [x] + p[1..];
      Cons(x, p[1..]);
      Cons(x, sent);
      Cons(x, kept);
      Place(x, multiset(sent), multiset(kept));
    }
  }

  lemma Unfold(p: seq<Waiting>, hop: u32, mac: Mac)
    ensures p == [] ==> NotFor(p, hop) == [] && Unaddressed(Tagged(hop, mac, For(p, hop))) == []
    ensures p != [] ==>
      && NotFor(p, hop) == (if p[0].hop == hop then [] else [p[0]]) + NotFor(p[1..], hop)
      && Unaddressed(Tagged(hop, mac, For(p, hop)))
         == (if p[0].hop == hop then [p[0]] else []) + Unaddressed(Tagged(hop, mac, For(p[1..], hop)))
  {
    if p != [] {
      var rest := For(p[1..], hop);
      TaggedCons(hop, mac, p[0].datagram, rest);
      assert [] + rest == rest;
      var sent := Unaddressed(Tagged(hop, mac, rest));
      assert [] + sent == sent;
    }
  }

  lemma Place<T>(x: T, a: multiset<T>, b: multiset<T>)
    ensures multiset{x} + (a + b) == (multiset{x} + a) + b == a + (multiset{x} + b)
  {
  }

  lemma Cons<T>(x: T, xs: seq<T>)
    ensures multiset([x] + xs) == multiset{x} + multiset(xs)
  {
  }

  lemma TaggedCons(hop: u32, mac: Mac, d: Datagram, ds: seq<Datagram>)
    ensures Unaddressed(Tagged(hop, mac, [d] + ds)) == [Waiting(hop, d)] + Unaddressed(Tagged(hop, mac, ds))
  {
    assert ([d] + ds)[1..] == ds;
    assert Tagged(hop, mac, [d] + ds)[1..] == Tagged(hop, mac, ds);
  }

  lemma InsertMultiset(p: seq<Waiting>, w: Waiting)
    ensures multiset(InsertByHop(p, w)) == multiset(p) + multiset{w}
  {
    hide InsertByHop;
    var k := InsertIs(p, w);
    assert p == p[..k] + p[k..];
    Cons(w, p[k..]);
    Place(w, multiset(p[..k]), multiset(p[k..]));
  }

  lemma ConserveStep(s: Interface, e: Event)
    ensures multiset(Unaddressed(EmittedBy(s, e))) + multiset(Apply(s, e).pending) + multiset(DroppedBy(s, e))
         == multiset(s.pending) + multiset(GivenBy(e))
  {
    match e
    case Send(d, hop) =>
      InsertMultiset(s.pending, Waiting(hop, d));
      if hop in s.cache { assert [Sent(hop, s.cache[hop].mac, d)][1..] == []; }
    case Receive(frame) =>
      HeardCache(s, frame);
      var m := Heard(s, frame);
      if m.Some? { SplitPending(s.pending, m.value.senderIp, m.value.senderMac); }
    case Elapse(_) =>
  }

  /** Over every run: every datagram given has been emitted, is pending or was dropped, once. */
  lemma {:induction false} Conservation(mac: Mac, ip: u32, es: seq<Event>)
    ensures var s0 := FreshInterface(mac, ip);
      multiset(Given(es))
      == multiset(Unaddressed(Emitted(s0, es))) + multiset(Run(s0, es).pending) + multiset(Dropped(s0, es))
    decreases |es|
  {
    if es != [] {
      var s0, before, e := FreshInterface(mac, ip), es[..|es| - 1], es[|es| - 1];
      var s := Run(s0, before);
      Conservation(mac, ip, before);
      ConserveStep(s, e);
      UnaddressedAppend(Emitted(s0, before), EmittedBy(s, e));
      Balance(Given(before), GivenBy(e), Unaddressed(Emitted(s0, before)), Unaddressed(EmittedBy(s, e)),
              s.pending, Apply(s, e).pending, Dropped(s0, before), DroppedBy(s, e));
    }
  }

  lemma Balance<T>(g: seq<T>, g': seq<T>, sent: seq<T>, sent': seq<T>, p: seq<T>, p': seq<T>, d: seq<T>, d': seq<T>)
    requires multiset(g) == multiset(sent) + multiset(p) + multiset(d)
    requires multiset(sent') + multiset(p') + multiset(d') == multiset(p) + multiset(g')
    ensures multiset(g + g') == multiset(sent + sent') + multiset(p') + multiset(d + d')
  {
    Rearrange(multiset(g), multiset(g'), multiset(sent), multiset(sent'), multiset(p), multiset(p'), multiset(d), multiset(d'));
  }

  lemma Rearrange<T>(g: multiset<T>, g': multiset<T>, e: multiset<T>, e': multiset<T>,
                     p: multiset<T>, p': multiset<T>, d: multiset<T>, d': multiset<T>)
    requires g == e + p + d && e' + p' + d' == p + g'
    ensures g + g' == (e + e') + p' + (d + d')
  {
    assert g + g' == (e + d) + (p + g');
    assert (e + d) + (e' + p' + d') == (e + e') + p' + (d + d');
  }

  // ---- the frames ----

  /** The IPv4 frames among those queued. */
  function Ipv4Frames(out: seq<Frame>): seq<Frame> {
    if out == [] then [] else (if out[0].payload.Ipv4? then [out[0]] else []) + Ipv4Frames(out[1..])
  }

  function FramesOf(src: Mac, log: seq<Sent>): seq<Frame> {
    if log == [] then [] else [Frame(src, log[0].mac, Ipv4(Some(log[0].datagram)))] + FramesOf(src, log[1..])
  }

  lemma {:induction false} Ipv4FramesAppend(a: seq<Frame>, b: seq<Frame>)
    ensures Ipv4Frames(a + b) == Ipv4Frames(a) + Ipv4Frames(b)
  {
    if a == [] {
      assert a + b == b;
    } else {
      Ipv4FramesAppend(a[1..], b);
      assert (a + b)[1..] == a[1..] + b;
      Associative(if a[0].payload.Ipv4? then [a[0]] else [], Ipv4Frames(a[1..]), Ipv4Frames(b));
    }
  }

  lemma {:induction false} FramesOfAppend(src: Mac, a: seq<Sent>, b: seq<Sent>)
    ensures FramesOf(src, a + b) == FramesOf(src, a) + FramesOf(src, b)
  {
    if a == [] {
      assert a + b == b;
    } else {
      FramesOfAppend(src, a[1..], b);
      assert (a + b)[1..] == a[1..] + b;
      Associative([Frame(src, a[0].mac, Ipv4(Some(a[0].datagram)))], FramesOf(src, a[1..]), FramesOf(src, b));
    }
  }

  lemma {:induction false} TaggedFrames(src: Mac, hop: u32, mac: Mac, ds: seq<Datagram>)
    ensures FramesOf(src, Tagged(hop, mac, ds)) == Frames(src, mac, ds) == Ipv4Frames(Frames(src, mac, ds))
  {
    if ds != [] {
      TaggedFrames(src, hop, mac, ds[1..]);
      assert Tagged(hop, mac, ds)[1..] == Tagged(hop, mac, ds[1..]);
      assert Frames(src, mac, ds)[1..] == Frames(src, mac, ds[1..]);
    }
  }

  lemma OneFrame(f: Frame)
    ensures Ipv4Frames([f]) == if f.payload.Ipv4? then [f] else []
  {
    assert [f][1..] == [];
  }

  lemma FrameStep(s: Interface, e: Event)
    ensures Apply(s, e).mac == s.mac
    ensures Ipv4Frames(Apply(s, e).out) == Ipv4Frames(s.out) + FramesOf(s.mac, EmittedBy(s, e))
  {
    match e
    case Send(d, hop) =>
      if hop in s.cache {
        var f := DatagramFrame(s.mac, s.cache[hop].mac, d);
        OneFrame(f);
        Ipv4FramesAppend(s.out, [f]);
        assert [Sent(hop, s.cache[hop].mac, d)][1..] == [];
      } else {
        OneFrame(RequestFrame(s, hop));
        Ipv4FramesAppend(s.out, [RequestFrame(s, hop)]);
      }
    case Receive(frame) =>
      if Heard(s, frame).Some? { LearnFrames(s, frame, Heard(s, frame).value); }
    case Elapse(_) =>
  }

  lemma LearnFrames(s: Interface, frame: Frame, m: ArpMessage)
    ensures Ipv4Frames(Answer(Learn(s, m), frame, m).out)
         == Ipv4Frames(s.out) + FramesOf(s.mac, Tagged(m.senderIp, m.senderMac, For(s.pending, m.senderIp)))
  {
    var ds := For(s.pending, m.senderIp);
    var s1 := Learn(s, m);
    TaggedFrames(s.mac, m.senderIp, m.senderMac, ds);
    Ipv4FramesAppend(s.out, Frames(s.mac, m.senderMac, ds));
    var reply := Frame(s.mac, frame.src, ArpPayload(Some(ArpMessage(Reply, s.mac, s.ip, m.senderMac, m.senderIp))));
    OneFrame(reply);
    Ipv4FramesAppend(s1.out, [reply]);
  }

  /** The IPv4 frames queued over a run are the emitted datagrams, each to the address it was
      sent to, and no others. */
  lemma {:induction false} FramesAreEmitted(mac: Mac, ip: u32, es: seq<Event>)
    ensures var s := Run(FreshInterface(mac, ip), es);
      s.mac == mac && Ipv4Frames(s.out) == FramesOf(mac, Emitted(FreshInterface(mac, ip), es))
    decreases |es|
  {
    if es != [] {
      var s0, before, e := FreshInterface(mac, ip), es[..|es| - 1], es[|es| - 1];
      FramesAreEmitted(mac, ip, before);
      FrameStep(Run(s0, before), e);
      FramesOfAppend(mac, Emitted(s0, before), EmittedBy(Run(s0, before), e));
    }
  }

  // ---- the requests ----

  predicate IsRequestFor(f: Frame, hop: u32) {
    f.payload.ArpPayload? && f.payload.message.Some?
    && f.payload.message.value.opcode == Request && f.payload.message.value.targetIp == hop
  }

  /** The ARP requests for `hop` among the frames queued. */
  function RequestFrames(out: seq<Frame>, hop: u32): seq<Frame> {
    if out == [] then [] else (if IsRequestFor(out[0], hop) then [out[0]] else []) + RequestFrames(out[1..], hop)
  }

  lemma {:induction false} RequestFramesAppend(a: seq<Frame>, b: seq<Frame>, hop: u32)
    ensures RequestFrames(a + b, hop) == RequestFrames(a, hop) + RequestFrames(b, hop)
  {
    if a == [] {
      assert a + b == b;
    } else {
      RequestFramesAppend(a[1..], b, hop);
      assert (a + b)[1..] == a[1..] + b;
      Associative(if IsRequestFor(a[0], hop) then [a[0]] else [], RequestFrames(a[1..], hop), RequestFrames(b, hop));
    }
  }

  lemma OneRequest(f: Frame, hop: u32)
    ensures RequestFrames([f], hop) == if IsRequestFor(f, hop) then [f] else []
  {
    assert [f][1..] == [];
  }

  lemma {:induction false} NoRequests(src: Mac, dst: Mac, ds: seq<Datagram>, hop: u32)
    ensures RequestFrames(Frames(src, dst, ds), hop) == []
  {
    if ds != [] {
      NoRequests(src, dst, ds[1..], hop);
      assert Frames(src, dst, ds)[1..] == Frames(src, dst, ds[1..]);
    }
  }

  /** The request for `hop`, broadcast with the interface's own addresses as the sender's. */
  function TheRequest(mac: Mac, ip: u32, hop: u32): Frame {
    Frame(mac, 0xffff_ffff_ffff, ArpPayload(Some(ArpMessage(Request, mac, ip, 0, hop))))
  }

  /** An event queues one request for `hop`, or none. */
  lemma RequestFrameStep(s: Interface, e: Event, hop: u32)
    ensures Apply(s, e).mac == s.mac && Apply(s, e).ip == s.ip
    ensures RequestFrames(Apply(s, e).out, hop)
         == RequestFrames(s.out, hop) + (if Requests(s, e, hop) then [TheRequest(s.mac, s.ip, hop)] else [])
  {
    hide RequestFrames;
    assert RequestFrames(s.out, hop) + [] == RequestFrames(s.out, hop);
    match e
    case Send(d, h) =>
      var f := if h in s.cache then DatagramFrame(s.mac, s.cache[h].mac, d) else RequestFrame(s, h);
      OneRequest(f, hop);
      RequestFramesAppend(s.out, [f], hop);
    case Receive(frame) =>
      if Heard(s, frame).Some? { LearnNoRequests(s, frame, Heard(s, frame).value, hop); }
    case Elapse(_) =>
  }

  lemma LearnNoRequests(s: Interface, frame: Frame, m: ArpMessage, hop: u32)
    ensures RequestFrames(Answer(Learn(s, m), frame, m).out, hop) == RequestFrames(s.out, hop)
  {
    hide RequestFrames, Frames, For, NotFor;
    var sent := Frames(s.mac, m.senderMac, For(s.pending, m.senderIp));
    NoRequests(s.mac, m.senderMac, For(s.pending, m.senderIp), hop);
    RequestFramesAppend(s.out, sent, hop);
    var reply := Frame(s.mac, frame.src, ArpPayload(Some(ArpMessage(Reply, s.mac, s.ip, m.senderMac, m.senderIp))));
    OneRequest(reply, hop);
    RequestFramesAppend(s.out + sent, [reply], hop);
  }

  /** Over every run the requests for an address that are queued are exactly one for each of
      the times in `RequestTimes`, in order. */
  lemma {:induction false} RequestsQueued(mac: Mac, ip: u32, es: seq<Event>, hop: u32)
    ensures var s0 := FreshInterface(mac, ip);
      && Run(s0, es).mac == mac && Run(s0, es).ip == ip
      && RequestFrames(Run(s0, es).out, hop) == seq(|RequestTimes(s0, es, hop)|, _ => TheRequest(mac, ip, hop))
    decreases |es|
  {
    hide Apply, RequestFrames, Requests, TheRequest;
    var s0 := FreshInterface(mac, ip);
    if es == [] {
      NoneQueued(mac, ip, hop);
    } else {
      RequestsQueued(mac, ip, es[..|es| - 1], hop);
      RequestFrameStep(Run(s0, es[..|es| - 1]), es[|es| - 1], hop);
    }
  }

  lemma NoneQueued(mac: Mac, ip: u32, hop: u32)
    ensures RequestFrames(FreshInterface(mac, ip).out, hop) == []
  {
  }

  // ---- the replies, and what is handed up ----

  predicate IsReply(f: Frame) {
    f.payload.ArpPayload? && f.payload.message.Some? && f.payload.message.value.opcode == Reply
  }

  /** The ARP replies among the frames queued. */
  function ReplyFrames(out: seq<Frame>): seq<Frame> {
    if out == [] then [] else (if IsReply(out[0]) then [out[0]] else []) + ReplyFrames(out[1..])
  }

  /** A request for this interface's IP address. */
  predicate AsksFor(mac: Mac, ip: u32, e: Event) {
    e.Receive? && ToMe(mac, e.frame) && e.frame.payload.ArpPayload? && e.frame.payload.message.Some?
    && e.frame.payload.message.value.opcode == Request && e.frame.payload.message.value.targetIp == ip
  }

  /** To each request for `ip` one reply, to the Ethernet address the request came from, with this
      interface's addresses as the sender's and the requester's as the target's. */
  function Replies(mac: Mac, ip: u32, es: seq<Event>): seq<Frame>
    decreases |es|
  {
    if es == [] then []
    else
      var before, e := es[..|es| - 1], es[|es| - 1];
      Replies(mac, ip, before)
      + (if AsksFor(mac, ip, e) then
           var m := e.frame.payload.message.value;
           [Frame(mac, e.frame.src, ArpPayload(Some(ArpMessage(Reply, mac, ip, m.senderMac, m.senderIp))))]
         else [])
  }

  lemma {:induction false} ReplyFramesAppend(a: seq<Frame>, b: seq<Frame>)
    ensures ReplyFrames(a + b) == ReplyFrames(a) + ReplyFrames(b)
  {
    if a == [] {
      assert a + b == b;
    } else {
      ReplyFramesAppend(a[1..], b);
      assert (a + b)[1..] == a[1..] + b;
      Associative(if IsReply(a[0]) then [a[0]] else [], ReplyFrames(a[1..]), ReplyFrames(b));
    }
  }

  lemma OneReply(f: Frame)
    ensures ReplyFrames([f]) == if IsReply(f) then [f] else []
  {
    assert [f][1..] == [];
  }

  lemma {:induction false} NoReplies(src: Mac, dst: Mac, ds: seq<Datagram>)
    ensures ReplyFrames(Frames(src, dst, ds)) == []
  {
    if ds != [] {
      NoReplies(src, dst, ds[1..]);
      assert Frames(src, dst, ds)[1..] == Frames(src, dst, ds[1..]);
    }
  }

  lemma ReplyStep(s: Interface, e: Event)
    ensures ReplyFrames(Apply(s, e).out) == ReplyFrames(s.out)
         + (if AsksFor(s.mac, s.ip, e) then
              var m := e.frame.payload.message.value;
              [Frame(s.mac, e.frame.src, ArpPayload(Some(ArpMessage(Reply, s.mac, s.ip, m.senderMac, m.senderIp))))]
            else [])
  {
    hide ReplyFrames;
    assert ReplyFrames(s.out) + [] == ReplyFrames(s.out);
    match e
    case Send(d, h) =>
      var f := if h in s.cache then DatagramFrame(s.mac, s.cache[h].mac, d) else RequestFrame(s, h);
      OneReply(f);
      ReplyFramesAppend(s.out, [f]);
    case Receive(frame) =>
      if Heard(s, frame).Some? { LearnReplies(s, frame, Heard(s, frame).value); }
    case Elapse(_) =>
  }

  lemma LearnReplies(s: Interface, frame: Frame, m: ArpMessage)
    ensures var out := Answer(Learn(s, m), frame, m).out;
      ReplyFrames(out) == ReplyFrames(s.out)
        + (if m.opcode == Request && m.targetIp == s.ip
           then [Frame(s.mac, frame.src, ArpPayload(Some(ArpMessage(Reply, s.mac, s.ip, m.senderMac, m.senderIp))))] else [])
  {
    hide ReplyFrames, Frames, For, NotFor;
    var sent := Frames(s.mac, m.senderMac, For(s.pending, m.senderIp));
    NoReplies(s.mac, m.senderMac, For(s.pending, m.senderIp));
    ReplyFramesAppend(s.out, sent);
    assert ReplyFrames(s.out) + [] == ReplyFrames(s.out);
    var reply := Frame(s.mac, frame.src, ArpPayload(Some(ArpMessage(Reply, s.mac, s.ip, m.senderMac, m.senderIp))));
    OneReply(reply);
    ReplyFramesAppend(s.out + sent, [reply]);
  }

  /** Over every run the replies queued are exactly one for each request received for the
      interface's own address, in order. */
  lemma {:induction false} RepliesQueued(mac: Mac, ip: u32, es: seq<Event>)
    ensures ReplyFrames(Run(FreshInterface(mac, ip), es).out) == Replies(mac, ip, es)
    decreases |es|
  {
    hide Apply, ReplyFrames, AsksFor;
    if es == [] {
      NoReplyQueued(mac, ip);
    } else {
      RepliesQueued(mac, ip, es[..|es| - 1]);
      RequestsQueued(mac, ip, es[..|es| - 1], 0);
      ReplyStep(Run(FreshInterface(mac, ip), es[..|es| - 1]), es[|es| - 1]);
    }
  }

  lemma NoReplyQueued(mac: Mac, ip: u32)
    ensures ReplyFrames(FreshInterface(mac, ip).out) == []
  {
  }

  /** What the interface hands up over a run. */
  function HandedUp(s: Interface, es: seq<Event>): seq<Datagram>
    decreases |es|
  {
    if es == [] then []
    else
      var before, e := es[..|es| - 1], es[|es| - 1];
      var up := if e.Receive? then RecvFrame(Run(s, before), e.frame).1 else None;
      HandedUp(s, before) + (if up.Some? then [up.value] else [])
  }

  /** The datagrams in the IPv4 frames for `mac`, as far as they parse. */
  function Arrived(mac: Mac, es: seq<Event>): seq<Datagram>
    decreases |es|
  {
    if es == [] then []
    else
      var before, e := es[..|es| - 1], es[|es| - 1];
      Arrived(mac, before)
      + (if e.Receive? && ToMe(mac, e.frame) && e.frame.payload.Ipv4? && e.frame.payload.datagram.Some?
         then [e.frame.payload.datagram.value] else [])
  }

  /** Exactly the datagrams that arrive for the interface are handed up, in order. */
  lemma {:induction false} HandedUpIs(mac: Mac, ip: u32, es: seq<Event>)
    ensures HandedUp(FreshInterface(mac, ip), es) == Arrived(mac, es)
    decreases |es|
  {
    if es != [] {
      HandedUpIs(mac, ip, es[..|es| - 1]);
      hide Answer, Learn;
      RequestsQueued(mac, ip, es[..|es| - 1], 0);
    }
  }

  function Elapsed(es: seq<Event>): nat
    decreases |es|
  {
    if es == [] then 0 else Elapsed(es[..|es| - 1]) + (if es[|es| - 1].Elapse? then es[|es| - 1].ms else 0)
  }

  /** The interface's clock is the time that has passed. */
  lemma {:induction false} ClockIs(mac: Mac, ip: u32, es: seq<Event>)
    ensures Run(FreshInterface(mac, ip), es).now == Elapsed(es)
    decreases |es|
  {
    if es != [] { ClockIs(mac, ip, es[..|es| - 1]); }
  }
}
