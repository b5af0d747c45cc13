/** The network interface as a value (network_interface.cc). */
module Arp {
  import opened Types
  import Ipv4Wire

  type Datagram = Ipv4Wire.IPv4Datagram

  /** A 48-bit Ethernet address. */
  type Mac = x: int | 0 <= x < 0x1_0000_0000_0000

  const BROADCAST: Mac := 0xffff_ffff_ffff

  datatype Opcode = Request | Reply

  datatype ArpMessage = ArpMessage(opcode: Opcode, senderMac: Mac, senderIp: u32, targetMac: Mac, targetIp: u32)

  /** What a frame carries; `None` stands for a payload that does not parse. */
  datatype Payload = Ipv4(datagram: Option<Datagram>) | ArpPayload(message: Option<ArpMessage>) | OtherType

  datatype Frame = Frame(src: Mac, dst: Mac, payload: Payload)

  datatype Mapping = Mapping(mac: Mac, learnedAt: nat)

  /** An element of the `pending` multimap, which is ordered by `hop`. */
  datatype Waiting = Waiting(hop: u32, datagram: Datagram)

  const MAPPING_TTL: nat := 30000
  const REQUEST_COOLDOWN: nat := 5000

  datatype Interface = Interface(
    mac: Mac, ip: u32, out: seq<Frame>, now: nat, cache: map<u32, Mapping>, cooldown: map<u32, nat>, pending: seq<Waiting>)

  function FreshInterface(mac: Mac, ip: u32): Interface {
    Interface(mac, ip, [], 0, map[], map[], [])
  }

  /** `multimap::insert`: after every element whose key is not greater. */
  function InsertByHop(p: seq<Waiting>, w: Waiting): seq<Waiting>
    decreases |p|
  {
    if p == [] || p[|p| - 1].hop <= w.hop then p + [w]
    else InsertByHop(p[..|p| - 1], w) + [p[|p| - 1]]
  }

  function RequestFrame(s: Interface, hop: u32): Frame {
    Frame(s.mac, BROADCAST, ArpPayload(Some(ArpMessage(Request, s.mac, s.ip, 0, hop))))
  }

  function DatagramFrame(src: Mac, dst: Mac, d: Datagram): Frame {
    Frame(src, dst, Ipv4(Some(d)))
  }

  /** `send_datagram` */
  function SendDatagram(s: Interface, d: Datagram, hop: u32): Interface {
    if hop in s.cache then s.(out := s.out + [DatagramFrame(s.mac, s.cache[hop].mac, d)])
    else if hop in s.cooldown then s
    else
      s.(pending := InsertByHop(s.pending, Waiting(hop, d)), cooldown := s.cooldown[hop := s.now],
         out := s.out + [RequestFrame(s, hop)])
  }

  /** The datagrams that wait for `ip`, in order. */
  function For(p: seq<Waiting>, ip: u32): seq<Datagram> {
    if p == [] then [] else (if p[0].hop == ip then [p[0].datagram] else []) + For(p[1..], ip)
  }

  function NotFor(p: seq<Waiting>, ip: u32): seq<Waiting> {
    if p == [] then [] else (if p[0].hop == ip then [] else [p[0]]) + NotFor(p[1..], ip)
  }

  function Frames(src: Mac, dst: Mac, ds: seq<Datagram>): seq<Frame> {
    if ds == [] then [] else [DatagramFrame(src, dst, ds[0])] + Frames(src, dst, ds[1..])
  }

  /** Learning a mapping sends everything that waited for it. */
  function Learn(s: Interface, m: ArpMessage): Interface {
    s.(cache := s.cache[m.senderIp := Mapping(m.senderMac, s.now)],
       out := s.out + Frames(s.mac, m.senderMac, For(s.pending, m.senderIp)),
       pending := NotFor(s.pending, m.senderIp))
  }

  function Answer(s: Interface, frame: Frame, m: ArpMessage): Interface {
    if m.opcode == Request && m.targetIp == s.ip then
      s.(out := s.out + [Frame(s.mac, frame.src, ArpPayload(Some(ArpMessage(Reply, s.mac, s.ip, m.senderMac, m.senderIp))))])
    else s
  }

  predicate Addressed(s: Interface, frame: Frame) {
    !frame.payload.OtherType? && (frame.dst == BROADCAST || frame.dst == s.mac)
  }

  /** `recv_frame`; the second component is the datagram handed up */
  function RecvFrame(s: Interface, frame: Frame): (Interface, Option<Datagram>) {
    if !Addressed(s, frame) then (s, None)
    else if frame.payload.Ipv4? then (s, frame.payload.datagram)
    else if frame.payload.message.None? then (s, None)
    else (Answer(Learn(s, frame.payload.message.value), frame, frame.payload.message.value), None)
  }

  function Fresh(cache: map<u32, Mapping>, now: nat): map<u32, Mapping> {
    map ip | ip in cache && now < cache[ip].learnedAt + MAPPING_TTL :: cache[ip]
  }

  function Cooling(cooldown: map<u32, nat>, now: nat): map<u32, nat> {
    map ip | ip in cooldown && now < cooldown[ip] + REQUEST_COOLDOWN :: cooldown[ip]
  }

  /** `tick` */
  function Tick(s: Interface, ms: nat): Interface {
    var now := s.now + ms;
    s.(now := now, cache := Fresh(s.cache, now), cooldown := Cooling(s.cooldown, now))
  }

  // ---- the pending queue ----

  predicate Sorted(p: seq<Waiting>) {
    forall i, j :: 0 <= i <= j < |p| ==> p[i].hop <= p[j].hop
  }

  lemma {:induction false} InsertIs(p: seq<Waiting>, w: Waiting) returns (k: nat)
    ensures k <= |p| && InsertByHop(p, w) == p[..k] + ([w] + p[k..])
    ensures forall i :: k <= i < |p| ==> w.hop < p[i].hop
    ensures k > 0 ==> p[k - 1].hop <= w.hop
    decreases |p|
  {
    k := |p|;
    if p != [] && p[|p| - 1].hop > w.hop {
      var q := p[..|p| - 1];
      k := InsertIs(q, w);
      assert forall i :: 0 <= i < |q| ==> q[i] == p[i];
      assert p[..k] + ([w] + p[k..]) == (q[..k] + ([w] + q[k..])) + [p[|p| - 1]];
    } else {
      assert p[..k] + ([w] + p[k..]) == p + [w];
    }
  }

  lemma InsertSorted(p: seq<Waiting>, w: Waiting)
    requires Sorted(p)
    ensures Sorted(InsertByHop(p, w))
  {
    var k := InsertIs(p, w);
  }

  lemma {:induction false} ForAppend(a: seq<Waiting>, b: seq<Waiting>, ip: u32)
    ensures For(a + b, ip) == For(a, ip) + For(b, ip)
  {
    if a == [] {
      assert a + b == b;
    } else {
      ForAppend(a[1..], b, ip);
      assert (a + b)[1..] == a[1..] + b;
      Associative(if a[0].hop == ip then [a[0].datagram] else [], For(a[1..], ip), For(b, ip));
    }
  }

  lemma {:induction false} NotForAppend(a: seq<Waiting>, b: seq<Waiting>, ip: u32)
    ensures NotFor(a + b, ip) == NotFor(a, ip) + NotFor(b, ip)
  {
    if a == [] {
      assert a + b == b;
    } else {
      NotForAppend(a[1..], b, ip);
      assert (a + b)[1..] == a[1..] + b;
      Associative(if a[0].hop == ip then [] else [a[0]], NotFor(a[1..], ip), NotFor(b, ip));
    }
  }

  lemma {:induction false} ForNone(p: seq<Waiting>, ip: u32)
    ensures For(p, ip) == [] <==> forall i :: 0 <= i < |p| ==> p[i].hop != ip
    ensures (forall i :: 0 <= i < |p| ==> p[i].hop != ip) ==> NotFor(p, ip) == p
  {
    if p != [] {
      ForNone(p[1..], ip);
      assert forall i :: 0 <= i < |p[1..]| ==> p[1..][i] == p[i + 1];
      assert p == [p[0]] + p[1..];
      if i :| 0 <= i < |p| && p[i].hop == ip { assert i == 0 || p[1..][i - 1] == p[i]; }
    }
  }

  lemma ForOne(w: Waiting, ip: u32)
    ensures For([w], ip) == (if w.hop == ip then [w.datagram] else [])
    ensures NotFor([w], ip) == (if w.hop == ip then [] else [w])
  {
    assert [w][1..] == [];
  }

  /** A new element queues up behind those with the same key. */
  lemma InsertFor(p: seq<Waiting>, w: Waiting, ip: u32)
    ensures For(InsertByHop(p, w), ip) == For(p, ip) + (if w.hop == ip then [w.datagram] else [])
  {
    hide InsertByHop, For;
    var k := InsertIs(p, w);
    InsertForAt(p, w, ip, k);
  }

  lemma InsertForAt(p: seq<Waiting>, w: Waiting, ip: u32, k: nat)
    requires k <= |p| && forall i :: k <= i < |p| ==> w.hop < p[i].hop
    ensures For(p[..k] + ([w] + p[k..]), ip) == For(p, ip) + (if w.hop == ip then [w.datagram] else [])
  {
    hide For;
    ForAppend(p[..k], [w] + p[k..], ip);
    ForAppend([w], p[k..], ip);
    ForAppend(p[..k], p[k..], ip);
    assert p == p[..k] + p[k..];
    ForOne(w, ip);
    if w.hop == ip { ForNone(p[k..], ip); }
  }

  lemma {:induction false} NotForMembers(p: seq<Waiting>, ip: u32)
    ensures forall w :: w in NotFor(p, ip) <==> w in p && w.hop != ip
  {
    if p != [] {
      NotForMembers(p[1..], ip);
      assert p == [p[0]] + p[1..];
    }
  }

  lemma TailSorted(p: seq<Waiting>)
    requires Sorted(p) && p != []
    ensures Sorted(p[1..]) && forall w :: w in p[1..] ==> p[0].hop <= w.hop
  {
    assert forall i :: 0 <= i < |p[1..]| ==> p[1..][i] == p[i + 1];
  }

  lemma {:induction false} NotForSorted(p: seq<Waiting>, ip: u32)
    requires Sorted(p)
    ensures Sorted(NotFor(p, ip))
  {
    if p != [] {
      var rest := NotFor(p[1..], ip);
      TailSorted(p);
      NotForSorted(p[1..], ip);
      NotForMembers(p[1..], ip);
      forall i | 0 <= i < |rest| ensures p[0].hop <= rest[i].hop { assert rest[i] in rest; }
    }
  }

  lemma {:induction false} ForOthers(p: seq<Waiting>, ip: u32, ip': u32)
    ensures For(NotFor(p, ip), ip') == if ip == ip' then [] else For(p, ip')
  {
    if p != [] {
      ForOthers(p[1..], ip, ip');
      var rest := NotFor(p[1..], ip);
      if p[0].hop != ip { assert ([p[0]] + rest)[1..] == rest; } else { assert [] + rest == rest; }
    }
  }
}

/** The interface object. */
module NetworkInterfaces {
  import opened Types
  import opened Arp

  class NetworkInterface {
    const mac: Mac
    const ip: u32
    var framesOut: seq<Frame>
    var now: nat
    var cache: map<u32, Mapping>
    var cooldown: map<u32, nat>
    var pending: seq<Waiting>

    ghost predicate Valid()
      reads this
    {
      Sorted(pending)
    }

    function Model(): Interface
      reads this
    {
      Interface(mac, ip, framesOut, now, cache, cooldown, pending)
    }

    constructor (mac: Mac, ip: u32)
      ensures Valid() && Model() == FreshInterface(mac, ip)
    {
      this.mac, this.ip := mac, ip;
      framesOut, now, cache, cooldown, pending := [], 0, map[], map[], [];
    }

    method SendDatagram(d: Datagram, nextHop: u32)
      requires Valid()
      modifies this
      ensures Valid() && Model() == Arp.SendDatagram(old(Model()), d, nextHop)
    {
      if nextHop in cache {
        framesOut := framesOut + [Frame(mac, cache[nextHop].mac, Ipv4(Some(d)))];
        return;
      }
      if nextHop in cooldown {
        return;
      }
      var request := ArpMessage(Request, mac, ip, 0, nextHop);
      InsertSorted(pending, Waiting(nextHop, d));
      pending := InsertByHop(pending, Waiting(nextHop, d));
      cooldown := cooldown[nextHop := now];
      framesOut := framesOut + [Frame(mac, BROADCAST, ArpPayload(Some(request)))];
    }

    /** `lower_bound` */
    method LowerBound(key: u32) returns (c: nat)
      ensures c <= |pending| && forall i :: 0 <= i < c ==> pending[i].hop < key
      ensures c < |pending| ==> key <= pending[c].hop
    {
      c := 0;
      while c < |pending| && pending[c].hop < key
        invariant c <= |pending| && forall i :: 0 <= i < c ==> pending[i].hop < key
      {
        c := c + 1;
      }
    }

    /** The loop that sends and erases what waited for `sender`. */
    method SendPending(sender: u32, dst: Mac)
      requires Valid()
      modifies this`framesOut, this`pending
      ensures Valid() && pending == NotFor(old(pending), sender)
      ensures framesOut == old(framesOut) + Frames(mac, dst, For(old(pending), sender))
    {
      hide For, NotFor;
      NotForSorted(pending, sender);
      var c := LowerBound(sender);
      ghost var front, rest := pending[..c], pending[c..];
      assert pending == front + rest;
      ForNone(front, sender);
      assert [] + For(pending, sender) == For(pending, sender);
      ghost var sent: seq<Datagram> := [];
      while c < |pending| && pending[c].hop == sender
        invariant c == |front| && pending == front + rest && For(front, sender) == []
        invariant forall i :: 0 <= i < |front| ==> front[i].hop != sender
        invariant Sorted(rest) && (rest != [] ==> sender <= rest[0].hop)
        invariant framesOut == old(framesOut) + Frames(mac, dst, sent)
        invariant sent + For(front + rest, sender) == For(old(pending), sender)
        invariant NotFor(front + rest, sender) == NotFor(old(pending), sender)
        decreases |rest|
      {
        var w := pending[c];
        NextPending(pending, front, rest, w, sender, sent);
        FramesAppend(mac, dst, sent, w.datagram);
        framesOut := framesOut + [Frame(mac, dst, Ipv4(Some(w.datagram)))];
        pending := pending[..c] + pending[c + 1..];
        sent, rest := sent + [w.datagram], rest[1..];
      }
      assert rest != [] ==> rest[0] == pending[c];
      NoneLeft(front, rest, sender);
      assert sent + [] == sent;
    }

    /** One pass of the loop. */
    static lemma NextPending(p: seq<Waiting>, front: seq<Waiting>, rest: seq<Waiting>, w: Waiting, ip: u32, sent: seq<Datagram>)
      requires p == front + rest && rest != [] && w == p[|front|] && w.hop == ip && For(front, ip) == [] && Sorted(rest)
      ensures p[..|front|] + p[|front| + 1..] == front + rest[1..]
      ensures (sent + [w.datagram]) + For(front + rest[1..], ip) == sent + For(front + rest, ip)
      ensures NotFor(front + rest[1..], ip) == NotFor(front + rest, ip)
      ensures Sorted(rest[1..]) && (rest[1..] != [] ==> ip <= rest[1..][0].hop)
    {
      hide For, NotFor;
      assert w == rest[0] && rest == [w] + rest[1..];
      DropHead(front, w, rest[1..], ip);
      Associative(sent, [w.datagram], For(front + rest[1..], ip));
      hide Sorted;
      TailSorted(rest);
    }

    static lemma NoneLeft(front: seq<Waiting>, rest: seq<Waiting>, ip: u32)
      requires forall i :: 0 <= i < |front| ==> front[i].hop != ip
      requires Sorted(rest) && (rest != [] ==> ip < rest[0].hop)
      ensures For(front + rest, ip) == [] && NotFor(front + rest, ip) == front + rest
    {
      ForNone(front + rest, ip);
    }

    static lemma DropHead(front: seq<Waiting>, w: Waiting, rest: seq<Waiting>, ip: u32)
      requires w.hop == ip && For(front, ip) == []
      ensures For(front + ([w] + rest), ip) == [w.datagram] + For(front + rest, ip)
      ensures NotFor(front + ([w] + rest), ip) == NotFor(front + rest, ip)
    {
      hide For, NotFor;
      ForAppend(front, [w] + rest, ip);
      ForAppend([w], rest, ip);
      ForAppend(front, rest, ip);
      NotForAppend(front, [w] + rest, ip);
      NotForAppend([w], rest, ip);
      NotForAppend(front, rest, ip);
      ForOne(w, ip);
    }

    static lemma {:induction false} FramesAppend(src: Mac, dst: Mac, ds: seq<Datagram>, d: Datagram)
      ensures Frames(src, dst, ds + [d]) == Frames(src, dst, ds) + [DatagramFrame(src, dst, d)]
    {
      if ds == [] {
        assert ([] + [d])[1..] == [];
      } else {
        FramesAppend(src, dst, ds[1..], d);
        assert (ds + [d])[1..] == ds[1..] + [d];
      }
    }

    method RecvFrame(frame: Frame) returns (up: Option<Datagram>)
      requires Valid()
      modifies this
      ensures Valid() && (Model(), up) == Arp.RecvFrame(old(Model()), frame)
    {
      if frame.payload.OtherType? || (frame.dst != BROADCAST && frame.dst != mac) {
        return None;
      }
      if frame.payload.Ipv4? {
        return frame.payload.datagram;
      }
      if frame.payload.message.None? {
        return None;
      }
      var m := frame.payload.message.value;
      cache := cache[m.senderIp := Mapping(m.senderMac, now)];
      SendPending(m.senderIp, m.senderMac);
      if m.opcode != Request || m.targetIp != ip {
        return None;
      }
      framesOut := framesOut
        + [Frame(mac, frame.src, ArpPayload(Some(ArpMessage(Reply, mac, ip, m.senderMac, m.senderIp))))];
      return None;
    }

    /** The loop that drops old mappings. */
    method ExpireCache()
      modifies this`cache
      ensures cache == Fresh(old(cache), now)
    {
      ghost var before := cache;
      var todo := cache.Keys;
      while todo != {}
        invariant todo <= cache.Keys <= before.Keys
        invariant forall a :: a in cache ==> cache[a] == before[a]
        invariant forall a :: a in before && a !in todo ==> (a in cache <==> now < before[a].learnedAt + MAPPING_TTL)
        decreases |todo|
      {
        var a :| a in todo;
        todo := todo - {a};
        if cache[a].learnedAt + MAPPING_TTL <= now {
          cache := cache - {a};
        }
      }
    }

    /** The loop that ends cooldowns. */
    method ExpireCooldown()
      modifies this`cooldown
      ensures cooldown == Cooling(old(cooldown), now)
    {
      ghost var before := cooldown;
      var todo := cooldown.Keys;
      while todo != {}
        invariant todo <= cooldown.Keys <= before.Keys
        invariant forall a :: a in cooldown ==> cooldown[a] == before[a]
        invariant forall a :: a in before && a !in todo ==> (a in cooldown <==> now < before[a] + REQUEST_COOLDOWN)
        decreases |todo|
      {
        var a :| a in todo;
        todo := todo - {a};
        if cooldown[a] + REQUEST_COOLDOWN <= now {
          cooldown := cooldown - {a};
        }
      }
    }

    method Tick(ms: nat)
      requires Valid()
      modifies this
      ensures Valid() && Model() == Arp.Tick(old(Model()), ms)
    {
      now := now + ms;
      ExpireCache();
      ExpireCooldown();
    }
  }
}
