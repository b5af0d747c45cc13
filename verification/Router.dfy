/** Longest-prefix routing as a value (router.cc). */
module Routing {
  import opened Types

  /** A route without a next hop leads to a directly attached network. */
  datatype Route = Route(prefix: u32, len: u8, nextHop: Option<u32>, interfaceNum: nat)

  /** Where to send a datagram. */
  datatype Forward = Forward(interfaceNum: nat, nextHop: u32)

  /** `add_route`: re-adding a prefix only replaces its next hop. */
  function AddRoute(table: seq<Route>, r: Route): seq<Route> {
    if table == [] then [r]
    else if table[0].prefix == r.prefix && table[0].len == r.len then [table[0].(nextHop := r.nextHop)] + table[1..]
    else [table[0]] + AddRoute(table[1..], r)
  }

  /** `x >> n` */
  function ShiftRight(x: nat, n: nat): nat {
    if n == 0 then x else ShiftRight(x / 2, n - 1)
  }

  predicate Matches(r: Route, dst: u32) {
    r.len <= 32 && ShiftRight(dst, 32 - r.len) == ShiftRight(r.prefix, 32 - r.len)
  }

  /** Shifting by 32 minus a greater length is undefined in the source. So is the shift by 32
      that it evaluates for a route of length 0 after a longer match, but whatever that gives,
      such a route is not taken: its length is below the longest. */
  predicate Defined(table: seq<Route>) {
    forall i :: 0 <= i < |table| ==> table[i].len <= 32
  }

  /** The test of the loop, given the longest length so far. */
  predicate Takes(r: Route, dst: u32, longest: nat) {
    (longest == r.len && r.len == 0) || (Matches(r, dst) && r.len >= longest)
  }

  /** The scan from route `i` on: the index of the chosen route. */
  function Scan(table: seq<Route>, dst: u32, i: nat, longest: nat, best: Option<nat>): (k: Option<nat>)
    requires i <= |table| && (best.Some? ==> best.value < i)
    ensures k.Some? ==> k.value < |table|
    decreases |table| - i
  {
    if i == |table| then best
    else if Takes(table[i], dst, longest) then
      if table[i].nextHop.None? then Some(i) else Scan(table, dst, i + 1, table[i].len, Some(i))
    else Scan(table, dst, i + 1, longest, best)
  }

  function Choose(table: seq<Route>, dst: u32): (k: Option<nat>)
    ensures k.Some? ==> k.value < |table|
  {
    Scan(table, dst, 0, 0, None)
  }

  function ForwardBy(r: Route, dst: u32): Forward {
    Forward(r.interfaceNum, if r.nextHop.Some? then r.nextHop.value else dst)
  }

  /** `route_one_datagram` */
  function RouteOne(table: seq<Route>, ttl: u8, dst: u32): Option<Forward> {
    if ttl <= 1 then None
    else
      var k := Choose(table, dst);
      if k.None? then None else Some(ForwardBy(table[k.value], dst))
  }

  // ---- the shift test compares the high-order bits ----

  predicate BitAt(x: nat, i: nat) {
    ShiftRight(x, i) % 2 == 1
  }

  lemma {:induction false} ShiftedOut(x: nat, n: nat)
    requires x < Pow2(n)
    ensures ShiftRight(x, n) == 0
  {
    if n > 0 { ShiftedOut(x / 2, n - 1); }
  }

  lemma {:induction false} ShiftNext(x: nat, n: nat)
    ensures ShiftRight(x, n + 1) == ShiftRight(x, n) / 2
  {
    if n > 0 { ShiftNext(x / 2, n - 1); }
  }

  lemma Word32(x: u32)
    ensures ShiftRight(x, 32) == 0
  {
    assert Pow2(8) == 0x100 && Pow2(16) == 0x1_0000;
    assert Pow2(24) == 0x100_0000 && Pow2(32) == 0x1_0000_0000;
    ShiftedOut(x, 32);
  }

  /** A route matches exactly when the address agrees with its prefix on the top `len` bits,
      and a route of length 0 always matches. */
  lemma MatchesTopBits(r: Route, dst: u32)
    requires r.len <= 32
    ensures Matches(r, dst) <==> forall i :: 32 - r.len <= i < 32 ==> BitAt(dst, i) == BitAt(r.prefix, i)
  {
    Word32(dst);
    Word32(r.prefix);
    SameBits(dst, r.prefix, 32 - r.len);
  }

  lemma {:induction false} SameBits(x: u32, y: u32, n: nat)
    requires n <= 32 && ShiftRight(x, 32) == 0 && ShiftRight(y, 32) == 0
    ensures ShiftRight(x, n) == ShiftRight(y, n) <==> forall i :: n <= i < 32 ==> BitAt(x, i) == BitAt(y, i)
    decreases 32 - n
  {
    if n < 32 {
      SameBits(x, y, n + 1);
      var a, b := ShiftRight(x, n), ShiftRight(y, n);
      ShiftNext(x, n);
      ShiftNext(y, n);
      assert a == b <==> a / 2 == b / 2 && a % 2 == b % 2;
      assert BitAt(x, n) == BitAt(y, n) <==> a % 2 == b % 2;
    }
  }

  lemma DefaultMatches(r: Route, dst: u32)
    requires r.len == 0
    ensures Matches(r, dst)
  {
    Word32(dst);
    Word32(r.prefix);
  }

  // ---- what the scan finds ----

  /** No matching route of `table[..i]` is longer than `longest`. */
  predicate NoneLonger(table: seq<Route>, dst: u32, i: nat, longest: nat)
    requires i <= |table|
  {
    forall j :: 0 <= j < i && Matches(table[j], dst) ==> table[j].len <= longest
  }

  /** At direct route `i` the scan stops, having met nothing longer. */
  predicate Stops(table: seq<Route>, dst: u32, i: nat)
    requires i < |table|
  {
    table[i].nextHop.None? && Matches(table[i], dst) && NoneLonger(table, dst, i, table[i].len)
  }

  /** A strictly longer match lies behind a direct route at which the scan stops. */
  predicate Hidden(table: seq<Route>, dst: u32) {
    exists i, j :: 0 <= i < j < |table| && Stops(table, dst, i) && Matches(table[j], dst) && table[j].len > table[i].len
  }

  /** Where the scan stands before route `i`. */
  predicate ScanState(table: seq<Route>, dst: u32, i: nat, longest: nat, best: Option<nat>) {
    && i <= |table|
    && NoneLonger(table, dst, i, longest)
    && (forall j :: 0 <= j < i ==> !Stops(table, dst, j))
    && (best.Some? ==> best.value < i && Matches(table[best.value], dst) && table[best.value].len == longest)
    && (best.None? ==> longest == 0 && forall j :: 0 <= j < i ==> !Matches(table[j], dst))
  }

  /** Taking a route is meeting a match at least as long as all before. */
  lemma TakesIff(table: seq<Route>, dst: u32, i: nat, longest: nat, best: Option<nat>)
    requires ScanState(table, dst, i, longest, best) && i < |table|
    ensures Takes(table[i], dst, longest) <==> Matches(table[i], dst) && NoneLonger(table, dst, i, table[i].len)
  {
    if table[i].len == 0 { DefaultMatches(table[i], dst); }
  }

  /** The scan has met every route, or has stopped at the first one that stops it. */
  predicate Ends(table: seq<Route>, dst: u32, k: nat)
    requires k < |table|
  {
    || (NoneLonger(table, dst, |table|, table[k].len) && forall j :: 0 <= j < |table| ==> !Stops(table, dst, j))
    || (Stops(table, dst, k) && forall j :: 0 <= j < k ==> !Stops(table, dst, j))
  }

  lemma {:induction false} ScanFinds(table: seq<Route>, dst: u32, i: nat, longest: nat, best: Option<nat>)
    requires ScanState(table, dst, i, longest, best)
    ensures var k := Scan(table, dst, i, longest, best);
      && (k.None? <==> forall j :: 0 <= j < |table| ==> !Matches(table[j], dst))
      && (k.Some? ==>
            && Matches(table[k.value], dst) && NoneLonger(table, dst, k.value, table[k.value].len)
            && Ends(table, dst, k.value))
    decreases |table| - i
  {
    if i < |table| {
      TakesIff(table, dst, i, longest, best);
      var r := table[i];
      if !Takes(r, dst, longest) {
        ScanFinds(table, dst, i + 1, longest, best);
      } else if r.nextHop.Some? {
        ScanFinds(table, dst, i + 1, r.len, Some(i));
      }
    }
  }

  /** A datagram is forwarded exactly when its TTL is above 1 and some route matches its
      destination. It leaves on the interface of the route taken, for that route's next hop or,
      on a direct route, for its destination. The route taken matches, and no matching route is
      longer, exactly unless a longer match hides behind a direct route at which the scan
      stops. */
  lemma LongestPrefixMatch(table: seq<Route>, ttl: u8, dst: u32)
    requires Defined(table)
    ensures RouteOne(table, ttl, dst).Some? <==> ttl > 1 && exists j :: 0 <= j < |table| && Matches(table[j], dst)
    ensures var k := Choose(table, dst);
      k.Some? ==>
        && (ttl > 1 ==> var r, f := table[k.value], RouteOne(table, ttl, dst).value;
              && f.interfaceNum == r.interfaceNum
              && (r.nextHop == None ==> f.nextHop == dst) && (forall hop :: r.nextHop == Some(hop) ==> f.nextHop == hop))
        && Matches(table[k.value], dst)
        && (NoneLonger(table, dst, |table|, table[k.value].len) <==> !Hidden(table, dst))
  {
    ScanFinds(table, dst, 0, 0, None);
    var k := Choose(table, dst);
    if k.Some? { HiddenIff(table, dst, k.value); }
  }

  lemma HiddenIff(table: seq<Route>, dst: u32, k: nat)
    requires k < |table| && Matches(table[k], dst) && Ends(table, dst, k)
    ensures NoneLonger(table, dst, |table|, table[k].len) <==> !Hidden(table, dst)
  {
    if !NoneLonger(table, dst, |table|, table[k].len) {
      var j :| 0 <= j < |table| && Matches(table[j], dst) && table[j].len > table[k].len;
      assert Stops(table, dst, k) && k < j;
    }
  }

  const DEFAULT_ROUTE := Route(0, 0, None, 0)
  const TEN_NET := Route(0x0a00_0000, 8, Some(0xc0a8_0001), 1)

  /** A direct default route in front of 10.0.0.0/8 takes the datagrams for 10.0.0.1. */
  lemma DefaultHides(ttl: u8)
    requires ttl > 1
    ensures var table, dst := [DEFAULT_ROUTE, TEN_NET], 0x0a00_0001;
      && Hidden(table, dst) && Matches(table[1], dst)
      && Choose(table, dst) == Some(0) && RouteOne(table, ttl, dst) == Some(Forward(0, dst))
  {
    var table, dst := [DEFAULT_ROUTE, TEN_NET], 0x0a00_0001;
    DefaultMatches(DEFAULT_ROUTE, dst);
    assert ShiftRight(0x0a00_0001, 8) == 0x0a_0000 && ShiftRight(0x0a00_0000, 8) == 0x0a_0000;
    SameShift(0x0a00_0001, 0x0a00_0000, 8, 24);
    assert Stops(table, dst, 0) && Matches(table[1], dst) && table[1].len > table[0].len;
    assert Scan(table, dst, 0, 0, None) == Some(0);
  }

  lemma {:induction false} SameShift(x: nat, y: nat, n: nat, m: nat)
    requires ShiftRight(x, n) == ShiftRight(y, n) && n <= m
    ensures ShiftRight(x, m) == ShiftRight(y, m)
    decreases m
  {
    if n < m {
      SameShift(x, y, n, m - 1);
      ShiftNext(x, m - 1);
      ShiftNext(y, m - 1);
    }
  }

  // ---- the table ----

  predicate HasKey(table: seq<Route>, prefix: u32, len: u8) {
    exists j :: 0 <= j < |table| && table[j].prefix == prefix && table[j].len == len
  }

  predicate DistinctKeys(table: seq<Route>) {
    forall i, j :: 0 <= i < j < |table| ==> !(table[i].prefix == table[j].prefix && table[i].len == table[j].len)
  }

  predicate SameKey(a: Route, b: Route) {
    a.prefix == b.prefix && a.len == b.len
  }

  /** Adding a route under a new key appends it; under a known key it replaces the next hop of
      the first such route and nothing else, not even its interface. */
  lemma {:induction false} AddRouteIs(table: seq<Route>, r: Route) returns (j: nat)
    ensures j <= |table| && forall i :: 0 <= i < j ==> !SameKey(table[i], r)
    ensures j == |table| ==> AddRoute(table, r) == table + [r]
    ensures j < |table| ==> SameKey(table[j], r) && AddRoute(table, r) == table[j := table[j].(nextHop := r.nextHop)]
  {
    j := 0;
    if table != [] {
      if SameKey(table[0], r) {
        assert AddRoute(table, r) == table[0 := table[0].(nextHop := r.nextHop)];
      } else {
        var k := AddRouteIs(table[1..], r);
        j := k + 1;
        assert table == [table[0]] + table[1..];
      }
    }
  }

  /** So keys stay distinct. */
  lemma AddRouteKeys(table: seq<Route>, r: Route)
    requires DistinctKeys(table)
    ensures DistinctKeys(AddRoute(table, r)) && HasKey(AddRoute(table, r), r.prefix, r.len)
  {
    var j := AddRouteIs(table, r);
    var t := AddRoute(table, r);
    assert SameKey(t[j], r);
  }
}

/** The router object. Its interfaces are named by their numbers. */
module Routers {
  import opened Types
  import opened Routing

  class Router {
    var routingTable: seq<Route>

    constructor ()
      ensures routingTable == []
    {
      routingTable := [];
    }

    method AddRoute(prefix: u32, len: u8, nextHop: Option<u32>, interfaceNum: nat)
      modifies this
      ensures routingTable == Routing.AddRoute(old(routingTable), Route(prefix, len, nextHop, interfaceNum))
    {
      hide Routing.AddRoute;
      var r := Route(prefix, len, nextHop, interfaceNum);
      var i := 0;
      AddAtEnds(routingTable, r);
      while i < |routingTable|
        invariant 0 <= i <= |routingTable| && routingTable == old(routingTable)
        invariant routingTable[..i] + Routing.AddRoute(routingTable[i..], r) == Routing.AddRoute(routingTable, r)
      {
        AddAt(routingTable, i, r);
        if routingTable[i].prefix == prefix && routingTable[i].len == len {
          routingTable := routingTable[i := routingTable[i].(nextHop := nextHop)];
          return;
        }
        i := i + 1;
      }
      routingTable := routingTable + [r];
    }

    static lemma AddAtEnds(table: seq<Route>, r: Route)
      ensures table[..0] + Routing.AddRoute(table[0..], r) == Routing.AddRoute(table, r)
      ensures table[..|table|] + Routing.AddRoute(table[|table|..], r) == table + [r]
    {
      assert table[0..] == table;
      assert table[..|table|] == table && table[|table|..] == [];
    }

    static lemma AddAt(table: seq<Route>, i: nat, r: Route)
      requires i < |table|
      ensures table[..i] + Routing.AddRoute(table[i..], r)
           == if table[i].prefix == r.prefix && table[i].len == r.len then table[i := table[i].(nextHop := r.nextHop)]
              else table[..i + 1] + Routing.AddRoute(table[i + 1..], r)
    {
      assert table[i..][1..] == table[i + 1..];
      assert table[..i + 1] == table[..i] + [table[i]];
      Associative(table[..i], [table[i]], Routing.AddRoute(table[i + 1..], r));
      assert table[..i] + ([table[i].(nextHop := r.nextHop)] + table[i + 1..]) == table[i := table[i].(nextHop := r.nextHop)];
    }

    /** Returns the datagram's decremented TTL and where it is sent, if anywhere. */
    method RouteOneDatagram(ttl: u8, dst: u32) returns (newTtl: u8, forward: Option<Forward>)
      requires Defined(routingTable)
      ensures newTtl == if ttl == 0 then 255 else ttl - 1
      ensures forward == RouteOne(routingTable, ttl, dst)
    {
      newTtl := (ttl - 1) % 256;
      if ttl <= 1 {
        return newTtl, None;
      }
      var max, addr, interfaceNum := 0, None, 0;
      ghost var best: Option<nat> := None;
      var i := 0;
      var found := false;
      while !found && i < |routingTable|
        invariant 0 <= i <= |routingTable| && (best.Some? ==> best.value < |routingTable|)
        invariant !found ==> (best.Some? ==> best.value < i)
        invariant (if found then best else Scan(routingTable, dst, i, max, best)) == Choose(routingTable, dst)
        invariant addr.None? <==> best.None?
        invariant best.Some? ==> Forward(interfaceNum, addr.value) == ForwardBy(routingTable[best.value], dst)
        decreases |routingTable| - i, !found
      {
        var r := routingTable[i];
        if (max == r.len && r.len == 0)
           || (ShiftRight(dst, 32 - r.len) == ShiftRight(r.prefix, 32 - r.len) && r.len >= max) {
          max := r.len;
          interfaceNum := r.interfaceNum;
          best := Some(i);
          if r.nextHop.None? {
            addr := Some(dst);
            found := true;
          } else {
            addr := r.nextHop;
          }
        }
        if !found {
          i := i + 1;
        }
      }
      if addr.None? {
        return newTtl, None;
      }
      forward := Some(Forward(interfaceNum, addr.value));
    }
  }
}
