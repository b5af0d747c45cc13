/** How far the 32-bit keys of the interval map carry. */
module ReassemblyLimits {
  import opened Types
  import opened Reassembly
  import opened ReassemblyMeaning
  import opened ReassemblyTheorems
  import Streams

  datatype PushArgs = PushArgs(data: seq<byte>, index: u64, eof: bool)

  function PushMany(s: Store, pushes: seq<PushArgs>): Store
    decreases |pushes|
  {
    if pushes == [] then s
    else PushMany(Push(s, pushes[0].data, pushes[0].index, pushes[0].eof), pushes[1..])
  }

  function PushManyView(v: View, pushes: seq<PushArgs>): View
    decreases |pushes|
  {
    if pushes == [] then v
    else PushManyView(PushView(v, pushes[0].data, pushes[0].index, pushes[0].eof), pushes[1..])
  }

  /** From `s` on, every sequence of pushes does what the partial map says. */
  ghost predicate AlwaysRefinesFrom(s: Store) {
    forall pushes: seq<PushArgs> :: ViewOf(PushMany(s, pushes)) == PushManyView(ViewOf(s), pushes)
  }

  // ---- where the order of the keys breaks ----

  /** The conversion of `x` to `int` starts over at the smallest number. */
  predicate Wraps(x: nat) {
    x % 0x1_0000_0000 == 0x8000_0000
  }

  lemma LapIff(a: nat, b: nat)
    requires a <= b
    ensures Lap(a) == Lap(b) <==> forall x: nat :: a < x <= b ==> !Wraps(x)
  {
    if Lap(a) == Lap(b) {
      forall x: nat | a < x <= b ensures !Wraps(x) {
        LapBetween(a, x, b);
        LapBetween(a, x - 1, b);
        if Wraps(x) { WrapStep(x); }
      }
    } else {
      LapBetween(a, a, b);
      var x := 0x1_0000_0000 * Lap(a) + 0x8000_0000;
      NextWrap(a, b, x);
    }
  }

  lemma WrapStep(x: nat)
    requires x > 0 && Wraps(x)
    ensures Lap(x) == Lap(x - 1) + 1
  {
    var k := x / 0x1_0000_0000;
    assert x + 0x8000_0000 == 0x1_0000_0000 * (k + 1);
  }

  lemma NextWrap(a: nat, b: nat, x: nat)
    requires Lap(a) < Lap(b) && x == 0x1_0000_0000 * Lap(a) + 0x8000_0000
    ensures a < x <= b && Wraps(x)
  {
    assert x / 0x1_0000_0000 == Lap(a);
  }

  // ---- within one lap ----

  lemma {:induction false} PushManyRefines(s: Store, pushes: seq<PushArgs>)
    requires Valid(s) && WindowEnd(s) < 0x1_0000_0000_0000_0000 && InOrder(s)
    ensures ViewOf(PushMany(s, pushes)) == PushManyView(ViewOf(s), pushes)
    decreases |pushes|
  {
    hide Push, PushView, ViewOf, Valid;
    if pushes == [] {
    } else {
      var p := pushes[0];
      PushRefines(s, p.data, p.index, p.eof);
      PushShape(s, p.data, p.index, p.eof);
      StaysInOrder(s, Push(s, p.data, p.index, p.eof), p);
      PushManyRefines(Push(s, p.data, p.index, p.eof), pushes[1..]);
    }
  }

  lemma StaysInOrder(s: Store, s': Store, p: PushArgs)
    requires Valid(s) && Valid(s') && InOrder(s)
    requires Pushed(ViewOf(s), ViewOf(s'), p.data, p.index, p.eof, U64(p.index + |p.data|))
    ensures InOrder(s') && WindowEnd(s') == WindowEnd(s)
  {
    LapBetween(s.unasb, s'.unasb, WindowEnd(s'));
  }

  // ---- across a lap ----

  /** `x` is where keys wrap inside a window of at most 2^31 bytes. */
  predicate WrapsAt(s: Store, x: nat) {
    && s.unasb < x <= WindowEnd(s) <= s.unasb + 0x8000_0000 && WindowEnd(s) < 0x1_0000_0000_0000_0000
    && x == 0x1_0000_0000 * Lap(s.unasb) + 0x8000_0000
  }

  lemma NarrowBelow(s: Store, x: nat, y: nat)
    requires WrapsAt(s, x) && s.unasb <= y < x
    ensures Narrow(y) == y - x + 0x8000_0000 >= 0
  {
    NarrowIs(y);
  }

  lemma NarrowAbove(s: Store, x: nat, y: nat)
    requires WrapsAt(s, x) && x <= y <= WindowEnd(s)
    ensures Narrow(y) == y - x - 0x8000_0000 < 0
  {
    NarrowIs(y);
  }

  /** The first interval reaches past the wrap. */
  predicate Blocked(s: Store, x: nat) {
    && WrapsAt(s, x) && s.unasb == |s.out.written| && Ascending(s.t)
    && s.t != [] && s.unasb < s.t[0].lo < s.t[0].hi <= WindowEnd(s) && x <= s.t[0].hi
  }

  /** Then the next byte of the stream is put behind it, or in its place, and not assembled. */
  lemma BlockedStuck(s: Store, x: nat)
    requires Blocked(s, x)
    ensures Push(s, [0], s.unasb, false).out.written == s.out.written
  {
    hide Before, Put, PutAll, Ascending;
    var u := s.unasb;
    var iv := Piece(u, u + 1, [0], u);
    U64Small(u + 1);
    U64Small(WindowEnd(s));
    assert Gaps(s.t, u, u + 1, [0], u) == [iv];
    NotBefore(s, x, iv);
    PutAscends(s.t, iv);
    PutOne(s.t, iv);
    var s1 := Insert(s, u, u + 1, [0], u);
    assert Drain(s1) == s1;
  }

  lemma NotBefore(s: Store, x: nat, iv: Interval)
    requires Blocked(s, x) && iv.lo == s.unasb && iv.hi == s.unasb + 1
    ensures !Before(iv, s.t[0])
  {
    hide Narrow, Lap, Ascending;
    var u, c := s.unasb, s.t[0];
    NarrowBelow(s, x, u);
    if c.lo < x {
      NarrowBelow(s, x, u + 1);
      NarrowAbove(s, x, c.hi);
    } else {
      NarrowAbove(s, x, c.lo);
    }
  }

  lemma PutOne(t: seq<Interval>, iv: Interval)
    ensures PutAll(t, [iv]) == Put(t, iv)
  {
    assert [iv][1..] == [];
    assert PutAll(Put(t, iv), []) == Put(t, iv);
  }

  /** The partial map does assemble it. */
  lemma NextByteAssembles(v: View)
    requires Waiting(v) && |v.out.written| < v.out.read + v.out.cap < 0x1_0000_0000_0000_0000
    ensures |PushView(v, [0], |v.out.written|, false).out.written| > |v.out.written|
  {
    var u := |v.out.written|;
    U64Small(u + 1);
    ViewPushHeld(v, [0], u, false, u + 1, u);
  }

  lemma BlockedFails(s: Store, x: nat)
    requires Blocked(s, x) && Waiting(ViewOf(s))
    ensures ViewOf(Push(s, [0], s.unasb, false)) != PushView(ViewOf(s), [0], s.unasb, false)
  {
    BlockedStuck(s, x);
    NextByteAssembles(ViewOf(s));
  }

  /** In a map in its own order, nothing lies past the wrap unless the first interval does. */
  lemma {:induction false} AllBelow(s: Store, x: nat, i: nat)
    requires Valid(s) && WrapsAt(s, x) && i < |s.t| && s.t[0].hi < x
    ensures s.t[i].hi < x
  {
    hide Narrow, Lap;
    TidyOrder(s.t, s.unasb + 1, WindowEnd(s));
    if i > 0 {
      AllBelow(s, x, i - 1);
      assert Before(s.t[i - 1], s.t[i]);
      NarrowBelow(s, x, s.t[i - 1].hi);
      if x <= s.t[i].hi { NarrowAbove(s, x, s.t[i].hi); }
    }
  }

  /** The single missing byte `k`, with every interval in front of it. */
  lemma {:induction false} GapBehind(t: seq<Interval>, k: nat)
    requires forall i :: 0 <= i < |t| ==> t[i].lo < t[i].hi <= k
    ensures Gaps(t, k, k + 1, [0], k) == [Piece(k, k + 1, [0], k)]
  {
    if t != [] {
      assert forall i :: 0 <= i < |t[1..]| ==> t[1..][i] == t[i + 1];
      GapBehind(t[1..], k);
    }
  }

  /** What one byte at `k` does to a map that ends in front of it. */
  lemma PushBehind(s: Store, k: u64)
    requires s.unasb < k < WindowEnd(s) < 0x1_0000_0000_0000_0000
    requires forall i :: 0 <= i < |s.t| ==> s.t[i].lo < s.t[i].hi <= k
    requires var t := Put(s.t, Piece(k, k + 1, [0], k)); t[0].lo != s.unasb
    ensures var s' := Push(s, [0], k, false);
      && s'.t == Put(s.t, Piece(k, k + 1, [0], k)) && s'.unasb == s.unasb
      && s'.out.written == s.out.written && s'.out.read == s.out.read && s'.out.cap == s.out.cap
  {
    hide Before, Put, PutAll, Gaps;
    U64Small(k + 1);
    U64Small(WindowEnd(s));
    GapBehind(s.t, k);
    PutOne(s.t, Piece(k, k + 1, [0], k));
    var s1 := Insert(s, k, k + 1, [0], k);
    assert Drain(s1) == s1;
  }

  lemma {:induction false} KeysBelow(t: seq<Interval>, m: nat, k: nat)
    requires forall i :: 0 <= i < |t| ==> t[i].hi <= m
    requires k in Stored(t)
    ensures k < m
  {
    if k !in Bytes(t[0]) {
      assert forall i :: 0 <= i < |t[1..]| ==> t[1..][i] == t[i + 1];
      KeysBelow(t[1..], m, k);
    }
  }

  /** A byte pushed at the wrap goes in front of everything. */
  lemma HighFirst(s: Store, x: nat)
    requires Valid(s) && WrapsAt(s, x) && x < WindowEnd(s) && (s.t == [] || s.t[0].hi < x)
    ensures Blocked(Push(s, [0], x, false), x)
  {
    hide Narrow, Lap;
    TidyOrder(s.t, s.unasb + 1, WindowEnd(s));
    forall i | 0 <= i < |s.t| ensures s.t[i].hi <= x { AllBelow(s, x, i); }
    var iv := Piece(x, x + 1, [0], x);
    NarrowAbove(s, x, x);
    NarrowAbove(s, x, x + 1);
    if s.t != [] {
      NarrowBelow(s, x, s.t[0].lo);
      NarrowBelow(s, x, s.t[0].hi);
    }
    assert Put(s.t, iv) == [iv] + s.t;
    PushBehind(s, x);
    PushAscends(s, [0], x, false);
  }

  /** With the wrap at the very end of the window, the last byte of it has the key of the first
      interval. */
  lemma LastPut(s: Store, x: nat)
    requires Valid(s) && WrapsAt(s, x) && x == WindowEnd(s) && s.t != [] && s.t[0].hi < x
    ensures Put(s.t, Piece(x - 1, x, [0], x - 1)) == [s.t[0].(data := [0])] + s.t[1..]
  {
    hide Narrow, Lap, Ascending;
    TidyOrder(s.t, s.unasb + 1, WindowEnd(s));
    NarrowBelow(s, x, x - 1);
    NarrowAbove(s, x, x);
    NarrowBelow(s, x, s.t[0].lo);
    NarrowBelow(s, x, s.t[0].hi);
    assert Piece(x - 1, x, [0], x - 1) == Interval(x - 1, x, [0]);
    assert Put(s.t, Interval(x - 1, x, [0])) == [s.t[0].(data := [0])] + s.t[1..];
  }

  lemma LastBelow(s: Store, x: nat)
    requires Valid(s) && WrapsAt(s, x) && x == WindowEnd(s) && s.t != [] && s.t[0].hi < x
    ensures forall i :: 0 <= i < |s.t| ==> s.unasb < s.t[i].lo < s.t[i].hi <= x - 1
  {
    hide WrapsAt, Ascending;
    TidyOrder(s.t, s.unasb + 1, WindowEnd(s));
    forall i | 0 <= i < |s.t| ensures s.t[i].hi <= x - 1 { AllBelow(s, x, i); }
  }

  lemma NotHeldBehind(s: Store, k: nat)
    requires |s.out.written| <= k && forall i :: 0 <= i < |s.t| ==> s.t[i].hi <= k
    ensures Held(ViewOf(s), k) == None
  {
    hide Stored;
    if k in Stored(s.t) { KeysBelow(s.t, k, k); }
  }

  /** So it takes that interval's place. */
  lemma LastReplaces(s: Store, x: nat)
    requires Valid(s) && WrapsAt(s, x) && x == WindowEnd(s) && s.t != [] && s.t[0].hi < x
    ensures Held(ViewOf(Push(s, [0], x - 1, false)), x - 1) == None
  {
    hide Push, Put, Stored, Held, Tidy, Ascending, Total;
    LastPut(s, x);
    LastBelow(s, x);
    PushBehind(s, x - 1);
    var t := [s.t[0].(data := [0])] + s.t[1..];
    assert forall i :: 0 <= i < |t| ==> t[i].hi == s.t[i].hi;
    NotHeldBehind(Push(s, [0], x - 1, false), x - 1);
  }

  lemma LastBlocks(s: Store, x: nat)
    requires Valid(s) && WrapsAt(s, x) && x == WindowEnd(s) && s.t == [] && s.unasb + 2 <= x
    ensures Blocked(Push(s, [0], x - 1, false), x)
  {
    PushBehind(s, x - 1);
    PushAscends(s, [0], x - 1, false);
  }

  /** A push that the view agrees with leaves it waiting. */
  lemma AgreedWaits(s: Store, k: u64)
    requires Valid(s) && ViewOf(Push(s, [0], k, false)) == PushView(ViewOf(s), [0], k, false)
    ensures Waiting(ViewOf(Push(s, [0], k, false)))
    ensures k < WindowEnd(s) < 0x1_0000_0000_0000_0000 ==> Held(ViewOf(Push(s, [0], k, false)), k).Some?
  {
    hide Push, PushView;
    RefinedHeld(s, [0], k, false, k);
    SameBounds(s);
    if k < WindowEnd(s) < 0x1_0000_0000_0000_0000 { U64Small(k + 1); }
  }

  lemma TwoPushes(s: Store, i: u64, j: u64)
    requires AlwaysRefinesFrom(s)
    ensures var s1 := Push(s, [0], i, false);
      && ViewOf(s1) == PushView(ViewOf(s), [0], i, false)
      && ViewOf(Push(s1, [0], j, false)) == PushView(ViewOf(s1), [0], j, false)
  {
    hide Push, PushView, ViewOf;
    var p, q := PushArgs([0], i, false), PushArgs([0], j, false);
    var s1, v1 := Push(s, [0], i, false), PushView(ViewOf(s), [0], i, false);
    assert [p][1..] == [] && [q][1..] == [] && [p, q][1..] == [q];
    assert PushMany(s1, []) == s1 && PushManyView(v1, []) == v1;
    assert ViewOf(PushMany(s, [p])) == PushManyView(ViewOf(s), [p]);
    var s2, v2 := Push(s1, [0], j, false), PushView(v1, [0], j, false);
    assert PushMany(s2, []) == s2 && PushManyView(v2, []) == v2;
    assert PushMany(s, [p, q]) == PushMany(s1, [q]) == s2;
    assert PushManyView(ViewOf(s), [p, q]) == PushManyView(v1, [q]) == v2;
    assert ViewOf(PushMany(s, [p, q])) == PushManyView(ViewOf(s), [p, q]);
  }

  /** After a push that blocks, the next byte shows it. */
  lemma BlockingFails(s: Store, x: nat, k: u64)
    requires Valid(s) && Blocked(Push(s, [0], k, false), x)
    ensures !AlwaysRefinesFrom(s)
  {
    if AlwaysRefinesFrom(s) {
      var s1 := Push(s, [0], k, false);
      TwoPushes(s, k, s1.unasb);
      AgreedWaits(s, k);
      BlockedFails(s1, x);
    }
  }

  lemma BlockedAlready(s: Store, x: nat)
    requires Valid(s) && Blocked(s, x)
    ensures !AlwaysRefinesFrom(s)
  {
    if AlwaysRefinesFrom(s) {
      TwoPushes(s, s.unasb, s.unasb);
      ValidWaits(s);
      BlockedFails(s, x);
    }
  }

  lemma LastFails(s: Store, x: nat)
    requires Valid(s) && WrapsAt(s, x) && x == WindowEnd(s) && s.t != [] && s.t[0].hi < x
    ensures !AlwaysRefinesFrom(s)
  {
    hide Push, PushView, Held, Valid, AlwaysRefinesFrom;
    if AlwaysRefinesFrom(s) {
      TwoPushes(s, x - 1, x - 1);
      AgreedWaits(s, x - 1);
      LastReplaces(s, x);
    }
  }

  lemma WrapFails(s: Store, x: nat)
    requires Valid(s) && WrapsAt(s, x) && s.unasb + 2 <= WindowEnd(s)
    ensures !AlwaysRefinesFrom(s)
  {
    hide Push, PushView, Lap, AlwaysRefinesFrom;
    TidyOrder(s.t, s.unasb + 1, WindowEnd(s));
    if s.t != [] && x <= s.t[0].hi {
      BlockedAlready(s, x);
    } else if x < WindowEnd(s) {
      HighFirst(s, x);
      BlockingFails(s, x, x);
    } else if s.t == [] {
      LastBlocks(s, x);
      BlockingFails(s, x, x - 1);
    } else {
      LastFails(s, x);
    }
  }

  /** In every valid state with a window of 2 to 2^31 bytes, all sequences of pushes do what
      the partial map says exactly when no index congruent to 2^31 modulo 2^32 lies in the
      window or at its end. */
  lemma WindowExact(s: Store)
    requires Valid(s) && s.unasb + 2 <= WindowEnd(s) <= s.unasb + 0x8000_0000
    requires WindowEnd(s) < 0x1_0000_0000_0000_0000
    ensures AlwaysRefinesFrom(s) <==> forall x: nat :: s.unasb < x <= WindowEnd(s) ==> !Wraps(x)
  {
    LapIff(s.unasb, WindowEnd(s));
    if InOrder(s) {
      forall pushes: seq<PushArgs> ensures ViewOf(PushMany(s, pushes)) == PushManyView(ViewOf(s), pushes) {
        PushManyRefines(s, pushes);
      }
    } else {
      LapBetween(s.unasb, s.unasb, WindowEnd(s));
      var x := 0x1_0000_0000 * Lap(s.unasb) + 0x8000_0000;
      NextWrap(s.unasb, WindowEnd(s), x);
      WrapFails(s, x);
    }
  }

  // ---- pushes without reads ----

  const FIRST := PushArgs([7], 5, false)
  const SECOND := PushArgs([1, 2], 0x7fff_fffe, false)

  /** At 2^31 bytes of capacity a byte waiting at index 5 is overwritten by bytes pushed at
      2^31 - 2: their interval's end narrows to a negative number, so the interval map takes
      the two keys for the same one. */
  lemma NarrowingCorrupts(cap: u64)
    requires cap >= 0x8000_0000
    ensures var s := PushMany(Init(cap), [FIRST, SECOND]);
      && Held(ViewOf(s), 5) == Some(1)
      && Held(ViewOf(s), 0x7fff_fffe) == None
    ensures Held(PushManyView(ViewOf(Init(cap)), [FIRST, SECOND]), 5) == Some(7)
  {
    var s1 := AfterFirst(cap);
    var s2 := AfterSecond(cap);
    assert [FIRST, SECOND][1..] == [SECOND] && [SECOND][1..] == [];
    assert PushMany(s2, []) == s2 && PushMany(s1, [SECOND]) == PushMany(s2, []);
    assert Stored(s2.t) == Bytes(s2.t[0]) by { assert s2.t[1..] == []; }
    assert At([1, 2], 5, 5) == 1;
    ViewKeeps(ViewOf(Init(cap)));
  }

  lemma ViewKeeps(v: View)
    requires v.stored == map[] && |v.out.written| == 0 && v.out.read == 0 && v.out.cap >= 0x8000_0000
    ensures Held(PushManyView(v, [FIRST, SECOND]), 5) == Some(7)
  {
    var v1 := PushViewUpTo(v, [7], 5, false, 6);
    var v2 := PushViewUpTo(v1, [1, 2], 0x7fff_fffe, false, 0x8000_0000);
    Stop(v, [7], 5, false, 6);
    Stop(v1, [1, 2], 0x7fff_fffe, false, 0x8000_0000);
    PushTwo(v, v1, v2);
    ViewPushHeld(v, [7], 5, false, 6, 5);
    ViewPushHeld(v1, [1, 2], 0x7fff_fffe, false, 0x8000_0000, 5);
  }

  lemma Stop(v: View, data: seq<byte>, index: u64, eof: bool, stop: u64)
    requires stop == index + |data|
    ensures PushView(v, data, index, eof) == PushViewUpTo(v, data, index, eof, stop)
  {
    hide PushViewUpTo;
    U64Small(stop);
  }

  lemma PushTwo(v: View, v1: View, v2: View)
    requires v1 == PushView(v, FIRST.data, FIRST.index, FIRST.eof)
    requires v2 == PushView(v1, SECOND.data, SECOND.index, SECOND.eof)
    ensures PushManyView(v, [FIRST, SECOND]) == v2
  {
    assert [FIRST, SECOND][1..] == [SECOND] && [SECOND][1..] == [];
    assert PushManyView(v2, []) == v2;
    assert PushManyView(v1, [SECOND]) == PushManyView(v2, []);
  }

  lemma AfterFirst(cap: u64) returns (s: Store)
    requires cap >= 0x8000_0000
    ensures s == Push(Init(cap), [7], 5, false)
    ensures s == Init(cap).(t := [Interval(5, 6, [7])], szUnasb := 1)
  {
    s := Push(Init(cap), [7], 5, false);
    var a := Interval(5, 6, [7]);
    assert [7][0..1] == [7];
    assert Gaps([], 5, 6, [7], 5) == [a];
    assert [a][1..] == [] && PutAll([a], []) == [a];
    assert PutAll([], [a]) == [a];
  }

  lemma AfterSecond(cap: u64) returns (s: Store)
    requires cap >= 0x8000_0000
    ensures s == Push(Init(cap).(t := [Interval(5, 6, [7])], szUnasb := 1), [1, 2], 0x7fff_fffe, false)
    ensures s == Init(cap).(t := [Interval(5, 6, [1, 2])], szUnasb := 3)
  {
    var s1 := Init(cap).(t := [Interval(5, 6, [7])], szUnasb := 1);
    s := PushUpTo(s1, [1, 2], 0x7fff_fffe, false, 0x8000_0000, cap);
    OverwriteFirst();
    var s2 := Init(cap).(t := [Interval(5, 6, [1, 2])], szUnasb := 3);
    assert Insert(s1, 0x7fff_fffe, 0x8000_0000, [1, 2], 0x7fff_fffe) == s2;
    assert Drain(s2) == s2;
    assert Limit(s1) == cap && U64(0x8000_0000) == 0x8000_0000;
  }

  lemma OverwriteFirst()
    ensures var g := Gaps([Interval(5, 6, [7])], 0x7fff_fffe, 0x8000_0000, [1, 2], 0x7fff_fffe);
      PutAll([Interval(5, 6, [7])], g) == [Interval(5, 6, [1, 2])] && Total(g) == 2
  {
    var a, b, c := Interval(5, 6, [7]), Interval(0x7fff_fffe, 0x8000_0000, [1, 2]), Interval(5, 6, [1, 2]);
    assert [1, 2][0..2] == [1, 2];
    assert [a][1..] == [] && [b][1..] == [] && [c][1..] == [];
    assert Gaps([], 0x7fff_fffe, 0x8000_0000, [1, 2], 0x7fff_fffe) == [b];
    assert Gaps([a], 0x7fff_fffe, 0x8000_0000, [1, 2], 0x7fff_fffe) == [b];
    assert Put([a], b) == [c];
    assert PutAll([c], []) == [c];
    assert PutAll([a], [b]) == [c];
  }

  /** As long as nothing is read, the reassembler is correct on every sequence of pushes exactly
      when its capacity is below 2^31. */
  lemma CapacityLimit(cap: u64)
    ensures AlwaysRefinesFrom(Init(cap)) <==> cap < 0x8000_0000
  {
    if cap < 0x8000_0000 {
      FreshValid(cap);
      forall pushes: seq<PushArgs>
        ensures ViewOf(PushMany(Init(cap), pushes)) == PushManyView(ViewOf(Init(cap)), pushes)
      {
        PushManyRefines(Init(cap), pushes);
      }
    } else {
      NarrowingCorrupts(cap);
    }
  }

  // ---- with reads ----

  function UseOnceView(v: View, u: Use): View {
    match u
    case Pushes(data, index, eof) => PushView(v, data, index, eof)
    case Reads(n) => v.(out := Streams.Pop(v.out, Min(n, Streams.Size(v.out))))
  }

  function UseManyView(v: View, uses: seq<Use>): View
    decreases |uses|
  {
    if uses == [] then v else UseOnceView(UseManyView(v, uses[..|uses| - 1]), uses[|uses| - 1])
  }

  /** Every run of pushes and reads does what the partial map says. */
  ghost predicate AlwaysRefines(cap: u64) {
    forall uses: seq<Use> :: ViewOf(UseMany(Init(cap), uses)) == UseManyView(ViewOf(Init(cap)), uses)
  }

  /** `n` bytes pushed and read one by one. */
  function Climb(n: nat): seq<Use>
    requires n <= 0x8000_0000
  {
    if n == 0 then [] else Climb(n - 1) + [Pushes([0], n - 1, false), Reads(1)]
  }

  function Zeroes(n: nat): (z: seq<byte>)
    ensures |z| == n
  {
    if n == 0 then [] else Zeroes(n - 1) + [0]
  }

  /** The state after them: nothing stored, the window moved up by `n`. */
  function Climbed(cap: nat, n: nat): Store {
    Store([], 0, n, NO_EOF, Streams.Stream(cap, Zeroes(n), n, false, false))
  }

  lemma {:induction false} ClimbTo(cap: u64, n: nat)
    requires cap >= 1 && n <= 0x8000_0000 && n + cap < 0x1_0000_0000_0000_0000
    ensures UseMany(Init(cap), Climb(n)) == Climbed(cap, n)
    ensures UseManyView(ViewOf(Init(cap)), Climb(n)) == ViewOf(Climbed(cap, n))
  {
    hide Push, PushView, ViewOf;
    if n > 0 {
      ClimbTo(cap, n - 1);
      var push, read := Pushes([0], n - 1, false), Reads(1);
      var before := Climb(n - 1) + [push];
      assert Climb(n) == before + [read] && Climb(n)[..|Climb(n)| - 1] == before && before[..|before| - 1] == Climb(n - 1);
      OneThrough(cap, n - 1);
    }
  }

  /** One byte goes through an empty map wherever the window is. */
  lemma OneThrough(cap: u64, n: nat)
    requires cap >= 1 && n < 0x8000_0000 && n + 1 + cap < 0x1_0000_0000_0000_0000
    ensures UseOnce(UseOnce(Climbed(cap, n), Pushes([0], n, false)), Reads(1)) == Climbed(cap, n + 1)
    ensures UseOnceView(UseOnceView(ViewOf(Climbed(cap, n)), Pushes([0], n, false)), Reads(1)) == ViewOf(Climbed(cap, n + 1))
  {
    hide PushView;
    var s := Climbed(cap, n);
    PushRefines(s, [0], n, false);
    PushOne(cap, n);
    assert Stored([]) == map[];
  }

  lemma PushOne(cap: u64, n: nat)
    requires cap >= 1 && n < 0x8000_0000 && n + cap < 0x1_0000_0000_0000_0000
    ensures Push(Climbed(cap, n), [0], n, false)
         == Climbed(cap, n).(unasb := n + 1, out := Streams.Stream(cap, Zeroes(n + 1), n, false, false))
  {
    var s, iv := Climbed(cap, n), Interval(n, n + 1, [0]);
    U64Small(n + 1);
    U64Small(WindowEnd(s));
    assert [0][0..1] == [0] && Gaps([], n, n + 1, [0], n) == [iv];
    PutOne([], iv);
    assert [iv][1..] == [] && Put([], iv) == [iv] && Total([iv]) == 1;
    var s1 := Insert(s, n, n + 1, [0], n);
    assert s1 == s.(t := [iv], szUnasb := 1);
    assert Drain(s1) == s1.(t := [], szUnasb := 0, unasb := n + 1, out := Streams.Write(s.out, [0]));
  }

  function AsUses(pushes: seq<PushArgs>): seq<Use> {
    if pushes == [] then [] else [Pushes(pushes[0].data, pushes[0].index, pushes[0].eof)] + AsUses(pushes[1..])
  }

  lemma {:induction false} PushesAreUses(s: Store, v: View, uses: seq<Use>, pushes: seq<PushArgs>)
    ensures UseMany(s, uses + AsUses(pushes)) == PushMany(UseMany(s, uses), pushes)
    ensures UseManyView(v, uses + AsUses(pushes)) == PushManyView(UseManyView(v, uses), pushes)
    decreases |pushes|
  {
    hide Push, PushView, UseMany, UseManyView, ViewOf;
    if pushes == [] {
      assert uses + AsUses(pushes) == uses;
    } else {
      var u := Pushes(pushes[0].data, pushes[0].index, pushes[0].eof);
      OneMore(s, v, uses, u);
      PushesAreUses(s, v, uses + [u], pushes[1..]);
      Associative(uses, [u], AsUses(pushes[1..]));
    }
  }

  lemma OneMore(s: Store, v: View, uses: seq<Use>, u: Use)
    ensures UseMany(s, uses + [u]) == UseOnce(UseMany(s, uses), u)
    ensures UseManyView(v, uses + [u]) == UseOnceView(UseManyView(v, uses), u)
  {
    assert (uses + [u])[..|uses + [u]| - 1] == uses;
  }

  /** At every capacity from 2 on there is a run of pushes and reads on which the reassembler
      goes wrong: bytes are read until the window reaches 2^31. */
  lemma CorruptingRun(cap: u64) returns (uses: seq<Use>)
    requires cap >= 2
    ensures ViewOf(UseMany(Init(cap), uses)) != UseManyView(ViewOf(Init(cap)), uses)
  {
    hide Push, PushView, ViewOf, UseMany, UseManyView, Climb;
    if cap >= 0x8000_0000 {
      NarrowingCorrupts(cap);
      PushesAreUses(Init(cap), ViewOf(Init(cap)), [], [FIRST, SECOND]);
      NothingUsed(Init(cap));
      uses := [] + AsUses([FIRST, SECOND]);
    } else {
      var n := 0x7fff_fffe;
      var s := Climbed(cap, n);
      ClimbTo(cap, n);
      ClimbedWraps(cap, n);
      var pushes: seq<PushArgs> :| ViewOf(PushMany(s, pushes)) != PushManyView(ViewOf(s), pushes);
      PushesAreUses(Init(cap), ViewOf(Init(cap)), Climb(n), pushes);
      uses := Climb(n) + AsUses(pushes);
    }
  }

  lemma NothingUsed(s: Store)
    ensures UseMany(s, []) == s && UseManyView(ViewOf(s), []) == ViewOf(s)
  {
  }

  lemma ClimbedWraps(cap: u64, n: nat)
    requires 2 <= cap < 0x8000_0000 && n == 0x7fff_fffe
    ensures !AlwaysRefinesFrom(Climbed(cap, n))
  {
    var s := Climbed(cap, n);
    assert Wraps(0x8000_0000);
    WindowExact(s);
  }

  /** Past the last 64-bit index nothing is accepted any more. */
  lemma PastTheEnd(s: Store, data: seq<byte>, index: u64, eof: bool)
    requires Valid(s) && s.unasb >= NO_EOF
    ensures var s' := Push(s, data, index, eof);
      Valid(s') && ViewOf(s') == PushView(ViewOf(s), data, index, eof) && s'.out.cap == s.out.cap
  {
    hide Stored, Accept, Assemble, Drain, Insert;
    U64Small(index + |data|);
    var stop := U64(index + |data|);
    var s1 := if eof then s.(eof2 := stop) else s;
    AcceptNothing(Stored(s.t), Max(s.unasb, index), Min(stop, WindowEnd(s)), data, index);
    NothingToAssemble(s1);
    FinishCloses(s1);
  }

  /** With room for at most one byte nothing is ever stored. */
  lemma TinyPush(s: Store, data: seq<byte>, index: u64, eof: bool)
    requires Valid(s) && s.out.cap <= 1
    ensures var s' := Push(s, data, index, eof);
      Valid(s') && ViewOf(s') == PushView(ViewOf(s), data, index, eof) && s'.out.cap == s.out.cap
  {
    hide Push, PushView;
    if WindowEnd(s) < 0x1_0000_0000_0000_0000 {
      PushRefines(s, data, index, eof);
      PushShape(s, data, index, eof);
    } else {
      PastTheEnd(s, data, index, eof);
    }
  }

  lemma {:induction false} TinyRefines(cap: u64, uses: seq<Use>)
    requires cap <= 1
    ensures var s := UseMany(Init(cap), uses);
      Valid(s) && s.out.cap == cap && ViewOf(s) == UseManyView(ViewOf(Init(cap)), uses)
    decreases |uses|
  {
    hide Push, PushView, Ascending, Tidy;
    if uses == [] {
      FreshValid(cap);
    } else {
      var s, u := UseMany(Init(cap), uses[..|uses| - 1]), uses[|uses| - 1];
      TinyRefines(cap, uses[..|uses| - 1]);
      match u
      case Pushes(data, index, eof) => TinyPush(s, data, index, eof);
      case Reads(n) => PopKeepsValid(s, Min(n, Streams.Size(s.out)));
    }
  }

  /** With reads, the reassembler is correct on every run exactly at capacities 0 and 1. */
  lemma CapacityExact(cap: u64)
    ensures AlwaysRefines(cap) <==> cap <= 1
  {
    if cap <= 1 {
      forall uses: seq<Use> ensures ViewOf(UseMany(Init(cap), uses)) == UseManyView(ViewOf(Init(cap)), uses) {
        TinyRefines(cap, uses);
      }
    } else {
      var uses := CorruptingRun(cap);
    }
  }
}
