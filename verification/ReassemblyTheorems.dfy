/** What follows from the refinement: conservation of bytes, the memory bound, order
    independence, and how far the 32-bit keys of the interval map carry. */
module ReassemblyTheorems {
  import opened Types
  import opened Reassembly
  import opened ReassemblyMeaning
  import Streams

  // ---- one push ----

  /** The byte at index `k`, assembled or waiting. */
  function Held(v: View, k: nat): Option<byte> {
    if k < |v.out.written| then Some(v.out.written[k])
    else if k in v.stored then Some(v.stored[k])
    else None
  }

  /** Waiting bytes lie past a hole and inside the window. */
  ghost predicate Waiting(v: View) {
    forall k :: k in v.stored ==> |v.out.written| < k < v.out.read + v.out.cap
  }

  lemma ValidWaits(s: Store)
    requires Valid(s)
    ensures Waiting(ViewOf(s))
  {
    forall k | k in Stored(s.t) ensures s.unasb < k < s.out.read + s.out.cap {
      TidyKeys(s.t, s.unasb + 1, s.out.read + s.out.cap, k);
    }
  }

  lemma AssembleHeld(v: View, k: nat)
    requires forall k :: k in v.stored ==> |v.out.written| <= k < v.out.read + v.out.cap
    ensures Held(Assemble(v), k) == Held(v, k)
    ensures Waiting(Assemble(v))
    ensures v.out.written <= Assemble(v).out.written
  {
    var e := PrefixEnd(v);
    if |v.out.written| <= k < e {
      assert Assemble(v).out.written[k] == Slice(v.stored, |v.out.written|, e)[k - |v.out.written|];
    }
  }

  lemma CloseKeeps(a: View)
    ensures var v := Close(a);
      && v.out.written == a.out.written && v.stored == a.stored
      && v.out.read == a.out.read && v.out.cap == a.out.cap && v.out.error == a.out.error
    ensures |a.out.written| == a.eof2 ==> Close(a).eof2 == NO_EOF && Close(a).out.ended
    ensures |a.out.written| != a.eof2 ==> Close(a).eof2 == a.eof2 && Close(a).out.ended == a.out.ended
  {
  }

  lemma AcceptHeld(v: View, data: seq<byte>, index: nat, eof: bool, stop: u64, k: nat)
    requires Waiting(v) && stop <= index + |data|
    ensures var a := AcceptView(v, data, index, eof, stop);
      && (forall i :: i in a.stored ==> |a.out.written| <= i < a.out.read + a.out.cap)
      && Held(a, k) == (if Held(v, k).Some? then Held(v, k)
                        else if index <= k < Min(stop, v.out.read + v.out.cap) then Some(data[k - index])
                        else None)
  {
  }

  /** What one push does, seen from outside. */
  ghost predicate Pushed(v: View, v': View, data: seq<byte>, index: nat, eof: bool, stop: u64) {
    && Waiting(v')
    && v.out.written <= v'.out.written
    && v'.out.read == v.out.read && v'.out.cap == v.out.cap && v'.out.error == v.out.error
    && (var eof2 := if eof then stop else v.eof2;
        if |v'.out.written| == eof2 then v'.eof2 == NO_EOF && v'.out.ended
        else v'.eof2 == eof2 && v'.out.ended == v.out.ended)
  }

  lemma ViewPushHeld(v: View, data: seq<byte>, index: nat, eof: bool, stop: u64, k: nat)
    requires Waiting(v) && stop <= index + |data|
    ensures Pushed(v, PushViewUpTo(v, data, index, eof, stop), data, index, eof, stop)
    ensures Held(PushViewUpTo(v, data, index, eof, stop), k)
         == (if Held(v, k).Some? then Held(v, k)
             else if index <= k < Min(stop, v.out.read + v.out.cap) then Some(data[k - index])
             else None)
  {
    var a := AcceptView(v, data, index, eof, stop);
    AcceptHeld(v, data, index, eof, stop, k);
    AssembleHeld(a, k);
    CloseKeeps(Assemble(a));
  }

  lemma SameBounds(s: Store)
    ensures ViewOf(s).out == s.out && ViewOf(s).eof2 == s.eof2
  {
  }

  /** What a push does wherever it refines its view. */
  lemma RefinedHeld(s: Store, data: seq<byte>, index: u64, eof: bool, k: nat)
    requires Valid(s) && ViewOf(Push(s, data, index, eof)) == PushView(ViewOf(s), data, index, eof)
    ensures var v, v', stop := ViewOf(s), ViewOf(Push(s, data, index, eof)), U64(index + |data|);
      && stop <= index + |data|
      && Held(v', k) == (if Held(v, k).Some? then Held(v, k)
                         else if index <= k < Min(stop, v.out.read + v.out.cap) then Some(data[k - index])
                         else None)
      && Pushed(v, v', data, index, eof, stop)
  {
    hide Push, PushViewUpTo, U64, ViewOf;
    ValidWaits(s);
    U64Small(index + |data|);
    SameBounds(s);
    ViewPushHeld(ViewOf(s), data, index, eof, U64(index + |data|), k);
  }

  /** Nothing held is lost or changed, and of the pushed bytes exactly those of the window
      that were not held are added. */
  lemma PushHeld(s: Store, data: seq<byte>, index: u64, eof: bool, k: nat)
    requires Valid(s) && Fits(s)
    ensures var v, v', stop := ViewOf(s), ViewOf(Push(s, data, index, eof)), U64(index + |data|);
      && stop <= index + |data|
      && Held(v', k) == (if Held(v, k).Some? then Held(v, k)
                         else if index <= k < Min(stop, v.out.read + v.out.cap) then Some(data[k - index])
                         else None)
  {
    hide Push, PushView, U64, ViewOf, Pushed, Fits, Valid;
    PushRefines(s, data, index, eof);
    RefinedHeld(s, data, index, eof, k);
  }

  /** The output only grows, the byte after the assembled prefix is never waiting, and the
      stream ends exactly when the prefix meets the announced end. */
  lemma PushShape(s: Store, data: seq<byte>, index: u64, eof: bool)
    requires Valid(s) && Fits(s)
    ensures Valid(Push(s, data, index, eof))
    ensures Pushed(ViewOf(s), ViewOf(Push(s, data, index, eof)), data, index, eof, U64(index + |data|))
  {
    hide Push, PushView, U64, ViewOf, Pushed, Fits, Valid, Held;
    PushRefines(s, data, index, eof);
    RefinedHeld(s, data, index, eof, 0);
  }

  // ---- memory ----

  lemma {:induction false} StoredSize(t: seq<Interval>, from: nat, limit: nat)
    requires Tidy(t, from, limit)
    ensures |Stored(t)| == Total(t)
  {
    if t != [] {
      var c := t[0];
      StoredSize(t[1..], c.hi, limit);
      TidyHead(t, from, limit);
      RangeSize(c.lo, c.hi, Bytes(c).Keys);
      assert Stored(t).Keys == Bytes(c).Keys + Stored(t[1..]).Keys;
    }
  }

  lemma {:induction false} RangeSize(lo: nat, hi: nat, keys: set<nat>)
    requires lo <= hi && forall k: nat :: k in keys <==> lo <= k < hi
    ensures |keys| == hi - lo
    decreases hi - lo
  {
    if lo < hi {
      RangeSize(lo + 1, hi, keys - {lo});
    } else {
      assert keys == {};
    }
  }

  /** `unassembled_bytes()` counts distinct waiting indices, the stream has been written up
      to `firstUnasb()`, and assembled-unread and waiting bytes together fit the capacity. */
  lemma MemoryBound(s: Store)
    requires Valid(s)
    ensures s.szUnasb == |Stored(s.t)|
    ensures s.unasb == |s.out.written|
    ensures Streams.Size(s.out) + s.szUnasb <= s.out.cap
  {
    var limit := s.out.read + s.out.cap;
    StoredSize(s.t, s.unasb + 1, limit);
    TidyTotal(s.t, s.unasb + 1, limit);
  }

  lemma {:induction false} TidyTotal(t: seq<Interval>, from: nat, limit: nat)
    requires Tidy(t, from, limit)
    ensures Total(t) == 0 || from + Total(t) <= limit
  {
    if t != [] { TidyTotal(t[1..], t[0].hi, limit); }
  }

  /** Reading keeps the invariant. */
  lemma PopKeepsValid(s: Store, n: nat)
    requires Valid(s) && n <= Streams.Size(s.out)
    ensures Valid(s.(out := Streams.Pop(s.out, n)))
  {
    TidyWeaken(s.t, s.unasb + 1, s.out.read + s.out.cap, s.unasb + 1, s.out.read + n + s.out.cap);
  }

  /** A push of anything, or a read of what is buffered. */
  datatype Use = Pushes(data: seq<byte>, index: u64, eof: bool) | Reads(n: nat)

  function UseOnce(s: Store, u: Use): Store {
    match u
    case Pushes(data, index, eof) => Push(s, data, index, eof)
    case Reads(n) => s.(out := Streams.Pop(s.out, Min(n, Streams.Size(s.out))))
  }

  function UseMany(s: Store, uses: seq<Use>): Store
    decreases |uses|
  {
    if uses == [] then s else UseOnce(UseMany(s, uses[..|uses| - 1]), uses[|uses| - 1])
  }

  /** Whenever something is pushed while something is stored, narrowing keeps the order of the
      window. */
  predicate AllFit(s: Store, uses: seq<Use>)
    decreases |uses|
  {
    uses == [] || (AllFit(s, uses[..|uses| - 1]) && (uses[|uses| - 1].Pushes? ==> Fits(UseMany(s, uses[..|uses| - 1]))))
  }

  /** Across any mix of pushes, genuine or not, and reads: the counters are exact and the
      memory bound holds. */
  lemma {:induction false} AlwaysBounded(cap: nat, uses: seq<Use>)
    requires AllFit(Init(cap), uses)
    ensures var s := UseMany(Init(cap), uses);
      && Valid(s) && s.out.cap == cap
      && s.szUnasb == |Stored(s.t)| && s.unasb == |s.out.written|
      && Streams.Size(s.out) + s.szUnasb <= cap
    decreases |uses|
  {
    hide Push, Stored, Tidy, Fits, Ascending;
    if uses == [] {
      FreshValid(cap);
    } else {
      var s, u := UseMany(Init(cap), uses[..|uses| - 1]), uses[|uses| - 1];
      AlwaysBounded(cap, uses[..|uses| - 1]);
      match u
      case Pushes(data, index, eof) => PushShape(s, data, index, eof);
      case Reads(n) => PopKeepsValid(s, Min(n, Streams.Size(s.out)));
    }
    MemoryBound(UseMany(Init(cap), uses));
  }

  /** On every run, correct or not, the interval map is in the order of its own comparison. */
  lemma {:induction false} AlwaysAscending(cap: nat, uses: seq<Use>)
    ensures Ascending(UseMany(Init(cap), uses).t)
    decreases |uses|
  {
    if uses != [] {
      AlwaysAscending(cap, uses[..|uses| - 1]);
      var u := uses[|uses| - 1];
      if u.Pushes? { PushAscends(UseMany(Init(cap), uses[..|uses| - 1]), u.data, u.index, u.eof); }
    }
  }

  lemma FreshValid(cap: nat)
    ensures Valid(Init(cap))
  {
  }

  // ---- any order of arrival ----

  /** The reassembler's input: a slice [i, j) of the stream, or a read by the application. */
  datatype Op = Deliver(i: nat, j: nat, eof: bool) | Consume(n: nat)

  predicate WellFormed(op: Op, S: seq<byte>) {
    op.Deliver? ==> op.i <= op.j <= |S| && (op.eof ==> op.j == |S|)
  }

  function Step(s: Store, op: Op, S: seq<byte>): Store
    requires WellFormed(op, S) && |S| < 0x8000_0000
  {
    match op
    case Deliver(i, j, eof) => Push(s, S[i..j], i, eof)
    case Consume(n) => s.(out := Streams.Pop(s.out, Min(n, Streams.Size(s.out))))
  }

  function Steps(s: Store, ops: seq<Op>, S: seq<byte>): Store
    requires |S| < 0x8000_0000 && forall op :: op in ops ==> WellFormed(op, S)
    decreases |ops|
  {
    if ops == [] then s else Step(Steps(s, ops[..|ops| - 1], S), ops[|ops| - 1], S)
  }

  predicate Covered(ops: seq<Op>, k: nat) {
    exists i :: 0 <= i < |ops| && ops[i].Deliver? && ops[i].i <= k < ops[i].j
  }

  predicate EofSeen(ops: seq<Op>) {
    exists i :: 0 <= i < |ops| && ops[i].Deliver? && ops[i].eof
  }

  /** Everything delivered so far, and nothing else, is held. */
  ghost predicate AllHeld(v: View, ops: seq<Op>, S: seq<byte>) {
    forall k: nat :: Held(v, k) == if Covered(ops, k) && k < |S| then Some(S[k]) else None
  }

  /** The end mark, once delivered, is waiting or has closed the stream. */
  ghost predicate EndKept(v: View, ops: seq<Op>, S: seq<byte>) {
    && |v.out.written| <= |S|
    && (v.eof2 == NO_EOF || v.eof2 == |S|)
    && (v.eof2 == |S| ==> |v.out.written| < |S|)
    && (EofSeen(ops) <==> v.out.ended || v.eof2 == |S|)
    && (v.out.ended ==> |v.out.written| == |S|)
  }

  ghost predicate Progress(s: Store, ops: seq<Op>, S: seq<byte>) {
    Valid(s) && AllHeld(ViewOf(s), ops, S) && EndKept(ViewOf(s), ops, S) && Tidy(s.t, s.unasb + 1, |S|)
  }

  /** The stream fits the capacity, 32-bit keys and a 64-bit window. */
  predicate Suits(S: seq<byte>, cap: nat) {
    |S| <= cap && |S| < 0x8000_0000 && |S| + cap < 0x1_0000_0000_0000_0000
  }

  lemma {:induction false} StepsProgress(cap: nat, ops: seq<Op>, S: seq<byte>)
    requires Suits(S, cap)
    requires forall op :: op in ops ==> WellFormed(op, S)
    ensures Progress(Steps(Init(cap), ops, S), ops, S)
    ensures Steps(Init(cap), ops, S).out.cap == cap
    decreases |ops|
  {
    if ops == [] {
    } else {
      var before, op := ops[..|ops| - 1], ops[|ops| - 1];
      var s := Steps(Init(cap), before, S);
      StepsProgress(cap, before, S);
      assert ops == before + [op];
      if op.Deliver? {
        DeliverProgress(s, before, op, S);
      } else {
        ConsumeProgress(s, before, op, S);
      }
    }
  }

  lemma CoveredExtend(ops: seq<Op>, op: Op, k: nat)
    ensures Covered(ops + [op], k) <==> Covered(ops, k) || (op.Deliver? && op.i <= k < op.j)
    ensures EofSeen(ops + [op]) <==> EofSeen(ops) || (op.Deliver? && op.eof)
  {
    var all := ops + [op];
    assert all[|ops|] == op;
    if i :| 0 <= i < |ops| && ops[i].Deliver? && ops[i].i <= k < ops[i].j { assert all[i] == ops[i]; }
    if i :| 0 <= i < |ops| && ops[i].Deliver? && ops[i].eof { assert all[i] == ops[i]; }
  }

  lemma ConsumeProgress(s: Store, ops: seq<Op>, op: Op, S: seq<byte>)
    requires |S| < 0x8000_0000 && op.Consume? && Progress(s, ops, S)
    ensures Progress(Step(s, op, S), ops + [op], S)
  {
    PopKeepsValid(s, Min(op.n, Streams.Size(s.out)));
    var v, v' := ViewOf(s), ViewOf(Step(s, op, S));
    CoveredExtend(ops, op, 0);
    forall k: nat ensures Held(v', k) == if Covered(ops + [op], k) && k < |S| then Some(S[k]) else None {
      CoveredExtend(ops, op, k);
      assert Held(v', k) == Held(v, k);
    }
  }

  lemma DeliverProgress(s: Store, ops: seq<Op>, op: Op, S: seq<byte>)
    requires Suits(S, s.out.cap)
    requires op.Deliver? && WellFormed(op, S) && Progress(s, ops, S)
    ensures Progress(Step(s, op, S), ops + [op], S)
    ensures Step(s, op, S).out.cap == s.out.cap
  {
    hide Push, Held, Covered, EofSeen, U64, ViewOf, EndKept, Pushed, Valid;
    forall k: nat ensures Held(ViewOf(Step(s, op, S)), k) == if Covered(ops + [op], k) && k < |S| then Some(S[k]) else None {
      DeliverHeld(s, ops, op, S, k);
    }
    DeliverRefines(s, ops, op, S);
    RefinedHeld(s, S[op.i..op.j], op.i, op.eof, 0);
    U64Small(op.j);
    PushedBounds(s, Step(s, op, S), S[op.i..op.j], op.i, op.eof, op.j);
    DeliverEnd(ViewOf(s), ViewOf(Step(s, op, S)), ops, op, S);
  }

  lemma DeliverRefines(s: Store, ops: seq<Op>, op: Op, S: seq<byte>)
    requires Suits(S, s.out.cap) && op.Deliver? && WellFormed(op, S) && Progress(s, ops, S)
    ensures var s' := Step(s, op, S);
      Valid(s') && ViewOf(s') == PushView(ViewOf(s), S[op.i..op.j], op.i, op.eof) && Tidy(s'.t, s'.unasb + 1, |S|)
  {
    hide Push, PushView, Held, Covered, EofSeen, U64;
    U64Small(op.j);
    PushRefinesUpTo(s, S[op.i..op.j], op.i, op.eof, |S|);
  }

  lemma PushedBounds(s: Store, s': Store, data: seq<byte>, index: nat, eof: bool, stop: u64)
    requires Pushed(ViewOf(s), ViewOf(s'), data, index, eof, stop)
    ensures s'.out.cap == s.out.cap && s'.out.read == s.out.read
  {
  }

  lemma DeliverHeld(s: Store, ops: seq<Op>, op: Op, S: seq<byte>, k: nat)
    requires Suits(S, s.out.cap)
    requires op.Deliver? && WellFormed(op, S) && Progress(s, ops, S)
    ensures Held(ViewOf(Step(s, op, S)), k) == if Covered(ops + [op], k) && k < |S| then Some(S[k]) else None
  {
    hide Push, PushView, Held, Covered, U64, ViewOf, Tidy;
    U64Small(op.j);
    SameBounds(s);
    CoveredExtend(ops, op, k);
    DeliverRefines(s, ops, op, S);
    RefinedHeld(s, S[op.i..op.j], op.i, op.eof, k);
    SliceAt(S, op.i, op.j, k);
  }

  lemma SliceAt(S: seq<byte>, i: nat, j: nat, k: nat)
    requires i <= j <= |S|
    ensures i <= k < j ==> S[i..j][k - i] == S[k]
  {
  }

  lemma DeliverEnd(v: View, v': View, ops: seq<Op>, op: Op, S: seq<byte>)
    requires |S| < 0x8000_0000 && op.Deliver? && WellFormed(op, S) && EndKept(v, ops, S)
    requires Pushed(v, v', S[op.i..op.j], op.i, op.eof, op.j)
    requires AllHeld(v', ops + [op], S)
    ensures EndKept(v', ops + [op], S)
  {
    CoveredExtend(ops, op, 0);
    NotHeld(v', |S|);
  }

  lemma NotHeld(v: View, k: nat)
    requires Held(v, k) == None
    ensures |v.out.written| <= k && k !in v.stored
  {
  }

  lemma HeadStored(t: seq<Interval>, from: nat, limit: nat)
    requires Tidy(t, from, limit)
    ensures t == [] || t[0].lo in Stored(t)
  {
    assert t == [] || t[0].lo in Bytes(t[0]);
  }

  /** A view that holds exactly S has assembled it. */
  lemma HoldsAll(v: View, S: seq<byte>)
    requires Waiting(v)
    requires forall k: nat :: Held(v, k) == if k < |S| then Some(S[k]) else None
    ensures v.out.written == S && v.stored == map[]
  {
    var u := |v.out.written|;
    assert Held(v, u) == None;
    NotHeld(v, |S|);
    forall k | 0 <= k < u ensures v.out.written[k] == S[k] { assert Held(v, k) == Some(S[k]); }
    forall k: nat ensures k !in v.stored { if k >= u { NotHeld(v, k); } }
  }

  /** Slices of S in any order, with any overlap and repetition and any reads in between,
      reassemble to exactly S once they cover it and one of them carried the end mark. */
  lemma Confluence(cap: nat, ops: seq<Op>, S: seq<byte>)
    requires Suits(S, cap)
    requires forall op :: op in ops ==> WellFormed(op, S)
    requires forall k :: 0 <= k < |S| ==> Covered(ops, k)
    requires EofSeen(ops)
    ensures var s := Steps(Init(cap), ops, S);
      s.out.written == S && s.out.ended && s.szUnasb == 0 && s.t == []
  {
    var s := Steps(Init(cap), ops, S);
    StepsProgress(cap, ops, S);
    ValidWaits(s);
    HoldsAll(ViewOf(s), S);
    MemoryBound(s);
    HeadStored(s.t, s.unasb + 1, s.out.read + s.out.cap);
  }
}
