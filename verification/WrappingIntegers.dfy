/** 32-bit sequence numbers relative to an initial sequence number (ISN), and
    their decoding into 64-bit absolute sequence numbers. */
module WrappingIntegers {
  import opened Types

  /** `wrap`: an absolute sequence number as it appears on the wire. */
  function Wrap(n: nat, isn: u32): u32 {
    ((n % 0x1_0000_0000) + isn) % 0x1_0000_0000
  }

  /** `unwrap`, in the 64-bit unsigned arithmetic of the source. */
  function Unwrap(n: u32, isn: u32, checkpoint: u64): u64 {
    var w := Wrap(checkpoint, isn);
    if w <= n then
      if n - w < 0x1_0000_0000 + w - n then
        U64(checkpoint + n - w)
      else if checkpoint < 0x1_0000_0000 + w - n then
        U64(checkpoint + n - w)
      else
        checkpoint - (0x1_0000_0000 + w - n)
    else
      if w - n < 0x1_0000_0000 + n - w then
        if U64(checkpoint + 0x1_0000_0000) < w - n + 0x1_0000_0000 then
          U64(checkpoint + 0x1_0000_0000 - w + n)
        else
          checkpoint - (w - n)
      else
        U64(checkpoint + 0x1_0000_0000 + n - w)
  }

  /** How far, modulo 2^32, a wire number lies past the ISN. */
  function Offset(n: u32, isn: u32): u32 {
    (n - isn) % 0x1_0000_0000
  }

  /** Wrapping subtracts a whole number of turns. */
  lemma Turns(v: nat, isn: u32) returns (k: int)
    ensures v + isn == Wrap(v, isn) + k * 0x1_0000_0000
  {
    var low := v % 0x1_0000_0000;
    k := v / 0x1_0000_0000 + (low + isn) / 0x1_0000_0000;
  }

  lemma Quotient(a: int, b: int) returns (k: int)
    requires a % 0x1_0000_0000 == b % 0x1_0000_0000
    ensures a == b + k * 0x1_0000_0000
  {
    k := a / 0x1_0000_0000 - b / 0x1_0000_0000;
  }

  lemma SameRemainder(a: int, b: int, k: int)
    requires a == b + k * 0x1_0000_0000
    ensures a % 0x1_0000_0000 == b % 0x1_0000_0000
  {
  }

  /** Two absolute numbers share a wire form exactly when they agree modulo 2^32. */
  lemma WrapInjective(v: nat, v': nat, isn: u32)
    ensures Wrap(v, isn) == Wrap(v', isn) <==> v % 0x1_0000_0000 == v' % 0x1_0000_0000
  {
    var j := Turns(v, isn);
    var k := Turns(v', isn);
    if v % 0x1_0000_0000 == v' % 0x1_0000_0000 {
      var i := Quotient(v, v');
    }
    if v == v' + (j - k) * 0x1_0000_0000 { SameRemainder(v, v', j - k); }
  }

  lemma OffsetWrap(v: nat, isn: u32)
    requires v < 0x1_0000_0000
    ensures Offset(Wrap(v, isn), isn) == v
  {
    var k := Turns(v, isn);
    SameRemainder(Wrap(v, isn) - isn, v, -k);
  }

  lemma WrapOffset(n: u32, isn: u32)
    ensures Wrap(Offset(n, isn), isn) == n
  {
    var j := Turns(Offset(n, isn), isn);
    var k := Quotient(Offset(n, isn), n - isn);
  }

  /** The signed distance between wire numbers is the distance between the absolute ones,
      up to whole turns. */
  lemma WireDistance(v: nat, v': nat, isn: u32) returns (k: int)
    ensures v - v' == Wrap(v, isn) - Wrap(v', isn) + k * 0x1_0000_0000
  {
    var i := Turns(v, isn);
    var j := Turns(v', isn);
    k := i - j;
  }

  lemma U64Mod(x: int) returns (k: int)
    ensures U64(x) == x + k * 0x1_0000_0000
  {
    k := -(x / 0x1_0000_0000_0000_0000) * 0x1_0000_0000;
  }

  /** `unwrap` moves the checkpoint by the wire distance, up to whole turns. */
  lemma UnwrapDistance(n: u32, isn: u32, checkpoint: u64) returns (k: int)
    ensures Unwrap(n, isn, checkpoint) == checkpoint + n - Wrap(checkpoint, isn) + k * 0x1_0000_0000
  {
    var w := Wrap(checkpoint, isn);
    var i := U64Mod(checkpoint + n - w);
    var j := U64Mod(checkpoint + 0x1_0000_0000 + n - w);
    k := if w <= n then
           if n - w < 0x1_0000_0000 + w - n || checkpoint < 0x1_0000_0000 + w - n then i else -1
         else
           if w - n < 0x1_0000_0000 + n - w && U64(checkpoint + 0x1_0000_0000) >= w - n + 0x1_0000_0000 then 0 else j + 1;
  }

  /** `unwrap` always returns a number that wraps to its argument, even where the
      64-bit arithmetic overflows. */
  lemma UnwrapCongruent(n: u32, isn: u32, checkpoint: u64)
    ensures Wrap(Unwrap(n, isn, checkpoint), isn) == n
  {
    var r := Unwrap(n, isn, checkpoint);
    var i := UnwrapDistance(n, isn, checkpoint);
    var j := Turns(checkpoint, isn);
    var k := Turns(r, isn);
    SameTurn(Wrap(r, isn), n, i + j - k);
  }

  lemma SameTurn(a: u32, b: u32, k: int)
    requires a == b + k * 0x1_0000_0000
    ensures a == b
  {
  }

  /** Below 2^63 nothing overflows, and `unwrap` picks among the three candidates around
      the checkpoint by the signed wire distance alone. */
  lemma UnwrapCases(n: u32, isn: u32, checkpoint: u64)
    requires checkpoint < 0x8000_0000_0000_0000
    ensures Unwrap(n, isn, checkpoint) == Nearest(n - Wrap(checkpoint, isn), checkpoint)
  {
  }

  function Nearest(d: int, checkpoint: u64): int {
    if d >= 0x8000_0000 && checkpoint + d >= 0x1_0000_0000 then checkpoint + d - 0x1_0000_0000
    else if d <= -0x8000_0000 || checkpoint + d < 0 then checkpoint + d + 0x1_0000_0000
    else checkpoint + d
  }

  /** No number that wraps to `n` is closer to the checkpoint (RFC 793, section 3.3). */
  lemma UnwrapNearest(n: u32, isn: u32, checkpoint: u64, v: nat)
    requires checkpoint < 0x8000_0000_0000_0000
    requires Wrap(v, isn) == n
    ensures Abs(Unwrap(n, isn, checkpoint) - checkpoint) <= Abs(v - checkpoint)
  {
    UnwrapCases(n, isn, checkpoint);
    var k := WireDistance(v, checkpoint, isn);
    NearestIsNearest(n - Wrap(checkpoint, isn), checkpoint, v, k);
  }

  lemma NearestIsNearest(d: int, checkpoint: u64, v: nat, k: int)
    requires -0x1_0000_0000 < d < 0x1_0000_0000 && v - checkpoint == d + k * 0x1_0000_0000
    ensures Abs(Nearest(d, checkpoint) - checkpoint) <= Abs(v - checkpoint)
  {
  }

  /** Exactly when decoding returns the number that was sent: it is within 2^31 of the
      checkpoint, or no smaller candidate is non-negative, or it wins a tie at 2^31. */
  lemma UnwrapExactIff(v: nat, isn: u32, checkpoint: u64)
    requires checkpoint < 0x8000_0000_0000_0000
    ensures Unwrap(Wrap(v, isn), isn, checkpoint) == v
      <==>
      || Abs(v - checkpoint) < 0x8000_0000
      || checkpoint < v < 0x1_0000_0000
      || (v - checkpoint == 0x8000_0000 && Wrap(checkpoint, isn) >= 0x8000_0000)
      || (checkpoint - v == 0x8000_0000 && Wrap(checkpoint, isn) < 0x8000_0000)
  {
    var w := Wrap(checkpoint, isn);
    UnwrapCases(Wrap(v, isn), isn, checkpoint);
    var k := WireDistance(v, checkpoint, isn);
    NearestExact(w, Wrap(v, isn) - w, checkpoint, v, k);
  }

  lemma NearestExact(w: u32, d: int, checkpoint: u64, v: nat, k: int)
    requires 0 <= w + d < 0x1_0000_0000 && v - checkpoint == d + k * 0x1_0000_0000
    ensures Nearest(d, checkpoint) == v
      <==>
      || Abs(v - checkpoint) < 0x8000_0000
      || checkpoint < v < 0x1_0000_0000
      || (v - checkpoint == 0x8000_0000 && w >= 0x8000_0000)
      || (checkpoint - v == 0x8000_0000 && w < 0x8000_0000)
  {
  }

  lemma UnwrapExact(v: nat, isn: u32, checkpoint: u64)
    requires checkpoint < 0x8000_0000_0000_0000
    requires Abs(v - checkpoint) < 0x8000_0000
    ensures Unwrap(Wrap(v, isn), isn, checkpoint) == v
  {
    UnwrapExactIff(v, isn, checkpoint);
  }
}
