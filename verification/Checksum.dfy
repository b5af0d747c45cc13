/** The Internet checksum (RFC 1071). */
module Checksums {
  import opened Types

  /** What one byte adds: as the first half of a word or, if `odd`, the second. */
  function Half(b: byte, odd: bool): nat {
    if odd then b else b * 256
  }

  /** Adding up bytes as 16-bit big-endian words; `odd` says that the first byte is the second
      half of a word. */
  function Sum(data: seq<byte>, odd: bool): nat {
    if data == [] then 0 else Half(data[0], odd) + Sum(data[1..], !odd)
  }

  function U32(x: int): u32 {
    x % 0x1_0000_0000
  }

  datatype Checksum = Checksum(sum: u32, odd: bool)

  /** `add` */
  function Add(c: Checksum, data: seq<byte>): Checksum {
    Checksum(U32(c.sum + Sum(data, c.odd)), c.odd != (|data| % 2 == 1))
  }

  function AddAll(c: Checksum, chunks: seq<seq<byte>>): Checksum
    decreases |chunks|
  {
    if chunks == [] then c else AddAll(Add(c, chunks[0]), chunks[1..])
  }

  function Concat(chunks: seq<seq<byte>>): seq<byte> {
    if chunks == [] then [] else chunks[0] + Concat(chunks[1..])
  }

  function FoldOnce(x: u32): u32 {
    x / 0x1_0000 + x % 0x1_0000
  }

  /** The folding loop of `value`. */
  function Fold(x: u32): u16
    decreases x
  {
    if x > 0xffff then Fold(FoldOnce(x)) else x
  }

  /** `value` */
  function Value(c: Checksum): u16 {
    0xffff - Fold(c.sum)
  }

  /** The checksum of `data` on top of an initial sum. */
  function Of(initial: u32, data: seq<byte>): u16 {
    Value(Add(Checksum(initial, false), data))
  }

  // ---- the sum does not depend on the chunks ----

  lemma {:induction false} SumAppend(a: seq<byte>, b: seq<byte>, odd: bool)
    ensures Sum(a + b, odd) == Sum(a, odd) + Sum(b, odd != (|a| % 2 == 1))
  {
    if a == [] {
      assert a + b == b;
    } else {
      assert (a + b)[1..] == a[1..] + b;
      SumAppend(a[1..], b, !odd);
    }
  }

  lemma U32Add(x: int, y: int)
    ensures U32(U32(x) + y) == U32(x + y)
  {
    var k := x / 0x1_0000_0000;
    assert x + y == (U32(x) + y) + k * 0x1_0000_0000;
    SameU32(U32(x) + y, k);
  }

  lemma SameU32(x: int, k: int)
    ensures U32(x + k * 0x1_0000_0000) == U32(x)
  {
  }

  lemma AddAppend(c: Checksum, a: seq<byte>, b: seq<byte>)
    ensures Add(Add(c, a), b) == Add(c, a + b)
  {
    hide Sum, U32;
    SumAppend(a, b, c.odd);
    U32Add(c.sum + Sum(a, c.odd), Sum(b, c.odd != (|a| % 2 == 1)));
  }

  /** However the bytes are cut into chunks, of even or odd length, the checksum is that of the
      whole, also where the 32-bit sum wraps. */
  lemma {:induction false} ChunksDoNotMatter(c: Checksum, chunks: seq<seq<byte>>)
    ensures AddAll(c, chunks) == Add(c, Concat(chunks))
    decreases |chunks|
  {
    if chunks == [] {
    } else {
      ChunksDoNotMatter(Add(c, chunks[0]), chunks[1..]);
      AddAppend(c, chunks[0], Concat(chunks[1..]));
    }
  }

  // ---- folding is reduction modulo 65535 ----

  lemma FoldOnceCongruent(x: u32)
    ensures FoldOnce(x) == x - (x / 0x1_0000) * 0xffff
    ensures FoldOnce(x) == 0 <==> x == 0
  {
  }

  /** The residue of a positive number in 1 .. 65535. */
  lemma {:induction false} FoldIs(x: u32)
    ensures Fold(x) == if x == 0 then 0 else (x - 1) % 0xffff + 1
    decreases x
  {
    if x > 0xffff {
      FoldOnceCongruent(x);
      FoldIs(FoldOnce(x));
      SameResidue(x - 1, -(x / 0x1_0000));
    }
  }

  lemma SameResidue(x: int, k: int)
    ensures (x + k * 0xffff) % 0xffff == x % 0xffff
  {
  }

  /** A checksum comes out as zero exactly when the sum is a positive multiple of 65535. */
  lemma ZeroIff(c: Checksum)
    ensures Value(c) == 0 <==> c.sum > 0 && c.sum % 0xffff == 0
  {
    FoldIs(c.sum);
    if c.sum > 0 { LastResidue(c.sum); }
  }

  lemma LastResidue(x: nat)
    requires x > 0
    ensures (x - 1) % 0xffff == 0xfffe <==> x % 0xffff == 0
  {
    var q := x / 0xffff;
    if x % 0xffff == 0 { SameResidue(0xfffe, q - 1); }
  }

  /** Adding the checksum to the sum it was computed from makes the sum check out. */
  lemma ComplementCloses(sum: u32, odd: bool)
    requires sum + 0xffff < 0x1_0000_0000
    ensures Value(Checksum(sum + Value(Checksum(sum, odd)), odd)) == 0
  {
    FoldIs(sum);
    var total := sum + Value(Checksum(sum, odd));
    ZeroIff(Checksum(total, odd));
    if sum > 0 { assert total == (sum - 1) / 0xffff * 0xffff + 0xffff; }
  }

  lemma {:induction false} SumBound(data: seq<byte>, odd: bool)
    ensures !odd ==> Sum(data, odd) <= 0xffff * ((|data| + 1) / 2)
    ensures odd && data != [] ==> Sum(data, odd) <= 0xff + 0xffff * (|data| / 2)
  {
    if data != [] { SumBound(data[1..], !odd); }
  }

  /** Up to 65535 bytes never overflow the 32-bit sum. */
  lemma NoOverflow(initial: u32, data: seq<byte>)
    requires initial < 0x7fff_0000 && |data| <= 0xffff
    ensures initial + Sum(data, false) + 0xffff < 0x1_0000_0000
  {
    SumBound(data, false);
  }

  lemma U32Id(x: u32)
    ensures U32(x) == x
  {
  }

  lemma OfIs(initial: u32, data: seq<byte>)
    requires initial < 0x7fff_0000 && |data| <= 0xffff
    ensures initial + Sum(data, false) < 0x1_0000_0000
    ensures Of(initial, data) == Value(Checksum(initial + Sum(data, false), |data| % 2 == 1))
    ensures Of(initial, data) == 0 <==> 0 < initial + Sum(data, false) && (initial + Sum(data, false)) % 0xffff == 0
  {
    NoOverflow(initial, data);
    U32Id(initial + Sum(data, false));
    ZeroIff(Checksum(initial + Sum(data, false), |data| % 2 == 1));
  }

  // ---- the checksum field ----

  /** A 16-bit word, most significant byte first. */
  function Word(w: u16): seq<byte> {
    [w / 256, w % 256]
  }

  lemma SumWord(w: u16)
    ensures Sum(Word(w), false) == w
  {
    var low: seq<byte> := [w % 256];
    assert Word(w)[1..] == low && low[1..] == [];
    assert Sum(low, true) == w % 256;
  }

  lemma SumAround(before: seq<byte>, w: u16, after: seq<byte>)
    requires |before| % 2 == 0
    ensures Sum(before + (Word(w) + after), false) == Sum(before + (Word(0) + after), false) + w
  {
    SumAppend(before, Word(w) + after, false);
    SumAppend(Word(w), after, false);
    SumAppend(before, Word(0) + after, false);
    SumAppend(Word(0), after, false);
    SumWord(w);
    SumWord(0);
  }

  /** Computed over the data with a zero field and then put in that field, the checksum makes
      the whole check out. */
  lemma Inserted(initial: u32, before: seq<byte>, after: seq<byte>)
    requires |before| % 2 == 0 && |before| + 2 + |after| <= 0xffff && initial < 0x7fff_0000
    ensures var w := Of(initial, before + (Word(0) + after));
      Of(initial, before + (Word(w) + after)) == 0
  {
    var zero := before + (Word(0) + after);
    var w := Of(initial, zero);
    OfIs(initial, zero);
    OfIs(initial, before + (Word(w) + after));
    NoOverflow(initial, zero);
    SumAround(before, w, after);
    ComplementCloses(initial + Sum(zero, false), |zero| % 2 == 1);
  }

  /** Of all contents of one aligned 16-bit word, only the transmitted one checks out, except
      that 0x0000 and 0xffff cannot be told apart. */
  lemma DetectsWord(initial: u32, before: seq<byte>, after: seq<byte>, w: u16, w': u16)
    requires |before| % 2 == 0 && |before| + 2 + |after| <= 0xffff && initial < 0x7fff_0000
    requires Of(initial, before + (Word(w) + after)) == 0
    requires w != w' && !(w == 0 && w' == 0xffff) && !(w == 0xffff && w' == 0)
    ensures Of(initial, before + (Word(w') + after)) != 0
  {
    OfAround(initial, before, after, w);
    OfAround(initial, before, after, w');
    var sum := initial + Sum(before + (Word(0) + after), false);
    if Of(initial, before + (Word(w') + after)) == 0 { Multiples(sum + w, sum + w'); }
  }

  lemma OfAround(initial: u32, before: seq<byte>, after: seq<byte>, w: u16)
    requires |before| % 2 == 0 && |before| + 2 + |after| <= 0xffff && initial < 0x7fff_0000
    ensures Of(initial, before + (Word(w) + after)) == 0
      <==> 0 < initial + Sum(before + (Word(0) + after), false) + w
           && (initial + Sum(before + (Word(0) + after), false) + w) % 0xffff == 0
  {
    SumAround(before, w, after);
    OfIs(initial, before + (Word(w) + after));
  }

  lemma Multiples(a: nat, b: nat)
    requires a % 0xffff == 0 && b % 0xffff == 0
    ensures a == b || a >= b + 0xffff || b >= a + 0xffff
  {
  }
}

/** The checksum object of util.cc. */
module InternetChecksums {
  import opened Types
  import opened Checksums

  class InternetChecksum {
    var sum: u32
    var parity: bool

    function Model(): Checksum
      reads this
    {
      Checksum(sum, parity)
    }

    constructor (initialSum: u32)
      ensures Model() == Checksum(initialSum, false)
    {
      sum, parity := initialSum, false;
    }

    method Add(data: seq<byte>)
      modifies this
      ensures Model() == Checksums.Add(old(Model()), data)
    {
      U32Id(sum);
      for i := 0 to |data|
        invariant Model() == Checksums.Add(old(Model()), data[..i])
      {
        var val: nat := data[i];
        if !parity {
          val := val * 256;
        }
        AddOne(old(Model()), data, i);
        sum := U32(sum + val);
        parity := !parity;
      }
      assert data[..|data|] == data;
    }

    method Value() returns (v: u16)
      ensures v == Checksums.Value(Model())
    {
      var ret: u32 := sum;
      while ret > 0xffff
        invariant Fold(ret) == Fold(sum)
        decreases ret
      {
        ret := FoldOnce(ret);
      }
      v := 0xffff - ret;
    }
  }

  lemma AddOne(c: Checksum, data: seq<byte>, i: nat)
    requires i < |data|
    ensures var c1 := Checksums.Add(c, data[..i]);
      Checksums.Add(c, data[..i + 1]) == Checksum(U32(c1.sum + Half(data[i], c1.odd)), !c1.odd)
  {
    var last := [data[i]];
    assert data[..i + 1] == data[..i] + last && last[1..] == [];
    AddAppend(c, data[..i], last);
    var c1 := Checksums.Add(c, data[..i]);
    assert Sum(last, c1.odd) == Half(data[i], c1.odd);
  }
}
