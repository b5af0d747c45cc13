/** Reading and writing integers in network byte order (parser.cc). */
module Parsing {
  import opened Types

  datatype ParseResult =
    NoError | BadChecksum | PacketTooShort | WrongIPVersion | HeaderTooShort | TruncatedPacket | Unsupported

  datatype Parser = Parser(buffer: seq<byte>, error: ParseResult)

  /** 256 to the power `n`. */
  function Pow(n: nat): (p: nat)
    ensures p > 0
  {
    if n == 0 then 1 else Pow(n - 1) * 256
  }

  /** The integer that `bytes` spell, most significant byte first. */
  function Number(bytes: seq<byte>): nat {
    if bytes == [] then 0 else Number(bytes[..|bytes| - 1]) * 256 + bytes[|bytes| - 1]
  }

  /** The `len` low bytes of `val`, most significant byte first. */
  function Bytes(val: nat, len: nat): seq<byte> {
    if len == 0 then [] else Bytes(val / 256, len - 1) + [val % 256]
  }

  /** Whether the bit of that weight is set. */
  predicate Bit(x: nat, weight: nat)
    requires weight > 0
  {
    x / weight % 2 == 1
  }

  function Zeros(n: nat): seq<byte> {
    seq(n, _ => 0)
  }

  /** `val >> 8 * n` */
  function ShiftRight(val: nat, n: nat): nat {
    if n == 0 then val else ShiftRight(val, n - 1) / 256
  }

  /** `_parse_int` for an integer of `len` bytes */
  function ParseInt(p: Parser, len: nat): (nat, Parser) {
    var p1 := if len > |p.buffer| then p.(error := PacketTooShort) else p;
    if p1.error != NoError then (0, p1)
    else (Number(p.buffer[..len]), p1.(buffer := p.buffer[len..]))
  }

  /** `remove_prefix` */
  function RemovePrefix(p: Parser, n: nat): Parser {
    var p1 := if n > |p.buffer| then p.(error := PacketTooShort) else p;
    if p1.error != NoError then p1 else p1.(buffer := p.buffer[n..])
  }

  lemma ParseBound(p: Parser, len: nat)
    ensures ParseInt(p, len).0 < Pow(len)
  {
    if len <= |p.buffer| { NumberBound(p.buffer[..len]); }
  }

  function ParseU8(p: Parser): (u8, Parser) {
    Powers();
    ParseBound(p, 1);
    ParseInt(p, 1)
  }

  function ParseU16(p: Parser): (u16, Parser) {
    Powers();
    ParseBound(p, 2);
    ParseInt(p, 2)
  }

  function ParseU32(p: Parser): (u32, Parser) {
    Powers();
    ParseBound(p, 4);
    ParseInt(p, 4)
  }

  lemma ReadU8(val: u8, rest: seq<byte>)
    ensures ParseU8(Parser(Bytes(val, 1) + rest, NoError)) == (val, Parser(rest, NoError))
  {
    Powers();
    ParseWritten(val, 1, rest);
  }

  lemma ReadU16(val: u16, rest: seq<byte>)
    ensures ParseU16(Parser(Bytes(val, 2) + rest, NoError)) == (val, Parser(rest, NoError))
  {
    Powers();
    ParseWritten(val, 2, rest);
  }

  lemma ReadU32(val: u32, rest: seq<byte>)
    ensures ParseU32(Parser(Bytes(val, 4) + rest, NoError)) == (val, Parser(rest, NoError))
  {
    Powers();
    ParseWritten(val, 4, rest);
  }

  /** Reading from position `i` of a packet: the next `len` bytes, if they are there. */
  predicate At(p: Parser, packet: seq<byte>, i: nat) {
    if i <= |packet| then p == Parser(packet[i..], NoError) else p.error == PacketTooShort
  }

  lemma ParseAt(p: Parser, packet: seq<byte>, i: nat, len: nat)
    requires At(p, packet, i)
    ensures At(ParseInt(p, len).1, packet, i + len)
    ensures i + len <= |packet| ==> ParseInt(p, len).0 == Number(packet[i..i + len])
  {
    if i <= |packet| && len <= |packet| - i {
      assert packet[i..][..len] == packet[i..i + len] && packet[i..][len..] == packet[i + len..];
    }
  }

  lemma RemoveAt(p: Parser, packet: seq<byte>, i: nat, n: nat)
    requires At(p, packet, i)
    ensures At(RemovePrefix(p, n), packet, i + n)
  {
    if i <= |packet| && n <= |packet| - i { assert packet[i..][n..] == packet[i + n..]; }
  }

  lemma {:induction false} BytesLength(val: nat, len: nat)
    ensures |Bytes(val, len)| == len
  {
    if len > 0 { BytesLength(val / 256, len - 1); }
  }

  lemma {:induction false} NumberBound(bytes: seq<byte>)
    ensures Number(bytes) < Pow(|bytes|)
  {
    if bytes != [] { NumberBound(bytes[..|bytes| - 1]); }
  }

  /** Spelling out a number and reading it again. */
  lemma {:induction false} NumberOfBytes(val: nat, len: nat)
    requires val < Pow(len)
    ensures |Bytes(val, len)| == len && Number(Bytes(val, len)) == val
  {
    BytesLength(val, len);
    if len > 0 {
      var high := Bytes(val / 256, len - 1);
      NumberOfBytes(val / 256, len - 1);
      assert Bytes(val, len)[..len - 1] == high;
    }
  }

  /** Reading bytes and spelling them out again. */
  lemma {:induction false} BytesOfNumber(bytes: seq<byte>)
    ensures Bytes(Number(bytes), |bytes|) == bytes
  {
    if bytes != [] {
      var high := bytes[..|bytes| - 1];
      BytesOfNumber(high);
      assert bytes == high + [bytes[|bytes| - 1]];
      assert Number(bytes) / 256 == Number(high) && Number(bytes) % 256 == bytes[|bytes| - 1];
    }
  }

  /** What was written in front is what is read, and nothing more is consumed. */
  lemma ParseWritten(val: nat, len: nat, rest: seq<byte>)
    requires val < Pow(len)
    ensures ParseInt(Parser(Bytes(val, len) + rest, NoError), len) == (val, Parser(rest, NoError))
  {
    NumberOfBytes(val, len);
    var all := Bytes(val, len) + rest;
    assert all[..len] == Bytes(val, len) && all[len..] == rest;
  }

  lemma NumberOne(bytes: seq<byte>)
    requires |bytes| == 1
    ensures Number(bytes) == bytes[0]
  {
  }

  /** The field at position `i`, and what follows it. */
  lemma FieldAt(b: seq<byte>, i: nat, val: nat, len: nat, rest: seq<byte>)
    requires i <= |b| && b[i..] == Bytes(val, len) + rest && val < Pow(len)
    ensures i + len <= |b| && Number(b[i..i + len]) == val && b[i + len..] == rest
    ensures len == 1 ==> b[i] == val
  {
    NumberOfBytes(val, len);
    assert b[i..][..len] == b[i..i + len] && b[i..][len..] == b[i + len..];
    if len == 1 { NumberOne(b[i..i + 1]); }
  }

  lemma SkipWritten(pad: seq<byte>, rest: seq<byte>)
    ensures RemovePrefix(Parser(pad + rest, NoError), |pad|) == Parser(rest, NoError)
  {
    assert (pad + rest)[|pad|..] == rest;
  }

  lemma Powers()
    ensures Pow(1) == 0x100 && Pow(2) == 0x1_0000 && Pow(4) == 0x1_0000_0000
  {
    assert Pow(3) == 0x100_0000;
  }

  /** One byte, or two, of which the second is the low half. */
  lemma BytesShort(val: nat)
    ensures Bytes(val, 1) == [val % 256]
    ensures val < 0x1_0000 ==> Bytes(val, 2) == [val / 256, val % 256]
  {
    var high := val / 256;
    assert Bytes(high, 0) == [] && Bytes(high / 256, 0) == [];
    assert Bytes(high, 1) == [high % 256];
    assert val < 0x1_0000 ==> high % 256 == high;
    assert Bytes(val, 2) == [high % 256] + [val % 256];
  }
}

/** The parser object, and the functions that append to a string. */
module NetParsers {
  import opened Types
  import opened Parsing

  class NetParser {
    var buffer: seq<byte>
    var err: ParseResult

    function Model(): Parser
      reads this
    {
      Parser(buffer, err)
    }

    constructor (buffer: seq<byte>)
      ensures Model() == Parser(buffer, NoError)
    {
      this.buffer, err := buffer, NoError;
    }

    method CheckSize(size: nat)
      modifies this`err
      ensures err == if size > |buffer| then PacketTooShort else old(err)
    {
      if size > |buffer| {
        err := PacketTooShort;
      }
    }

    method ParseInt(len: nat) returns (ret: nat)
      modifies this
      ensures (ret, Model()) == Parsing.ParseInt(old(Model()), len)
    {
      CheckSize(len);
      if err != NoError {
        return 0;
      }
      ret := 0;
      for i := 0 to len
        invariant ret == Number(buffer[..i])
      {
        assert buffer[..i + 1][..i] == buffer[..i];
        ret := ret * 256;
        ret := ret + buffer[i];
      }
      buffer := buffer[len..];
    }

    method U8() returns (v: u8)
      modifies this
      ensures (v, Model()) == ParseU8(old(Model()))
    {
      Powers();
      ParseBound(Model(), 1);
      v := ParseInt(1);
    }

    method U16() returns (v: u16)
      modifies this
      ensures (v, Model()) == ParseU16(old(Model()))
    {
      Powers();
      ParseBound(Model(), 2);
      v := ParseInt(2);
    }

    method U32() returns (v: u32)
      modifies this
      ensures (v, Model()) == ParseU32(old(Model()))
    {
      Powers();
      ParseBound(Model(), 4);
      v := ParseInt(4);
    }

    method RemovePrefix(n: nat)
      modifies this
      ensures Model() == Parsing.RemovePrefix(old(Model()), n)
    {
      CheckSize(n);
      if err != NoError {
        return;
      }
      buffer := buffer[n..];
    }
  }

  /** `_unparse_int`: the bytes are pushed one by one, the most significant first. */
  method UnparseInt(s: seq<byte>, val: nat, len: nat) returns (r: seq<byte>)
    ensures r == s + Bytes(val, len)
  {
    r := s;
    for i := 0 to len
      invariant r == s + Bytes(ShiftRight(val, len - i), i)
    {
      var theByte: byte := ShiftRight(val, len - i - 1) % 256;
      r := r + [theByte];
    }
  }
}
