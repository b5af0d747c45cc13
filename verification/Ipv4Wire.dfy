/** IPv4 headers and datagrams as bytes (ipv4_header.cc, ipv4_datagram.cc). */
module Ipv4Wire {
  import opened Types
  import opened Parsing
  import opened Checksums

  datatype IPv4Header = IPv4Header(
    ver: u8, hlen: u8, tos: u8, len: u16, id: u16, df: bool, mf: bool, offset: u16, ttl: u8, proto: u8, cksum: u16,
    src: u32, dst: u32)

  datatype IPv4Datagram = IPv4Datagram(header: IPv4Header, payload: seq<byte>)

  const HEADER_LENGTH: nat := 20

  /** `payload_length`, in 16 bits */
  function PayloadLength(h: IPv4Header): u16 {
    (h.len - 4 * h.hlen) % 0x1_0000
  }

  /** `pseudo_cksum`: the part of a TCP checksum that covers the addresses, the protocol and
      the length. */
  function PseudoChecksum(h: IPv4Header): u32 {
    U32(h.src / 0x1_0000 + h.src % 0x1_0000 + h.dst / 0x1_0000 + h.dst % 0x1_0000 + h.proto + PayloadLength(h))
  }

  // ---- header ----

  /** Version 4 and the low four bits of the header length. */
  function FirstByte(h: IPv4Header): byte {
    64 + h.hlen % 16
  }

  /** The two flags and the low thirteen bits of the fragment offset. */
  function FlagsAndOffset(h: IPv4Header): u16 {
    (if h.df then 0x4000 else 0) + (if h.mf then 0x2000 else 0) + h.offset % 0x2000
  }

  /** The 10 bytes in front of the checksum. */
  function BeforeChecksum(h: IPv4Header): seq<byte> {
    Bytes(FirstByte(h), 1) + Bytes(h.tos, 1) + Bytes(h.len, 2) + Bytes(h.id, 2)
    + Bytes(FlagsAndOffset(h), 2) + Bytes(h.ttl, 1) + Bytes(h.proto, 1)
  }

  function Onto(h: IPv4Header, rest: seq<byte>): seq<byte> {
    BeforeChecksum(h) + (Bytes(h.cksum, 2) + (Bytes(h.src, 4) + (Bytes(h.dst, 4) + rest)))
  }

  /** `serialize`, which refuses other versions and short headers */
  function HeaderBytes(h: IPv4Header): Option<seq<byte>> {
    if h.ver != 4 || 4 * h.hlen < HEADER_LENGTH then None else Some(Onto(h, Zeros(4 * h.hlen - HEADER_LENGTH)))
  }

  /** The twenty fixed bytes. */
  function ParseFields(p: Parser): (IPv4Header, Parser) {
    var (first, p1) := ParseU8(p);
    var (tos, p2) := ParseU8(p1);
    var (len, p3) := ParseU16(p2);
    var (id, p4) := ParseU16(p3);
    var (fo, p5) := ParseU16(p4);
    var (ttl, p6) := ParseU8(p5);
    var (proto, p7) := ParseU8(p6);
    var (cksum, p8) := ParseU16(p7);
    var (src, p9) := ParseU32(p8);
    var (dst, p10) := ParseU32(p9);
    (IPv4Header(first / 16, first % 16, tos, len, id, Bit(fo, 0x4000), Bit(fo, 0x2000), fo % 0x2000, ttl, proto, cksum, src, dst),
     p10)
  }

  /** `parse` into a header that held `prior` */
  function HeaderParse(prior: IPv4Header, p: Parser): (IPv4Header, Parser, ParseResult) {
    var size := |p.buffer|;
    if size < HEADER_LENGTH then (prior, p, PacketTooShort)
    else
      var (h, p1) := ParseFields(p);
      if size < 4 * h.hlen then (h, p1, PacketTooShort)
      else if h.ver != 4 then (h, p1, WrongIPVersion)
      else if h.hlen < 5 then (h, p1, HeaderTooShort)
      else if size != h.len then (h, p1, TruncatedPacket)
      else
        var p2 := RemovePrefix(p1, 4 * h.hlen - HEADER_LENGTH);
        if p2.error != NoError then (h, p2, p2.error)
        else if Of(0, p.buffer[..4 * h.hlen]) != 0 then (h, p2, BadChecksum)
        else (h, p2, NoError)
  }

  // ---- datagram ----

  /** `parse`; the header's own verdict is not used */
  function Parse(prior: IPv4Datagram, buffer: seq<byte>): (IPv4Datagram, ParseResult) {
    var (h, p, _) := HeaderParse(prior.header, Parser(buffer, NoError));
    (IPv4Datagram(h, p.buffer), if |p.buffer| != PayloadLength(h) then PacketTooShort else p.error)
  }

  /** What `serialize` accepts without an exception. */
  predicate Serializable(d: IPv4Datagram) {
    |d.payload| == PayloadLength(d.header) && d.header.ver == 4 && 4 * d.header.hlen >= HEADER_LENGTH
  }

  function ChecksumOf(h: IPv4Header): u16
    requires h.ver == 4 && 4 * h.hlen >= HEADER_LENGTH
  {
    Of(0, HeaderBytes(h.(cksum := 0)).value)
  }

  function WithChecksum(d: IPv4Datagram, cksum: u16): IPv4Datagram {
    d.(header := d.header.(cksum := cksum))
  }

  function Stamped(d: IPv4Datagram): IPv4Datagram
    requires Serializable(d)
  {
    WithChecksum(d, ChecksumOf(d.header))
  }

  /** `serialize` */
  function Serialize(d: IPv4Datagram): Option<seq<byte>> {
    if !Serializable(d) then None else Some(HeaderBytes(Stamped(d).header).value + d.payload)
  }

  // ---- the round trip ----

  lemma FirstRead(h: IPv4Header)
    ensures FirstByte(h) / 16 == 4 && FirstByte(h) % 16 == h.hlen % 16
  {
  }

  lemma FlagsRead(h: IPv4Header)
    ensures var x := FlagsAndOffset(h);
      Bit(x, 0x4000) == h.df && Bit(x, 0x2000) == h.mf && x % 0x2000 == h.offset % 0x2000
  {
  }

  lemma Nested(h: IPv4Header, rest: seq<byte>)
    ensures BeforeChecksum(h) + rest
         == Bytes(FirstByte(h), 1) + (Bytes(h.tos, 1) + (Bytes(h.len, 2) + (Bytes(h.id, 2)
            + (Bytes(FlagsAndOffset(h), 2) + (Bytes(h.ttl, 1) + (Bytes(h.proto, 1) + rest))))))
  {
    hide Bytes, FirstByte, FlagsAndOffset;
    var a, b, c, d := Bytes(FirstByte(h), 1), Bytes(h.tos, 1), Bytes(h.len, 2), Bytes(h.id, 2);
    var e, f, g := Bytes(FlagsAndOffset(h), 2), Bytes(h.ttl, 1), Bytes(h.proto, 1);
    Associative(a + b + c + d + e + f, g, rest);
    Associative(a + b + c + d + e, f, g + rest);
    Associative(a + b + c + d, e, f + (g + rest));
    Associative(a + b + c, d, e + (f + (g + rest)));
    Associative(a + b, c, d + (e + (f + (g + rest))));
    Associative(a, b, c + (d + (e + (f + (g + rest)))));
  }

  /** What parsing makes of a serialized header. */
  function Read(h: IPv4Header): IPv4Header {
    h.(ver := 4, hlen := h.hlen % 16, offset := h.offset % 0x2000)
  }

  lemma FieldsRead(h: IPv4Header, rest: seq<byte>)
    ensures ParseFields(Parser(Onto(h, rest), NoError)) == (Read(h), Parser(rest, NoError))
  {
    hide Bytes, ParseU8, ParseU16, ParseU32, BeforeChecksum, FirstByte, FlagsAndOffset, Bit;
    var r9 := Bytes(h.dst, 4) + rest;
    var r8 := Bytes(h.src, 4) + r9;
    var r7 := Bytes(h.cksum, 2) + r8;
    var r6 := Bytes(h.proto, 1) + r7;
    var r5 := Bytes(h.ttl, 1) + r6;
    var r4 := Bytes(FlagsAndOffset(h), 2) + r5;
    var r3 := Bytes(h.id, 2) + r4;
    var r2 := Bytes(h.len, 2) + r3;
    var r1 := Bytes(h.tos, 1) + r2;
    Nested(h, r7);
    ReadU8(FirstByte(h), r1);
    ReadU8(h.tos, r2);
    ReadU16(h.len, r3);
    ReadU16(h.id, r4);
    ReadU16(FlagsAndOffset(h), r5);
    ReadU8(h.ttl, r6);
    ReadU8(h.proto, r7);
    ReadU16(h.cksum, r8);
    ReadU32(h.src, r9);
    ReadU32(h.dst, rest);
    FirstRead(h);
    FlagsRead(h);
  }

  lemma OntoAppend(h: IPv4Header, a: seq<byte>, b: seq<byte>)
    ensures Onto(h, a) + b == Onto(h, a + b)
  {
    hide Bytes, BeforeChecksum;
    var c, s, t := Bytes(h.cksum, 2), Bytes(h.src, 4), Bytes(h.dst, 4);
    Associative(BeforeChecksum(h), c + (s + (t + a)), b);
    Associative(c, s + (t + a), b);
    Associative(s, t + a, b);
    Associative(t, a, b);
  }

  lemma OntoLength(h: IPv4Header, rest: seq<byte>)
    ensures |BeforeChecksum(h)| == 10 && |Onto(h, rest)| == HEADER_LENGTH + |rest|
  {
    hide FirstByte, FlagsAndOffset;
    BytesLength(FirstByte(h), 1);
    BytesLength(h.tos, 1);
    BytesLength(h.len, 2);
    BytesLength(h.id, 2);
    BytesLength(FlagsAndOffset(h), 2);
    BytesLength(h.ttl, 1);
    BytesLength(h.proto, 1);
    BytesLength(h.cksum, 2);
    BytesLength(h.src, 4);
    BytesLength(h.dst, 4);
  }

  /** The header fits its fields, and the length field covers it or there is nothing else. */
  predicate Fits(h: IPv4Header) {
    h.hlen <= 15 && h.offset < 0x2000 && (4 * h.hlen <= h.len || h.hlen == 5)
  }

  /** Where the header's `parse` leaves the parser. */
  lemma HeaderLeaves(d: IPv4Datagram, prior: IPv4Header, pad: seq<byte>)
    requires Serializable(d) && |pad| == 4 * d.header.hlen - HEADER_LENGTH
    ensures var (h, p, _) := HeaderParse(prior, Parser(Onto(d.header, pad + d.payload), NoError));
      && h == Read(d.header)
      && (Fits(d.header) ==> p == Parser(d.payload, NoError))
      && (h == d.header && !Fits(d.header) ==> p == Parser(pad + d.payload, NoError))
  {
    hide Onto, ParseFields, Of, RemovePrefix;
    OntoLength(d.header, pad + d.payload);
    FieldsRead(d.header, pad + d.payload);
    SkipWritten(pad, d.payload);
    if d.header.hlen == 5 { assert pad + d.payload == d.payload; }
  }

  /** Parsing the serialized fields and payload of `d`, whatever is in the checksum field. */
  lemma ParsedIs(d: IPv4Datagram, prior: IPv4Datagram, pad: seq<byte>)
    requires Serializable(d) && |pad| == 4 * d.header.hlen - HEADER_LENGTH
    ensures Parse(prior, Onto(d.header, pad + d.payload)) == (d, NoError) <==> Fits(d.header)
  {
    hide Onto, HeaderParse;
    HeaderLeaves(d, prior.header, pad);
  }

  /** Every datagram that can be serialized comes back, whatever checksum it carries, exactly
      when its fields fit: the datagram's `parse` does not look at the header checksum. */
  lemma AnyChecksum(d: IPv4Datagram, prior: IPv4Datagram, cksum: u16)
    requires Serializable(d)
    ensures Parse(prior, HeaderBytes(d.header.(cksum := cksum)).value + d.payload) == (WithChecksum(d, cksum), NoError)
      <==> Fits(d.header)
  {
    hide Onto, Parse;
    var d' := WithChecksum(d, cksum);
    var pad := Zeros(4 * d.header.hlen - HEADER_LENGTH);
    OntoAppend(d'.header, pad, d.payload);
    ParsedIs(d', prior, pad);
  }

  /** In particular the one that `serialize` puts in. */
  lemma RoundTrip(d: IPv4Datagram, prior: IPv4Datagram)
    requires Serializable(d)
    ensures Parse(prior, Serialize(d).value) == (Stamped(d), NoError) <==> Fits(d.header)
  {
    hide Parse, ChecksumOf, HeaderBytes;
    AnyChecksum(d, prior, ChecksumOf(d.header));
  }

  // ---- the header checksum ----

  lemma SameBefore(h: IPv4Header, cksum: u16)
    ensures BeforeChecksum(h.(cksum := cksum)) == BeforeChecksum(h)
  {
  }

  /** The checksum that `serialize` computes makes the header check out. */
  lemma SerializedChecks(h: IPv4Header)
    requires h.ver == 4 && 4 * h.hlen >= HEADER_LENGTH
    ensures Of(0, HeaderBytes(h.(cksum := ChecksumOf(h))).value) == 0
    ensures forall c: u16 :: |HeaderBytes(h.(cksum := c)).value| == 4 * h.hlen
  {
    hide Bytes, BeforeChecksum, Of;
    var pad := Zeros(4 * h.hlen - HEADER_LENGTH);
    var rest := Bytes(h.src, 4) + (Bytes(h.dst, 4) + pad);
    var c := ChecksumOf(h);
    forall c: u16 ensures |HeaderBytes(h.(cksum := c)).value| == 4 * h.hlen { OntoLength(h.(cksum := c), pad); }
    OntoLength(h, pad);
    BytesLength(h.cksum, 2);
    SameBefore(h, 0);
    SameBefore(h, c);
    BytesShort(0);
    BytesShort(c);
    Inserted(0, BeforeChecksum(h), rest);
  }

  /** The header's own `parse` does look at the checksum: on a datagram whose fields fit and
      whose length field is right it reports exactly whether the header adds up. */
  lemma HeaderVerdict(d: IPv4Datagram, prior: IPv4Header, cksum: u16)
    requires Serializable(d) && Fits(d.header) && 4 * d.header.hlen <= d.header.len
    ensures var bytes := HeaderBytes(d.header.(cksum := cksum)).value;
      HeaderParse(prior, Parser(bytes + d.payload, NoError)).2 == (if Of(0, bytes) == 0 then NoError else BadChecksum)
    ensures cksum == ChecksumOf(d.header) ==> Of(0, HeaderBytes(d.header.(cksum := cksum)).value) == 0
  {
    hide Onto, ParseFields, Of, RemovePrefix, ChecksumOf;
    var h := d.header.(cksum := cksum);
    var pad := Zeros(4 * h.hlen - HEADER_LENGTH);
    var bytes := HeaderBytes(h).value;
    SerializedChecks(d.header);
    OntoAppend(h, pad, d.payload);
    OntoLength(h, pad + d.payload);
    OntoLength(h, pad);
    FieldsRead(h, pad + d.payload);
    SkipWritten(pad, d.payload);
    assert (bytes + d.payload)[..4 * h.hlen] == bytes;
  }

  /** The pseudo-header: both addresses, a zero byte, the protocol and the payload's length. */
  function PseudoHeader(h: IPv4Header): seq<byte> {
    (Bytes(h.src, 4) + Bytes(h.dst, 4)) + ([0, h.proto] + Bytes(PayloadLength(h), 2))
  }

  lemma SumLong(x: u32)
    ensures Sum(Bytes(x, 4), false) == x / 0x1_0000 + x % 0x1_0000
  {
    var high, low := x / 0x1_0000, x % 0x1_0000;
    BytesShort(high);
    BytesShort(low);
    LongIsWords(x);
    SumAppend(Word(high), Word(low), false);
    SumWord(high);
    SumWord(low);
  }

  lemma LongIsWords(x: u32)
    ensures Bytes(x, 4) == Word(x / 0x1_0000) + Word(x % 0x1_0000)
  {
    BytesShort(x / 0x1_0000);
    LowBytes(x);
    assert Bytes(x, 4) == Bytes(x / 256 / 256, 2) + [x / 256 % 256] + [x % 256];
  }

  lemma LowBytes(x: u32)
    ensures x / 256 / 256 == x / 0x1_0000
    ensures x % 0x1_0000 / 256 == x / 256 % 256 && x % 0x1_0000 % 256 == x % 256
  {
    var high, low := x / 0x1_0000, x % 0x1_0000;
    var mid, last := low / 256, low % 256;
    assert x == (high * 256 + mid) * 256 + last;
    assert x / 256 == high * 256 + mid;
  }

  /** `pseudo_cksum` is the sum over the bytes of the pseudo-header. */
  lemma PseudoIsSum(h: IPv4Header)
    ensures PseudoChecksum(h) == Sum(PseudoHeader(h), false)
  {
    hide Sum, Bytes, PseudoChecksum;
    var length := PayloadLength(h);
    BytesLength(h.src, 4);
    BytesLength(h.dst, 4);
    SumLong(h.src);
    SumLong(h.dst);
    SumAppend(Bytes(h.src, 4), Bytes(h.dst, 4), false);
    assert [0, h.proto] == Word(h.proto);
    SumWord(h.proto);
    BytesShort(length);
    SumWord(length);
    SumAppend([0, h.proto], Bytes(length, 2), false);
    SumAppend(Bytes(h.src, 4) + Bytes(h.dst, 4), [0, h.proto] + Bytes(length, 2), false);
    PseudoBound(h);
  }

  /** The pseudo-header never uses up the room a TCP checksum needs. */
  lemma PseudoBound(h: IPv4Header)
    ensures PseudoChecksum(h) == h.src / 0x1_0000 + h.src % 0x1_0000 + h.dst / 0x1_0000 + h.dst % 0x1_0000 + h.proto + PayloadLength(h)
    ensures PseudoChecksum(h) < 0x7fff_0000
  {
  }
}

/** Parsing and serializing as the source does it. */
module Ipv4WireMethods {
  import opened Types
  import opened Parsing
  import opened Checksums
  import opened NetParsers
  import opened Ipv4Wire
  import InternetChecksums

  method ParseFields(p: NetParser) returns (h: IPv4Header)
    modifies p
    ensures (h, p.Model()) == Ipv4Wire.ParseFields(old(p.Model()))
  {
    var first := p.U8();
    var tos := p.U8();
    var len := p.U16();
    var id := p.U16();
    var fo := p.U16();
    var ttl := p.U8();
    var proto := p.U8();
    var cksum := p.U16();
    var src := p.U32();
    var dst := p.U32();
    h := IPv4Header(first / 16, first % 16, tos, len, id, Bit(fo, 0x4000), Bit(fo, 0x2000), fo % 0x2000, ttl, proto, cksum, src, dst);
  }

  method ParseHeader(prior: IPv4Header, p: NetParser) returns (h: IPv4Header, res: ParseResult)
    modifies p
    ensures (h, p.Model(), res) == HeaderParse(prior, old(p.Model()))
  {
    hide Ipv4Wire.ParseFields, RemovePrefix, Checksums.Value, Checksums.Add;
    var original := p.buffer;
    var size := |p.buffer|;
    if size < HEADER_LENGTH {
      return prior, PacketTooShort;
    }
    h := ParseFields(p);
    if size < 4 * h.hlen {
      return h, PacketTooShort;
    }
    if h.ver != 4 {
      return h, WrongIPVersion;
    }
    if h.hlen < 5 {
      return h, HeaderTooShort;
    }
    if size != h.len {
      return h, TruncatedPacket;
    }
    p.RemovePrefix(4 * h.hlen - HEADER_LENGTH);
    res := p.err;
    if res != NoError {
      return;
    }
    var check := new InternetChecksums.InternetChecksum(0);
    check.Add(original[..4 * h.hlen]);
    var v := check.Value();
    res := if v != 0 then BadChecksum else NoError;
  }

  method SerializeHeader(h: IPv4Header) returns (r: Option<seq<byte>>)
    ensures r == HeaderBytes(h)
  {
    hide Bytes, FirstByte, FlagsAndOffset;
    if h.ver != 4 || 4 * h.hlen < HEADER_LENGTH {
      return None;
    }
    var ret := UnparseInt([], FirstByte(h), 1);
    assert ret == Bytes(FirstByte(h), 1);
    ret := UnparseInt(ret, h.tos, 1);
    ret := UnparseInt(ret, h.len, 2);
    ret := UnparseInt(ret, h.id, 2);
    ret := UnparseInt(ret, FlagsAndOffset(h), 2);
    ret := UnparseInt(ret, h.ttl, 1);
    ret := UnparseInt(ret, h.proto, 1);
    assert ret == BeforeChecksum(h);
    ret := UnparseInt(ret, h.cksum, 2);
    ret := UnparseInt(ret, h.src, 4);
    ret := UnparseInt(ret, h.dst, 4);
    var pad := Zeros(4 * h.hlen - HEADER_LENGTH);
    var b, c, s, t := BeforeChecksum(h), Bytes(h.cksum, 2), Bytes(h.src, 4), Bytes(h.dst, 4);
    Associative(b + c + s, t, pad);
    Associative(b + c, s, t + pad);
    Associative(b, c, s + (t + pad));
    r := Some(ret + pad);
  }

  method ParseDatagram(prior: IPv4Datagram, buffer: seq<byte>) returns (d: IPv4Datagram, res: ParseResult)
    ensures (d, res) == Parse(prior, buffer)
  {
    var p := new NetParser(buffer);
    var h, _ := ParseHeader(prior.header, p);
    d := IPv4Datagram(h, p.buffer);
    if |d.payload| != PayloadLength(h) {
      return d, PacketTooShort;
    }
    res := p.err;
  }

  method SerializeDatagram(d: IPv4Datagram) returns (r: Option<seq<byte>>)
    ensures r == Serialize(d)
  {
    if |d.payload| != PayloadLength(d.header) {
      return None;
    }
    var headerOut := d.header.(cksum := 0);
    var zero := SerializeHeader(headerOut);
    if zero.None? {
      return None;
    }
    var check := new InternetChecksums.InternetChecksum(0);
    check.Add(zero.value);
    var v := check.Value();
    headerOut := headerOut.(cksum := v);
    var bytes := SerializeHeader(headerOut);
    r := Some(bytes.value + d.payload);
  }
}

/** A TCP segment inside an IPv4 datagram, covered by the pseudo-header. */
module TcpInIpv4 {
  import opened Types
  import opened Parsing
  import opened TcpSegments
  import opened Ipv4Wire
  import TcpWire

  predicate Sized(h: IPv4Header, seg: TCPSegment) {
    && h.ver == 4 && 5 <= h.hlen <= 15 && h.offset < 0x2000
    && 5 <= seg.header.doff <= 15
    && h.len == 4 * h.hlen + 4 * seg.header.doff + |seg.payload|
  }

  function Wrapped(h: IPv4Header, seg: TCPSegment): IPv4Datagram
    requires Sized(h, seg)
  {
    IPv4Datagram(h, TcpWire.Serialize(seg, PseudoChecksum(h)).value)
  }

  lemma WrappedFits(h: IPv4Header, seg: TCPSegment)
    requires Sized(h, seg)
    ensures Serializable(Wrapped(h, seg)) && Ipv4Wire.Fits(h) && PseudoChecksum(h) < 0x7fff_0000
  {
    hide TcpWire.HeaderBytes, TcpWire.ChecksumOf;
    PseudoBound(h);
    TcpWire.SerializedChecks(seg, PseudoChecksum(h));
  }

  /** Both layers undo what both layers did, and both checksums check out. */
  lemma Unwrapped(h: IPv4Header, seg: TCPSegment, prior: IPv4Datagram, priorSeg: TCPSegment)
    requires Sized(h, seg)
    ensures Serializable(Wrapped(h, seg))
    ensures var (d, verdict) := Ipv4Wire.Parse(prior, Ipv4Wire.Serialize(Wrapped(h, seg)).value);
      && verdict == NoError && d == Ipv4Wire.Stamped(Wrapped(h, seg))
      && TcpWire.Parse(priorSeg, d.payload, PseudoChecksum(d.header)) == (TcpWire.Stamped(seg, PseudoChecksum(h)), NoError)
  {
    hide TcpWire.Serialize, TcpWire.Parse, TcpWire.Stamped, Ipv4Wire.Serialize, Ipv4Wire.Parse, Ipv4Wire.ChecksumOf;
    WrappedFits(h, seg);
    Ipv4Wire.RoundTrip(Wrapped(h, seg), prior);
    TcpWire.RoundTrip(seg, priorSeg, PseudoChecksum(h));
  }
}
