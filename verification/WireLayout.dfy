/** Where each field of a TCP header is on the wire. */
module TcpLayout {
  import opened Types
  import opened TcpSegments
  import opened Parsing
  import opened TcpWire

  /** A serialized header is its fields in the order of section 3.1 of RFC 793, at their fixed
      positions, followed by zeros up to the data offset. */
  lemma Written(h: TCPHeader)
    requires h.doff >= 5
    ensures HeaderBytes(h).Some? && |HeaderBytes(h).value| == 4 * h.doff
    ensures var b := HeaderBytes(h).value;
      && Number(b[0..2]) == h.sport && Number(b[2..4]) == h.dport
      && Number(b[4..8]) == h.seqno && Number(b[8..12]) == h.ackno
      && b[12] == h.doff % 16 * 16
      && b[13] == (if h.urg then 32 else 0) + (if h.ack then 16 else 0) + (if h.psh then 8 else 0)
                  + (if h.rst then 4 else 0) + (if h.syn then 2 else 0) + (if h.fin then 1 else 0)
      && Number(b[14..16]) == h.win && Number(b[16..18]) == h.cksum && Number(b[18..20]) == h.uptr
      && forall i :: 20 <= i < |b| ==> b[i] == 0
  {
    var pad := Zeros(4 * h.doff - HEADER_LENGTH);
    OntoLength(h, pad);
    Fields(h, pad);
    HighBits(h);
    hide Onto, Flags, OffsetByte, Number;
    assert forall i :: 20 <= i < |Onto(h, pad)| ==> Onto(h, pad)[i] == Onto(h, pad)[20..][i - 20];
  }

  lemma HighBits(h: TCPHeader)
    ensures OffsetByte(h) == h.doff % 16 * 16
    ensures Flags(h) == (if h.urg then 32 else 0) + (if h.ack then 16 else 0) + (if h.psh then 8 else 0)
                        + (if h.rst then 4 else 0) + (if h.syn then 2 else 0) + (if h.fin then 1 else 0)
  {
    OffsetRead(h);
    assert OffsetByte(h) % 16 == 0;
  }

  lemma Fields(h: TCPHeader, rest: seq<byte>)
    ensures |Onto(h, rest)| == 20 + |rest|
    ensures var b := Onto(h, rest);
      && Number(b[0..2]) == h.sport && Number(b[2..4]) == h.dport
      && Number(b[4..8]) == h.seqno && Number(b[8..12]) == h.ackno
      && b[12] == OffsetByte(h) && b[13] == Flags(h)
      && Number(b[14..16]) == h.win && Number(b[16..18]) == h.cksum && Number(b[18..20]) == h.uptr
      && b[20..] == rest
  {
    hide Bytes, OffsetByte, Flags, Number;
    OntoLength(h, rest);
    Powers();
    var b := Onto(h, rest);
    var r8 := Bytes(h.uptr, 2) + rest;
    var r7 := Bytes(h.cksum, 2) + r8;
    var r6 := Bytes(h.win, 2) + r7;
    var r5 := Bytes(Flags(h), 1) + r6;
    var r4 := Bytes(OffsetByte(h), 1) + r5;
    var r3 := Bytes(h.ackno, 4) + r4;
    var r2 := Bytes(h.seqno, 4) + r3;
    var r1 := Bytes(h.dport, 2) + r2;
    Nested(h, r7);
    assert b[0..] == b;
    hide Onto, BeforeChecksum;
    FieldAt(b, 0, h.sport, 2, r1);
    FieldAt(b, 2, h.dport, 2, r2);
    FieldAt(b, 4, h.seqno, 4, r3);
    FieldAt(b, 8, h.ackno, 4, r4);
    FieldAt(b, 12, OffsetByte(h), 1, r5);
    FieldAt(b, 13, Flags(h), 1, r6);
    FieldAt(b, 14, h.win, 2, r7);
    FieldAt(b, 16, h.cksum, 2, r8);
    FieldAt(b, 18, h.uptr, 2, rest);
  }

  /** Parsing any 20 bytes or more takes each field from its own position. */
  lemma Parsed(b: seq<byte>)
    requires |b| >= 20
    ensures var h := HeaderParse(Parser(b, NoError)).0;
      && h.sport == Number(b[0..2]) && h.dport == Number(b[2..4])
      && h.seqno == Number(b[4..8]) && h.ackno == Number(b[8..12])
      && h.doff == b[12] / 16
      && (h.urg <==> b[13] / 32 % 2 == 1) && (h.ack <==> b[13] / 16 % 2 == 1) && (h.psh <==> b[13] / 8 % 2 == 1)
      && (h.rst <==> b[13] / 4 % 2 == 1) && (h.syn <==> b[13] / 2 % 2 == 1) && (h.fin <==> b[13] % 2 == 1)
      && h.win == Number(b[14..16]) && h.cksum == Number(b[16..18]) && h.uptr == Number(b[18..20])
  {
    hide ParseInt, RemovePrefix, Number;
    var p := Parser(b, NoError);
    ParseAt(p, b, 0, 2);
    var p1 := ParseU16(p).1;
    ParseAt(p1, b, 2, 2);
    var p2 := ParseU16(p1).1;
    ParseAt(p2, b, 4, 4);
    var p3 := ParseU32(p2).1;
    ParseAt(p3, b, 8, 4);
    var p4 := ParseU32(p3).1;
    ParseAt(p4, b, 12, 1);
    NumberOne(b[12..13]);
    var p5 := ParseU8(p4).1;
    ParseAt(p5, b, 13, 1);
    NumberOne(b[13..14]);
    var p6 := ParseU8(p5).1;
    ParseAt(p6, b, 14, 2);
    var p7 := ParseU16(p6).1;
    ParseAt(p7, b, 16, 2);
    var p8 := ParseU16(p7).1;
    ParseAt(p8, b, 18, 2);
  }
}

/** Where each field of an IPv4 header is on the wire. */
module Ipv4Layout {
  import opened Types
  import opened Parsing
  import opened Ipv4Wire
  import Checksums

  /** A serialized header is its fields in the order of section 3.1 of RFC 791, at their fixed
      positions, followed by zeros up to the header length. */
  lemma Written(h: IPv4Header)
    requires h.ver == 4 && h.hlen >= 5
    ensures HeaderBytes(h).Some? && |HeaderBytes(h).value| == 4 * h.hlen
    ensures var b := HeaderBytes(h).value;
      && b[0] == 64 + h.hlen % 16 && b[1] == h.tos
      && Number(b[2..4]) == h.len && Number(b[4..6]) == h.id
      && Number(b[6..8]) == (if h.df then 0x4000 else 0) + (if h.mf then 0x2000 else 0) + h.offset % 0x2000
      && b[8] == h.ttl && b[9] == h.proto && Number(b[10..12]) == h.cksum
      && Number(b[12..16]) == h.src && Number(b[16..20]) == h.dst
      && forall i :: 20 <= i < |b| ==> b[i] == 0
  {
    var pad := Zeros(4 * h.hlen - HEADER_LENGTH);
    OntoLength(h, pad);
    Fields(h, pad);
    assert forall i :: 20 <= i < |Onto(h, pad)| ==> Onto(h, pad)[i] == Onto(h, pad)[20..][i - 20];
  }

  lemma Fields(h: IPv4Header, rest: seq<byte>)
    ensures |Onto(h, rest)| == 20 + |rest|
    ensures var b := Onto(h, rest);
      && b[0] == FirstByte(h) && b[1] == h.tos
      && Number(b[2..4]) == h.len && Number(b[4..6]) == h.id && Number(b[6..8]) == FlagsAndOffset(h)
      && b[8] == h.ttl && b[9] == h.proto && Number(b[10..12]) == h.cksum
      && Number(b[12..16]) == h.src && Number(b[16..20]) == h.dst
      && b[20..] == rest
  {
    hide Bytes, FirstByte, FlagsAndOffset, Number;
    OntoLength(h, rest);
    Powers();
    var b := Onto(h, rest);
    var r9 := Bytes(h.dst, 4) + rest;
    var r8 := Bytes(h.src, 4) + r9;
    var r7 := Bytes(h.cksum, 2) + r8;
    var r6 := Bytes(h.proto, 1) + r7;
    var r5 := Bytes(h.ttl, 1) + r6;
    var r4 := Bytes(FlagsAndOffset(h), 2) + r5;
    var r3 := Bytes(h.id, 2) + r4;
    var r2 := Bytes(h.len, 2) + r3;
    var r1 := Bytes(h.tos, 1) + r2;
    Nested(h, r7);
    assert b[0..] == b;
    hide Onto, BeforeChecksum;
    FieldAt(b, 0, FirstByte(h), 1, r1);
    FieldAt(b, 1, h.tos, 1, r2);
    FieldAt(b, 2, h.len, 2, r3);
    FieldAt(b, 4, h.id, 2, r4);
    FieldAt(b, 6, FlagsAndOffset(h), 2, r5);
    FieldAt(b, 8, h.ttl, 1, r6);
    FieldAt(b, 9, h.proto, 1, r7);
    FieldAt(b, 10, h.cksum, 2, r8);
    FieldAt(b, 12, h.src, 4, r9);
    FieldAt(b, 16, h.dst, 4, rest);
  }

  /** Where the payload begins: behind the options if the header is well formed up to its checksum,
      otherwise right behind the fixed fields. */
  function PayloadAt(h: IPv4Header, size: nat): nat {
    if h.ver == 4 && 5 <= h.hlen && 4 * h.hlen <= size && size == h.len then 4 * h.hlen else 20
  }

  /** Parsing takes each field from its own position and reports, in this order, what is wrong
      with them. */
  lemma Parsed(prior: IPv4Header, b: seq<byte>)
    ensures var (h, p, verdict) := HeaderParse(prior, Parser(b, NoError));
      if |b| < 20 then h == prior && verdict == PacketTooShort && p == Parser(b, NoError)
      else
        && h.ver == b[0] / 16 && h.hlen == b[0] % 16 && h.tos == b[1]
        && h.len == Number(b[2..4]) && h.id == Number(b[4..6])
        && (h.df <==> Number(b[6..8]) / 0x4000 % 2 == 1) && (h.mf <==> Number(b[6..8]) / 0x2000 % 2 == 1)
        && h.offset == Number(b[6..8]) % 0x2000
        && h.ttl == b[8] && h.proto == b[9] && h.cksum == Number(b[10..12])
        && h.src == Number(b[12..16]) && h.dst == Number(b[16..20])
        && verdict == (if |b| < 4 * h.hlen then PacketTooShort
                       else if h.ver != 4 then WrongIPVersion
                       else if h.hlen < 5 then HeaderTooShort
                       else if |b| != h.len then TruncatedPacket
                       else if Checksums.Of(0, b[..4 * h.hlen]) != 0 then BadChecksum
                       else NoError)
        && p == Parser(b[PayloadAt(h, |b|)..], NoError)
  {
    hide ParseFields, Checksums.Of, Number;
    if |b| >= 20 {
      FieldsParsed(b);
      var (h, p) := ParseFields(Parser(b, NoError));
      if h.hlen >= 5 && |b| >= 4 * h.hlen { assert b[20..][4 * h.hlen - 20..] == b[4 * h.hlen..]; }
    }
  }

  lemma FieldsParsed(b: seq<byte>)
    requires |b| >= 20
    ensures var (h, p) := ParseFields(Parser(b, NoError));
      && h.ver == b[0] / 16 && h.hlen == b[0] % 16 && h.tos == b[1]
      && h.len == Number(b[2..4]) && h.id == Number(b[4..6])
      && (h.df <==> Number(b[6..8]) / 0x4000 % 2 == 1) && (h.mf <==> Number(b[6..8]) / 0x2000 % 2 == 1)
      && h.offset == Number(b[6..8]) % 0x2000
      && h.ttl == b[8] && h.proto == b[9] && h.cksum == Number(b[10..12])
      && h.src == Number(b[12..16]) && h.dst == Number(b[16..20])
      && p == Parser(b[20..], NoError)
  {
    hide ParseInt, Number;
    var p := Parser(b, NoError);
    ParseAt(p, b, 0, 1);
    NumberOne(b[0..1]);
    var p1 := ParseU8(p).1;
    ParseAt(p1, b, 1, 1);
    NumberOne(b[1..2]);
    var p2 := ParseU8(p1).1;
    ParseAt(p2, b, 2, 2);
    var p3 := ParseU16(p2).1;
    ParseAt(p3, b, 4, 2);
    var p4 := ParseU16(p3).1;
    ParseAt(p4, b, 6, 2);
    var p5 := ParseU16(p4).1;
    ParseAt(p5, b, 8, 1);
    NumberOne(b[8..9]);
    var p6 := ParseU8(p5).1;
    ParseAt(p6, b, 9, 1);
    NumberOne(b[9..10]);
    var p7 := ParseU8(p6).1;
    ParseAt(p7, b, 10, 2);
    var p8 := ParseU16(p7).1;
    ParseAt(p8, b, 12, 4);
    var p9 := ParseU32(p8).1;
    ParseAt(p9, b, 16, 4);
  }

  /** The datagram's own `parse`: whatever the header's verdict was, the rest of the buffer is the
      payload, and the only thing that is reported is a payload of another size than the header
      says, in 16 bits. */
  lemma DatagramParsed(prior: IPv4Datagram, b: seq<byte>)
    ensures var (d, verdict) := Parse(prior, b);
      && d.header == HeaderParse(prior.header, Parser(b, NoError)).0
      && d.payload == (if |b| < 20 then b else b[PayloadAt(d.header, |b|)..])
      && verdict == (if |d.payload| == (d.header.len - 4 * d.header.hlen) % 0x1_0000 then NoError else PacketTooShort)
  {
    hide HeaderParse, Number;
    Parsed(prior.header, b);
  }
}
