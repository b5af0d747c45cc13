/** TCP headers and segments as bytes (tcp_header.cc, tcp_segment.cc). */
module TcpWire {
  import opened Types
  import opened TcpSegments
  import opened Parsing
  import opened Checksums

  // ---- header ----

  function Flag(on: bool, weight: byte): byte {
    if on then weight else 0
  }

  function Flags(h: TCPHeader): byte {
    Flag(h.urg, 32) + Flag(h.ack, 16) + Flag(h.psh, 8) + Flag(h.rst, 4) + Flag(h.syn, 2) + Flag(h.fin, 1)
  }

  /** The data offset shares its byte with four reserved bits; only its low four bits fit. */
  function OffsetByte(h: TCPHeader): byte {
    h.doff * 16 % 256
  }

  /** The 16 bytes in front of the checksum. */
  function BeforeChecksum(h: TCPHeader): seq<byte> {
    Bytes(h.sport, 2) + Bytes(h.dport, 2) + Bytes(h.seqno, 4) + Bytes(h.ackno, 4)
    + Bytes(OffsetByte(h), 1) + Bytes(Flags(h), 1) + Bytes(h.win, 2)
  }

  /** A header followed by other bytes. */
  function Onto(h: TCPHeader, rest: seq<byte>): seq<byte> {
    BeforeChecksum(h) + (Bytes(h.cksum, 2) + (Bytes(h.uptr, 2) + rest))
  }

  /** `serialize`, which refuses a data offset below 5 and fills up options with zeros */
  function HeaderBytes(h: TCPHeader): Option<seq<byte>> {
    if h.doff < 5 then None else Some(Onto(h, Zeros(4 * h.doff - HEADER_LENGTH)))
  }

  /** `parse`: every field is assigned, whatever went wrong. */
  function HeaderParse(p: Parser): (TCPHeader, Parser, ParseResult) {
    var (sport, p1) := ParseU16(p);
    var (dport, p2) := ParseU16(p1);
    var (seqno, p3) := ParseU32(p2);
    var (ackno, p4) := ParseU32(p3);
    var (off, p5) := ParseU8(p4);
    var (fl, p6) := ParseU8(p5);
    var (win, p7) := ParseU16(p6);
    var (cksum, p8) := ParseU16(p7);
    var (uptr, p9) := ParseU16(p8);
    var h := TCPHeader(sport, dport, seqno, ackno, off / 16, Bit(fl, 32), Bit(fl, 16), Bit(fl, 8), Bit(fl, 4), Bit(fl, 2), Bit(fl, 1),
                       win, cksum, uptr);
    if h.doff < 5 then (h, p9, HeaderTooShort)
    else
      var p10 := RemovePrefix(p9, 4 * h.doff - HEADER_LENGTH);
      (h, p10, p10.error)
  }

  // ---- segment ----

  /** `parse` into a segment that held `prior`; the header's own verdict is not used */
  function Parse(prior: TCPSegment, buffer: seq<byte>, pseudo: u32): (TCPSegment, ParseResult) {
    if Of(pseudo, buffer) != 0 then (prior, BadChecksum)
    else
      var (h, p, _) := HeaderParse(Parser(buffer, NoError));
      (TCPSegment(h, p.buffer), p.error)
  }

  /** The checksum `serialize` puts in the header. */
  function ChecksumOf(seg: TCPSegment, pseudo: u32): u16
    requires seg.header.doff >= 5
  {
    var zero := HeaderBytes(seg.header.(cksum := 0)).value;
    Value(Add(Add(Checksum(pseudo, false), zero), seg.payload))
  }

  function Stamped(seg: TCPSegment, pseudo: u32): TCPSegment
    requires seg.header.doff >= 5
  {
    seg.(header := seg.header.(cksum := ChecksumOf(seg, pseudo)))
  }

  /** `serialize` */
  function Serialize(seg: TCPSegment, pseudo: u32): Option<seq<byte>> {
    if seg.header.doff < 5 then None
    else Some(HeaderBytes(Stamped(seg, pseudo).header).value + seg.payload)
  }

  // ---- the header round trip ----

  lemma FlagsRead(h: TCPHeader)
    ensures var f := Flags(h);
      && Bit(f, 32) == h.urg && Bit(f, 16) == h.ack && Bit(f, 8) == h.psh
      && Bit(f, 4) == h.rst && Bit(f, 2) == h.syn && Bit(f, 1) == h.fin
  {
  }

  lemma OffsetRead(h: TCPHeader)
    ensures OffsetByte(h) / 16 == h.doff % 16
  {
    var high, low := h.doff / 16, h.doff % 16;
    assert h.doff * 16 == high * 256 + low * 16;
    LowPart(high, low * 16);
  }

  lemma LowPart(high: nat, low: nat)
    requires low < 256
    ensures (high * 256 + low) % 256 == low
  {
  }

  /** The fields one behind the other. */
  lemma Nested(h: TCPHeader, rest: seq<byte>)
    ensures BeforeChecksum(h) + rest
         == Bytes(h.sport, 2) + (Bytes(h.dport, 2) + (Bytes(h.seqno, 4) + (Bytes(h.ackno, 4)
            + (Bytes(OffsetByte(h), 1) + (Bytes(Flags(h), 1) + (Bytes(h.win, 2) + rest))))))
  {
    var a, b, c, d := Bytes(h.sport, 2), Bytes(h.dport, 2), Bytes(h.seqno, 4), Bytes(h.ackno, 4);
    var e, f, g := Bytes(OffsetByte(h), 1), Bytes(Flags(h), 1), Bytes(h.win, 2);
    Associative(a + b + c + d + e + f, g, rest);
    Associative(a + b + c + d + e, f, g + rest);
    Associative(a + b + c + d, e, f + (g + rest));
    Associative(a + b + c, d, e + (f + (g + rest)));
    Associative(a + b, c, d + (e + (f + (g + rest))));
    Associative(a, b, c + (d + (e + (f + (g + rest)))));
  }

  /** What parsing makes of a serialized header up to the options. */
  function Read(h: TCPHeader): TCPHeader {
    h.(doff := h.doff % 16)
  }

  lemma HeaderReads(h: TCPHeader, rest: seq<byte>)
    ensures var (h', p, _) := HeaderParse(Parser(Onto(h, rest), NoError));
      && h' == Read(h)
      && p == if h'.doff < 5 then Parser(rest, NoError) else RemovePrefix(Parser(rest, NoError), 4 * h'.doff - HEADER_LENGTH)
  {
    hide Bytes, ParseU8, ParseU16, ParseU32, RemovePrefix, BeforeChecksum, Flags, OffsetByte, Bit;
    var r9 := rest;
    var r8 := Bytes(h.uptr, 2) + r9;
    var r7 := Bytes(h.cksum, 2) + r8;
    var r6 := Bytes(h.win, 2) + r7;
    var r5 := Bytes(Flags(h), 1) + r6;
    var r4 := Bytes(OffsetByte(h), 1) + r5;
    var r3 := Bytes(h.ackno, 4) + r4;
    var r2 := Bytes(h.seqno, 4) + r3;
    var r1 := Bytes(h.dport, 2) + r2;
    Nested(h, r7);
    ReadU16(h.sport, r1);
    ReadU16(h.dport, r2);
    ReadU32(h.seqno, r3);
    ReadU32(h.ackno, r4);
    ReadU8(OffsetByte(h), r5);
    ReadU8(Flags(h), r6);
    ReadU16(h.win, r7);
    ReadU16(h.cksum, r8);
    ReadU16(h.uptr, r9);
    FlagsRead(h);
    OffsetRead(h);
  }

  // ---- the checksummed round trip ----

  lemma OntoAppend(h: TCPHeader, a: seq<byte>, b: seq<byte>)
    ensures Onto(h, a) + b == Onto(h, a + b)
  {
    var u, c := Bytes(h.uptr, 2), Bytes(h.cksum, 2);
    Associative(BeforeChecksum(h), c + (u + a), b);
    Associative(c, u + a, b);
    Associative(u, a, b);
  }

  lemma OntoLength(h: TCPHeader, rest: seq<byte>)
    ensures |BeforeChecksum(h)| == 16 && |Onto(h, rest)| == HEADER_LENGTH + |rest|
  {
    BytesLength(h.sport, 2);
    BytesLength(h.dport, 2);
    BytesLength(h.seqno, 4);
    BytesLength(h.ackno, 4);
    BytesLength(OffsetByte(h), 1);
    BytesLength(Flags(h), 1);
    BytesLength(h.win, 2);
    BytesLength(h.cksum, 2);
    BytesLength(h.uptr, 2);
  }

  lemma ChecksumIs(seg: TCPSegment, pseudo: u32)
    requires seg.header.doff >= 5
    ensures var rest := Bytes(seg.header.uptr, 2) + (Zeros(4 * seg.header.doff - HEADER_LENGTH) + seg.payload);
      ChecksumOf(seg, pseudo) == Of(pseudo, BeforeChecksum(seg.header) + (Word(0) + rest))
  {
    hide Bytes, BeforeChecksum, Value, Add;
    var h0 := seg.header.(cksum := 0);
    var pad := Zeros(4 * seg.header.doff - HEADER_LENGTH);
    AddAppend(Checksum(pseudo, false), HeaderBytes(h0).value, seg.payload);
    OntoAppend(h0, pad, seg.payload);
    BytesShort(0);
    SameBefore(seg.header, 0);
  }

  /** A serialized segment checks out. */
  lemma SerializedChecks(seg: TCPSegment, pseudo: u32)
    requires seg.header.doff >= 5 && pseudo < 0x7fff_0000
    requires 4 * seg.header.doff + |seg.payload| <= 0xffff
    ensures Of(pseudo, Serialize(seg, pseudo).value) == 0
    ensures |Serialize(seg, pseudo).value| == 4 * seg.header.doff + |seg.payload|
  {
    hide Bytes, BeforeChecksum, Of, ChecksumOf;
    var h := Stamped(seg, pseudo).header;
    var pad := Zeros(4 * seg.header.doff - HEADER_LENGTH);
    var rest := Bytes(seg.header.uptr, 2) + (pad + seg.payload);
    OntoAppend(h, pad, seg.payload);
    OntoLength(h, pad + seg.payload);
    BytesLength(h.uptr, 2);
    ChecksumIs(seg, pseudo);
    BytesShort(h.cksum);
    SameBefore(seg.header, h.cksum);
    Inserted(pseudo, BeforeChecksum(h), rest);
  }

  lemma SameBefore(h: TCPHeader, cksum: u16)
    ensures BeforeChecksum(h.(cksum := cksum)) == BeforeChecksum(h)
  {
  }

  lemma SerializedIs(seg: TCPSegment, pseudo: u32)
    requires seg.header.doff >= 5
    ensures Serialize(seg, pseudo)
         == Some(Onto(Stamped(seg, pseudo).header, Zeros(4 * seg.header.doff - HEADER_LENGTH) + seg.payload))
  {
    hide Onto, ChecksumOf;
    OntoAppend(Stamped(seg, pseudo).header, Zeros(4 * seg.header.doff - HEADER_LENGTH), seg.payload);
  }

  /** What parsing makes of bytes that check out. */
  lemma ParsedIs(prior: TCPSegment, h: TCPHeader, rest: seq<byte>, pseudo: u32)
    requires Of(pseudo, Onto(h, rest)) == 0
    ensures var p := if h.doff % 16 < 5 then Parser(rest, NoError)
                     else RemovePrefix(Parser(rest, NoError), 4 * (h.doff % 16) - HEADER_LENGTH);
      Parse(prior, Onto(h, rest), pseudo) == (TCPSegment(Read(h), p.buffer), p.error)
  {
    hide Onto, Of, HeaderParse, RemovePrefix;
    HeaderReads(h, rest);
  }

  /** Every segment of up to 65535 bytes that can be serialized parses back to itself, with the
      checksum filled in, exactly when its data offset fits four bits. */
  lemma RoundTrip(seg: TCPSegment, prior: TCPSegment, pseudo: u32)
    requires seg.header.doff >= 5 && pseudo < 0x7fff_0000
    requires 4 * seg.header.doff + |seg.payload| <= 0xffff
    ensures Parse(prior, Serialize(seg, pseudo).value, pseudo) == (Stamped(seg, pseudo), NoError)
      <==> seg.header.doff <= 15
  {
    hide Onto, Serialize, Parse, ChecksumOf, Of, RemovePrefix;
    var h := Stamped(seg, pseudo).header;
    var pad := Zeros(4 * h.doff - HEADER_LENGTH);
    SerializedChecks(seg, pseudo);
    SerializedIs(seg, pseudo);
    ParsedIs(prior, h, pad + seg.payload, pseudo);
    SkipWritten(pad, seg.payload);
  }

  function WordAt(bytes: seq<byte>, i: nat): u16
    requires i + 2 <= |bytes|
  {
    var high: nat := bytes[i];
    high * 256 + bytes[i + 1]
  }

  function WithWord(bytes: seq<byte>, i: nat, w: u16): seq<byte>
    requires i + 2 <= |bytes|
  {
    bytes[..i] + (Word(w) + bytes[i + 2..])
  }

  lemma SameWord(bytes: seq<byte>, i: nat)
    requires i + 2 <= |bytes|
    ensures WithWord(bytes, i, WordAt(bytes, i)) == bytes
  {
    assert Word(WordAt(bytes, i)) == [bytes[i], bytes[i + 1]];
  }

  /** A serialized segment in which one aligned 16-bit word has been changed is rejected,
      unless 0x0000 and 0xffff have been exchanged. */
  lemma CorruptionDetected(seg: TCPSegment, prior: TCPSegment, pseudo: u32, i: nat, w: u16)
    requires seg.header.doff >= 5 && pseudo < 0x7fff_0000
    requires 4 * seg.header.doff + |seg.payload| <= 0xffff
    requires i % 2 == 0 && i + 2 <= 4 * seg.header.doff + |seg.payload|
    ensures var bytes := Serialize(seg, pseudo).value;
      && |bytes| == 4 * seg.header.doff + |seg.payload|
      && (w != WordAt(bytes, i) && {w, WordAt(bytes, i)} != {0, 0xffff} ==>
            Parse(prior, WithWord(bytes, i, w), pseudo) == (prior, BadChecksum))
  {
    hide Bytes, BeforeChecksum, Of, ChecksumOf, Word, HeaderParse, Onto;
    SerializedChecks(seg, pseudo);
    var bytes := Serialize(seg, pseudo).value;
    SameWord(bytes, i);
    if w != WordAt(bytes, i) && {w, WordAt(bytes, i)} != {0, 0xffff} {
      DetectsWord(pseudo, bytes[..i], bytes[i + 2..], WordAt(bytes, i), w);
    }
  }

  // ---- what parsing reports ----

  lemma HeaderEnds(buffer: seq<byte>)
    ensures var p := HeaderParse(Parser(buffer, NoError)).1;
      if |buffer| < HEADER_LENGTH then p.error == PacketTooShort
      else At(p, buffer, Max(HEADER_LENGTH, 4 * (buffer[12] / 16)))
  {
    hide ParseInt, RemovePrefix, Bit, Number;
    var p := Parser(buffer, NoError);
    ParseAt(p, buffer, 0, 2);
    var p1 := ParseU16(p).1;
    ParseAt(p1, buffer, 2, 2);
    var p2 := ParseU16(p1).1;
    ParseAt(p2, buffer, 4, 4);
    var p3 := ParseU32(p2).1;
    ParseAt(p3, buffer, 8, 4);
    var p4 := ParseU32(p3).1;
    ParseAt(p4, buffer, 12, 1);
    var (off, p5) := ParseU8(p4);
    ParseAt(p5, buffer, 13, 1);
    var p6 := ParseU8(p5).1;
    ParseAt(p6, buffer, 14, 2);
    var p7 := ParseU16(p6).1;
    ParseAt(p7, buffer, 16, 2);
    var p8 := ParseU16(p7).1;
    ParseAt(p8, buffer, 18, 2);
    var p9 := ParseU16(p8).1;
    if |buffer| >= HEADER_LENGTH { NumberOne(buffer[12..13]); }
    if off / 16 >= 5 { RemoveAt(p9, buffer, 20, 4 * (off / 16) - HEADER_LENGTH); }
  }

  /** The verdict depends on the checksum and on the length alone: a data offset below 5 is
      not reported, and the payload then starts right behind the fixed header. */
  lemma Verdict(prior: TCPSegment, buffer: seq<byte>, pseudo: u32)
    ensures var (seg, verdict) := Parse(prior, buffer, pseudo);
      if Of(pseudo, buffer) != 0 then verdict == BadChecksum && seg == prior
      else if |buffer| < HEADER_LENGTH || |buffer| < 4 * (buffer[12] / 16) then verdict == PacketTooShort
      else verdict == NoError && seg.payload == buffer[Max(HEADER_LENGTH, 4 * (buffer[12] / 16))..]
  {
    HeaderEnds(buffer);
  }
}

/** Parsing and serializing as the source does it, field by field. */
module TcpWireMethods {
  import opened Types
  import opened TcpSegments
  import opened Parsing
  import opened Checksums
  import opened NetParsers
  import InternetChecksums
  import TcpWire

  method ParseHeader(p: NetParser) returns (h: TCPHeader, res: ParseResult)
    modifies p
    ensures (h, p.Model(), res) == TcpWire.HeaderParse(old(p.Model()))
  {
    var sport := p.U16();
    var dport := p.U16();
    var seqno := p.U32();
    var ackno := p.U32();
    var off := p.U8();
    var fl := p.U8();
    var win := p.U16();
    var cksum := p.U16();
    var uptr := p.U16();
    h := TCPHeader(sport, dport, seqno, ackno, off / 16, Bit(fl, 32), Bit(fl, 16), Bit(fl, 8),
                   Bit(fl, 4), Bit(fl, 2), Bit(fl, 1), win, cksum, uptr);
    if h.doff < 5 {
      return h, HeaderTooShort;
    }
    p.RemovePrefix(4 * h.doff - HEADER_LENGTH);
    res := p.err;
  }

  method SerializeHeader(h: TCPHeader) returns (r: Option<seq<byte>>)
    ensures r == TcpWire.HeaderBytes(h)
  {
    hide Bytes, TcpWire.Flags, TcpWire.OffsetByte;
    if h.doff < 5 {
      return None;
    }
    var ret := UnparseInt([], h.sport, 2);
    assert ret == Bytes(h.sport, 2);
    ret := UnparseInt(ret, h.dport, 2);
    ret := UnparseInt(ret, h.seqno, 4);
    ret := UnparseInt(ret, h.ackno, 4);
    ret := UnparseInt(ret, TcpWire.OffsetByte(h), 1);
    ret := UnparseInt(ret, TcpWire.Flags(h), 1);
    ret := UnparseInt(ret, h.win, 2);
    assert ret == TcpWire.BeforeChecksum(h);
    ret := UnparseInt(ret, h.cksum, 2);
    ret := UnparseInt(ret, h.uptr, 2);
    var pad := Zeros(4 * h.doff - HEADER_LENGTH);
    Associative(TcpWire.BeforeChecksum(h) + Bytes(h.cksum, 2), Bytes(h.uptr, 2), pad);
    Associative(TcpWire.BeforeChecksum(h), Bytes(h.cksum, 2), Bytes(h.uptr, 2) + pad);
    r := Some(ret + pad);
  }

  method ParseSegment(prior: TCPSegment, buffer: seq<byte>, pseudo: u32) returns (seg: TCPSegment, res: ParseResult)
    ensures (seg, res) == TcpWire.Parse(prior, buffer, pseudo)
  {
    var check := new InternetChecksums.InternetChecksum(pseudo);
    check.Add(buffer);
    var v := check.Value();
    if v != 0 {
      return prior, BadChecksum;
    }
    var p := new NetParser(buffer);
    var h, _ := ParseHeader(p);
    seg := TCPSegment(h, p.buffer);
    res := p.err;
  }

  method SerializeSegment(seg: TCPSegment, pseudo: u32) returns (r: Option<seq<byte>>)
    ensures r == TcpWire.Serialize(seg, pseudo)
  {
    var headerOut := seg.header.(cksum := 0);
    var zero := SerializeHeader(headerOut);
    if zero.None? {
      return None;
    }
    var check := new InternetChecksums.InternetChecksum(pseudo);
    check.Add(zero.value);
    check.Add(seg.payload);
    var v := check.Value();
    headerOut := headerOut.(cksum := v);
    var bytes := SerializeHeader(headerOut);
    r := Some(bytes.value + seg.payload);
  }
}
