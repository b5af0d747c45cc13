/** TCP headers and segments. */
module TcpSegments {
  import opened Types

  datatype TCPHeader = TCPHeader(
    sport: u16, dport: u16, seqno: u32, ackno: u32, doff: u8,
    urg: bool, ack: bool, psh: bool, rst: bool, syn: bool, fin: bool,
    win: u16, cksum: u16, uptr: u16)

  datatype TCPSegment = TCPSegment(header: TCPHeader, payload: seq<byte>)

  const HEADER_LENGTH: nat := 20

  const BLANK := TCPHeader(0, 0, 0, 0, 5, false, false, false, false, false, false, 0, 0, 0)

  /** A segment with only the fields the sender sets. */
  function Plain(seqno: u32, syn: bool, fin: bool, payload: seq<byte>): TCPSegment {
    TCPSegment(BLANK.(seqno := seqno, syn := syn, fin := fin), payload)
  }

  /** How many sequence numbers the segment occupies. */
  function LengthInSequenceSpace(seg: TCPSegment): nat {
    |seg.payload| + (if seg.header.syn then 1 else 0) + (if seg.header.fin then 1 else 0)
  }
}
