/** The receiver as a value (tcp_receiver.cc). */
module Receiving {
  import opened Types
  import opened WrappingIntegers
  import opened Reassembly
  import opened TcpSegments
  import Streams

  /** `_LISTEN`, `_SYN_RECV` and `_FIN_RECV` are 0, 1 and 2; `ackno` adds the number itself. */
  datatype Status = Listen | SynRecv | FinRecv {
    function Number(): nat {
      match this
      case Listen => 0
      case SynRecv => 1
      case FinRecv => 2
    }
  }

  datatype Receiver = Receiver(store: Store, isn: u32, cp: u64, status: Status)

  function FreshReceiver(capacity: nat): Receiver {
    Receiver(Init(capacity), 0, 0, Listen)
  }

  /** The stream index of a segment's first byte: the last decoded one for a SYN. */
  function IndexOf(r: Receiver, h: TCPHeader): u64 {
    if h.syn then r.cp else U64(Unwrap(h.seqno, r.isn, r.cp) - 1)
  }

  function SegmentReceived(r: Receiver, seg: TCPSegment): Receiver {
    var h := seg.header;
    var r1 := if h.syn then r.(isn := h.seqno, status := SynRecv) else r.(cp := IndexOf(r, h));
    if r1.status == Listen then r1
    else
      var r2 := if h.fin then r1.(status := FinRecv) else r1;
      r2.(store := Push(r2.store, seg.payload, r2.cp, h.fin))
  }

  function Ackno(r: Receiver): Option<u32> {
    if r.status == Listen then None
    else if r.store.szUnasb == 0 then Some(Wrap(r.store.unasb + r.status.Number(), r.isn))
    else Some(Wrap(r.store.unasb + SynRecv.Number(), r.isn))
  }

  function WindowSize(r: Receiver): nat {
    Streams.Room(r.store.out)
  }
}

/** The receiver object. */
module TcpReceivers {
  import opened Types
  import opened WrappingIntegers
  import opened TcpSegments
  import Receiving
  import ByteStreams
  import StreamReassemblers

  class TCPReceiver {
    const reassembler: StreamReassemblers.StreamReassembler
    const capacity: u64
    var isn: u32
    var cp: u64
    var status: Receiving.Status

    ghost predicate Valid()
      reads this, reassembler, reassembler.output
    {
      reassembler.Valid() && reassembler.capacity == capacity
    }

    ghost function Model(): Receiving.Receiver
      requires Valid()
      reads this, reassembler, reassembler.output
    {
      Receiving.Receiver(reassembler.Model(), isn, cp, status)
    }

    constructor (capacity: u64)
      ensures Valid() && fresh(reassembler) && fresh(reassembler.output)
      ensures this.capacity == capacity && Model() == Receiving.FreshReceiver(capacity)
    {
      reassembler := new StreamReassemblers.StreamReassembler(capacity);
      this.capacity := capacity;
      isn, cp, status := 0, 0, Receiving.Listen;
    }

    method SegmentReceived(seg: TCPSegment)
      requires Valid()
      modifies this, reassembler, reassembler.output
      ensures Valid() && Model() == Receiving.SegmentReceived(old(Model()), seg)
    {
      var h := seg.header;
      if h.syn {
        isn := h.seqno;
        status := Receiving.SynRecv;
      } else {
        cp := U64(Unwrap(h.seqno, isn, cp) - 1);
      }
      if status == Receiving.Listen {
        return;
      }
      var eof := false;
      if h.fin {
        eof := true;
        status := Receiving.FinRecv;
      }
      reassembler.PushSubstring(seg.payload, cp, eof);
    }

    method Ackno() returns (ackno: Option<u32>)
      requires Valid()
      ensures ackno == Receiving.Ackno(Model())
    {
      if status == Receiving.Listen {
        return None;
      }
      var unasb := reassembler.FirstUnasb();
      if reassembler.UnassembledBytes() == 0 {
        ackno := Some(Wrap(unasb + status.Number(), isn));
      } else {
        ackno := Some(Wrap(unasb + Receiving.Status.SynRecv.Number(), isn));
      }
    }

    method WindowSize() returns (n: int)
      requires Valid()
      ensures n == Receiving.WindowSize(Model())
    {
      n := capacity - reassembler.output.BufferSize();
    }
  }
}
