/** The reassembler object of stream_reassembler.cc. */
module StreamReassemblers {
  import opened Types
  import opened Reassembly
  import Streams
  import ByteStreams

  class StreamReassembler {
    const output: ByteStreams.ByteStream
    const capacity: u64
    var szUnasb: int
    var unread: nat
    var unasb: nat
    var eof2: u64
    var t: seq<Interval>

    ghost predicate Valid()
      reads this, output
    {
      output.Valid() && output.cap == capacity
    }

    ghost function Model(): Store
      requires Valid()
      reads this, output
    {
      Store(t, szUnasb, unasb, eof2, output.Model())
    }

    constructor (capacity: u64)
      ensures Valid() && fresh(output)
      ensures this.capacity == capacity && Model() == Init(capacity)
    {
      output := new ByteStreams.ByteStream(capacity);
      this.capacity := capacity;
      szUnasb, unread, unasb, eof2, t := 0, 0, 0, NO_EOF, [];
    }

    method PushSubstring(data: seq<byte>, index: u64, eof: bool)
      requires Valid()
      modifies this, output
      ensures Valid() && Model() == Push(old(Model()), data, index, eof)
    {
      unread := output.totRead;
      U64Small(index + |data|);
      PushUpTo(data, index, eof, U64(index + |data|), U64(unread + capacity));
    }

    method PushUpTo(data: seq<byte>, index: nat, eof: bool, stop: u64, limit: nat)
      requires Valid() && stop <= index + |data|
      modifies this, output
      ensures Valid() && Model() == Reassembly.PushUpTo(old(Model()), data, index, eof, stop, limit)
    {
      hide Gaps, PutAll, Drain, Total;
      var idx := Max(unasb, index);
      var endidx := Min(stop, limit);
      if eof {
        eof2 := stop;
      }
      if endidx <= idx {
        Close();
        return;
      }
      var toInsert := Scan(idx, endidx, data, index);
      InsertAll(toInsert);
      DrainReady();
      Close();
    }

    method InsertAll(toInsert: seq<Interval>)
      requires Valid()
      modifies this
      ensures Valid()
      ensures Model() == old(Model()).(t := PutAll(old(t), toInsert), szUnasb := old(szUnasb) + Total(toInsert))
    {
      var i := 0;
      while i < |toInsert|
        invariant 0 <= i <= |toInsert|
        invariant Valid() && Model() == old(Model()).(t := t, szUnasb := szUnasb)
        invariant PutAll(t, toInsert[i..]) == PutAll(old(t), toInsert)
        invariant szUnasb + Total(toInsert[i..]) == old(szUnasb) + Total(toInsert)
      {
        assert toInsert[i..][1..] == toInsert[i + 1..];
        t := Put(t, toInsert[i]);
        szUnasb := szUnasb + |toInsert[i].data|;
        i := i + 1;
      }
      assert toInsert[i..] == [];
    }

    /** One pass of the scan. */
    static lemma ScanStep(t: seq<Interval>, c: nat, idx: nat, end: nat, data: seq<byte>, index: nat, found: seq<Interval>)
      requires c < |t| && index <= idx < end <= index + |data|
      ensures var found' := if idx < t[c].lo then found + [Piece(idx, Min(t[c].lo, end), data, index)] else found;
        found + Gaps(t[c..], idx, end, data, index)
        == if t[c].hi >= end then found' else found' + Gaps(t[c + 1..], Max(idx, t[c].hi), end, data, index)
    {
      assert t[c..][0] == t[c] && t[c..][1..] == t[c + 1..];
    }

    static lemma ScanEnd(t: seq<Interval>, c: nat, idx: nat, end: nat, data: seq<byte>, index: nat)
      requires c == |t| && index <= idx < end <= index + |data|
      ensures Gaps(t[c..], idx, end, data, index) == [Piece(idx, end, data, index)]
    {
    }

    /** The gap-filling scan over the interval map. */
    method Scan(idx0: nat, endidx: nat, data: seq<byte>, index: nat) returns (toInsert: seq<Interval>)
      requires index <= idx0 < endidx <= index + |data|
      ensures toInsert == Gaps(t, idx0, endidx, data, index)
    {
      hide Gaps;
      var idx := idx0;
      toInsert := [];
      var c := 0;
      assert t[c..] == t && forall g: seq<Interval> :: [] + g == g;
      while c < |t|
        invariant 0 <= c <= |t|
        invariant index <= idx < endidx
        invariant toInsert + Gaps(t[c..], idx, endidx, data, index) == Gaps(t, idx0, endidx, data, index)
      {
        ScanStep(t, c, idx, endidx, data, index, toInsert);
        if idx < t[c].lo {
          toInsert := toInsert + [Piece(idx, Min(t[c].lo, endidx), data, index)];
        }
        idx := Max(idx, t[c].hi);
        if t[c].hi >= endidx {
          break;
        }
        c := c + 1;
      }
      if idx < endidx {
        ScanEnd(t, c, idx, endidx, data, index);
        toInsert := toInsert + [Piece(idx, endidx, data, index)];
      }
    }

    method DrainReady()
      requires Valid()
      modifies this, output
      ensures Valid() && Model() == Drain(old(Model()))
    {
      while t != [] && t[0].lo == unasb
        invariant Valid() && Drain(Model()) == Drain(old(Model()))
        invariant output.Valid()
        decreases |t|
      {
        var _ := output.Write(t[0].data);
        unasb := unasb + |t[0].data|;
        szUnasb := szUnasb - |t[0].data|;
        t := t[1..];
      }
    }

    method Close()
      requires Valid()
      modifies this, output
      ensures Valid() && Model() == Finish(old(Model()))
    {
      if unasb == eof2 {
        eof2 := NO_EOF;
        output.EndInput();
      }
    }

    function UnassembledBytes(): int
      reads this
    {
      szUnasb
    }

    predicate IsEmpty()
      reads this
    {
      t == []
    }

    function FirstUnasb(): nat
      reads this
    {
      unasb
    }
  }
}
