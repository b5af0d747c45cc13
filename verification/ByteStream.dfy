/** The flow-controlled byte stream as a value: everything ever accepted, and how much of
    it has been taken out again. */
module Streams {
  import opened Types

  datatype StreamValue = Stream(cap: nat, written: seq<byte>, read: nat, ended: bool, error: bool)

  type Stream = s: StreamValue | s.read <= |s.written| <= s.read + s.cap witness Stream(0, [], 0, false, false)

  function Empty(cap: nat): Stream {
    Stream(cap, [], 0, false, false)
  }

  function Buffer(s: Stream): seq<byte> {
    s.written[s.read..]
  }

  function Size(s: Stream): nat {
    |s.written| - s.read
  }

  function Room(s: Stream): nat {
    s.cap - Size(s)
  }

  predicate Eof(s: Stream) {
    Size(s) == 0 && s.ended
  }

  function Write(s: Stream, data: seq<byte>): Stream {
    s.(written := s.written + data[..Min(|data|, Room(s))])
  }

  function Pop(s: Stream, len: nat): Stream
    requires len <= Size(s)
  {
    s.(read := s.read + len)
  }

  function End(s: Stream): Stream {
    s.(ended := true)
  }

  function SetError(s: Stream): Stream {
    s.(error := true)
  }

  /** Whatever is read out, in whatever pieces, is what went in, in order. */
  function ReadAll(s: Stream, sizes: seq<nat>): (r: (seq<byte>, Stream))
    decreases |sizes|
  {
    if sizes == [] then ([], s)
    else
      var n := Min(sizes[0], Size(s));
      var (rest, t) := ReadAll(Pop(s, n), sizes[1..]);
      (Buffer(s)[..n] + rest, t)
  }

  lemma {:induction false} ReadAllInOrder(s: Stream, sizes: seq<nat>)
    ensures var (data, t) := ReadAll(s, sizes);
      t.written == s.written && s.read <= t.read && data == s.written[s.read..t.read]
    decreases |sizes|
  {
    if sizes != [] {
      var n := Min(sizes[0], Size(s));
      ReadAllInOrder(Pop(s, n), sizes[1..]);
      SliceJoin(s.written, s.read, s.read + n, ReadAll(Pop(s, n), sizes[1..]).1.read);
      assert Buffer(s)[..n] == s.written[s.read..s.read + n];
    }
  }
}

/** The stream object of byte_stream.cc. */
module ByteStreams {
  import opened Types
  import Streams

  class ByteStream {
    const cap: u64
    var rem: nat
    var totRead: nat
    var totWrite: nat
    var inputEnded: bool
    var hasError: bool
    var buf: seq<byte>
    ghost var written: seq<byte>  // every byte ever accepted

    ghost predicate Valid()
      reads this
    {
      && totWrite == |written|
      && totRead <= totWrite
      && rem + |buf| == cap
      && buf == written[totRead..]
    }

    ghost function Model(): Streams.Stream
      requires Valid()
      reads this
    {
      Streams.Stream(cap, written, totRead, inputEnded, hasError)
    }

    constructor (capacity: u64)
      ensures Valid() && cap == capacity && Model() == Streams.Empty(capacity)
    {
      cap, rem, totRead, totWrite := capacity, capacity, 0, 0;
      inputEnded, hasError, buf, written := false, false, [], [];
    }

    method Write(data: seq<byte>) returns (writable: nat)
      modifies this
      ensures writable == Min(|data|, old(rem))
      ensures buf == old(buf) + data[..writable] && rem == old(rem) - writable
      ensures old(Valid()) ==> Valid() && Model() == Streams.Write(old(Model()), data)
    {
      writable := Min(|data|, rem);
      buf := buf + data[..writable];
      rem := rem - writable;
      totWrite := totWrite + writable;
      written := written + data[..writable];
    }

    method PeekOutput(len: nat) returns (data: seq<byte>)
      ensures Valid() ==> data == Streams.Buffer(Model())[..Min(len, Streams.Size(Model()))]
    {
      data := buf[..Min(len, |buf|)];
    }

    /** Popping more than is buffered corrupts the accounting; the stream stays consistent
        exactly when the caller does not. */
    method PopOutput(len: nat)
      modifies this
      ensures old(Valid()) ==> (Valid() <==> len <= |old(buf)|)
      ensures old(Valid()) && len <= |old(buf)| ==> Model() == Streams.Pop(old(Model()), len)
    {
      buf := buf[Min(len, |buf|)..];
      rem := rem + len;
      totRead := totRead + len;
    }

    method Read(len: nat) returns (res: seq<byte>)
      modifies this
      ensures res == old(buf)[..Min(len, |old(buf)|)]
      ensures old(Valid()) ==> (Valid() <==> len <= |old(buf)|)
      ensures old(Valid()) && len <= |old(buf)| ==>
        Model() == Streams.Pop(old(Model()), len) && res == Streams.Buffer(old(Model()))[..len]
    {
      res := buf[..Min(len, |buf|)];
      buf := buf[Min(len, |buf|)..];
      rem := rem + len;
      totRead := totRead + len;
    }

    method EndInput()
      modifies this
      ensures old(Valid()) ==> Valid() && Model() == Streams.End(old(Model()))
    {
      inputEnded := true;
    }

    method SetError()
      modifies this
      ensures old(Valid()) ==> Valid() && Model() == Streams.SetError(old(Model()))
    {
      hasError := true;
    }

    function BufferSize(): (n: u64)
      reads this
      ensures Valid() ==> n == Streams.Size(Model())
    {
      U64(cap - rem)
    }

    predicate BufferEmpty()
      reads this
      ensures Valid() ==> BufferEmpty() == (Streams.Size(Model()) == 0)
    {
      rem == cap
    }

    predicate Eof()
      reads this
      ensures Valid() ==> Eof() == Streams.Eof(Model())
    {
      rem == cap && inputEnded
    }

    function BytesWritten(): (n: nat)
      reads this
      ensures Valid() ==> n == |Model().written|
    {
      totWrite
    }

    function BytesRead(): (n: nat)
      reads this
      ensures Valid() ==> n == Model().read
    {
      totRead
    }

    function RemainingCapacity(): (n: nat)
      reads this
      ensures Valid() ==> n == Streams.Room(Model())
    {
      rem
    }
  }
}
