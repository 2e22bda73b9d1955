/** The bounded in-memory byte stream (libsponge/byte_stream.hh and libsponge/byte_stream.cc). */
module ByteStreams {
  import opened WrappingIntegers

  /** The value of a stream: what its fields hold between calls. */
  datatype Stream = Stream(
    capacity: nat,
    buffer: seq<byte>,
    ended: bool,
    written: nat,
    popped: nat,
    error: bool
  ) {
    predicate Valid() { |buffer| <= capacity }

    function Room(): nat
      requires Valid()
    {
      capacity - |buffer|
    }

    predicate Eof() { ended && buffer == [] }

    /** How many of `data`'s bytes a write takes. */
    function Taken(data: seq<byte>): (n: nat)
      requires Valid()
      ensures n <= |data|
    {
      Min(|data|, Room())
    }

    function Write(data: seq<byte>): (s: Stream)
      requires Valid()
      ensures s.Valid()
    {
      this.(buffer := buffer + data[..Taken(data)], written := written + Taken(data))
    }

    function Peek(len: nat): (r: seq<byte>)
      ensures r <= buffer
    {
      buffer[..Min(len, |buffer|)]
    }

    /** Removes up to `len` bytes, but counts `len` of them as popped. */
    function Pop(len: nat): (s: Stream)
      requires Valid()
      ensures s.Valid()
    {
      this.(buffer := buffer[Min(len, |buffer|)..], popped := popped + len)
    }

    /** The state after Read; the bytes returned are Peek(len). */
    function Read(len: nat): (s: Stream)
      requires Valid()
      ensures s.Valid()
    {
      this.(buffer := buffer[Min(len, |buffer|)..], popped := popped + Min(len, |buffer|))
    }

    function EndInput(): Stream { this.(ended := true) }

    function SetError(): Stream { this.(error := true) }
  }

  function EmptyStream(capacity: nat): (s: Stream)
    ensures s.Valid()
  {
    Stream(capacity, [], false, 0, 0, false)
  }

  class ByteStream {
    var capacity: nat
    var buffer: seq<byte>
    var ended: bool
    var written: nat
    var popped: nat
    var error: bool

    function View(): Stream
      reads this
    {
      Stream(capacity, buffer, ended, written, popped, error)
    }

    constructor (capacity: nat)
      ensures View() == EmptyStream(capacity)
    {
      this.capacity := capacity;
      buffer, ended, written, popped, error := [], false, 0, 0, false;
    }

    method BytesToRead(len: nat) returns (n: nat)
      ensures n <= len && n <= |buffer|
      ensures n == len || n == |buffer|
    {
      n := len;
      if n > |buffer| {
        n := |buffer|;
      }
    }

    method Write(data: seq<byte>) returns (n: nat)
      requires View().Valid()
      modifies this
      ensures View() == old(View()).Write(data)
      ensures n == old(View()).Taken(data)
    {
      n := |data|;
      var remaining := capacity - |buffer|;
      if n > remaining {
        n := remaining;
      }
      buffer := buffer + data[..n];
      written := written + n;
    }

    method PeekOutput(len: nat) returns (r: seq<byte>)
      ensures r == View().Peek(len)
    {
      var n := BytesToRead(len);
      r := buffer[..n];
    }

    method PopOutput(len: nat)
      requires View().Valid()
      modifies this
      ensures View() == old(View()).Pop(len)
    {
      popped := popped + len;
      var n := BytesToRead(len);
      buffer := buffer[n..];
    }

    method Read(len: nat) returns (r: seq<byte>)
      requires View().Valid()
      modifies this
      ensures r == old(View()).Peek(len)
      ensures View() == old(View()).Read(len)
    {
      var n := BytesToRead(len);
      r := buffer[..n];
      buffer := buffer[n..];
      popped := popped + n;
    }

    method EndInput()
      modifies this
      ensures View() == old(View()).EndInput()
    {
      ended := true;
    }

    method SetError()
      modifies this
      ensures View() == old(View()).SetError()
    {
      error := true;
    }
  }

  // ----- Whole runs of one stream -----

  datatype StreamOp = WriteOp(data: seq<byte>) | ReadOp(len: nat) | PopOp(n: nat) | EndOp

  /** A stream, everything it ever accepted, and everything that ever left it. */
  datatype StreamRun = StreamRun(stream: Stream, accepted: seq<byte>, left: seq<byte>) {
    ghost predicate Conserved() {
      && stream.Valid()
      && accepted == left + stream.buffer
      && stream.written == |accepted|
      && |left| <= stream.popped
    }

    /** bytes_read() is the number of bytes that left. */
    predicate CountExact() { stream.popped == |left| }
  }

  function StreamStep(r: StreamRun, op: StreamOp): StreamRun
    requires r.stream.Valid()
  {
    match op
    case WriteOp(data) =>
      StreamRun(r.stream.Write(data), r.accepted + data[..r.stream.Taken(data)], r.left)
    case ReadOp(len) => StreamRun(r.stream.Read(len), r.accepted, r.left + r.stream.Peek(len))
    case PopOp(n) => StreamRun(r.stream.Pop(n), r.accepted, r.left + r.stream.Peek(n))
    case EndOp => r.(stream := r.stream.EndInput())
  }

  function StreamRunOf(capacity: nat, ops: seq<StreamOp>): (r: StreamRun)
    ensures r.stream.Valid() && r.stream.capacity == capacity
  {
    if ops == [] then StreamRun(EmptyStream(capacity), [], [])
    else StreamStep(StreamRunOf(capacity, ops[..|ops| - 1]), ops[|ops| - 1])
  }

  lemma MoveOut(left: seq<byte>, buffer: seq<byte>, n: nat)
    requires n <= |buffer|
    ensures left + buffer == (left + buffer[..n]) + buffer[n..]
  {
  }

  lemma MoveIn(left: seq<byte>, buffer: seq<byte>, data: seq<byte>)
    ensures (left + buffer) + data == left + (buffer + data)
  {
  }

  lemma StepConserves(r: StreamRun, op: StreamOp)
    requires r.Conserved()
    ensures StreamStep(r, op).Conserved()
  {
    match op
    case WriteOp(data) => MoveIn(r.left, r.stream.buffer, data[..r.stream.Taken(data)]);
    case ReadOp(len) => MoveOut(r.left, r.stream.buffer, Min(len, |r.stream.buffer|));
    case PopOp(n) => MoveOut(r.left, r.stream.buffer, Min(n, |r.stream.buffer|));
    case EndOp =>
  }

  /** Over every run, bytes leave in the order they were accepted, none is lost or made up,
      and at most `capacity` are inside. */
  lemma {:induction false} StreamConserves(capacity: nat, ops: seq<StreamOp>)
    ensures StreamRunOf(capacity, ops).Conserved()
    ensures var r := StreamRunOf(capacity, ops); |r.accepted| - |r.left| <= capacity
  {
    if ops != [] {
      StreamConserves(capacity, ops[..|ops| - 1]);
      StepConserves(StreamRunOf(capacity, ops[..|ops| - 1]), ops[|ops| - 1]);
    }
  }

  /** pop_output counts the length asked for, so one step keeps bytes_read() exact if and
      only if it does not pop more than is buffered. */
  lemma CountStaysExactIff(r: StreamRun, op: StreamOp)
    requires r.Conserved() && r.CountExact()
    ensures StreamStep(r, op).CountExact() <==> !(op.PopOp? && op.n > |r.stream.buffer|)
  {
  }

  /** No pop of the run asks for more than it finds. */
  ghost predicate NoOverPop(capacity: nat, ops: seq<StreamOp>) {
    ops == [] ||
    var before, op := ops[..|ops| - 1], ops[|ops| - 1];
    NoOverPop(capacity, before) && (op.PopOp? ==> op.n <= |StreamRunOf(capacity, before).stream.buffer|)
  }

  /** Over every run bytes_read() is the number of bytes that left if and only if no pop asked
      for more than it found: one such pop is never made up for. */
  lemma {:induction false} CountIsExactIff(capacity: nat, ops: seq<StreamOp>)
    ensures StreamRunOf(capacity, ops).CountExact() <==> NoOverPop(capacity, ops)
  {
    if ops != [] {
      var before, op := ops[..|ops| - 1], ops[|ops| - 1];
      var r := StreamRunOf(capacity, before);
      CountIsExactIff(capacity, before);
      StreamConserves(capacity, before);
      if r.CountExact() {
        CountStaysExactIff(r, op);
      } else {
        assert |r.left| < r.stream.popped;
        ExcessStays(r, op);
      }
    }
  }

  lemma ExcessStays(r: StreamRun, op: StreamOp)
    requires r.Conserved() && |r.left| < r.stream.popped
    ensures !StreamStep(r, op).CountExact()
  {
  }

  /** A stream from which one byte left and two are counted. */
  lemma CountWitness()
    ensures var r := StreamRunOf(10, [WriteOp([7]), PopOp(2)]);
            r.left == [7] && r.stream.popped == 2
  {
    var write, pop := WriteOp([7]), PopOp(2);
    assert [write, pop][..1] == [write] && [write][..0] == [];
    assert StreamRunOf(10, [write]) == StreamStep(StreamRunOf(10, []), write);
    assert StreamRunOf(10, [write]).stream.buffer == [7];
  }
}
