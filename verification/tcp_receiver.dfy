/** The receiving half of TCP (libsponge/tcp_receiver.hh and libsponge/tcp_receiver.cc). */
module Receivers {
  import opened WrappingIntegers
  import opened ByteStreams
  import opened Options
  import opened Reassembly
  import opened Segments
  import RR = ReassemblerRuns

  datatype Receiver = Receiver(reassembler: Reassembler, capacity: nat, synReceived: bool, isn: uint32) {
    ghost predicate Valid() {
      reassembler.Valid() && reassembler.capacity == capacity
    }

    function Output(): Stream { reassembler.output }

    /** The stream index a segment's payload is taken to start at. */
    function IndexOf(seqno: uint32): uint64 {
      Unwrap(seqno, Mod32(isn + 1), Mod64(Output().written))
    }

    function SegmentReceived(seg: Segment): (r: Receiver)
      requires Output().Valid()
      ensures r.Output().Valid()
    {
      var h := seg.header;
      if !synReceived then
        if !h.syn then this
        else
          var synced := this.(synReceived := true, isn := h.seqno);
          synced.(reassembler := reassembler.Push(seg.payload, synced.IndexOf(Mod32(h.seqno + 1)), h.fin))
      else
        this.(reassembler := reassembler.Push(seg.payload, IndexOf(h.seqno), h.fin))
    }

    /** The acknowledgment number as an absolute, unwrapped number. */
    function AbsoluteAck(): nat {
      Output().written + 1 + if Output().ended then 1 else 0
    }

    function Ackno(): Option<uint32> {
      if !synReceived then None
      else Some(Mod32(isn + Mod32(Mod32(Output().written) + 1 + if Output().ended then 1 else 0)))
    }

    function WindowSize(): nat
      requires Valid()
    {
      capacity - |Output().buffer|
    }

    /** The window as it goes into a 16-bit header field. */
    function AdvertisedWindow(): uint16 { Mod16(capacity - |Output().buffer|) }

    function Read(len: nat): (r: Receiver)
      requires Output().Valid()
    {
      this.(reassembler := reassembler.(output := Output().Read(len)))
    }
  }

  function NewReceiver(capacity: nat): (r: Receiver)
    ensures r.Valid()
  {
    Receiver(EmptyReassembler(capacity), capacity, false, 0)
  }

  class TCPReceiver {
    const reassembler: StreamReassembler
    var capacity: nat
    var synReceived: bool
    var isn: uint32

    function View(): Receiver
      reads this, reassembler, reassembler.output
    {
      Receiver(reassembler.View(), capacity, synReceived, isn)
    }

    constructor (capacity: nat)
      ensures fresh(reassembler) && fresh(reassembler.output)
      ensures View() == NewReceiver(capacity)
    {
      reassembler := new StreamReassembler(capacity);
      this.capacity := capacity;
      synReceived, isn := false, 0;
    }

    method SegmentReceived(seg: Segment)
      requires View().Output().Valid()
      modifies this, reassembler, reassembler.output
      ensures View() == old(View()).SegmentReceived(seg)
    {
      hide Unwrap, Reassembler.Push;
      var seqno: int := seg.header.seqno;
      if !synReceived {
        if seg.header.syn {
          synReceived := true;
          isn := seqno;
          seqno := Mod32(seqno + 1);
        } else {
          return;
        }
      }
      var at := Unwrap(seqno, Mod32(isn + 1), Mod64(reassembler.output.written));
      reassembler.PushSubstring(seg.payload, at, seg.header.fin);
    }

    method Ackno() returns (r: Option<uint32>)
      ensures r == View().Ackno()
    {
      if !synReceived {
        return None;
      }
      var ackBytes: int := Mod32(reassembler.output.written);
      ackBytes := Mod32(ackBytes + 1);
      if reassembler.output.ended {
        ackBytes := Mod32(ackBytes + 1);
      }
      return Some(Mod32(isn + ackBytes));
    }

    method WindowSize() returns (n: nat)
      requires View().Valid()
      ensures n == View().WindowSize()
    {
      n := capacity - |reassembler.output.buffer|;
    }
  }

  // ----- Whole runs of a receiver, fed with any segments at all -----

  datatype ReceiverOp = SegmentOp(seg: Segment) | ReadOp(len: nat)

  function ReceiverStep(r: Receiver, op: ReceiverOp): (r': Receiver)
    requires r.Output().Valid()
    ensures r'.Output().Valid()
  {
    match op
    case SegmentOp(seg) => r.SegmentReceived(seg)
    case ReadOp(len) => r.Read(len)
  }

  function ReceiverRun(r: Receiver, ops: seq<ReceiverOp>): (r': Receiver)
    requires r.Output().Valid()
    ensures r'.Output().Valid()
    decreases |ops|
  {
    if ops == [] then r else ReceiverRun(ReceiverStep(r, ops[0]), ops[1..])
  }

  lemma StepAdvances(r: Receiver, op: ReceiverOp)
    requires r.Valid()
    ensures var r' := ReceiverStep(r, op);
            && r'.Valid() && r'.capacity == r.capacity
            && (r.synReceived ==> r'.synReceived && r'.isn == r.isn)
            && r.AbsoluteAck() <= r'.AbsoluteAck()
            && r.AbsoluteAck() + r.WindowSize() <= r'.AbsoluteAck() + r'.WindowSize()
  {
    hide Unwrap, Reassembler.Push;
    if op.SegmentOp? {
      var seg := op.seg;
      var synced := r.(synReceived := true, isn := seg.header.seqno);
      PushAdvances(r.reassembler, seg.payload, r.IndexOf(seg.header.seqno), seg.header.fin);
      PushAdvances(r.reassembler, seg.payload, synced.IndexOf(Mod32(seg.header.seqno + 1)), seg.header.fin);
    }
  }

  /** Whatever segments arrive and whatever is read, neither the acknowledgment number nor
      the right edge of the advertised window ever moves back, and the initial sequence
      number is fixed by the first SYN. */
  lemma {:induction false} NeverMovesBack(r: Receiver, ops: seq<ReceiverOp>)
    requires r.Valid()
    ensures var r' := ReceiverRun(r, ops);
            && r'.Valid()
            && (r.synReceived ==> r'.synReceived && r'.isn == r.isn)
            && r.AbsoluteAck() <= r'.AbsoluteAck()
            && r.AbsoluteAck() + r.WindowSize() <= r'.AbsoluteAck() + r'.WindowSize()
    decreases |ops|
  {
    if ops != [] {
      StepAdvances(r, ops[0]);
      NeverMovesBack(ReceiverStep(r, ops[0]), ops[1..]);
    }
  }

  /** Before the SYN nothing is taken; the SYN fixes the initial number, and data and FIN that
      come with it are at the very start of the stream. */
  lemma SynStartsTheStream(r: Receiver, seg: Segment)
    requires r.Output().Valid() && !r.synReceived && r.Output().written == 0
    ensures !seg.header.syn ==> r.SegmentReceived(seg) == r
    ensures seg.header.syn ==>
              r.SegmentReceived(seg) ==
              Receiver(r.reassembler.Push(seg.payload, 0, seg.header.fin), r.capacity, true, seg.header.seqno)
  {
    hide Unwrap, Reassembler.Push, Wrap;
    var first := Mod32(seg.header.seqno + 1);
    assert Wrap(0, first) == first by { WrapOfZero(first); }
    UnwrapOfWrap(0, first, 0);
  }

  lemma WrapOfZero(isn: uint32)
    ensures Wrap(0, isn) == isn
  {
  }

  /** The truncations in ackno() do no harm: the peer recovers the absolute number, also
      beyond 2^32 bytes. */
  lemma AckUnwraps(r: Receiver)
    requires r.synReceived && r.Output().written + 2 < TWO64
    ensures r.Ackno() == Some(Wrap(r.AbsoluteAck(), r.isn))
    ensures Unwrap(r.Ackno().value, r.isn, r.Output().written) == r.AbsoluteAck()
  {
    hide Unwrap, Mod32;
    var n, fin := r.Output().written, if r.Output().ended then 1 else 0;
    ModAdd(n, 1 + fin);
    assert Mod32(Mod32(n) + 1 + fin) == Mod32(n + 1 + fin);
    UnwrapOfWrap(r.AbsoluteAck(), r.isn, n);
  }

  /** The advertised window is exact: of a piece that starts inside it, the receiver keeps
      precisely the bytes before its right edge. */
  lemma WindowIsExact(r: Receiver, data: seq<byte>, at: nat, last: bool)
    requires r.Valid() && RR.Windowed(r.reassembler) && at <= r.Output().written + r.WindowSize()
    ensures RR.Known(r.reassembler.Push(data, at, last)) ==
            RR.Known(r.reassembler)
            + Fragments.Interval(at, Min(at + |data|, r.Output().written + r.WindowSize()))
  {
    hide Reassembler.Push;
    RR.PushRefines(r.reassembler, data, at, last);
  }
}
