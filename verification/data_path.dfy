/** One direction of a connection: a sender, a network that may drop, duplicate, delay and
    reorder whatever was ever sent, and a receiver with its reader. */
module DataPath {
  import opened WrappingIntegers
  import opened Fragments
  import opened Reassembly
  import opened Segments
  import opened Receivers
  import opened Senders
  import SR = SenderRuns
  import RR = ReassemblerRuns

  /** The acknowledgments the receiver ever sent are kept for the network to deliver. */
  datatype System = System(t: SR.Track, rcv: Receiver, consumed: seq<byte>, acks: set<(uint32, uint16)>) {
    predicate Valid() { t.s.stream.Valid() && rcv.Output().Valid() }

    /** Everything the receiver has put into its stream so far. */
    function Assembled(): seq<byte> { consumed + rcv.Output().buffer }
  }

  datatype Action =
    | SenderDoes(e: SR.Event)
    | Deliver(seg: Segment)
    | Read(len: nat)
    | SendAck
    | DeliverAck(ackno: uint32, win: uint16)

  /** Equal in all the receiver looks at; ports and acknowledgment fields may differ. */
  predicate SameData(x: Segment, seg: Segment) {
    && x.header.seqno == seg.header.seqno && x.header.syn == seg.header.syn && x.header.fin == seg.header.fin
    && x.payload == seg.payload
  }

  /** The segment is not so old or new that its number has been reused: it lies less than
      2^31 from what the receiver expects next. */
  ghost predicate Near(y: System, seg: Segment) {
    exists a: nat :: SR.Carries(seg, a, y.t.s, y.t.written) &&
      (seg.header.syn || seg.SeqLen() == 0 || Distance(a - 1, y.rcv.reassembler.index) < TWO31)
  }

  ghost predicate Enabled(y: System, act: Action) {
    match act
    case SenderDoes(e) =>
      !e.Ack? && (e.Write? ==> !y.t.s.stream.ended && |y.t.written| + |e.data| + 2 < TWO64)
    case Deliver(seg) => (exists x :: x in y.t.wire && SameData(x, seg)) && Near(y, seg)
    case Read(_) => true
    case SendAck => y.rcv.synReceived
    case DeliverAck(ackno, win) => (ackno, win) in y.acks
  }

  function Next(y: System, act: Action): (y': System)
    requires y.Valid()
    ensures y'.Valid()
  {
    match act
    case SenderDoes(e) => y.(t := SR.Step(y.t, e))
    case Deliver(seg) => y.(rcv := y.rcv.SegmentReceived(seg))
    case Read(len) => y.(rcv := y.rcv.Read(len), consumed := y.consumed + y.rcv.Output().Peek(len))
    case SendAck =>
      if y.rcv.Ackno().Some? then
        y.(acks := y.acks + {(y.rcv.Ackno().value, y.rcv.AdvertisedWindow())})
      else y
    case DeliverAck(ackno, win) => y.(t := SR.Step(y.t, SR.Ack(ackno, win)))
  }

  function Run(y: System, acts: seq<Action>): (y': System)
    requires y.Valid()
    ensures y'.Valid()
    decreases |acts|
  {
    if acts == [] then y else Run(Next(y, acts[0]), acts[1..])
  }

  ghost predicate EnabledRun(y: System, acts: seq<Action>)
    requires y.Valid()
    decreases |acts|
  {
    acts == [] || (Enabled(y, acts[0]) && EnabledRun(Next(y, acts[0]), acts[1..]))
  }

  function Start(sendCapacity: nat, recvCapacity: nat, retxTimeout: uint16, isn: uint32): (y: System)
    ensures y.Valid()
  {
    System(SR.Start(sendCapacity, retxTimeout, isn), NewReceiver(recvCapacity), [], {})
  }

  // ----- The invariant -----

  /** The part of the application's stream that was sent at least once. */
  ghost function Sent(t: SR.Track): seq<byte>
    requires SR.Numbered(t.s, t.written)
  {
    t.written[..SR.SentBytes(t.s, t.written)]
  }

  /** The receiver holds only what was sent, and takes only the true end for the end. */
  ghost predicate Receiving(y: System)
    requires SR.Numbered(y.t.s, y.t.written)
  {
    var r := y.rcv.reassembler;
    && y.rcv.Valid()
    && RR.Ordered(r)
    && RR.Follows(r, y.consumed, Sent(y.t))
    && RR.EndMarked(r, |y.t.written|)
    && (r.eofSet ==> y.t.s.finSent)
    && (y.rcv.synReceived ==> y.rcv.isn == y.t.s.isn && y.t.s.nextSeqno > 0)
    && (!y.rcv.synReceived ==> r.index == 0 && !r.output.ended)
  }

  /** No acknowledgment, sent or taken, is beyond what the receiver has assembled. */
  ghost predicate Acknowledging(y: System) {
    && (forall p :: p in y.acks ==>
          y.rcv.synReceived && exists n: nat :: n <= y.rcv.AbsoluteAck() && p.0 == Wrap(n, y.t.s.isn))
    && (SR.NoWrap(y.t.s) && 0 <= y.t.s.highestAck ==>
          y.rcv.synReceived && y.t.s.highestAck <= y.t.s.isn + y.rcv.AbsoluteAck())
  }

  ghost predicate Inv(y: System) {
    && SR.Inv(y.t)
    && |y.t.written| + 2 < TWO64
    && Receiving(y)
    && Acknowledging(y)
  }

  /** The receiver acknowledges nothing the sender has not sent. */
  lemma AckWithinSent(y: System)
    requires SR.Inv(y.t) && Receiving(y) && y.rcv.synReceived
    ensures y.rcv.AbsoluteAck() <= y.t.s.nextSeqno
  {
  }

  lemma FollowsLonger(r: Reassembler, left: seq<byte>, stream: seq<byte>, longer: seq<byte>)
    requires RR.Follows(r, left, stream) && stream <= longer
    ensures RR.Follows(r, left, longer)
  {
    forall f | f in r.fragments ensures f.PieceOf(longer) {
      assert f.PieceOf(stream);
      assert longer[f.index..f.Right()] == stream[f.index..f.Right()];
    }
  }

  /** Whatever the sender does next, the receiver's part of the invariant is unaffected. */
  lemma ReceivingGrows(y: System, t': SR.Track)
    requires SR.Inv(y.t) && Receiving(y) && SR.Inv(t') && SR.Grows(y.t, t')
    ensures Receiving(y.(t := t'))
  {
    hide RR.Ordered, SR.AllCarried, SR.Chained, SR.Timed;
    FollowsLonger(y.rcv.reassembler, y.consumed, Sent(y.t), Sent(t'));
  }

  // ----- Every step keeps it -----

  /** A number wraps alike relative to the SYN and to the first byte. */
  lemma ShiftWrap(a: nat, isn: uint32)
    requires a >= 1
    ensures Wrap(a, isn) == Wrap(a - 1, Mod32(isn + 1))
  {
    hide Mod32;
    ModAdd(a, isn);
    ModAdd(isn + 1, Mod32(a - 1));
    ModAdd(a - 1, isn + 1);
  }

  /** The receiver places a data segment at the stream index its number names. */
  lemma PlacedRight(y: System, seg: Segment, a: nat)
    requires Inv(y) && y.rcv.synReceived && SR.Carries(seg, a, y.t.s, y.t.written)
    requires !seg.header.syn && seg.SeqLen() > 0 && Distance(a - 1, y.rcv.reassembler.index) < TWO31
    ensures y.rcv.IndexOf(seg.header.seqno) == a - 1
    ensures Fragment(a - 1, seg.payload).PieceOf(Sent(y.t))
    ensures seg.header.fin ==> y.t.s.finSent && a - 1 + |seg.payload| == |y.t.written|
  {
    hide Wrap, Unwrap;
    ShiftWrap(a, y.t.s.isn);
    InRange(y.rcv.Output().written);
    UnwrapOfWrap(a - 1, Mod32(y.t.s.isn + 1), y.rcv.reassembler.index);
    var n := SR.SentBytes(y.t.s, y.t.written);
    assert y.t.written[..n] == y.t.written[0..n];
    RR.SliceOfSlice(y.t.written, 0, n, a - 1, a - 1 + |seg.payload|);
  }

  /** Segments without payload and FIN leave the reassembler alone, wherever they land. */
  lemma EmptyPushStays(r: Reassembler, at: nat)
    requires r.output.Valid()
    ensures r.Push([], at, false) == r
  {
  }

  lemma DeliverPushes(y: System, seg: Segment, a: nat)
    requires Inv(y) && y.rcv.synReceived && SR.Carries(seg, a, y.t.s, y.t.written)
    requires !seg.header.syn && seg.SeqLen() > 0 && Distance(a - 1, y.rcv.reassembler.index) < TWO31
    ensures Next(y, Deliver(seg)) ==
            y.(rcv := y.rcv.(reassembler := y.rcv.reassembler.Push(seg.payload, a - 1, seg.header.fin)))
  {
    hide Reassembler.Push, Unwrap, Wrap;
    PlacedRight(y, seg, a);
  }

  lemma DataKeepsReceiving(y: System, seg: Segment, a: nat)
    requires Inv(y) && y.rcv.synReceived && SR.Carries(seg, a, y.t.s, y.t.written)
    requires !seg.header.syn && seg.SeqLen() > 0 && Distance(a - 1, y.rcv.reassembler.index) < TWO31
    ensures Receiving(Next(y, Deliver(seg)))
  {
    hide Reassembler.Push, Unwrap, Wrap, SR.AllCarried, SR.Chained, SR.Timed, RR.Ordered, RR.Follows;
    PlacedRight(y, seg, a);
    DeliverPushes(y, seg, a);
    var r := y.rcv.reassembler;
    RR.PushKeeps(r, y.consumed, Sent(y.t), seg.payload, a - 1, seg.header.fin);
    assert r.index <= |y.t.written| by { IndexWithin(r, y.consumed, Sent(y.t)); }
    RR.PushMarks(r, |y.t.written|, seg.payload, a - 1, seg.header.fin);
    PushAdvances(r, seg.payload, a - 1, seg.header.fin);
  }

  lemma IndexWithin(r: Reassembler, left: seq<byte>, stream: seq<byte>)
    requires RR.Follows(r, left, stream)
    ensures r.index <= |stream|
  {
  }

  /** Segments that are not data for an open receiver leave its reassembler alone. */
  lemma OthersStay(y: System, seg: Segment, a: nat)
    requires Inv(y) && SR.Carries(seg, a, y.t.s, y.t.written)
    requires !y.rcv.synReceived || seg.header.syn || seg.SeqLen() == 0
    ensures var y' := Next(y, Deliver(seg));
            && y'.rcv == y.rcv.(synReceived := y'.rcv.synReceived, isn := y'.rcv.isn)
            && (y.rcv.synReceived ==> y'.rcv == y.rcv)
            && (!y.rcv.synReceived && y'.rcv.synReceived ==> y'.rcv.isn == y.t.s.isn && y.t.s.nextSeqno > 0)
  {
    hide Wrap, Unwrap, Reassembler.Push, SR.AllCarried, SR.Chained, SR.Timed, RR.Ordered, RR.Follows;
    var r := y.rcv.reassembler;
    EmptyPushStays(r, y.rcv.IndexOf(seg.header.seqno));
    EmptyPushStays(r, y.rcv.(synReceived := true, isn := seg.header.seqno).IndexOf(Mod32(seg.header.seqno + 1)));
    SynNumber(y.t.s.isn);
  }

  /** The absolute number a deliverable segment has. */
  lemma NumberOf(y: System, seg: Segment) returns (a: nat)
    requires Enabled(y, Deliver(seg))
    ensures SR.Carries(seg, a, y.t.s, y.t.written)
    ensures seg.header.syn || seg.SeqLen() == 0 || Distance(a - 1, y.rcv.reassembler.index) < TWO31
  {
    a :| SR.Carries(seg, a, y.t.s, y.t.written) &&
      (seg.header.syn || seg.SeqLen() == 0 || Distance(a - 1, y.rcv.reassembler.index) < TWO31);
  }

  lemma DeliverKeepsReceiving(y: System, seg: Segment)
    requires Inv(y) && Enabled(y, Deliver(seg))
    ensures Receiving(Next(y, Deliver(seg)))
  {
    hide Next, SR.Carries, SR.AllCarried, SR.Chained, SR.Timed, RR.Ordered, RR.Follows;
    var a := NumberOf(y, seg);
    if !y.rcv.synReceived || seg.header.syn || seg.SeqLen() == 0 {
      OthersStay(y, seg, a);
      DeliverFrame(y, seg);
    } else {
      DataKeepsReceiving(y, seg, a);
    }
  }

  lemma DeliverFrame(y: System, seg: Segment)
    requires y.Valid()
    ensures var y' := Next(y, Deliver(seg)); y'.t == y.t && y'.consumed == y.consumed && y'.acks == y.acks
  {
  }

  lemma SynNumber(isn: uint32)
    ensures Wrap(0, isn) == isn
  {
  }

  /** Only an acknowledgment moves the highest acknowledgment. */
  lemma HighestAckMoves(t: SR.Track, e: SR.Event)
    requires SR.Inv(t)
    ensures !e.Ack? ==> SR.Step(t, e).s.highestAck == t.s.highestAck
    ensures e.Ack? ==> SR.Step(t, e).s.highestAck == t.s.highestAck || SR.Step(t, e).s.highestAck == e.ackno
  {
    hide Sender.FillWindow, Wrap, Mod32, DropAcked, SR.AllCarried, SR.Chained, SR.Timed;
    match e
    case Fill => SR.FillKeeps(t);
    case Ack(ackno, win) =>
      if t.s.Accepts(ackno) {
        SR.AcknowledgeKeeps(t, ackno, win);
        SR.FillKeeps(SR.Emit(t, t.s.Acknowledge(ackno, win)));
      }
    case _ =>
  }

  lemma SenderKeeps(y: System, e: SR.Event)
    requires Inv(y)
    requires e.Write? ==> !y.t.s.stream.ended && |y.t.written| + |e.data| + 2 < TWO64
    requires e.Ack? ==> (e.ackno, e.win) in y.acks
    ensures Inv(y.(t := SR.Step(y.t, e)))
  {
    var t' := SR.Step(y.t, e);
    assert |t'.written| + 2 < TWO64;
    SR.StepKeeps(y.t, e);
    SR.StepGrows(y.t, e);
    ReceivingGrows(y, t');
    HighestAckMoves(y.t, e);
    hide SR.Step, SR.Inv, Receiving, Wrap;
    if e.Ack? && SR.NoWrap(t'.s) {
      AckNumber(y, e.ackno, e.win);
    }
  }

  /** Without wrap-around a genuine acknowledgment is at most what is assembled. */
  lemma AckNumber(y: System, ackno: uint32, win: uint16)
    requires Inv(y) && (ackno, win) in y.acks && SR.NoWrap(y.t.s)
    ensures y.rcv.synReceived && ackno <= y.t.s.isn + y.rcv.AbsoluteAck()
  {
    hide Wrap, SR.AllCarried, SR.Chained, SR.Timed;
    var p := (ackno, win);
    var n: nat :| n <= y.rcv.AbsoluteAck() && p.0 == Wrap(n, y.t.s.isn);
    AckWithinSent(y);
    SR.PlainNumber(n, y.t.s.isn);
  }

  lemma ReceiverKeeps(y: System, y': System, op: ReceiverOp)
    requires Inv(y) && y'.t == y.t && y'.acks == y.acks && y'.rcv == ReceiverStep(y.rcv, op)
    requires Receiving(y')
    ensures Inv(y')
  {
    hide ReceiverStep, Wrap, SR.Inv;
    StepAdvances(y.rcv, op);
    forall p | p in y'.acks
      ensures y'.rcv.synReceived && exists n: nat :: n <= y'.rcv.AbsoluteAck() && p.0 == Wrap(n, y'.t.s.isn)
    {
      var n: nat :| n <= y.rcv.AbsoluteAck() && p.0 == Wrap(n, y.t.s.isn);
      assert n <= y'.rcv.AbsoluteAck();
    }
  }

  lemma ReadKeepsReceiving(y: System, len: nat)
    requires Inv(y)
    ensures Receiving(Next(y, Read(len)))
  {
    hide SR.AllCarried, SR.Chained, SR.Timed;
    var out := y.rcv.Output();
    assert y.consumed + out.Peek(len) + out.Read(len).buffer == y.consumed + out.buffer;
  }

  lemma SendAckKeeps(y: System)
    requires Inv(y) && y.rcv.synReceived
    ensures Inv(Next(y, SendAck))
  {
    hide Wrap, Unwrap, SR.AllCarried, SR.Chained, SR.Timed, RR.Ordered;
    AckUnwraps(y.rcv);
  }

  lemma StepKeeps(y: System, act: Action)
    requires Inv(y) && Enabled(y, act)
    ensures Inv(Next(y, act))
  {
    assert y.Valid();
    hide SR.Step, SR.Inv, Receiver.SegmentReceived, Receiving, Acknowledging;
    match act
    case SenderDoes(e) => SenderKeeps(y, e);
    case DeliverAck(ackno, win) => SenderKeeps(y, SR.Ack(ackno, win));
    case Deliver(seg) =>
      DeliverKeepsReceiving(y, seg);
      ReceiverKeeps(y, Next(y, act), SegmentOp(seg));
    case Read(len) =>
      ReadKeepsReceiving(y, len);
      ReceiverKeeps(y, Next(y, act), ReceiverOp.ReadOp(len));
    case SendAck => SendAckKeeps(y);
  }

  lemma {:induction false} RunKeeps(y: System, acts: seq<Action>)
    requires Inv(y) && EnabledRun(y, acts)
    ensures Inv(Run(y, acts))
    decreases |acts|
  {
    if acts != [] {
      StepKeeps(y, acts[0]);
      RunKeeps(Next(y, acts[0]), acts[1..]);
    }
  }

  lemma StartInv(sendCapacity: nat, recvCapacity: nat, retxTimeout: uint16, isn: uint32)
    ensures Inv(Start(sendCapacity, recvCapacity, retxTimeout, isn))
  {
    SR.StartInv(sendCapacity, retxTimeout, isn);
  }

  // ----- What the invariant means -----

  /** Safety: over every run, what the receiver assembled is a prefix of what the
      application wrote, and it acknowledges nothing that was not sent. */
  lemma Safety(sendCapacity: nat, recvCapacity: nat, retxTimeout: uint16, isn: uint32, acts: seq<Action>)
    requires EnabledRun(Start(sendCapacity, recvCapacity, retxTimeout, isn), acts)
    ensures var y := Run(Start(sendCapacity, recvCapacity, retxTimeout, isn), acts);
            && y.Assembled() <= y.t.written
            && |y.Assembled()| == y.rcv.Output().written
            && (y.rcv.synReceived ==> y.rcv.isn == isn && y.rcv.AbsoluteAck() <= y.t.s.nextSeqno)
  {
    var y0 := Start(sendCapacity, recvCapacity, retxTimeout, isn);
    StartInv(sendCapacity, recvCapacity, retxTimeout, isn);
    RunKeeps(y0, acts);
    var y := Run(y0, acts);
    if y.rcv.synReceived {
      AckWithinSent(y);
    }
    IsnFixed(y0, acts);
  }

  lemma {:induction false} IsnFixed(y: System, acts: seq<Action>)
    requires Inv(y) && EnabledRun(y, acts)
    ensures Run(y, acts).t.s.isn == y.t.s.isn
    decreases |acts|
  {
    if acts != [] {
      StepKeeps(y, acts[0]);
      if acts[0].SenderDoes? {
        SR.StepGrows(y.t, acts[0].e);
      } else if acts[0].DeliverAck? {
        SR.StepGrows(y.t, SR.Ack(acts[0].ackno, acts[0].win));
      }
      IsnFixed(Next(y, acts[0]), acts[1..]);
    }
  }

  /** For a stream shorter than 2^31 every emitted segment is near: the network may hold
      segments back as long as it likes. */
  lemma ShortStreamsAreNear(y: System, x: Segment, seg: Segment)
    requires Inv(y) && |y.t.written| < TWO31 && x in y.t.wire && SameData(x, seg)
    ensures Enabled(y, Deliver(seg))
  {
    hide Wrap, SR.Chained, SR.Timed, RR.Ordered;
    var a: nat :| SR.Carries(x, a, y.t.s, y.t.written);
    assert SR.Carries(seg, a, y.t.s, y.t.written);
  }

  /** Acknowledgment soundness: without wrap-around and while the receiver's stream has not
      ended, the sender has dropped a segment only if its payload is assembled. */
  lemma DroppedIsAssembled(y: System, seg: Segment)
    requires Inv(y) && SR.NoWrap(y.t.s) && !y.rcv.Output().ended
    requires seg in y.t.wire && seg.SeqLen() > 0 && seg !in y.t.s.outstanding
    ensures y.rcv.synReceived
    ensures seg.header.syn ==> seg.payload == []
    ensures !seg.header.syn ==>
              var i := seg.header.seqno - y.t.s.isn - 1;
              0 <= i <= i + |seg.payload| <= |y.Assembled()| && seg.payload == y.Assembled()[i..i + |seg.payload|]
  {
    hide Wrap, SR.Chain, SR.Timed, RR.Ordered;
    var a: nat :| SR.Carries(seg, a, y.t.s, y.t.written);
    SR.PlainNumber(a, y.t.s.isn);
    assert SR.RawEnd(seg) <= y.t.s.highestAck;
    if !seg.header.syn {
      var i := a - 1;
      assert seg.payload == y.t.written[i..i + |seg.payload|];
      assert y.Assembled() == y.t.written[..y.rcv.reassembler.index];
      assert seg.payload == y.Assembled()[i..i + |seg.payload|];
    }
  }

  /** After the end the highest acknowledgment still exceeds the assembled bytes by at most
      the two numbers of SYN and FIN. */
  lemma HighestAckBound(y: System)
    requires Inv(y) && SR.NoWrap(y.t.s) && 0 <= y.t.s.highestAck
    ensures y.t.s.highestAck <= y.t.s.isn + |y.Assembled()| + 2
    ensures !y.rcv.Output().ended ==> y.t.s.highestAck <= y.t.s.isn + |y.Assembled()| + 1
  {
  }

  // ----- Complete delivery -----

  /** A delivery that ends the receiver's stream one byte early: the bare FIN overtakes the
      last byte, or the last byte comes with the FIN but finds no room. */
  ghost predicate EarlyDelivery(y: System, act: Action)
    requires y.Valid()
  {
    act.Deliver? && y.rcv.synReceived &&
    RR.EndsEarly(y.rcv.reassembler, |y.t.written|, act.seg.payload, y.rcv.IndexOf(act.seg.header.seqno),
                 act.seg.header.fin)
  }

  ghost predicate NoEarlyDelivery(y: System, acts: seq<Action>)
    requires y.Valid()
    decreases |acts|
  {
    acts == [] || (!EarlyDelivery(y, acts[0]) && NoEarlyDelivery(Next(y, acts[0]), acts[1..]))
  }

  /** An ended receiver has everything the application wrote before closing. */
  ghost predicate CompleteAtEnd(y: System) {
    && y.rcv.capacity < TWO64
    && (y.rcv.Output().ended ==> y.t.s.stream.ended && y.Assembled() == y.t.written)
  }

  lemma DeliverCompletes(y: System, seg: Segment)
    requires Inv(y) && CompleteAtEnd(y) && Enabled(y, Deliver(seg)) && !EarlyDelivery(y, Deliver(seg))
    ensures CompleteAtEnd(Next(y, Deliver(seg)))
  {
    var y' := Next(y, Deliver(seg));
    DeliverFrame(y, seg);
    var a := NumberOf(y, seg);
    if !y.rcv.synReceived || seg.header.syn || seg.SeqLen() == 0 {
      hide Next, SR.Carries;
      OthersStay(y, seg, a);
    } else {
      DataCompletes(y, seg, a);
    }
  }

  lemma DataCompletes(y: System, seg: Segment, a: nat)
    requires Inv(y) && CompleteAtEnd(y) && y.rcv.synReceived && SR.Carries(seg, a, y.t.s, y.t.written)
    requires !seg.header.syn && seg.SeqLen() > 0 && Distance(a - 1, y.rcv.reassembler.index) < TWO31
    requires !EarlyDelivery(y, Deliver(seg))
    ensures CompleteAtEnd(Next(y, Deliver(seg)))
  {
    hide Next, Wrap, Unwrap, Reassembler.Push, SR.AllCarried, SR.Chained, SR.Timed;
    PlacedRight(y, seg, a);
    DeliverPushes(y, seg, a);
    DataKeepsReceiving(y, seg, a);
    var r := y.rcv.reassembler;
    var p := r.Push(seg.payload, a - 1, seg.header.fin);
    PushAdvances(r, seg.payload, a - 1, seg.header.fin);
    if p.output.ended {
      assert y.t.s.finSent && Sent(y.t) == y.t.written;
      if !r.output.ended {
        RR.EndIsExactIff(r, y.consumed, Sent(y.t), seg.payload, a - 1, seg.header.fin);
      }
    }
  }

  lemma StepCompletes(y: System, act: Action)
    requires Inv(y) && CompleteAtEnd(y) && Enabled(y, act) && !EarlyDelivery(y, act)
    ensures CompleteAtEnd(Next(y, act))
  {
    match act
    case SenderDoes(e) => SR.StepGrows(y.t, e);
    case DeliverAck(ackno, win) => SR.StepGrows(y.t, SR.Ack(ackno, win));
    case Deliver(seg) => DeliverCompletes(y, seg);
    case Read(len) =>
      var out := y.rcv.Output();
      assert y.consumed + out.Peek(len) + out.Read(len).buffer == y.consumed + out.buffer;
    case SendAck =>
  }

  /** Completeness: over every run without early deliveries, once the receiver's stream has
      ended it is exactly the stream the application wrote and closed. */
  lemma {:induction false} Completeness(y: System, acts: seq<Action>)
    requires Inv(y) && CompleteAtEnd(y) && EnabledRun(y, acts) && NoEarlyDelivery(y, acts)
    ensures CompleteAtEnd(Run(y, acts))
    decreases |acts|
  {
    if acts != [] {
      StepKeeps(y, acts[0]);
      StepCompletes(y, acts[0]);
      Completeness(Next(y, acts[0]), acts[1..]);
    }
  }

  /** Early deliveries are exactly the harmful ones: each ends the stream without its last
      byte, and the next acknowledgment nevertheless covers that byte. */
  lemma EarlyDeliveryTruncates(y: System, seg: Segment)
    requires Inv(y) && !y.rcv.Output().ended && Enabled(y, Deliver(seg)) && EarlyDelivery(y, Deliver(seg))
    ensures var y' := Next(y, Deliver(seg));
            && y'.rcv.Output().ended
            && |y'.Assembled()| == |y.t.written| - 1
            && y'.rcv.AbsoluteAck() == 1 + |y.t.written|
  {
    hide Next, Wrap, Unwrap, SR.AllCarried, SR.Chained, SR.Timed, Reassembler.Push;
    var r := y.rcv.reassembler;
    var a := NumberOf(y, seg);
    assert seg.header.fin && !seg.header.syn && seg.SeqLen() > 0;
    DeliverPushes(y, seg, a);
    DataKeepsReceiving(y, seg, a);
    assert a - 1 + |seg.payload| == |y.t.written|;
    if |seg.payload| > 0 {
      RR.NoRoomStays(r, seg.payload, a - 1, true);
    } else {
      BareEndStays(r, a - 1);
    }
    EndsAtGuard(r, seg.payload, a - 1);
  }

  lemma BareEndStays(r: Reassembler, at: nat)
    requires r.output.Valid()
    ensures r.Push([], at, true).index == r.index
  {
  }

  lemma EndsAtGuard(r: Reassembler, data: seq<byte>, at: nat)
    requires r.output.Valid() && at + |data| <= r.index + 1
    ensures r.Push(data, at, true).output.ended
  {
  }

  // ----- Reachable states, one action at a time -----

  /** A run extended by one more action. */
  lemma {:induction false} Extend(y: System, acts: seq<Action>, act: Action)
    requires y.Valid() && EnabledRun(y, acts) && Enabled(Run(y, acts), act)
    ensures EnabledRun(y, acts + [act]) && Run(y, acts + [act]) == Next(Run(y, acts), act)
    decreases |acts|
  {
    hide Next, Enabled;
    if acts == [] {
      assert EnabledRun(Next(y, act), []);
      assert Run(Next(y, act), []) == Next(y, act);
    } else {
      assert (acts + [act])[1..] == acts[1..] + [act];
      Extend(Next(y, acts[0]), acts[1..], act);
    }
  }

  /** The states of all runs from `y0`. */
  ghost predicate Reachable(y0: System, y: System)
    requires y0.Valid()
  {
    exists acts :: EnabledRun(y0, acts) && Run(y0, acts) == y
  }

  lemma ReachStart(y0: System)
    requires y0.Valid()
    ensures Reachable(y0, y0)
  {
    assert EnabledRun(y0, []) && Run(y0, []) == y0;
  }

  lemma ReachNext(y0: System, y: System, act: Action)
    requires y0.Valid() && Reachable(y0, y) && y.Valid() && Enabled(y, act)
    ensures Reachable(y0, Next(y, act))
  {
    hide Next, Enabled, EnabledRun, Run;
    var acts :| EnabledRun(y0, acts) && Run(y0, acts) == y;
    Extend(y0, acts, act);
  }
}
