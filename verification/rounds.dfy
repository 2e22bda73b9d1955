/** Progress of the data path: a round of delivery and acknowledgment always gets further. */
module Rounds {
  import opened WrappingIntegers
  import opened Reassembly
  import opened Segments
  import opened Receivers
  import opened Senders
  import SR = SenderRuns
  import SP = SenderProgress
  import RR = ReassemblerRuns
  import opened DataPath

  // ----- Delivering the first outstanding segment -----

  /** The place of the first outstanding segment: it starts no later than the highest
      acknowledgment, unless it is the SYN, and ends after it. */
  lemma FirstOutstanding(t: SR.Track, a: nat)
    requires SR.Inv(t) && SR.NoWrap(t.s) && t.s.outstanding != []
    requires SR.Carries(t.s.outstanding[0], a, t.s, t.written)
    ensures var seg := t.s.outstanding[0];
            && seg in t.wire && seg.SeqLen() > 0 && seg.header.seqno == t.s.isn + a
            && t.s.highestAck < t.s.isn + a + seg.SeqLen() <= t.s.isn + t.s.nextSeqno
            && (!seg.header.syn ==> 1 <= a && t.s.isn + a <= t.s.highestAck)
  {
    hide Wrap, SR.Chain, SR.Timed;
    var seg := t.s.outstanding[0];
    assert seg in t.s.outstanding && seg in t.wire;
    SR.PlainNumber(a, t.s.isn);
  }

  lemma SynGetsThrough(r: Receiver, seg: Segment)
    requires r.Valid() && seg.header.syn
    ensures r.SegmentReceived(seg).synReceived && r.SegmentReceived(seg).AbsoluteAck() >= 1
  {
    hide Reassembler.Push, Unwrap;
  }

  /** A piece that holds the next byte, with room for it, or that ends just there and is the
      last, moves the acknowledgment on. */
  lemma NextPieceAdvances(r: Receiver, data: seq<byte>, at: nat, last: bool)
    requires r.Valid() && RR.Ordered(r.reassembler) && r.capacity < TWO64 && !r.Output().ended
    requires at <= r.reassembler.index < at + |data| + if last then 1 else 0
    requires r.Output().Room() > 0
    ensures r.AbsoluteAck() < r.(reassembler := r.reassembler.Push(data, at, last)).AbsoluteAck()
  {
    var p := r.reassembler.Push(data, at, last);
    PushAdvances(r.reassembler, data, at, last);
    if r.reassembler.index < at + |data| {
      RR.NextByteAdvances(r.reassembler, data, at, last);
    } else {
      EndsAtGuard(r.reassembler, data, at);
    }
  }

  /** What the invariant says about the receiver, apart from its reassembler's contents. */
  lemma ReceiverFacts(y: System)
    requires Inv(y)
    ensures y.Valid() && SR.Inv(y.t) && y.rcv.Valid() && RR.Ordered(y.rcv.reassembler)
    ensures 0 <= y.t.s.highestAck && SR.NoWrap(y.t.s) ==>
              y.rcv.synReceived && y.t.s.highestAck <= y.t.s.isn + y.rcv.AbsoluteAck()
    ensures y.t.s.nextSeqno <= |y.t.written| + 2
    ensures y.rcv.Output().ended && y.Assembled() == y.t.written ==> y.rcv.AbsoluteAck() == |y.t.written| + 2
  {
    hide SR.AllCarried, SR.Chained, SR.Timed, RR.Ordered;
  }

  /** Once the first outstanding segment is delivered to a receiver that has room, the
      receiver's acknowledgment is beyond the highest one the sender has seen. */
  lemma DeliveryGetsFurther(y: System)
    requires Inv(y) && SR.NoWrap(y.t.s) && CompleteAtEnd(y) && y.t.s.outstanding != []
    requires y.rcv.Output().Room() > 0 && Enabled(y, Deliver(y.t.s.outstanding[0]))
    ensures var r := Next(y, Deliver(y.t.s.outstanding[0])).rcv;
            r.synReceived && y.t.s.highestAck < y.t.s.isn + r.AbsoluteAck()
  {
    hide Inv, SR.Inv, Wrap, Unwrap, Near, Receiver.SegmentReceived, SR.Carries, RR.Ordered, CompleteAtEnd;
    ReceiverFacts(y);
    var seg := y.t.s.outstanding[0];
    var a := NumberOf(y, seg);
    FirstOutstanding(y.t, a);
    if seg.header.syn {
      SynGetsThrough(y.rcv, seg);
      SynLength(y, seg, a);
    } else {
      DataGetsFurther(y, seg, a);
    }
  }

  lemma DataGetsFurther(y: System, seg: Segment, a: nat)
    requires Inv(y) && y.Valid() && SR.NoWrap(y.t.s) && CompleteAtEnd(y) && SR.Carries(seg, a, y.t.s, y.t.written)
    requires !seg.header.syn && seg.SeqLen() > 0 && Distance(a - 1, y.rcv.reassembler.index) < TWO31
    requires 1 <= a && y.t.s.isn + a <= y.t.s.highestAck < y.t.s.isn + a + seg.SeqLen() <= y.t.s.isn + y.t.s.nextSeqno
    requires y.rcv.Output().Room() > 0
    ensures var r := Next(y, Deliver(seg)).rcv;
            r.synReceived && y.t.s.highestAck < y.t.s.isn + r.AbsoluteAck()
  {
    ReceiverFacts(y);
    var r' := Next(y, Deliver(seg)).rcv;
    assert r' == ReceiverStep(y.rcv, SegmentOp(seg));
    hide Inv, Next, ReceiverStep, SR.Carries, RR.Ordered, Reassembler.Push;
    StepAdvances(y.rcv, SegmentOp(seg));
    if y.t.s.highestAck == y.t.s.isn + y.rcv.AbsoluteAck() {
      DeliverPushes(y, seg, a);
      NextPieceAdvances(y.rcv, seg.payload, a - 1, seg.header.fin);
    }
  }

  lemma SynLength(y: System, seg: Segment, a: nat)
    requires SR.Carries(seg, a, y.t.s, y.t.written) && seg.header.syn
    ensures a == 0 && seg.SeqLen() == 1
  {
  }

  /** Such a delivery never ends the stream early. */
  lemma DeliveryIsNotEarly(y: System)
    requires Inv(y) && SR.NoWrap(y.t.s) && CompleteAtEnd(y) && y.t.s.outstanding != []
    requires y.rcv.Output().Room() > 0 && Enabled(y, Deliver(y.t.s.outstanding[0]))
    ensures y.Valid() && !EarlyDelivery(y, Deliver(y.t.s.outstanding[0]))
  {
    hide Inv, SR.Inv, Wrap, Unwrap, Near, Receiver.SegmentReceived, RR.Ordered;
    ReceiverFacts(y);
    var seg := y.t.s.outstanding[0];
    var a := NumberOf(y, seg);
    FirstOutstanding(y.t, a);
  }

  // ----- Acknowledging it -----

  lemma AckIs(y: System)
    requires Inv(y) && SR.NoWrap(y.t.s) && y.rcv.synReceived
    ensures y.t.s.isn + y.rcv.AbsoluteAck() <= y.t.s.isn + y.t.s.nextSeqno < TWO32
    ensures y.rcv.Ackno().Some? && y.rcv.Ackno().value == y.t.s.isn + y.rcv.AbsoluteAck()
  {
    hide Wrap, Unwrap, Mod32, SR.AllCarried, SR.Chained, SR.Timed, RR.Ordered, Receiver.Ackno;
    AckWithinSent(y);
    AckUnwraps(y.rcv);
    SR.PlainNumber(y.rcv.AbsoluteAck(), y.t.s.isn);
  }

  lemma HighestAfterAck(t: SR.Track, ackno: uint32, win: uint16)
    requires SR.Inv(t) && SR.NoWrap(t.s) && t.s.highestAck < ackno <= t.s.isn + t.s.nextSeqno
    ensures SR.Step(t, SR.Ack(ackno, win)).s.highestAck == ackno
  {
    hide SR.Inv, SR.Step, Wrap, Mod32, DropAcked, Sender.FillWindow, Sender.Acknowledge, SR.Roomy;
    SR.StreamOf(t);
    SR.PlainNumber(t.s.nextSeqno, t.s.isn);
    SR.StepIsApply(t, SR.Ack(ackno, win));
    assert t.s.Accepts(ackno);
    SR.AcknowledgeFrame(t.s, ackno, win);
    SR.AcknowledgeKeeps(t, ackno, win);
    SR.FillKeeps(SR.Emit(t, t.s.Acknowledge(ackno, win)));
  }

  /** An acknowledgment beyond the highest one, sent and delivered, becomes the highest one. */
  lemma AckGetsThrough(y: System)
    requires Inv(y) && y.Valid() && SR.NoWrap(y.t.s) && y.rcv.synReceived
    requires y.t.s.highestAck < y.t.s.isn + y.rcv.AbsoluteAck()
    ensures y.rcv.Ackno().Some?
    ensures var act := DeliverAck(y.rcv.Ackno().value, y.rcv.AdvertisedWindow());
            var y1 := Next(y, SendAck);
            && Enabled(y, SendAck) && Enabled(y1, act)
            && Next(y1, act).t.s.highestAck == y.t.s.isn + y.rcv.AbsoluteAck()
  {
    AckIs(y);
    ReceiverFacts(y);
    hide Inv, SR.Inv, SR.Step, Receiver.Ackno, Receiver.AdvertisedWindow;
    HighestAfterAck(y.t, y.rcv.Ackno().value, y.rcv.AdvertisedWindow());
  }

  // ----- A retransmission -----

  /** When the timeout has passed, the first outstanding segment is queued again, and if it is
      then delivered to a receiver with room and the acknowledgment gets back, the highest
      acknowledgment has grown. */
  lemma RetransmissionGetsFurther(y: System, ms: nat)
    requires Inv(y) && SR.NoWrap(y.t.s) && CompleteAtEnd(y) && y.t.s.outstanding != [] && |y.t.written| < TWO31
    requires y.t.s.retransmissions <= MAX_RETX_ATTEMPTS && y.t.s.timeout <= y.t.s.timer + ms < TWO32
    requires y.rcv.Output().Room() > 0
    ensures var seg := y.t.s.outstanding[0];
            var y1 := Next(y, SenderDoes(SR.Tick(ms)));
            var y2 := Next(y1, Deliver(seg));
            var y3 := Next(y2, SendAck);
            && y1.t.s.queue == y.t.s.queue + [seg]
            && Enabled(y1, Deliver(seg)) && Enabled(y2, SendAck) && y2.rcv.Ackno().Some?
            && var ack := DeliverAck(y2.rcv.Ackno().value, y2.rcv.AdvertisedWindow());
               Enabled(y3, ack) && y.t.s.highestAck < Next(y3, ack).t.s.highestAck
  {
    ReceiverFacts(y);
    var y1 := Next(y, SenderDoes(SR.Tick(ms)));
    SP.TimeoutRetransmits(y.t, ms);
    TickLeaves(y.t, ms);
    StepKeeps(y, SenderDoes(SR.Tick(ms)));
    assert CompleteAtEnd(y1);
    hide Inv, SR.Inv, SR.Step, Near, Receiver.SegmentReceived, Receiver.Ackno, Receiver.AdvertisedWindow, CompleteAtEnd;
    var seg := y1.t.s.outstanding[0];
    FirstIsDeliverable(y1);
    DeliveryGetsFurther(y1);
    StepKeeps(y1, Deliver(seg));
    var y2 := Next(y1, Deliver(seg));
    AckGetsThrough(y2);
  }

  lemma TickLeaves(t: SR.Track, ms: nat)
    requires t.s.stream.Valid()
    ensures var t' := SR.Step(t, SR.Tick(ms));
            && t'.s.outstanding == t.s.outstanding && t'.s.highestAck == t.s.highestAck && t'.s.isn == t.s.isn
            && t'.s.nextSeqno == t.s.nextSeqno && t'.s.stream == t.s.stream && t'.written == t.written
  {
  }

  lemma FirstIsDeliverable(y: System)
    requires Inv(y) && |y.t.written| < TWO31 && y.t.s.outstanding != []
    ensures Enabled(y, Deliver(y.t.s.outstanding[0]))
  {
    var seg := y.t.s.outstanding[0];
    assert seg in SR.Elements(y.t.s.outstanding);
    hide SR.Chained, SR.Timed, Receiving, Acknowledging;
    ShortStreamsAreNear(y, seg, seg);
  }

  // ----- The right edge of the window -----

  /** The receiver's right edge, as a raw number that does not wrap. */
  function Edge(y: System): int { y.t.s.isn + y.rcv.AbsoluteAck() + y.rcv.capacity - |y.rcv.Output().buffer| }

  /** No acknowledgment, sent or taken, has a right edge beyond the receiver's. */
  ghost predicate Edges(y: System) {
    y.t.s.highestRight <= Edge(y) && forall p :: p in y.acks ==> p.0 + p.1 <= Edge(y)
  }

  lemma AckEdge(y: System)
    requires Inv(y) && y.rcv.Ackno().Some?
    ensures y.rcv.Ackno().value + y.rcv.AdvertisedWindow() <= Edge(y)
  {
    ReceiverFacts(y);
    assert y.rcv.isn == y.t.s.isn;
    hide Inv;
    ModAtMost(y.rcv.Output().written);
    ModAtMost(Mod32(y.rcv.Output().written) + 1 + if y.rcv.Output().ended then 1 else 0);
    ModAtMost(y.rcv.isn + Mod32(Mod32(y.rcv.Output().written) + 1 + if y.rcv.Output().ended then 1 else 0));
    ModAtMost(y.rcv.capacity - |y.rcv.Output().buffer|);
  }

  lemma ModAtMost(n: nat)
    ensures Mod32(n) <= n && Mod16(n) <= n
  {
  }

  lemma RightAfter(t: SR.Track, e: SR.Event)
    requires SR.Inv(t)
    ensures var s' := SR.Step(t, e).s;
            s'.isn == t.s.isn && (s'.highestRight <= t.s.highestRight || (e.Ack? && s'.highestRight <= e.ackno + e.win))
  {
    hide SR.Inv, SR.Step, Wrap, Mod32, Sender.FillWindow, Sender.AckReceived, SR.Roomy;
    SR.StreamOf(t);
    SR.StepIsApply(t, e);
    match e
    case Fill => SR.FillKeeps(t);
    case Ack(ackno, win) => RightAfterAck(t, ackno, win);
    case _ =>
  }

  lemma RightAfterAck(t: SR.Track, ackno: uint32, win: uint16)
    requires SR.Inv(t) && t.s.stream.Valid()
    ensures var s' := t.s.AckReceived(ackno, win);
            s'.isn == t.s.isn && (s'.highestRight <= t.s.highestRight || s'.highestRight <= ackno + win)
  {
    hide SR.Inv, Wrap, Mod32, DropAcked, Sender.FillWindow, Sender.Acknowledge, SR.Roomy;
    if t.s.Accepts(ackno) {
      ModAtMost(ackno + win);
      SR.AcknowledgeFrame(t.s, ackno, win);
      SR.AcknowledgeKeeps(t, ackno, win);
      SR.FillKeeps(SR.Emit(t, t.s.Acknowledge(ackno, win)));
    }
  }

  /** Every step of the data path keeps it. */
  lemma StepKeepsEdges(y: System, act: Action)
    requires y.Valid() && Inv(y) && Enabled(y, act) && Edges(y)
    ensures Edges(Next(y, act))
  {
    ReceiverFacts(y);
    if y.rcv.Ackno().Some? {
      AckEdge(y);
    }
    hide Inv, SR.Inv, SR.Step, Near, Receiver.SegmentReceived, Receiver.Ackno, Receiver.AdvertisedWindow;
    match act
    case SenderDoes(e) => RightAfter(y.t, e);
    case DeliverAck(ackno, win) =>
      RightAfter(y.t, SR.Ack(ackno, win));
      assert (ackno, win) in y.acks;
    case Deliver(seg) => StepAdvances(y.rcv, SegmentOp(seg));
    case Read(len) => StepAdvances(y.rcv, ReadOp(len));
    case SendAck =>
  }

  lemma {:induction false} RunKeepsEdges(y: System, acts: seq<Action>)
    requires y.Valid() && Inv(y) && Edges(y) && EnabledRun(y, acts)
    ensures Edges(Run(y, acts))
    decreases |acts|
  {
    hide Inv, Edges, Next, Enabled;
    if acts != [] {
      StepKeeps(y, acts[0]);
      StepKeepsEdges(y, acts[0]);
      RunKeepsEdges(Next(y, acts[0]), acts[1..]);
    }
  }

  lemma StartEdges(sendCapacity: nat, recvCapacity: nat, retxTimeout: uint16, isn: uint32)
    ensures Edges(Start(sendCapacity, recvCapacity, retxTimeout, isn))
  {
  }

  // ----- Round after round -----

  /** A state from which the transfer goes on: nothing was truncated, the receiver has a
      buffer, and the stream is short enough not to wrap. */
  ghost predicate Ready(y: System) {
    && y.Valid() && Inv(y) && CompleteAtEnd(y)
    && y.rcv.capacity > 0 && |y.t.written| < TWO31 && y.t.s.isn + |y.t.written| + 2 < TWO32
  }

  /** `z` is reachable from `y` with the application's stream as it was. */
  ghost predicate Continues(y: System, z: System) {
    && y.Valid() && Reachable(y, z) && Ready(z)
    && z.t.written == y.t.written && z.t.s.isn == y.t.s.isn && z.t.s.stream.ended == y.t.s.stream.ended
  }

  /** Moreover no acknowledgment has shrunk the sender's window so far, and the receiver's
      windows fit the header field and do not reach 2^32. */
  ghost predicate Smooth(y: System) {
    && Edges(y) && SR.Roomy(y.t.s)
    && y.rcv.capacity < TWO16 && y.t.s.isn + |y.t.written| + 2 + 0xFFFF < TWO32
  }

  /** The acknowledgment's right edge is at least as far as any seen. */
  predicate Forward(y: System, act: Action) { act.DeliverAck? ==> y.t.s.highestRight <= act.ackno + act.win }

  lemma StaysSmooth(y: System, act: Action)
    requires Ready(y) && Smooth(y) && Enabled(y, act) && OfRound(act) && Forward(y, act)
    ensures Smooth(Next(y, act))
  {
    RoundFrame(y, act);
    ReadyMeans(y);
    ReceiverFacts(y);
    StepKeepsEdges(y, act);
    hide Ready, Inv, SR.Inv, SR.Step, Edges, SR.Roomy, Enabled, Receiver.SegmentReceived;
    match act
    case SenderDoes(e) =>
      NoShrink(y.t.s, e);
      SP.StepRoomy(y.t, e);
    case DeliverAck(ackno, win) =>
      SP.ForwardEdgeNeverShrinks(y.t.s, SR.Ack(ackno, win));
      SP.StepRoomy(y.t, SR.Ack(ackno, win));
    case _ =>
  }

  lemma NoShrink(s: Sender, e: SR.Event)
    ensures !e.Ack? ==> !SP.Shrinks(s, e)
  {
  }

  /** The actions of a round change neither the application's stream nor the capacity. */
  predicate OfRound(act: Action) {
    act.Deliver? || act.Read? || act.SendAck? || act.DeliverAck? || (act.SenderDoes? && act.e.Fill?)
  }

  lemma RoundFrame(y: System, act: Action)
    requires y.Valid() && Inv(y) && Enabled(y, act) && OfRound(act)
    ensures var y' := Next(y, act);
            && y'.t.written == y.t.written && y'.t.s.isn == y.t.s.isn && y'.t.s.stream.ended == y.t.s.stream.ended
            && y'.t.s.highestAck >= y.t.s.highestAck && y'.rcv.capacity == y.rcv.capacity
  {
    ReceiverFacts(y);
    hide Inv, SR.Inv, Receiver.SegmentReceived, Enabled;
    match act
    case SenderDoes(e) => SenderFrame(y.t, e);
    case DeliverAck(ackno, win) => SenderFrame(y.t, SR.Ack(ackno, win));
    case Deliver(seg) => StepAdvances(y.rcv, SegmentOp(seg));
    case _ =>
  }

  lemma SenderFrame(t: SR.Track, e: SR.Event)
    requires SR.Inv(t) && (e.Fill? || e.Ack?)
    ensures var t' := SR.Step(t, e);
            && t'.written == t.written && t'.s.isn == t.s.isn && t'.s.stream.ended == t.s.stream.ended
            && t'.s.highestAck >= t.s.highestAck
  {
    SR.StepGrows(t, e);
    SR.StreamOf(t);
    SR.StepIsApply(t, e);
    assert SR.Step(t, e).written == t.written + [];
    hide SR.Inv, SR.Step, Wrap, Mod32, DropAcked, Sender.FillWindow, Sender.Acknowledge, SR.Roomy;
    match e
    case Fill => SR.FillKeeps(t);
    case Ack(ackno, win) =>
      if t.s.Accepts(ackno) {
        SR.AcknowledgeFrame(t.s, ackno, win);
        SR.AcknowledgeKeeps(t, ackno, win);
        SR.FillKeeps(SR.Emit(t, t.s.Acknowledge(ackno, win)));
      }
    case _ =>
  }

  lemma Proceeds(y: System, z: System, act: Action)
    requires Continues(y, z) && Enabled(z, act) && OfRound(act) && !EarlyDelivery(z, act)
    ensures Continues(y, Next(z, act)) && Next(z, act).t.s.highestAck >= z.t.s.highestAck
    ensures Smooth(z) && Forward(z, act) ==> Smooth(Next(z, act))
  {
    if Smooth(z) && Forward(z, act) {
      StaysSmooth(z, act);
    }
    hide Smooth, Forward;
    RoundFrame(z, act);
    StepKeeps(z, act);
    StepCompletes(z, act);
    hide Inv, CompleteAtEnd, Enabled, EarlyDelivery, Next, Reachable;
    ReachNext(y, z, act);
  }

  lemma ReadyMeans(y: System)
    requires Ready(y)
    ensures SR.Inv(y.t) && SR.NoWrap(y.t.s) && y.t.s.highestAck <= y.t.s.isn + |y.t.written| + 2
    ensures y.rcv.Valid()
  {
    ReceiverFacts(y);
    hide SR.AllCarried, SR.Timed, SR.Chain, Receiving, Acknowledging;
  }

  lemma RoomAfterRead(y: System)
    requires Ready(y)
    ensures Next(y, Read(|y.rcv.Output().buffer|)).rcv.Output().Room() > 0
    ensures Next(y, Read(|y.rcv.Output().buffer|)).t == y.t
  {
    ReadyMeans(y);
    hide Inv;
  }

  /** One round: the reader empties the buffer, the first outstanding segment arrives, and the
      acknowledgment gets back. */
  lemma Round(y: System, y0: System) returns (z: System)
    requires Continues(y, y0) && y0.t.s.outstanding != []
    ensures Continues(y, z) && z.t.s.highestAck > y0.t.s.highestAck
    ensures Smooth(y0) ==> Smooth(z)
  {
    hide Smooth, Inv, CompleteAtEnd, Near, Next, Reachable, SR.Inv, Receiver.Ackno,
         Receiver.AdvertisedWindow, EarlyDelivery;
    RoomAfterRead(y0);
    NotADelivery(y0, Read(|y0.rcv.Output().buffer|));
    Proceeds(y, y0, Read(|y0.rcv.Output().buffer|));
    z := Next(y0, Read(|y0.rcv.Output().buffer|));
    ReadyMeans(z);
    FirstIsDeliverable(z);
    DeliveryIsNotEarly(z);
    DeliveryGetsFurther(z);
    var seg := z.t.s.outstanding[0];
    Proceeds(y, z, Deliver(seg));
    DeliverFrame(z, seg);
    z := Next(z, Deliver(seg));
    ReadyMeans(z);
    AckGetsThrough(z);
    var ack := DeliverAck(z.rcv.Ackno().value, z.rcv.AdvertisedWindow());
    NotADelivery(z, SendAck);
    Proceeds(y, z, SendAck);
    var z1 := z;
    z := Next(z, SendAck);
    SendAckFrame(z1);
    if Smooth(z) {
      FreshAckIsForward(z1, z);
    }
    NotADelivery(z, ack);
    Proceeds(y, z, ack);
    z := Next(z, ack);
  }

  /** What the receiver just sent has the furthest right edge. */
  lemma FreshAckIsForward(y: System, y1: System)
    requires Ready(y) && y.rcv.synReceived && y.rcv.Ackno().Some? && y1.rcv == y.rcv && y1.t == y.t && Smooth(y1)
    ensures y.t.s.highestRight <= y.rcv.Ackno().value + y.rcv.AdvertisedWindow()
  {
    ReadyMeans(y);
    AckIs(y);
    hide Inv, SR.Inv, Receiver.Ackno, SR.Roomy;
  }

  lemma SendAckFrame(y: System)
    requires y.Valid()
    ensures Next(y, SendAck).rcv == y.rcv && Next(y, SendAck).t == y.t
  {
  }

  lemma NotADelivery(y: System, act: Action)
    requires y.Valid()
    ensures !act.Deliver? ==> !EarlyDelivery(y, act)
  {
  }

  // ----- To the end -----

  /** Nothing is in flight, and what is pending, if anything, has no window. */
  predicate AtRest(s: Sender) { s.nextSeqno > 0 && s.outstanding == [] && (SR.Pending(s) ==> s.window == 0) }

  /** Rounds can be repeated until nothing is in flight. */
  lemma {:induction false} RoundsEnd(y: System, y0: System) returns (z: System)
    requires Continues(y, y0)
    ensures Continues(y, z) && AtRest(z.t.s) && (Smooth(y0) ==> Smooth(z))
    decreases y0.t.s.isn + |y0.t.written| + 2 - y0.t.s.highestAck
  {
    ReadyMeans(y0);
    FillRests(y0);
    hide Smooth, Inv, CompleteAtEnd, Near, Next, Reachable, SR.Inv, AtRest;
    NotADelivery(y0, SenderDoes(SR.Fill));
    Proceeds(y, y0, SenderDoes(SR.Fill));
    z := Next(y0, SenderDoes(SR.Fill));
    if z.t.s.outstanding != [] {
      z := Round(y, z);
      ReadyMeans(z);
      z := RoundsEnd(y, z);
    }
  }

  lemma FillRests(y: System)
    requires Ready(y) && SR.Inv(y.t)
    ensures var s := Next(y, SenderDoes(SR.Fill)).t.s; s.outstanding == [] ==> AtRest(s)
  {
    hide SR.Inv, Inv, Sender.FillWindow, SR.Roomy, CompleteAtEnd;
    SR.FillKeeps(y.t);
  }

  /** At rest and not stuck, everything has arrived. */
  lemma RestMeansArrived(y: System)
    requires Ready(y) && AtRest(y.t.s) && !SP.Stuck(y.t.s)
    ensures y.Assembled() == y.t.written
    ensures y.t.s.stream.ended ==> y.rcv.Output().ended
  {
    ReadyMeans(y);
    hide SR.AllCarried, SR.Timed, CompleteAtEnd;
    assert !SR.Pending(y.t.s);
    assert y.t.s.highestAck == SR.RawNext(y.t.s);
    assert y.t.s.nextSeqno <= y.rcv.AbsoluteAck();
  }

  lemma SmoothIsNotStuck(y: System)
    requires Smooth(y) && AtRest(y.t.s)
    ensures !SP.Stuck(y.t.s)
  {
  }

  /** From every state of the data path in which no stream was truncated, whatever was lost,
      repeated or reordered before: some continuation without further writes makes everything
      written arrive, and the end if the application has closed, unless it leaves the sender
      stuck; and that only if an acknowledgment had shrunk the window before. */
  lemma TransferCanFinish(y: System) returns (z: System)
    requires Ready(y)
    ensures Reachable(y, z) && z.t.written == y.t.written && z.Valid()
    ensures SP.Stuck(z.t.s) || z.Assembled() == y.t.written
    ensures SP.Stuck(z.t.s) || (y.t.s.stream.ended ==> z.rcv.Output().ended)
    ensures Smooth(y) ==> !SP.Stuck(z.t.s)
  {
    ReachStart(y);
    hide Ready, Reachable, AtRest, SP.Stuck, Smooth;
    z := RoundsEnd(y, y);
    assert z.Valid() by { ReadyValid(z); }
    if Smooth(z) {
      SmoothIsNotStuck(z);
    }
    if !SP.Stuck(z.t.s) {
      RestMeansArrived(z);
    }
  }

  lemma ReadyValid(y: System)
    requires Ready(y)
    ensures y.Valid()
  {
  }
}
