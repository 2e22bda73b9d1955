/** A run in which the network loses one segment and the application's only byte with it: the
    end mark overtakes it, the receiver ends its stream and acknowledges the byte, and the
    sender drops the segment that carries it and never sends it again. */
module LostByte {
  import opened WrappingIntegers
  import opened ByteStreams
  import opened Reassembly
  import opened Segments
  import opened Receivers
  import opened Senders
  import SP = SenderProgress
  import opened DataPath
  import SR = SenderRuns

  const SYN_SEGMENT: Segment := NewSegment(0, true, [], false)
  const DATA_SEGMENT: Segment := NewSegment(1, false, [7], false)
  const FIN_SEGMENT: Segment := NewSegment(2, false, [], true)

  /** The sender's SYN is out; nothing was received yet. */
  ghost predicate SynSent(y: System) {
    && Inv(y)
    && y.t.written == [] && y.t.s.stream == EmptyStream(100) && y.t.s.isn == 0
    && y.t.s.nextSeqno == 1 && y.t.s.outstanding == [SYN_SEGMENT] && SYN_SEGMENT in y.t.wire
    && y.t.s.highestAck == -1 && y.t.s.highestRight == -1 && !y.t.s.finSent
    && y.rcv.reassembler == EmptyReassembler(10) && y.rcv.capacity == 10
    && y.consumed == []
  }

  lemma SynGoesOut()
    ensures var y0 := Start(100, 10, 1000, 0);
            && Enabled(y0, SenderDoes(SR.Fill))
            && SynSent(Next(y0, SenderDoes(SR.Fill)))
            && Next(y0, SenderDoes(SR.Fill)).rcv == NewReceiver(10)
  {
    hide Sender.FillWindow, Inv;
    var y0 := Start(100, 10, 1000, 0);
    StartInv(100, 10, 1000, 0);
    SP.FillSyn(y0.t.s);
    StepKeeps(y0, SenderDoes(SR.Fill));
    assert SYN_SEGMENT in y0.t.s.FillWindow().queue;
  }

  lemma SynArrives(y: System)
    requires SynSent(y) && y.rcv == NewReceiver(10)
    ensures Enabled(y, Deliver(SYN_SEGMENT))
    ensures SynSent(Next(y, Deliver(SYN_SEGMENT)))
    ensures Next(y, Deliver(SYN_SEGMENT)).rcv == NewReceiver(10).(synReceived := true)
  {
    hide Inv, Unwrap;
    ShortStreamsAreNear(y, SYN_SEGMENT, SYN_SEGMENT);
    StepKeeps(y, Deliver(SYN_SEGMENT));
  }

  lemma SynIsAcked(y: System)
    requires SynSent(y) && y.rcv == NewReceiver(10).(synReceived := true)
    ensures Enabled(y, SendAck)
    ensures SynSent(Next(y, SendAck)) && (1, 10) in Next(y, SendAck).acks && Next(y, SendAck).rcv == y.rcv
  {
    hide Inv;
    StepKeeps(y, SendAck);
  }

  /** The SYN is acknowledged; the application has written and closed as far as told. */
  ghost predicate Writing(y: System, written: seq<byte>, stream: Stream, out: seq<Segment>, next: nat) {
    && Inv(y)
    && y.t.written == written && y.t.s.stream == stream && y.t.s.isn == 0
    && y.t.s.nextSeqno == next && y.t.s.outstanding == out && y.t.s.window == 11 - next
    && y.t.s.highestAck == 1 && (y.t.s.finSent <==> next == 3)
    && y.rcv == NewReceiver(10).(synReceived := true) && y.consumed == []
  }

  lemma WindowOpens(y: System)
    requires SynSent(y) && (1, 10) in y.acks && y.rcv == NewReceiver(10).(synReceived := true)
    ensures Enabled(y, DeliverAck(1, 10))
    ensures Writing(Next(y, DeliverAck(1, 10)), [], EmptyStream(100), [], 1)
  {
    hide Inv, Sender.FillWindow, Sender.Acknowledge;
    StepKeeps(y, DeliverAck(1, 10));
    SP.AckAll(y.t.s, SYN_SEGMENT, 1, 10);
    SP.FillNothing(y.t.s.Acknowledge(1, 10));
  }

  function Sending(): Stream { EmptyStream(100).Write([7]) }

  lemma ValidOf(y: System)
    requires Inv(y)
    ensures y.Valid()
  {
  }

  lemma ByteIsWritten(y: System)
    requires Writing(y, [], EmptyStream(100), [], 1)
    ensures Enabled(y, SenderDoes(SR.Write([7])))
    ensures Writing(Next(y, SenderDoes(SR.Write([7]))), [7], Sending(), [], 1)
  {
    hide Inv;
    var act := SenderDoes(SR.Write([7]));
    assert y.t.s.stream.Valid() && !y.t.s.stream.ended;
    assert Enabled(y, act);
    assert y.Valid() by { ValidOf(y); }
    StepKeeps(y, act);
    hide EmptyReassembler, NewReceiver;
    assert SR.Step(y.t, SR.Write([7])).written == [] + [7];
  }

  lemma ByteGoesOut(y: System)
    requires Writing(y, [7], Sending(), [], 1)
    ensures Enabled(y, SenderDoes(SR.Fill))
    ensures Writing(Next(y, SenderDoes(SR.Fill)), [7], Sending().Read(1), [DATA_SEGMENT], 2)
  {
    hide Inv, Sender.FillWindow;
    StepKeeps(y, SenderDoes(SR.Fill));
    SP.FillOnce(y.t.s, 1);
    assert Sending().buffer[..1] == [7];
  }

  lemma StreamIsClosed(y: System)
    requires Writing(y, [7], Sending().Read(1), [DATA_SEGMENT], 2)
    ensures Enabled(y, SenderDoes(SR.Close))
    ensures Writing(Next(y, SenderDoes(SR.Close)), [7], Sending().Read(1).EndInput(), [DATA_SEGMENT], 2)
  {
    hide Inv;
    StepKeeps(y, SenderDoes(SR.Close));
  }

  lemma FinGoesOut(y: System)
    requires Writing(y, [7], Sending().Read(1).EndInput(), [DATA_SEGMENT], 2)
    ensures Enabled(y, SenderDoes(SR.Fill))
    ensures var y' := Next(y, SenderDoes(SR.Fill));
            Writing(y', [7], Sending().Read(1).EndInput(), [DATA_SEGMENT, FIN_SEGMENT], 3) && FIN_SEGMENT in y'.t.wire
  {
    hide Inv, Sender.FillWindow;
    StepKeeps(y, SenderDoes(SR.Fill));
    SP.FillFin(y.t.s);
    assert InsertByNumber([DATA_SEGMENT], FIN_SEGMENT) == [DATA_SEGMENT, FIN_SEGMENT];
    assert FIN_SEGMENT in y.t.s.FillWindow().queue;
  }

  /** The receiver has ended its stream without the byte. */
  ghost predicate Truncated(y: System) {
    && Inv(y)
    && y.t.written == [7] && y.t.s.isn == 0 && y.t.s.nextSeqno == 3
    && y.t.s.outstanding == [DATA_SEGMENT, FIN_SEGMENT] && y.t.s.highestAck == 1
    && y.t.s.stream.Eof() && y.t.s.finSent
    && y.rcv.synReceived && y.rcv.isn == 0 && y.rcv.Output().ended && y.rcv.AbsoluteAck() == 2
    && y.Assembled() == []
  }

  lemma FinOvertakes(y: System)
    requires Writing(y, [7], Sending().Read(1).EndInput(), [DATA_SEGMENT, FIN_SEGMENT], 3) && FIN_SEGMENT in y.t.wire
    ensures Enabled(y, Deliver(FIN_SEGMENT))
    ensures Truncated(Next(y, Deliver(FIN_SEGMENT)))
  {
    hide Inv, Unwrap;
    ShortStreamsAreNear(y, FIN_SEGMENT, FIN_SEGMENT);
    StepKeeps(y, Deliver(FIN_SEGMENT));
    EarlyDeliveryTruncates(y, FIN_SEGMENT);
    StepAdvances(y.rcv, SegmentOp(FIN_SEGMENT));
  }

  lemma EarlyAckGoesOut(y: System)
    requires Truncated(y)
    ensures Enabled(y, SendAck)
    ensures Truncated(Next(y, SendAck))
    ensures exists win: uint16 :: (2, win) in Next(y, SendAck).acks
  {
    hide Inv;
    StepKeeps(y, SendAck);
    var win := y.rcv.AdvertisedWindow();
    assert (2, win) in Next(y, SendAck).acks;
  }

  /** The receiver's stream has ended without the byte, and the sender is done with it. */
  ghost predicate Lost(y: System) {
    && Inv(y)
    && y.t.written == [7] && y.rcv.Output().ended && y.Assembled() == []
    && SP.Spent(y.t.s) && DATA_SEGMENT !in y.t.s.outstanding
  }

  lemma AckDropsTheByte(y: System, win: uint16)
    requires Truncated(y) && (2, win) in y.acks
    ensures Enabled(y, DeliverAck(2, win))
    ensures Lost(Next(y, DeliverAck(2, win)))
  {
    hide Inv, Sender.Acknowledge, Sender.FillWindow, Mod32;
    assert y.Valid() by { ValidOf(y); }
    StepKeeps(y, DeliverAck(2, win));
    OnlyFinIsLeft();
    SR.PlainNumber(3, 0);
    SR.AcknowledgeFrame(y.t.s, 2, win);
    SP.FillSpent(y.t.s.Acknowledge(2, win));
  }

  lemma OnlyFinIsLeft()
    ensures DropAcked([DATA_SEGMENT, FIN_SEGMENT], 2) == [FIN_SEGMENT]
  {
    assert DropAcked([FIN_SEGMENT], 2) == [FIN_SEGMENT];
    assert [DATA_SEGMENT, FIN_SEGMENT][1..] == [FIN_SEGMENT];
  }

  lemma OpeningReached() returns (y: System)
    ensures Reachable(Start(100, 10, 1000, 0), y) && Writing(y, [], EmptyStream(100), [], 1)
  {
    hide Start, Next, Enabled, Reachable, SynSent, Writing;
    y := Start(100, 10, 1000, 0);
    ReachStart(y);
    SynGoesOut();
    ReachNext(Start(100, 10, 1000, 0), y, SenderDoes(SR.Fill));
    y := Next(y, SenderDoes(SR.Fill));
    SynArrives(y);
    ReachNext(Start(100, 10, 1000, 0), y, Deliver(SYN_SEGMENT));
    y := Next(y, Deliver(SYN_SEGMENT));
    SynIsAcked(y);
    ReachNext(Start(100, 10, 1000, 0), y, SendAck);
    y := Next(y, SendAck);
    WindowOpens(y);
    ReachNext(Start(100, 10, 1000, 0), y, DeliverAck(1, 10));
    y := Next(y, DeliverAck(1, 10));
  }

  lemma SendingReached() returns (y: System)
    ensures Reachable(Start(100, 10, 1000, 0), y) && y.Valid() && FIN_SEGMENT in y.t.wire
    ensures Writing(y, [7], Sending().Read(1).EndInput(), [DATA_SEGMENT, FIN_SEGMENT], 3)
  {
    y := OpeningReached();
    assert y.Valid();
    hide Start, Next, Enabled, Reachable, Writing;
    ByteIsWritten(y);
    ReachNext(Start(100, 10, 1000, 0), y, SenderDoes(SR.Write([7])));
    y := Next(y, SenderDoes(SR.Write([7])));
    ByteGoesOut(y);
    ReachNext(Start(100, 10, 1000, 0), y, SenderDoes(SR.Fill));
    y := Next(y, SenderDoes(SR.Fill));
    StreamIsClosed(y);
    ReachNext(Start(100, 10, 1000, 0), y, SenderDoes(SR.Close));
    y := Next(y, SenderDoes(SR.Close));
    FinGoesOut(y);
    ReachNext(Start(100, 10, 1000, 0), y, SenderDoes(SR.Fill));
    y := Next(y, SenderDoes(SR.Fill));
  }

  /** Some run loses the byte: the receiver's reader sees a complete, empty stream. */
  lemma ByteCanBeLost()
    ensures exists y :: Reachable(Start(100, 10, 1000, 0), y) && Lost(y)
  {
    var y := SendingReached();
    hide Start, Next, Enabled, Reachable, Writing, Truncated, Lost;
    FinOvertakes(y);
    ReachNext(Start(100, 10, 1000, 0), y, Deliver(FIN_SEGMENT));
    y := Next(y, Deliver(FIN_SEGMENT));
    EarlyAckGoesOut(y);
    ReachNext(Start(100, 10, 1000, 0), y, SendAck);
    y := Next(y, SendAck);
    var win: uint16 :| (2, win) in y.acks;
    AckDropsTheByte(y, win);
    ReachNext(Start(100, 10, 1000, 0), y, DeliverAck(2, win));
    y := Next(y, DeliverAck(2, win));
    assert Reachable(Start(100, 10, 1000, 0), y) && Lost(y);
  }

  /** From such a state on, whatever happens to the sender, no segment with a byte in it goes
      out: only a copy the network still holds could bring the byte. */
  lemma LostForGood(y: System, events: seq<SR.Event>)
    requires Lost(y) && SR.WritesBeforeClose(y.t.s, events)
    ensures var t := SR.Run(y.t, events);
            forall seg :: seg in t.wire && seg !in y.t.wire ==> seg.payload == []
  {
    SP.NoMorePayload(y.t, events);
  }
}
