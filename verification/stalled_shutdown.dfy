/** A run of one connection that ends in a shutdown without error although bytes its
    application wrote were never sent.  Its steps are also those of the pair in StalledPair. */
module StalledShutdown {
  import opened WrappingIntegers
  import opened ByteStreams
  import opened Segments
  import opened Receivers
  import opened Senders
  import opened Connections
  import opened ConnectionRuns
  import SP = SenderProgress

  /** The peer's segments: its SYN, bare acknowledgments, and its FIN. */
  function Syn(ackno: uint32, win: uint16): Segment { Stamped(NewSegment(0, true, [], false), ackno, win) }

  function Bare(ackno: uint32, win: uint16): Segment { Stamped(NewSegment(1, false, [], false), ackno, win) }

  function Fin(ackno: uint32, win: uint16): Segment { Stamped(NewSegment(1, false, [], true), ackno, win) }

  function Ready(): Receiver { NewReceiver(10).(synReceived := true) }

  /** A live connection past the handshake, its sender's queue drained. */
  ghost predicate Talks(c: Connection, stream: Stream, next: nat, out: seq<Segment>, window: nat, ack: nat,
                        right: nat) {
    && c.Valid() && c.active && c.linger && c.rtTimeout == 1000 && c.receiver == Ready()
    && c.sender.stream == stream && c.sender.isn == 0 && c.sender.nextSeqno == next && c.sender.outstanding == out
    && c.sender.window == window && c.sender.highestRight == right && c.sender.queue == [] && !c.sender.finSent
    && c.sender.highestAck == ack
  }

  lemma Connects()
    ensures var c := Apply(NewConnection(10, 100, 1000, 0), Connect);
            && c.Valid() && c.active && c.linger && c.rtTimeout == 1000 && c.receiver == NewReceiver(10)
            && c.sender.stream == EmptyStream(100) && c.sender.isn == 0 && c.sender.nextSeqno == 1
            && c.sender.outstanding == [NewSegment(0, true, [], false)] && c.sender.queue == [] && !c.sender.finSent
            && c.sender.highestAck == c.sender.highestRight == -1 && c.sender.window == 0
  {
    hide Sender.FillWindow, AllOutgoing;
    SP.FillSyn(NewSender(100, 1000, 0));
  }

  lemma Synchronizes(c: Connection)
    requires c.Valid() && c.active && c.linger && c.rtTimeout == 1000 && c.receiver == NewReceiver(10)
    requires c.sender.stream == EmptyStream(100) && c.sender.isn == 0 && c.sender.nextSeqno == 1
    requires c.sender.outstanding == [NewSegment(0, true, [], false)] && c.sender.queue == [] && !c.sender.finSent
    requires c.sender.highestAck == c.sender.highestRight == -1
    ensures Talks(Apply(c, Receive(Syn(1, 2))), EmptyStream(100), 1, [], 2, 1, 3)
  {
    hide Sender.FillWindow, Sender.Acknowledge, AllOutgoing, Unwrap;
    SP.AckAll(c.sender, NewSegment(0, true, [], false), 1, 2);
    SP.FillNothing(c.sender.Acknowledge(1, 2));
    assert c.receiver.SegmentReceived(Syn(1, 2)) == Ready();
  }

  /** A bare acknowledgment concerns the sender only. */
  lemma BareArrives(c: Connection, ackno: uint32, win: uint16)
    requires c.Valid() && c.active && c.receiver == Ready()
    ensures var c' := Apply(c, Receive(Bare(ackno, win)));
            && c'.Valid() && c'.active && c'.linger == c.linger && c'.rtTimeout == c.rtTimeout && c'.receiver == Ready()
            && c'.sender == c.sender.AckReceived(ackno, win).(queue := [])
  {
    hide Sender.AckReceived, AllOutgoing, Unwrap;
    assert Ready().SegmentReceived(Bare(ackno, win)) == Ready();
  }

  lemma Feeds(c: Connection, data: seq<byte>)
    requires c.Valid() && c.active
    ensures var c' := Apply(c, Write(data));
            && c'.Valid() && c'.active && c'.linger == c.linger && c'.rtTimeout == c.rtTimeout
            && c'.receiver == c.receiver
            && c'.sender == c.sender.(stream := c.sender.stream.Write(data)).FillWindow().(queue := [])
  {
    hide Sender.FillWindow, AllOutgoing;
  }

  function Both(): Stream { EmptyStream(100).Write([97, 98]).Read(2) }

  const FIRST: Segment := NewSegment(1, false, [97, 98], false)
  const SECOND: Segment := NewSegment(3, false, [99], false)

  lemma SendsTwo(c: Connection)
    requires Talks(c, EmptyStream(100), 1, [], 2, 1, 3)
    ensures Talks(Apply(c, Write([97, 98])), Both(), 3, [FIRST], 0, 1, 3)
  {
    hide Sender.FillWindow, Apply;
    Feeds(c, [97, 98]);
    var s := c.sender.(stream := c.sender.stream.Write([97, 98]));
    assert s.stream.buffer[..2] == [97, 98];
    SP.FillOnce(s, 2);
  }

  lemma AcksTwo(c: Connection)
    requires Talks(c, Both(), 3, [FIRST], 0, 1, 3)
    ensures Talks(Apply(c, Receive(Bare(3, 2))), Both(), 3, [], 2, 3, 5)
  {
    hide Sender.FillWindow, Sender.Acknowledge, Apply;
    BareArrives(c, 3, 2);
    SP.AckAll(c.sender, FIRST, 3, 2);
    SP.FillNothing(c.sender.Acknowledge(3, 2));
  }

  lemma ForgetsTheWindow(c: Connection)
    requires Talks(c, Both(), 3, [], 2, 3, 5)
    ensures Talks(Apply(c, Receive(Bare(3, 0))), Both(), 3, [], 1, 3, 5)
  {
    hide Sender.FillWindow, Sender.Acknowledge, Apply;
    BareArrives(c, 3, 0);
    SP.AckZeroWindow(c.sender, 3);
    SP.FillNothing(c.sender.Acknowledge(3, 0));
  }

  function Rest(): Stream { Both().Write([99, 100]).Read(1) }

  lemma SendsOne(c: Connection)
    requires Talks(c, Both(), 3, [], 1, 3, 5)
    ensures Talks(Apply(c, Write([99, 100])), Rest(), 4, [SECOND], 0, 3, 5)
  {
    hide Sender.FillWindow, Apply;
    Feeds(c, [99, 100]);
    var s := c.sender.(stream := c.sender.stream.Write([99, 100]));
    assert s.stream.buffer[..1] == [99];
    SP.FillOnce(s, 1);
  }

  lemma Closes(c: Connection)
    requires Talks(c, Rest(), 4, [SECOND], 0, 3, 5)
    ensures Talks(Apply(c, EndInput), Rest().EndInput(), 4, [SECOND], 0, 3, 5)
  {
    hide Sender.FillWindow, AllOutgoing;
    SP.FillFull(c.sender.(stream := c.sender.stream.EndInput()));
  }

  /** Both streams have ended, nothing is in flight, and a byte and the FIN are unsent. */
  ghost predicate Waits(c: Connection) {
    && c.Valid() && c.active && c.linger && c.rtTimeout == 1000
    && c.receiver.Output().ended && !c.sender.stream.error && c.sender.stream == Rest().EndInput()
    && c.sender.outstanding == [] && !c.sender.timerOn && c.sender.nextSeqno == 4 && c.sender.retransmissions == 0
  }

  lemma FinArrives(c: Connection)
    requires Talks(c, Rest().EndInput(), 4, [SECOND], 0, 3, 5)
    ensures Waits(Apply(c, Receive(Fin(4, 1))))
  {
    hide Sender.FillWindow, Sender.Acknowledge, AllOutgoing, Unwrap, Receiver.SegmentReceived;
    SP.AckAll(c.sender, SECOND, 4, 1);
    SP.FillFull(c.sender.Acknowledge(4, 1));
    FinEnds();
  }

  lemma FinEnds()
    ensures Ready().SegmentReceived(Fin(4, 1)).Output().ended
  {
    UnwrapOfWrap(0, 1, 0);
  }

  lemma Leaves(c: Connection)
    requires Waits(c)
    ensures var c' := Apply(c, Tick(10000));
            !c'.active && !c'.sender.stream.error && SP.Stalled(c'.sender) && c'.sender.stream.buffer == [100]
  {
    hide AllOutgoing;
    assert Rest().EndInput().buffer == [100];
    assert TotalLen([]) == 0;
  }

  // ----- Put together -----

  function Fresh(): (h: History)
    ensures h.c.Valid() && h.t.s.stream.Valid()
  {
    Start(10, 100, 1000, 0)
  }

  /** Some run of a fresh connection leads to `c`. */
  ghost predicate Reached(c: Connection) {
    exists h :: Reachable(Fresh(), h) && h.c == c
  }

  lemma ReachFresh()
    ensures Reached(NewConnection(10, 100, 1000, 0))
  {
    ReachStart(Fresh());
    assert Fresh().c == NewConnection(10, 100, 1000, 0);
  }

  lemma ReachApply(c: Connection, e: Event)
    requires Reached(c) && c.Valid() && (e.Write? ==> !c.sender.stream.ended)
    ensures Reached(Apply(c, e))
  {
    hide Apply, Fresh, SenderShare, Run, AllowedRun;
    var h :| Reachable(Fresh(), h) && h.c == c;
    ReachNext(Fresh(), h, e);
    assert Step(h, e).c == Apply(c, e);
  }

  lemma OpeningReached() returns (c: Connection)
    ensures Reached(c) && Talks(c, Both(), 3, [FIRST], 0, 1, 3)
  {
    hide Apply, Reached;
    c := NewConnection(10, 100, 1000, 0);
    ReachFresh();
    ReachApply(c, Connect);
    Connects();
    c := Apply(c, Connect);
    ReachApply(c, Receive(Syn(1, 2)));
    Synchronizes(c);
    c := Apply(c, Receive(Syn(1, 2)));
    ReachApply(c, Write([97, 98]));
    SendsTwo(c);
    c := Apply(c, Write([97, 98]));
  }

  lemma WaitingReached() returns (c: Connection)
    ensures Reached(c) && Waits(c)
  {
    c := OpeningReached();
    hide Apply, Reached;
    ReachApply(c, Receive(Bare(3, 2)));
    AcksTwo(c);
    c := Apply(c, Receive(Bare(3, 2)));
    ReachApply(c, Receive(Bare(3, 0)));
    ForgetsTheWindow(c);
    c := Apply(c, Receive(Bare(3, 0)));
    ReachApply(c, Write([99, 100]));
    SendsOne(c);
    c := Apply(c, Write([99, 100]));
    ReachApply(c, EndInput);
    Closes(c);
    c := Apply(c, EndInput);
    ReachApply(c, Receive(Fin(4, 1)));
    FinArrives(c);
    c := Apply(c, Receive(Fin(4, 1)));
  }

  /** The event shuts the connection down without error while bytes its application wrote
      are still unsent. */
  ghost predicate DropsBytes(c: Connection, e: Event)
    requires c.Valid()
  {
    var c' := Apply(c, e);
    Goes(c, c') && !c'.sender.stream.error && SP.Stalled(c'.sender) && c'.sender.stream.buffer != []
  }

  /** Some run of a fresh connection ends in such a shutdown. */
  lemma ShutdownCanDropBytes()
    ensures exists c: Connection, e :: Reached(c) && c.Valid() && DropsBytes(c, e)
  {
    var c := WaitingReached();
    Leaves(c);
    assert Reached(c) && c.Valid() && DropsBytes(c, Tick(10000));
  }
}
