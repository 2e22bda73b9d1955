/** Runs of a fresh connection into each of the situations that have no official name. */
module UnnamedStates {
  import opened WrappingIntegers
  import opened ByteStreams
  import opened Segments
  import opened Receivers
  import opened Senders
  import opened Connections
  import opened ConnectionRuns
  import opened ReportedStates
  import opened States
  import SR = SenderRuns
  import SP = SenderProgress
  import SS = StalledShutdown

  /** A reachable, live, error-free state without wrap-around. */
  ghost predicate Healthy(h: History) {
    Reachable(SS.Fresh(), h) && !h.down && !h.c.sender.stream.error && h.t.s == h.c.sender && SR.NoWrap(h.t.s)
  }

  /** The state the connection reports is none of the official ones. */
  ghost predicate Nameless(c: Connection) { forall o :: StateOf(c) != OfficialState(o) }

  lemma Proceeds(h: History, e: Event) returns (h': History)
    requires Healthy(h) && Allowed(h, e)
    requires var c' := Apply(h.c, e); c'.active && !c'.sender.stream.error && SR.NoWrap(c'.sender)
    ensures Healthy(h') && h'.c == Apply(h.c, e)
  {
    h' := Step(h, e);
    SenderShareIsRight(h.c, h.t, e);
    hide Apply, SenderShare, Run, AllowedRun;
    ReachNext(SS.Fresh(), h, e);
  }

  lemma NamelessIf(h: History)
    requires Healthy(h) && Unnamed(h.c)
    ensures Nameless(h.c)
  {
    hide Run, AllowedRun, StateOf, OfficialState, Unnamed;
    var events :| AllowedRun(SS.Fresh(), events) && Run(SS.Fresh(), events) == h;
    OfficialIff(10, 100, 1000, 0, events);
  }

  lemma Connected() returns (h: History)
    ensures Healthy(h) && h.c == Apply(NewConnection(10, 100, 1000, 0), Connect)
  {
    var h0 := SS.Fresh();
    assert h0.c == NewConnection(10, 100, 1000, 0) && h0.t.s == h0.c.sender;
    hide Apply, SenderShare, Reachable;
    ReachStart(h0);
    SS.Connects();
    h := Proceeds(h0, Connect);
  }

  // ----- An acknowledgment without a SYN -----

  lemma BareAckArrives(c: Connection)
    requires c == Apply(NewConnection(10, 100, 1000, 0), Connect)
    ensures var c' := Apply(c, Receive(SS.Bare(1, 10)));
            c'.active && !c'.sender.stream.error && SR.NoWrap(c'.sender) && AckedUnsynced(c')
  {
    SS.Connects();
    hide Connection.Connect, Sender.FillWindow, Sender.Acknowledge, AllOutgoing;
    SP.AckAll(c.sender, NewSegment(0, true, [], false), 1, 10);
    SP.FillNothing(c.sender.Acknowledge(1, 10));
  }

  // ----- A SYN with a FIN -----

  lemma SynFinArrives()
    ensures var c' := Apply(NewConnection(10, 100, 1000, 0), Receive(NewSegment(0, true, [], true)));
            c'.active && !c'.sender.stream.error && SR.NoWrap(c'.sender) && EndedUnacked(c')
  {
    hide Sender.FillWindow, AllOutgoing, Unwrap;
    SP.FillSyn(NewSender(100, 1000, 0));
    FinEnds(NewSegment(0, true, [], true));
  }

  lemma FinEnds(seg: Segment)
    requires seg.header.syn && seg.header.fin && seg.header.seqno == 0 && seg.payload == []
    ensures NewReceiver(10).SegmentReceived(seg).Output().ended
  {
    hide Unwrap, Wrap;
    assert Wrap(0, 1) == 1 by { SR.PlainNumber(0, 1); }
    UnwrapOfWrap(0, 1, 0);
  }

  // ----- A FIN while the own one cannot be sent -----

  /** The SYN is out, the application has written and perhaps closed, and nothing was sent. */
  ghost predicate Ahead(c: Connection, stream: Stream) {
    && c.Valid() && c.active && c.linger && c.receiver == NewReceiver(10)
    && c.sender.stream == stream && c.sender.isn == 0 && c.sender.nextSeqno == 1 && c.sender.window == 0
    && c.sender.queue == [] && !c.sender.finSent && c.sender.outstanding == [NewSegment(0, true, [], false)]
    && c.sender.highestAck == c.sender.highestRight == -1
  }

  function Two(): Stream { EmptyStream(100).Write([97, 98]) }

  lemma WritesAhead(c: Connection)
    requires Ahead(c, EmptyStream(100))
    ensures Ahead(Apply(c, Write([97, 98])), Two())
  {
    hide Sender.FillWindow, Apply;
    SS.Feeds(c, [97, 98]);
    SP.FillFull(c.sender.(stream := c.sender.stream.Write([97, 98])));
  }

  lemma ClosesAhead(c: Connection)
    requires Ahead(c, Two())
    ensures Ahead(Apply(c, EndInput), Two().EndInput())
  {
    hide Sender.FillWindow, AllOutgoing;
    SP.FillFull(c.sender.(stream := c.sender.stream.EndInput()));
  }

  const SYN_FIN: Segment := Stamped(NewSegment(0, true, [], true), 1, 1)

  lemma AckedOneByte(c: Connection)
    requires Ahead(c, Two().EndInput())
    ensures var s := c.sender.AckReceived(1, 1);
            && s.isn == 0 && s.nextSeqno == 2 && s.highestAck == 1 && !s.finSent && s.stream.ended && !s.stream.error
            && s.outstanding != [] && s.queue != [] && s.BytesInFlight() > 0
  {
    hide Sender.FillWindow, Sender.Acknowledge;
    SP.AckAll(c.sender, NewSegment(0, true, [], false), 1, 1);
    var s1 := c.sender.Acknowledge(1, 1);
    SP.FillOnce(s1, 1);
  }

  lemma SynFinAfterClose(c: Connection)
    requires Ahead(c, Two().EndInput())
    ensures var c' := Apply(c, Receive(SYN_FIN));
            c'.active && !c'.sender.stream.error && SR.NoWrap(c'.sender) && ClosedUnsent(c')
  {
    AckedOneByte(c);
    FinEnds(SYN_FIN);
    hide Sender.AckReceived, AllOutgoing, Unwrap, Receiver.SegmentReceived, TotalLen;
  }

  // ----- Put together -----

  /** Each of the three situations is reached by some run of a fresh connection, and what it
      then reports is no official state. */
  lemma UnnamedStatesAreReached()
    ensures exists h :: Healthy(h) && AckedUnsynced(h.c) && Nameless(h.c)
    ensures exists h :: Healthy(h) && EndedUnacked(h.c) && Nameless(h.c)
    ensures exists h :: Healthy(h) && ClosedUnsent(h.c) && Nameless(h.c)
  {
    hide Apply, Nameless;
    var h1 := ReachAckedUnsynced();
    NamelessIf(h1);
    var h2 := ReachEndedUnacked();
    NamelessIf(h2);
    var h3 := ReachClosedUnsent();
    NamelessIf(h3);
  }

  lemma ReachAckedUnsynced() returns (h: History)
    ensures Healthy(h) && AckedUnsynced(h.c)
  {
    hide Apply, Healthy, AckedUnsynced, SR.NoWrap;
    h := Connected();
    BareAckArrives(h.c);
    assert Allowed(h, Receive(SS.Bare(1, 10)));
    h := Proceeds(h, Receive(SS.Bare(1, 10)));
  }

  lemma ReachEndedUnacked() returns (h: History)
    ensures Healthy(h) && EndedUnacked(h.c)
  {
    var h0 := SS.Fresh();
    assert h0.c == NewConnection(10, 100, 1000, 0) && h0.t.s == h0.c.sender;
    hide Apply, SenderShare, Reachable, EndedUnacked;
    ReachStart(h0);
    SynFinArrives();
    h := Proceeds(h0, Receive(NewSegment(0, true, [], true)));
  }

  lemma ReachClosedUnsent() returns (h: History)
    ensures Healthy(h) && ClosedUnsent(h.c)
  {
    hide Apply, Healthy, ClosedUnsent;
    h := Connected();
    SS.Connects();
    WritesAhead(h.c);
    h := Proceeds(h, Write([97, 98]));
    ClosesAhead(h.c);
    h := Proceeds(h, EndInput);
    SynFinAfterClose(h.c);
    h := Proceeds(h, Receive(SYN_FIN));
  }
}
