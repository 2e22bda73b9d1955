/** The states a whole connection reports over its runs (libsponge/tcp_helpers/tcp_state.cc). */
module ReportedStates {
  import opened WrappingIntegers
  import opened Segments
  import opened Receivers
  import opened Senders
  import opened Connections
  import opened ConnectionRuns
  import opened States
  import SR = SenderRuns

  function ReceiverRank(p: ReceiverSummary): nat {
    match p
    case Listen => 0
    case SynRecv => 1
    case FinRecv => 2
    case ReceiverError => 3
  }

  /** No part of the reported state goes back, and lingering is not resumed. */
  ghost predicate Forward(c: Connection, c': Connection) {
    && Rank(SummaryOfSender(c.sender)) <= Rank(SummaryOfSender(c'.sender))
    && ReceiverRank(SummaryOfReceiver(c.receiver)) <= ReceiverRank(SummaryOfReceiver(c'.receiver))
    && (c'.linger ==> c.linger)
  }

  lemma ReceiverMovesForward(h: History, e: Event)
    requires Inv(h) && Allowed(h, e)
    ensures var c, c' := h.c, Step(h, e).c;
            && ReceiverRank(SummaryOfReceiver(c.receiver)) <= ReceiverRank(SummaryOfReceiver(c'.receiver))
            && (c'.linger ==> c.linger)
  {
    hide SR.Inv, Filled, SenderShare, Mod32;
    if e.Receive? {
      hide Sender.FillWindow, Receiver.SegmentReceived, Connection.Process;
      var c := h.c.(sinceLast := 0);
      ProcessEffect(if h.c.active then c else c.ConnectSender(), e.seg);
      ReceiverEffect(h.c.receiver, e.seg);
    } else if e.Tick? {
      hide Apply, Connection.Tick;
      TickEffect(h.c, e.ms);
      ApplyTick(h.c, e.ms);
    } else {
      hide Apply;
      QuietEffect(h.c, e);
    }
  }

  lemma StepForward(h: History, e: Event)
    requires Inv(h) && Allowed(h, e) && SR.NoWrap(Step(h, e).t.s)
    ensures Forward(h.c, Step(h, e).c)
  {
    StepInv(h, e);
    ShareLive(h.t, h.c.active, e);
    ShareError(h.t, h.c.active, e);
    ReceiverMovesForward(h, e);
    hide Apply, SenderShare, SummaryOfSender, SummaryOfReceiver, SR.Inv, Filled, Fails;
    GrowsMovesForward(h.t, Step(h, e).t);
  }

  /** Over every run of a connection without wrap-around, the state it reports only moves
      forward. */
  lemma {:induction false} StateMovesForward(h: History, events: seq<Event>)
    requires Inv(h) && AllowedRun(h, events) && SR.NoWrap(Run(h, events).t.s)
    ensures Forward(h.c, Run(h, events).c) && SR.NoWrap(h.t.s)
    decreases |events|
  {
    if events != [] {
      StepInv(h, events[0]);
      ShareLive(h.t, h.c.active, events[0]);
      assert SR.Grows(h.t, Step(h, events[0]).t);
      hide Apply, SenderShare, SummaryOfSender, SummaryOfReceiver, Inv, Allowed;
      StateMovesForward(Step(h, events[0]), events[1..]);
      StepForward(h, events[0]);
    }
  }

  // ----- Which states are official -----

  /** As long as the connection was neither shut down nor failed, a FIN that is all
      acknowledged after the inbound stream ended means that it still lingers. */
  ghost predicate Busy(h: History) {
    !h.down && !h.c.sender.stream.error && h.c.receiver.Output().ended && !h.c.linger && h.c.sender.finSent ==>
      h.c.sender.outstanding != []
  }

  lemma FillStaysBusy(t: SR.Track)
    requires SR.Inv(t)
    ensures var s := FilledAndDrained(t).s; s.finSent && s.outstanding == [] ==> t.s.finSent && t.s.outstanding == []
  {
    hide Sender.FillWindow, SR.AllCarried, SR.Chained, SR.Timed, SR.Roomy;
    SR.FillKeeps(t);
  }

  lemma ShareStaysBusy(t: SR.Track, active: bool, e: Event)
    requires SR.Inv(t) && !e.Receive? && (e.Write? ==> !t.s.stream.ended)
    ensures var s := SenderShare(t, active, e).s;
            s.finSent && s.outstanding == [] ==> t.s.finSent && t.s.outstanding == []
  {
    SR.StreamOf(t);
    hide SR.Inv, FilledAndDrained, SR.Elements;
    match e
    case Connect => FillStaysBusy(t);
    case Write(data) =>
      SR.StepKeeps(t, SR.Write(data));
      FillStaysBusy(SR.Step(t, SR.Write(data)));
    case EndInput =>
      SR.StepKeeps(t, SR.Close);
      FillStaysBusy(SR.Step(t, SR.Close));
    case _ =>
  }

  lemma NoneInFlight(t: SR.Track)
    requires SR.Inv(t) && t.s.outstanding == []
    ensures t.s.BytesInFlight() == 0 && (t.s.finSent ==> t.s.stream.ended)
  {
    hide SR.AllCarried, SR.Chained, SR.Timed;
  }

  lemma ReceiveStaysBusy(h: History, seg: Segment)
    requires Inv(h) && Lingers(h) && Busy(h)
    ensures Busy(Step(h, Receive(seg)))
  {
    var h' := Step(h, Receive(seg));
    StepInv(h, Receive(seg));
    if h'.c.sender.outstanding == [] {
      NoneInFlight(h'.t);
    }
    ShareError(h.t, h.c.active, Receive(seg));
    SenderShareIsRight(h.c, h.t, Receive(seg));
    hide SR.Inv, Filled, TotalLen, Received, Sender.FillWindow, Receiver.SegmentReceived, Connection.Process;
    var c := h.c.(sinceLast := 0);
    ProcessEffect(if h.c.active then c else c.ConnectSender(), seg);
    ReceiverEffect(h.c.receiver, seg);
  }

  lemma StepStaysBusy(h: History, e: Event)
    requires Inv(h) && Allowed(h, e) && Lingers(h) && Busy(h)
    ensures Busy(Step(h, e))
  {
    if e.Receive? {
      ReceiveStaysBusy(h, e.seg);
    } else {
      ShareStaysBusy(h.t, h.c.active, e);
      ShareError(h.t, h.c.active, e);
      StepInv(h, e);
      hide SR.Inv, Filled, Apply, SenderShare, Connection.Tick, Fails;
      if e.Tick? {
        TickEffect(h.c, e.ms);
        ApplyTick(h.c, e.ms);
      } else {
        QuietEffect(h.c, e);
      }
    }
  }

  lemma {:induction false} RunStaysBusy(h: History, events: seq<Event>)
    requires Inv(h) && AllowedRun(h, events) && Lingers(h) && Busy(h)
    ensures Inv(Run(h, events)) && Lingers(Run(h, events)) && Busy(Run(h, events))
    decreases |events|
  {
    assert h.c.Valid() && h.t.s.stream.Valid();
    hide Inv, Step, Lingers, Busy, Allowed;
    if events != [] {
      StepInv(h, events[0]);
      StepLingers(h, events[0]);
      StepStaysBusy(h, events[0]);
      RunStaysBusy(Step(h, events[0]), events[1..]);
    }
  }

  /** The peer has acknowledged the SYN without having sent its own. */
  predicate AckedUnsynced(c: Connection) {
    c.sender.nextSeqno > 0 && c.sender.highestAck > c.sender.isn && !c.receiver.synReceived
  }

  /** The peer has ended its stream before acknowledging the SYN. */
  predicate EndedUnacked(c: Connection) {
    c.sender.nextSeqno > 0 && c.sender.highestAck <= c.sender.isn && c.receiver.Output().ended
  }

  /** The peer has ended its stream after the application here has closed its own but before
      the FIN could be sent. */
  predicate ClosedUnsent(c: Connection) {
    && c.sender.nextSeqno > 0 && c.sender.highestAck > c.sender.isn
    && c.receiver.Output().ended && c.linger && !c.sender.finSent
  }

  /** The three situations that have no official name. */
  predicate Unnamed(c: Connection) { AckedUnsynced(c) || EndedUnacked(c) || ClosedUnsent(c) }

  /** Exactly which states of a live connection are official, over every run from a fresh
      connection without wrap-around. */
  lemma OfficialIff(recvCapacity: nat, sendCapacity: nat, rtTimeout: uint16,
                    isn: uint32, events: seq<Event>)
    requires AllowedRun(Start(recvCapacity, sendCapacity, rtTimeout, isn), events)
    ensures var h := Run(Start(recvCapacity, sendCapacity, rtTimeout, isn), events);
            !h.down && !h.c.sender.stream.error && SR.NoWrap(h.t.s) ==>
              ((exists o :: StateOf(h.c) == OfficialState(o)) <==> !Unnamed(h.c))
  {
    var h0 := Start(recvCapacity, sendCapacity, rtTimeout, isn);
    StartInv(recvCapacity, sendCapacity, rtTimeout, isn);
    RunStaysBusy(h0, events);
    hide Start, Run;
    var h := Run(h0, events);
    if !h.down && !h.c.sender.stream.error && SR.NoWrap(h.t.s) {
      LiveStateNamed(h);
    }
  }

  lemma LiveStateNamed(h: History)
    requires Inv(h) && Lingers(h) && Busy(h) && !h.down && !h.c.sender.stream.error && SR.NoWrap(h.t.s)
    ensures (exists o :: StateOf(h.c) == OfficialState(o)) <==> !Unnamed(h.c)
  {
    SummaryIsExact(h.t);
    FinAckedIsIdle(h.t);
    hide SR.Inv, SummaryOfSender, Filled;
    var st := StateOf(h.c);
    if !Unnamed(h.c) {
      var o := NameOf(st);
      assert st == OfficialState(o);
    }
  }

  lemma FinAckedIsIdle(t: SR.Track)
    requires SR.Inv(t) && SR.NoWrap(t.s)
    ensures Phase(t) == FinAcked ==> t.s.finSent && t.s.outstanding == []
  {
    hide SR.Timed;
    SR.ChainBelow(t.s.outstanding, SR.RawNext(t.s));
    if t.s.outstanding != [] {
      assert t.s.outstanding[0] in t.s.outstanding && t.s.outstanding[0] in t.wire;
    }
  }

  /** The official name of a state, where it has one. */
  function NameOf(st: TcpState): Official {
    match (st.sender, st.receiver)
    case (Closed, _) => LISTEN
    case (SynSent, Listen) => SYN_SENT
    case (SynSent, _) => SYN_RCVD
    case (SynAcked, SynRecv) => ESTABLISHED
    case (SynAcked, _) => CLOSE_WAIT
    case (FinSent, SynRecv) => FIN_WAIT_1
    case (FinSent, _) => if st.linger then CLOSING else LAST_ACK
    case (FinAcked, SynRecv) => FIN_WAIT_2
    case (FinAcked, _) => if st.active then TIME_WAIT else CLOSED
    case (SenderError, _) => RESET
  }
}
