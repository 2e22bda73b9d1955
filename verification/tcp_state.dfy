/** The summaries that name the phases of a connection (libsponge/tcp_helpers/tcp_state.cc). */
module States {
  import opened WrappingIntegers
  import opened Receivers
  import opened Senders
  import opened SenderRuns

  datatype SenderSummary = Closed | SynSent | SynAcked | FinSent | FinAcked | SenderError

  datatype ReceiverSummary = Listen | SynRecv | FinRecv | ReceiverError

  function SummaryOfSender(s: Sender): SenderSummary {
    if s.stream.error then SenderError
    else if s.nextSeqno == 0 then Closed
    else if s.nextSeqno == s.BytesInFlight() then SynSent
    else if !s.stream.Eof() then SynAcked
    else if s.nextSeqno < s.stream.written + 2 then SynAcked
    else if s.BytesInFlight() > 0 then FinSent
    else FinAcked
  }

  function SummaryOfReceiver(r: Receiver): ReceiverSummary {
    if r.Output().error then ReceiverError
    else if r.Ackno().None? then Listen
    else if r.Output().ended then FinRecv
    else SynRecv
  }

  /** How far the highest acknowledgment of a sender reaches, in words. */
  ghost function Phase(t: Track): SenderSummary {
    if t.s.stream.error then SenderError
    else if t.s.nextSeqno == 0 then Closed
    else if t.s.highestAck <= t.s.isn then SynSent
    else if !t.s.finSent then SynAcked
    else if t.s.highestAck < t.s.isn + |t.written| + 2 then FinSent
    else FinAcked
  }

  /** An outstanding segment at the initial number can only be the bare SYN. */
  lemma FirstIsSyn(t: Track)
    requires Inv(t) && NoWrap(t.s) && t.s.outstanding != []
    ensures t.s.isn <= t.s.outstanding[0].header.seqno
    ensures t.s.outstanding[0].header.seqno == t.s.isn ==> RawEnd(t.s.outstanding[0]) == t.s.isn + 1
  {
    hide Wrap, Chain, Timed;
    var seg := t.s.outstanding[0];
    assert seg in t.s.outstanding;
    assert seg in t.wire && seg.SeqLen() > 0;
    var a: nat :| Carries(seg, a, t.s, t.written);
    PlainNumber(a, t.s.isn);
  }

  /** In every reachable state without wrap-around the summary is exact: SYN_SENT while the
      SYN is not acknowledged, FIN_SENT once the FIN is sent, and FIN_ACKED exactly when the
      SYN, every byte written and the FIN are acknowledged. */
  lemma SummaryIsExact(t: Track)
    requires Inv(t) && NoWrap(t.s)
    ensures SummaryOfSender(t.s) == Phase(t)
  {
    hide Wrap, Chain, Timed, TotalLen;
    var out := t.s.outstanding;
    InFlightIsDistance(out, RawNext(t.s));
    ChainBelow(out, RawNext(t.s));
    if out != [] {
      assert out[0] in out && out[0] in t.wire;
      FirstIsSyn(t);
    }
  }

  function Rank(p: SenderSummary): nat {
    match p
    case Closed => 0
    case SynSent => 1
    case SynAcked => 2
    case FinSent => 3
    case FinAcked => 4
    case SenderError => 5
  }

  /** Only Fail changes the stream's error flag. */
  lemma ErrorStays(t: Track, e: Event)
    requires Inv(t)
    ensures !e.Fail? ==> Step(t, e).s.stream.error == t.s.stream.error
    ensures e.Fail? ==> Step(t, e).s.stream.error
  {
    hide Sender.FillWindow, Wrap, DropAcked, Mod32, AllCarried, Chained, Timed;
    match e
    case Fill => FillKeeps(t);
    case Ack(ackno, win) =>
      if t.s.Accepts(ackno) {
        AcknowledgeKeeps(t, ackno, win);
        FillKeeps(Emit(t, t.s.Acknowledge(ackno, win)));
      }
    case _ =>
  }

  /** A sender that moves on moves its summary forward. */
  lemma GrowsMovesForward(t: Track, t': Track)
    requires Inv(t) && Inv(t') && Grows(t, t') && NoWrap(t'.s) && (t.s.stream.error ==> t'.s.stream.error)
    ensures Rank(SummaryOfSender(t.s)) <= Rank(SummaryOfSender(t'.s))
  {
    SummaryIsExact(t);
    SummaryIsExact(t');
    hide Inv, SummaryOfSender;
  }

  lemma StepMovesForward(t: Track, e: Event)
    requires Inv(t) && (e.Write? ==> !t.s.stream.ended) && NoWrap(Step(t, e).s)
    ensures Rank(SummaryOfSender(t.s)) <= Rank(SummaryOfSender(Step(t, e).s))
  {
    StreamOf(t);
    hide Step, Inv, SummaryOfSender, Grows;
    StepKeeps(t, e);
    StepGrows(t, e);
    ErrorStays(t, e);
    GrowsMovesForward(t, Step(t, e));
  }

  /** Over every run without wrap-around, the summary only moves forward. */
  lemma {:induction false} SummaryMovesForward(t: Track, events: seq<Event>)
    requires Inv(t) && WritesBeforeClose(t.s, events) && NoWrap(Run(t, events).s)
    ensures Rank(SummaryOfSender(t.s)) <= Rank(SummaryOfSender(Run(t, events).s))
    ensures NoWrap(t.s)
    decreases |events|
  {
    hide SummaryOfSender, Chain;
    if events != [] {
      StepKeeps(t, events[0]);
      SummaryMovesForward(Step(t, events[0]), events[1..]);
      StepGrows(t, events[0]);
      StepMovesForward(t, events[0]);
    }
  }

  // ----- The official states -----

  /** The state a connection reports. */
  datatype TcpState = TcpState(sender: SenderSummary, receiver: ReceiverSummary, active: bool, linger: bool)

  datatype Official =
    | LISTEN | SYN_RCVD | SYN_SENT | ESTABLISHED | CLOSE_WAIT | LAST_ACK
    | CLOSING | FIN_WAIT_1 | FIN_WAIT_2 | TIME_WAIT | RESET | CLOSED

  function OfficialState(o: Official): TcpState {
    match o
    case LISTEN => TcpState(Closed, Listen, true, true)
    case SYN_RCVD => TcpState(SynSent, SynRecv, true, true)
    case SYN_SENT => TcpState(SynSent, Listen, true, true)
    case ESTABLISHED => TcpState(SynAcked, SynRecv, true, true)
    case CLOSE_WAIT => TcpState(SynAcked, FinRecv, true, false)
    case LAST_ACK => TcpState(FinSent, FinRecv, true, false)
    case CLOSING => TcpState(FinSent, FinRecv, true, true)
    case FIN_WAIT_1 => TcpState(FinSent, SynRecv, true, true)
    case FIN_WAIT_2 => TcpState(FinAcked, SynRecv, true, true)
    case TIME_WAIT => TcpState(FinAcked, FinRecv, true, true)
    case RESET => TcpState(SenderError, ReceiverError, false, false)
    case CLOSED => TcpState(FinAcked, FinRecv, false, false)
  }
}
