/** Progress of the sender: when it can stall, and how its retransmissions are spaced. */
module SenderProgress {
  import opened WrappingIntegers
  import opened ByteStreams
  import opened Segments
  import opened Senders
  import opened SenderRuns

  /** The SYN is out and something remains to be sent, but nothing is in flight. */
  predicate Stalled(s: Sender) {
    s.nextSeqno > 0 && Pending(s) && s.outstanding == []
  }

  /** Stalled with no window left: filling does not help, nor does the timer, nor does any
      acknowledgment but one whose window is adopted. */
  predicate Stuck(s: Sender) { Stalled(s) && s.window == 0 }

  /** An accepted zero-window acknowledgment while the highest right edge seen still lets
      the sender send two or more numbers: the sender forgets that permission for good. */
  predicate Shrinks(s: Sender, e: Event) {
    e.Ack? && s.Accepts(e.ackno) && e.win == 0 && RawNext(s) + 1 < s.highestRight
  }

  /** A receiver whose right edge never moves back shrinks no window. */
  lemma ForwardEdgeNeverShrinks(s: Sender, e: Event)
    requires NoWrap(s) && e.Ack? && s.highestRight <= e.ackno + e.win
    ensures !Shrinks(s, e)
  {
    PlainNumber(s.nextSeqno, s.isn);
  }

  ghost predicate NeverShrinks(s: Sender, events: seq<Event>)
    requires s.stream.Valid()
    decreases |events|
  {
    events == [] || (!Shrinks(s, events[0]) && NeverShrinks(Apply(s, events[0]), events[1..]))
  }

  lemma AcknowledgeRoomy(t: Track, ackno: uint32, win: uint16)
    requires Inv(t) && NoEdgeWrap(t.s) && t.s.Accepts(ackno)
    ensures Roomy(t.s) ==> (Roomy(t.s.Acknowledge(ackno, win)) <==> !Shrinks(t.s, Ack(ackno, win)))
  {
    hide Wrap, Chain, DropAcked, Sender.Acknowledge, AllCarried, Timed;
    PlainNumber(t.s.nextSeqno, t.s.isn);
    InRange(ackno + win);
    AcknowledgeFrame(t.s, ackno, win);
    DropKeepsUnacked(t.s.outstanding, ackno, RawNext(t.s));
    ChainBelow(t.s.outstanding, RawNext(t.s));
    LastEndsChain(t.s.outstanding, RawNext(t.s));
    var s' := t.s.Acknowledge(ackno, win);
    assert s'.outstanding == DropAcked(t.s.outstanding, ackno);
  }

  lemma {:induction false} LastEndsChain(out: seq<Segment>, to: nat)
    requires Chain(out, to)
    ensures out != [] ==> RawEnd(out[|out| - 1]) == to
  {
    if out != [] {
      LastEndsChain(out[1..], to);
    }
  }

  /** One accepted acknowledgment keeps the window in step exactly when it does not shrink
      it; no other step can put it out of step. */
  lemma StepRoomy(t: Track, e: Event)
    requires Inv(t) && NoEdgeWrap(t.s) && Roomy(t.s) && !Shrinks(t.s, e)
    ensures Roomy(Step(t, e).s)
  {
    hide Wrap, Chain, DropAcked, Mod32;
    match e
    case Ack(ackno, win) =>
      if t.s.Accepts(ackno) {
        AcknowledgeRoomy(t, ackno, win);
        AcknowledgeKeeps(t, ackno, win);
        FillKeeps(Emit(t, t.s.Acknowledge(ackno, win)));
      }
    case Fill => FillKeeps(t);
    case _ =>
  }

  /** An accepted acknowledgment makes the sender take a new window. */
  predicate Adopts(s: Sender, e: Event) {
    e.Ack? && s.Accepts(e.ackno) && (e.win == 0 || Mod32(e.ackno + e.win) > s.highestRight)
  }

  /** The window is a budget: between two adopted windows, the numbers sent and the window
      left add up to the same total; an adopted window starts a new total of its own size
      (1 for size 0), beyond what was sent already. */
  lemma WindowIsSpentExactly(t: Track, e: Event)
    requires Inv(t)
    ensures var s' := Step(t, e).s;
            && s'.nextSeqno + s'.window ==
               t.s.nextSeqno + (if !Adopts(t.s, e) then t.s.window else if e.win == 0 then 1 else e.win)
            && s'.windowEmpty == if Adopts(t.s, e) then e.win == 0 else t.s.windowEmpty
  {
    hide Wrap, Mod32, Sender.FillWindow, Sender.AckReceived, AllCarried, Timed, Chained, Numbered, Roomy, Adopts;
    match e
    case Fill =>
      FillKeeps(t);
      NothingAdopted(t.s, e);
    case Ack(ackno, win) => AckSpends(t, ackno, win);
    case _ => NothingAdopted(t.s, e);
  }

  lemma NothingAdopted(s: Sender, e: Event)
    ensures !e.Ack? ==> !Adopts(s, e)
  {
  }

  lemma AckSpends(t: Track, ackno: uint32, win: uint16)
    requires Inv(t)
    ensures var s' := t.s.AckReceived(ackno, win);
            var adopts := Adopts(t.s, Ack(ackno, win));
            && s'.nextSeqno + s'.window ==
               t.s.nextSeqno + (if !adopts then t.s.window else if win == 0 then 1 else win)
            && s'.windowEmpty == if adopts then win == 0 else t.s.windowEmpty
  {
    hide Inv, Wrap, Mod32, DropAcked, Sender.FillWindow, Sender.Acknowledge, Roomy;
    StreamOf(t);
    if t.s.Accepts(ackno) {
      var s1 := t.s.Acknowledge(ackno, win);
      AcknowledgeFrame(t.s, ackno, win);
      AcknowledgeKeeps(t, ackno, win);
      FillKeeps(Emit(t, s1));
      assert s1.FillWindow().nextSeqno + s1.FillWindow().window == s1.nextSeqno + s1.window;
      hide Spends;
    }
  }

  lemma {:induction false} RunRoomy(t: Track, events: seq<Event>)
    requires Inv(t) && WritesBeforeClose(t.s, events) && NeverShrinks(t.s, events)
    requires NoEdgeWrap(t.s) ==> Roomy(t.s)
    ensures NoEdgeWrap(Run(t, events).s) ==> Roomy(Run(t, events).s)
    decreases |events|
  {
    if events != [] {
      StepKeeps(t, events[0]);
      StepGrows(t, events[0]);
      if NoEdgeWrap(t.s) {
        StepRoomy(t, events[0]);
      }
      RunRoomy(Step(t, events[0]), events[1..]);
    }
  }

  /** No stall: over every run without wrap-around in which no accepted acknowledgment
      shrinks the window, whenever something remains unsent after a call that fills the
      window, some segment is outstanding and the timer is running for it. */
  lemma NoStall(t: Track, events: seq<Event>, e: Event)
    requires Inv(t) && Roomy(t.s)
    requires WritesBeforeClose(t.s, events) && NeverShrinks(t.s, events)
    requires var u := Run(t, events);
             && NoEdgeWrap(Step(u, e).s)
             && (e.Fill? || (e.Ack? && u.s.Accepts(e.ackno)))
             && !Shrinks(u.s, e)
    ensures var s := Step(Run(t, events), e).s;
            s.nextSeqno > 0 && (Pending(s) ==> s.outstanding != [] && s.timerOn)
  {
    assert t.s.stream.Valid();
    RunKeeps(t, events);
    RunRoomy(t, events);
    hide Inv, Roomy, Run, NeverShrinks, WritesBeforeClose;
    StepNoStall(Run(t, events), e);
  }

  lemma StepNoStall(t: Track, e: Event)
    requires Inv(t) && (NoEdgeWrap(t.s) ==> Roomy(t.s)) && NoEdgeWrap(Step(t, e).s)
    requires (e.Fill? || (e.Ack? && t.s.Accepts(e.ackno))) && !Shrinks(t.s, e)
    ensures var s := Step(t, e).s;
            s.nextSeqno > 0 && (Pending(s) ==> s.outstanding != [] && s.timerOn)
  {
    StepGrows(t, e);
    StepRoomy(t, e);
    StepKeeps(t, e);
    StepIsApply(t, e);
    assert Timed(Step(t, e).s);
    hide Inv, Step, Sender.FillWindow, Sender.Acknowledge, Shrinks;
    if e.Fill? {
      FillKeeps(t);
    } else {
      AcknowledgeKeeps(t, e.ackno, e.win);
      FillKeeps(Emit(t, t.s.Acknowledge(e.ackno, e.win)));
    }
  }

  /** Exactly when filling leaves the sender stalled: it was stalled, with no window. */
  lemma StallAfterFillIff(t: Track)
    requires Inv(t) && t.s.nextSeqno > 0
    ensures Stalled(t.s.FillWindow()) <==> Stalled(t.s) && t.s.window == 0
  {
    hide Sender.SendAllData, Sender.SendFin, AllCarried, Timed, Chained;
    FillKeeps(t);
  }

  /** Something is left to send, the acknowledgment covers all there is, no window was left,
      and the one it brings is not beyond the highest right edge. */
  predicate StallsOn(s: Sender, ackno: uint32, win: uint16) {
    && Pending(s)
    && (s.outstanding == [] || ackno == RawNext(s))
    && s.window == 0
    && win > 0 && Mod32(ackno + win) <= s.highestRight
  }

  /** Exactly when an accepted acknowledgment leaves the sender stalled. */
  lemma StallAfterAckIff(t: Track, ackno: uint32, win: uint16)
    requires Inv(t) && NoWrap(t.s) && t.s.nextSeqno > 0 && t.s.Accepts(ackno)
    ensures Stalled(t.s.AckReceived(ackno, win)) <==> StallsOn(t.s, ackno, win)
  {
    hide Sender.FillWindow, Sender.Acknowledge, Wrap, Mod32, Chain, DropAcked, AllCarried, Timed, Numbered;
    PlainNumber(t.s.nextSeqno, t.s.isn);
    InRange(ackno + win);
    AcknowledgeFrame(t.s, ackno, win);
    var s1 := t.s.Acknowledge(ackno, win);
    AcknowledgeKeeps(t, ackno, win);
    StallAfterFillIff(Emit(t, s1));
    DropKeepsUnacked(t.s.outstanding, ackno, RawNext(t.s));
    ChainBelow(t.s.outstanding, RawNext(t.s));
    LastEndsChain(t.s.outstanding, RawNext(t.s));
    assert s1.outstanding == DropAcked(t.s.outstanding, ackno);
    assert s1.outstanding == [] <==> t.s.outstanding == [] || ackno == RawNext(t.s) by {
      if s1.outstanding != [] {
        assert s1.outstanding[0] in t.s.outstanding;
      }
    }
  }

  /** Exactly which events get a stuck sender going: the acknowledgments whose window it
      adopts.  All others leave it stuck and emit at most segments without a number. */
  lemma StuckEndsIff(t: Track, e: Event)
    requires Inv(t) && Stuck(t.s) && (e.Write? ==> !t.s.stream.ended)
    ensures Stuck(Step(t, e).s) <==> !Adopts(t.s, e)
    ensures !Adopts(t.s, e) ==> Step(t, e).s.nextSeqno == t.s.nextSeqno
    ensures !Adopts(t.s, e) ==> forall seg :: seg in Step(t, e).wire && seg !in t.wire ==> seg.SeqLen() == 0
  {
    if e.Ack? {
      StuckAckIff(t, e.ackno, e.win);
    } else {
      NothingAdopted(t.s, e);
      assert Elements(t.s.queue) <= t.wire && t.s.stream.Valid();
      hide Inv, Adopts, Wrap, Sender.FillWindow;
      StuckStays(t, e);
    }
  }

  lemma StuckStays(t: Track, e: Event)
    requires t.s.stream.Valid() && Elements(t.s.queue) <= t.wire && Stuck(t.s) && !e.Ack?
    requires e.Write? ==> !t.s.stream.ended
    ensures Stuck(Step(t, e).s) && Step(t, e).s.nextSeqno == t.s.nextSeqno
    ensures forall seg :: seg in Step(t, e).wire && seg !in t.wire ==> seg.SeqLen() == 0
  {
    hide Wrap, Sender.FillWindow, Mod32;
    assert forall seg :: seg in t.s.queue ==> seg in Elements(t.s.queue);
    if e.Fill? {
      FillFull(t.s);
    }
  }

  lemma StuckAckIff(t: Track, ackno: uint32, win: uint16)
    requires Inv(t) && Stuck(t.s)
    ensures var t' := Step(t, Ack(ackno, win));
            && (Stuck(t'.s) <==> !Adopts(t.s, Ack(ackno, win)))
            && (!Adopts(t.s, Ack(ackno, win)) ==> t'.s.nextSeqno == t.s.nextSeqno && t'.wire == t.wire)
  {
    StreamOf(t);
    QueueOnWire(t);
    StepIsApply(t, Ack(ackno, win));
    hide Inv, Wrap, Mod32, Sender.FillWindow, Sender.Acknowledge, Stuck;
    if !t.s.Accepts(ackno) {
    } else if Adopts(t.s, Ack(ackno, win)) {
      AdoptedGoesOn(t, ackno, win);
    } else {
      UnadoptedStays(t.s, ackno, win);
    }
  }

  lemma AdoptedGoesOn(t: Track, ackno: uint32, win: uint16)
    requires Inv(t) && t.s.Accepts(ackno) && Adopts(t.s, Ack(ackno, win)) && Stuck(t.s)
    ensures t.s.stream.Valid() && !Stuck(t.s.AckReceived(ackno, win))
  {
    StreamOf(t);
    hide Inv, Wrap, Mod32, Sender.FillWindow, Sender.Acknowledge, Roomy;
    AcknowledgeFrame(t.s, ackno, win);
    AcknowledgeKeeps(t, ackno, win);
    FillKeeps(Emit(t, t.s.Acknowledge(ackno, win)));
  }

  lemma UnadoptedStays(s: Sender, ackno: uint32, win: uint16)
    requires s.stream.Valid() && Stuck(s) && s.Accepts(ackno) && !Adopts(s, Ack(ackno, win))
    ensures var s' := s.AckReceived(ackno, win);
            Stuck(s') && s'.nextSeqno == s.nextSeqno && s'.queue == s.queue
  {
    hide Wrap, Mod32, Sender.FillWindow, Sender.Acknowledge;
    AcknowledgeFrame(s, ackno, win);
    FillFull(s.Acknowledge(ackno, win));
  }

  ghost predicate NeverAdopts(s: Sender, events: seq<Event>)
    requires s.stream.Valid()
    decreases |events|
  {
    events == [] || (!Adopts(s, events[0]) && NeverAdopts(Apply(s, events[0]), events[1..]))
  }

  /** Until some acknowledgment's window is adopted, a stuck sender sends nothing, however
      long it runs. */
  lemma {:induction false} StuckForAsLong(t: Track, events: seq<Event>)
    requires Inv(t) && Stuck(t.s) && WritesBeforeClose(t.s, events) && NeverAdopts(t.s, events)
    ensures Stuck(Run(t, events).s) && Run(t, events).s.nextSeqno == t.s.nextSeqno
    ensures forall seg :: seg in Run(t, events).wire && seg !in t.wire ==> seg.SeqLen() == 0
    decreases |events|
  {
    if events != [] {
      StreamOf(t);
      StepIsApply(t, events[0]);
      StuckEndsIff(t, events[0]);
      StepKeeps(t, events[0]);
      hide Inv, Stuck, Step, Apply, Adopts;
      StuckForAsLong(Step(t, events[0]), events[1..]);
    }
  }

  // ----- A sender that is done -----

  /** Everything was sent, and all that is still in flight is without payload. */
  ghost predicate Spent(s: Sender) {
    s.finSent && s.stream.Eof() && forall seg :: seg in s.outstanding ==> seg.payload == []
  }

  lemma StepStaysSpent(t: Track, e: Event)
    requires t.s.stream.Valid() && t.s.nextSeqno > 0 && Spent(t.s) && Elements(t.s.queue) <= t.wire && !e.Write?
    ensures var t' := Step(t, e);
            && Spent(t'.s) && t'.s.nextSeqno > 0 && Elements(t'.s.queue) <= t'.wire
            && forall seg :: seg in t'.wire && seg !in t.wire ==> seg.payload == []
  {
    hide Wrap, Mod32, Sender.FillWindow, Sender.Acknowledge;
    assert forall seg :: seg in t.s.queue ==> seg in Elements(t.s.queue);
    match e
    case Ack(ackno, win) =>
      if t.s.Accepts(ackno) {
        AcknowledgeFrame(t.s, ackno, win);
        DropSubset(t.s.outstanding, ackno);
        FillSpent(t.s.Acknowledge(ackno, win));
      }
    case Fill => FillSpent(t.s);
    case _ =>
  }

  lemma FillSpent(s: Sender)
    requires s.stream.Valid() && s.nextSeqno > 0 && s.stream.Eof() && s.finSent
    ensures s.FillWindow() == s
  {
  }

  /** Such a sender never again emits a segment with payload. */
  lemma {:induction false} NoMorePayload(t: Track, events: seq<Event>)
    requires Inv(t) && Spent(t.s) && WritesBeforeClose(t.s, events)
    ensures forall seg :: seg in Run(t, events).wire && seg !in t.wire ==> seg.payload == []
    decreases |events|
  {
    if events != [] {
      assert t.s.stream.Valid() && t.s.nextSeqno > 0 && Elements(t.s.queue) <= t.wire && t.s.stream.ended;
      StepStaysSpent(t, events[0]);
      StepKeeps(t, events[0]);
      StepIsApply(t, events[0]);
      hide Inv, Spent, Step, Apply;
      NoMorePayload(Step(t, events[0]), events[1..]);
    }
  }

  // ----- A run that shows why the condition is there -----

  /** A receiver of capacity 2 sends these acknowledgments; the network swaps the two that
      carry number 3. Every byte sent is acknowledged, one byte is never sent. */
  const STALL_RUN: seq<Event> := [
    Fill, Ack(1, 2), Write([97, 98]), Fill, Ack(3, 2), Ack(3, 0), Write([99, 100]), Fill, Ack(4, 1)
  ]

  /** Filling when there is nothing to send sends nothing. */
  lemma FillNothing(s: Sender)
    requires s.stream.Valid() && s.nextSeqno > 0 && s.stream.buffer == [] && !s.stream.ended
    ensures s.FillWindow() == s
  {
  }

  /** Filling when only the FIN is left sends the FIN. */
  lemma FillFin(s: Sender)
    requires s.stream.Valid() && s.nextSeqno > 0 && s.stream.Eof() && !s.finSent && s.window > 0
    ensures s.FillWindow() == s.(finSent := true).SendNew(false, [], true)
  {
    hide Sender.SendNew;
  }

  /** The sender after it has sent one data segment of `n` bytes. */
  function SentOnce(s: Sender, n: nat): Sender
    requires s.stream.Valid() && n <= s.window && n <= |s.stream.buffer|
  {
    var seg := NewSegment(Wrap(s.nextSeqno, s.isn), false, s.stream.buffer[..n], false);
    s.(stream := s.stream.Read(n), nextSeqno := s.nextSeqno + n, window := s.window - n,
       queue := s.queue + [seg], outstanding := [seg], timerOn := true,
       timer := if s.timerOn then s.timer else 0)
  }

  lemma SendDataOnce(s: Sender, n: nat)
    requires s.stream.Valid() && s.outstanding == [] && (s.stream.ended ==> n < |s.stream.buffer|)
    requires n == Min(s.window, |s.stream.buffer|) && 0 < n <= MAX_PAYLOAD_SIZE
    ensures s.SendData() == SentOnce(s, n)
  {
    hide Wrap;
    var seg := NewSegment(Wrap(s.nextSeqno, s.isn), false, s.stream.buffer[..n], false);
    var len := Min(s.window, MAX_PAYLOAD_SIZE);
    assert Min(len, |s.stream.buffer|) == n;
    assert s.stream.Read(len) == s.stream.Read(n) && s.stream.Peek(len) == s.stream.buffer[..n];
    assert seg.SeqLen() == n;
    assert InsertByNumber([], seg) == [seg];
  }

  /** Filling when one segment uses up the window or the buffer sends that segment. */
  lemma FillOnce(s: Sender, n: nat)
    requires s.stream.Valid() && s.nextSeqno > 0 && s.outstanding == [] && (s.stream.ended ==> n < |s.stream.buffer|)
    requires n == Min(s.window, |s.stream.buffer|) && 0 < n <= MAX_PAYLOAD_SIZE
    ensures s.FillWindow() == SentOnce(s, n)
  {
    hide Sender.SendData, Wrap;
    SendDataOnce(s, n);
    assert SentOnce(s, n).SendAllData() == SentOnce(s, n);
  }

  /** The state after acknowledging everything of a sender with one segment in flight. */
  lemma AckAll(s: Sender, seg: Segment, ackno: uint32, win: uint16)
    requires s.stream.Valid() && s.outstanding == [seg] && RawEnd(seg) == ackno && s.Accepts(ackno)
    requires s.highestAck < ackno && ackno + win < TWO32
    ensures var s1 := s.Acknowledge(ackno, win);
            && s1 == s.(outstanding := [], window := s1.window, windowEmpty := s1.windowEmpty, highestAck := ackno,
                        highestRight := s1.highestRight, timerOn := false, timer := 0, retransmissions := 0,
                        timeout := s.initialTimeout)
            && s1.highestRight == (if win > 0 && s.highestRight < ackno + win then ackno + win else s.highestRight)
            && s1.window == (if win == 0 then 1 else if s.highestRight < ackno + win then win else s.window)
  {
    assert DropAcked([seg], ackno) == [];
  }

  /** A repeated acknowledgment with window zero. */
  lemma AckZeroWindow(s: Sender, ackno: uint32)
    requires s.outstanding == [] && s.highestAck == ackno
    ensures s.Acknowledge(ackno, 0) == s.(window := 1, windowEmpty := true)
  {
  }

  lemma FillSyn(s: Sender)
    requires s.stream.Valid() && s.nextSeqno == 0 && s.window == 1 && s.outstanding == []
    ensures var s' := s.FillWindow();
            && s' == s.(nextSeqno := 1, window := 0, queue := s'.queue, outstanding := s'.outstanding,
                        timerOn := true, timer := s'.timer)
            && s'.queue == s.queue + [NewSegment(Wrap(0, s.isn), true, [], false)]
            && s'.outstanding == [NewSegment(Wrap(0, s.isn), true, [], false)]
  {
    hide Wrap;
    assert NewSegment(Wrap(0, s.isn), true, [], false).SeqLen() == 1;
  }

  /** The first half of the run, up to the swapped acknowledgments. */
  lemma StallFirstHalf() returns (ss: seq<Sender>)
    ensures |ss| == 6 && ss[0] == Start(100, 1000, 0).s
    ensures forall i :: 0 <= i < 5 ==>
              ss[i].stream.Valid() && !ss[i].stream.ended && ss[i + 1] == Apply(ss[i], STALL_RUN[i])
    ensures var s := ss[5];
            && s.stream == EmptyStream(100).Write([97, 98]).Read(2)
            && s.isn == 0 && s.nextSeqno == 3 && s.outstanding == []
            && s.highestAck == 3 && s.highestRight == 5
    ensures NewSegment(0, true, [], false) in ss[1].queue && NewSegment(1, false, [97, 98], false) in ss[4].queue
    ensures ss[1].stream.written == ss[2].stream.written == 0 && ss[4].stream.written == 2
  {
    hide Sender.FillWindow, Sender.Acknowledge;
    var s0 := Start(100, 1000, 0).s;
    FillSyn(s0);
    var s1 := Apply(s0, Fill);
    AckAll(s1, s1.outstanding[0], 1, 2);
    FillNothing(s1.Acknowledge(1, 2));
    var s2 := Apply(s1, Ack(1, 2));
    var s3 := Apply(s2, Write([97, 98]));
    assert s3.stream.buffer[..2] == [97, 98];
    FillOnce(s3, 2);
    var s4 := Apply(s3, Fill);
    AckAll(s4, s4.outstanding[0], 3, 2);
    FillNothing(s4.Acknowledge(3, 2));
    ss := [s0, s1, s2, s3, s4, Apply(s4, Ack(3, 2))];
  }

  lemma StallSecondHalf(s5: Sender) returns (ss: seq<Sender>)
    requires s5.stream == EmptyStream(100).Write([97, 98]).Read(2)
    requires s5.isn == 0 && s5.nextSeqno == 3 && s5.outstanding == []
    requires s5.highestAck == 3 && s5.highestRight == 5
    ensures |ss| == 5 && ss[0] == s5
    ensures forall i :: 0 <= i < 4 ==>
              ss[i].stream.Valid() && !ss[i].stream.ended && ss[i + 1] == Apply(ss[i], STALL_RUN[i + 5])
    ensures ss[1].stream == s5.stream && NewSegment(3, false, [99], false) in ss[3].queue
    ensures ss[3].stream.written == ss[4].stream.written == 4
    ensures Stuck(ss[4])
  {
    hide Sender.FillWindow, Sender.Acknowledge;
    AckZeroWindow(s5, 3);
    FillNothing(s5.Acknowledge(3, 0));
    var s6 := Apply(s5, Ack(3, 0));
    var s7 := Apply(s6, Write([99, 100]));
    assert s7.stream.buffer[..1] == [99];
    FillOnce(s7, 1);
    var s8 := Apply(s7, Fill);
    AckAll(s8, s8.outstanding[0], 4, 1);
    FillFull(s8.Acknowledge(4, 1));
    ss := [s5, s6, s7, s8, Apply(s8, Ack(4, 1))];
  }

  lemma FillFull(s: Sender)
    requires s.stream.Valid() && s.nextSeqno > 0 && s.window == 0
    ensures s.FillWindow() == s
  {
  }

  /** A list of states, each the successor of the one before, is what Run goes through. */
  lemma {:induction false} RunUnfolds(t: Track, events: seq<Event>, states: seq<Sender>)
    requires t.s.stream.Valid() && |states| == |events| + 1 && states[0] == t.s
    requires forall i :: 0 <= i < |events| ==>
               && states[i].stream.Valid()
               && states[i + 1] == Apply(states[i], events[i])
               && (events[i].Write? ==> !states[i].stream.ended)
    ensures Run(t, events).s == states[|events|]
    ensures WritesBeforeClose(t.s, events)
    decreases |events|
  {
    if events != [] {
      RunUnfolds(Step(t, events[0]), events[1..], states[1..]);
    }
  }

  // ----- The spacing of retransmissions -----

  /** When the timeout has passed, the oldest outstanding segment is sent again and the timer
      restarted; only probes of an empty window do not count and do not back off. */
  lemma TimeoutRetransmits(t: Track, ms: nat)
    requires Inv(t) && NoWrap(t.s) && t.s.outstanding != [] && t.s.retransmissions <= MAX_RETX_ATTEMPTS
    requires t.s.timer + ms < TWO32
    ensures var s' := Step(t, Tick(ms)).s;
            if t.s.timeout <= t.s.timer + ms then
              && s'.queue == t.s.queue + [t.s.outstanding[0]]
              && t.s.outstanding[0].header.seqno == FirstNumber(t.s.outstanding, RawNext(t.s)) <= RawNext(t.s)
              && s'.timer == 0
              && s'.retransmissions == t.s.retransmissions + (if t.s.windowEmpty then 0 else 1)
              && s'.timeout == t.s.timeout * (if t.s.windowEmpty then 1 else 2)
            else s' == t.s.(timer := t.s.timer + ms)
  {
    assert Timed(t.s) && Chain(t.s.outstanding, RawNext(t.s)) && t.s.stream.Valid();
    StepIsApply(t, Tick(ms));
    hide Inv, Step, Mod32, Chain;
    InRange(t.s.timer + ms);
    ChainBelow(t.s.outstanding, RawNext(t.s));
  }

  /** A track and the milliseconds since its timer was last restarted. */
  datatype Clocked = Clocked(t: Track, elapsed: nat)

  /** New data was acknowledged, or the timer was switched on. */
  predicate Restarts(s: Sender, e: Event)
    requires s.stream.Valid()
  {
    || (e.Ack? && s.Accepts(e.ackno) && e.ackno > s.highestAck)
    || (!s.timerOn && Apply(s, e).timerOn)
  }

  function ClockedStep(c: Clocked, e: Event): (c': Clocked)
    requires c.t.s.stream.Valid()
    ensures c'.t.s.stream.Valid()
  {
    Clocked(Step(c.t, e),
            if Restarts(c.t.s, e) then 0 else c.elapsed + if e.Tick? then e.ms else 0)
  }

  function ClockedRun(c: Clocked, events: seq<Event>): (c': Clocked)
    requires c.t.s.stream.Valid()
    ensures c'.t.s.stream.Valid()
    decreases |events|
  {
    if events == [] then c else ClockedRun(ClockedStep(c, events[0]), events[1..])
  }

  /** The sum of the first `k` timeouts. */
  function BackoffTime(initial: nat, k: nat): nat {
    if k == 0 then 0 else BackoffTime(initial, k - 1) + initial * Pow2(k - 1)
  }

  lemma {:induction false} BackoffTimeClosed(initial: nat, k: nat)
    ensures BackoffTime(initial, k) == initial * (Pow2(k) - 1)
  {
    if k > 0 {
      BackoffTimeClosed(initial, k - 1);
      assert initial * (2 * Pow2(k - 1) - 1) == initial * (Pow2(k - 1) - 1) + initial * Pow2(k - 1);
    }
  }

  ghost predicate OnTime(c: Clocked) {
    c.t.s.timerOn ==> BackoffTime(c.t.s.initialTimeout, c.t.s.retransmissions) + c.t.s.timer <= c.elapsed
  }

  lemma TickOnTime(c: Clocked, ms: nat)
    requires Timed(c.t.s) && c.t.s.stream.Valid() && OnTime(c)
    ensures OnTime(ClockedStep(c, Tick(ms)))
  {
    hide Pow2;
    assert Mod32(c.t.s.timer + ms) <= c.t.s.timer + ms;
  }

  lemma AckOnTime(c: Clocked, ackno: uint32, win: uint16)
    requires Inv(c.t) && OnTime(c)
    ensures OnTime(ClockedStep(c, Ack(ackno, win)))
  {
    hide AllCarried, Chained, Sender.FillWindow, Wrap, DropAcked, Mod32, Pow2, Numbered, Roomy;
    var s := c.t.s;
    if s.Accepts(ackno) {
      var s1 := s.Acknowledge(ackno, win);
      AcknowledgeKeeps(c.t, ackno, win);
      FillKeeps(Emit(c.t, s1));
      assert s1.initialTimeout == s.initialTimeout;
      assert s1.timerOn ==> (s1.timer == 0 && s1.retransmissions == 0) || (s.timerOn && s1.timer == s.timer);
    }
  }

  lemma OthersOnTime(c: Clocked, e: Event)
    requires Inv(c.t) && OnTime(c) && !e.Ack? && !e.Tick?
    ensures OnTime(ClockedStep(c, e))
  {
    hide AllCarried, Chained, Sender.FillWindow, Wrap, Pow2;
    if e.Fill? {
      FillKeeps(c.t);
    }
  }

  lemma StepOnTime(c: Clocked, e: Event)
    requires Inv(c.t) && OnTime(c)
    ensures OnTime(ClockedStep(c, e))
  {
    hide OnTime, ClockedStep, AllCarried, Chained;
    if e.Tick? {
      TickOnTime(c, e.ms);
    } else if e.Ack? {
      AckOnTime(c, e.ackno, e.win);
    } else {
      OthersOnTime(c, e);
    }
  }

  lemma {:induction false} RunOnTime(c: Clocked, events: seq<Event>)
    requires Inv(c.t) && OnTime(c) && WritesBeforeClose(c.t.s, events)
    ensures OnTime(ClockedRun(c, events)) && ClockedRun(c, events).t == Run(c.t, events)
    decreases |events|
  {
    if events != [] {
      StepOnTime(c, events[0]);
      StepKeeps(c.t, events[0]);
      StepIsApply(c.t, events[0]);
      hide Step, Apply, Restarts, OnTime, Inv;
      RunOnTime(ClockedStep(c, events[0]), events[1..]);
    }
  }

  /** Over every run: the timeout is the initial one times 2^k after k consecutive
      retransmissions, k is at most MAX_RETX_ATTEMPTS + 1, and those k retransmissions took
      at least initial * (2^k - 1) milliseconds since the timer was last restarted. */
  lemma RetransmissionsAreSpaced(c: Clocked, events: seq<Event>)
    requires Inv(c.t) && OnTime(c) && WritesBeforeClose(c.t.s, events)
    ensures var c' := ClockedRun(c, events);
            && Timed(c'.t.s)
            && (c'.t.s.timerOn ==>
                  c'.t.s.initialTimeout * (Pow2(c'.t.s.retransmissions) - 1) <= c'.elapsed)
  {
    RunOnTime(c, events);
    RunKeeps(c.t, events);
    var s := ClockedRun(c, events).t.s;
    hide ClockedRun, Run, Pow2;
    BackoffTimeClosed(s.initialTimeout, s.retransmissions);
  }
}
