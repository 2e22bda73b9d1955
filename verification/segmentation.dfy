/** What filling the window puts on the wire, said without the loop that does it. */
module Segmentation {
  import opened WrappingIntegers
  import opened ByteStreams
  import opened Segments
  import opened Senders

  /** The bytes that go out: what is buffered, as far as the window reaches. */
  function Outgoing(s: Sender): nat { Min(|s.stream.buffer|, s.window) }

  /** The FIN goes out as well when the stream has ended and there is window left for it. */
  predicate Finishes(s: Sender) {
    s.stream.ended && !s.finSent && |s.stream.buffer| < s.window
  }

  /** How many segments that takes: full payloads and a last one, or a bare FIN. */
  function Count(s: Sender): nat {
    if Outgoing(s) == 0 then (if Finishes(s) then 1 else 0)
    else (Outgoing(s) + MAX_PAYLOAD_SIZE - 1) / MAX_PAYLOAD_SIZE
  }

  /** Segment `i`: its payload starts after `i` full ones, its number says so, and the FIN is
      on the last segment and on no other. */
  function Nth(s: Sender, i: nat): Segment
    requires i < Count(s)
  {
    var from: nat := i * MAX_PAYLOAD_SIZE;
    var to: nat := Min(from + MAX_PAYLOAD_SIZE, Outgoing(s));
    StartsWithin(s, i);
    NewSegment(Wrap(s.nextSeqno + from, s.isn), false, s.stream.buffer[from..to], Finishes(s) && i == Count(s) - 1)
  }

  lemma StartsWithin(s: Sender, i: nat)
    requires i < Count(s)
    ensures i * MAX_PAYLOAD_SIZE <= Outgoing(s) <= |s.stream.buffer|
    ensures Outgoing(s) > 0 ==> i * MAX_PAYLOAD_SIZE < Outgoing(s)
    ensures i == Count(s) - 1 ==> Outgoing(s) <= i * MAX_PAYLOAD_SIZE + MAX_PAYLOAD_SIZE
    ensures i < Count(s) - 1 ==> i * MAX_PAYLOAD_SIZE + MAX_PAYLOAD_SIZE < Outgoing(s)
  {
  }

  function Plan(s: Sender, from: nat): seq<Segment>
    requires from <= Count(s)
    decreases Count(s) - from
  {
    if from == Count(s) then [] else [Nth(s, from)] + Plan(s, from + 1)
  }

  // ----- One step of the loop -----

  /** What sending one new segment that the window allows does. */
  lemma SendNewIs(s: Sender, payload: seq<byte>, fin: bool)
    requires 0 < |payload| + (if fin then 1 else 0) <= s.window
    ensures var s' := s.SendNew(false, payload, fin);
            && s'.queue == s.queue + [NewSegment(Wrap(s.nextSeqno, s.isn), false, payload, fin)]
            && s'.nextSeqno == s.nextSeqno + |payload| + (if fin then 1 else 0)
            && s'.window == s.window - |payload| - (if fin then 1 else 0)
            && s'.isn == s.isn && s'.stream == s.stream && s'.finSent == s.finSent
  {
    hide Wrap, InsertByNumber;
    var seg := NewSegment(Wrap(s.nextSeqno, s.isn), false, payload, fin);
    assert seg.SeqLen() == |payload| + (if fin then 1 else 0);
    assert Mod16(seg.SeqLen()) == seg.SeqLen();
  }

  /** The FIN is on the first segment exactly when the plan has no other. */
  predicate FinFirst(s: Sender) { Finishes(s) && Count(s) == 1 }

  /** The payload of the first segment. */
  lemma FirstPayload(s: Sender)
    requires s.stream.Valid() && s.window > 0 && s.stream.buffer != []
    ensures Count(s) > 0
    ensures var n := Min(s.window, MAX_PAYLOAD_SIZE);
            var payload := s.stream.Peek(n);
            && Nth(s, 0) == NewSegment(Wrap(s.nextSeqno, s.isn), false, payload, FinFirst(s))
            && 0 < |payload| <= Outgoing(s) && s.stream.Read(n).buffer == s.stream.buffer[|payload|..]
            && (Count(s) > 1 ==> |payload| == MAX_PAYLOAD_SIZE) && (Count(s) == 1 ==> |payload| == Outgoing(s))
  {
    hide Wrap;
    StartsWithin(s, 0);
    var n := Min(s.window, MAX_PAYLOAD_SIZE);
    assert s.stream.buffer[0..Min(MAX_PAYLOAD_SIZE, Outgoing(s))] == s.stream.Peek(n);
  }

  /** The loop's test for the FIN says the same. */
  lemma FinTest(s: Sender)
    requires s.stream.Valid() && s.window > 0 && s.stream.buffer != []
    ensures var n := Min(s.window, MAX_PAYLOAD_SIZE);
            s.stream.Read(n).Eof() && !s.finSent && |s.stream.Peek(n)| < s.window <==> FinFirst(s)
  {
    hide Nth;
    FirstPayload(s);
  }

  /** A step of the loop sends the first segment of the plan. */
  lemma SendDataFollows(s: Sender)
    requires s.stream.Valid() && s.window > 0 && s.stream.buffer != []
    ensures var s' := s.SendData();
            && Count(s) > 0 && s'.queue == s.queue + [Nth(s, 0)] && s'.isn == s.isn
            && s'.stream.ended == s.stream.ended && s'.stream.Valid()
            && var n := |Nth(s, 0).payload|;
               && 0 < n <= Outgoing(s) && s'.stream.buffer == s.stream.buffer[n..]
               && s'.finSent == (s.finSent || FinFirst(s))
               && s'.nextSeqno == s.nextSeqno + n + (if FinFirst(s) then 1 else 0)
               && s'.window == s.window - n - (if FinFirst(s) then 1 else 0)
               && (Count(s) > 1 ==> n == MAX_PAYLOAD_SIZE) && (Count(s) == 1 ==> n == Outgoing(s))
  {
    FirstPayload(s);
    FinTest(s);
    hide Nth, Wrap, Sender.SendNew, Count;
    var n := Min(s.window, MAX_PAYLOAD_SIZE);
    var s1 := s.(stream := s.stream.Read(n), finSent := s.finSent || FinFirst(s));
    assert s.SendData() == s1.SendNew(false, s.stream.Peek(n), FinFirst(s));
    SendNewIs(s1, s.stream.Peek(n), FinFirst(s));
  }

  // ----- The rest of the plan -----

  /** After a step that was not the last, the plan is the old one without its first segment. */
  lemma RestOfPlan(s: Sender, s': Sender)
    requires Count(s) > 1 && s'.isn == s.isn && s'.finSent == s.finSent && s'.stream.ended == s.stream.ended
    requires s'.stream.buffer == s.stream.buffer[MAX_PAYLOAD_SIZE..] && s'.window == s.window - MAX_PAYLOAD_SIZE
    requires s'.nextSeqno == s.nextSeqno + MAX_PAYLOAD_SIZE
    ensures Outgoing(s') == Outgoing(s) - MAX_PAYLOAD_SIZE && Finishes(s') == Finishes(s) && Count(s') == Count(s) - 1
    ensures forall i :: 0 <= i < Count(s') ==> Nth(s', i) == Nth(s, i + 1)
  {
    CountIsMore(s);
    forall i | 0 <= i < Count(s') ensures Nth(s', i) == Nth(s, i + 1) {
      ShiftedNth(s, s', i);
    }
  }

  lemma ShiftedNth(s: Sender, s': Sender, i: nat)
    requires i < Count(s') && Count(s') == Count(s) - 1 && s'.isn == s.isn && Finishes(s') == Finishes(s)
    requires Outgoing(s') == Outgoing(s) - MAX_PAYLOAD_SIZE && s'.nextSeqno == s.nextSeqno + MAX_PAYLOAD_SIZE
    requires MAX_PAYLOAD_SIZE < Outgoing(s) && s'.stream.buffer == s.stream.buffer[MAX_PAYLOAD_SIZE..]
    ensures Nth(s', i) == Nth(s, i + 1)
  {
    StartsWithin(s, i + 1);
    StartsWithin(s', i);
    hide Wrap, Count;
    var from: nat := i * MAX_PAYLOAD_SIZE;
    var to := Min(from + MAX_PAYLOAD_SIZE, Outgoing(s'));
    assert (i + 1) * MAX_PAYLOAD_SIZE == from + MAX_PAYLOAD_SIZE;
    assert s.stream.buffer[MAX_PAYLOAD_SIZE..][from..to] ==
           s.stream.buffer[from + MAX_PAYLOAD_SIZE..to + MAX_PAYLOAD_SIZE];
    assert s'.nextSeqno + from == s.nextSeqno + (from + MAX_PAYLOAD_SIZE);
  }

  lemma {:induction false} PlanShifts(s: Sender, s': Sender, k: nat)
    requires Count(s') == Count(s) - 1 && k <= Count(s')
    requires forall i :: 0 <= i < Count(s') ==> Nth(s', i) == Nth(s, i + 1)
    ensures Plan(s', k) == Plan(s, k + 1)
    decreases Count(s') - k
  {
    hide Nth, Count;
    if k < Count(s') {
      PlanShifts(s, s', k + 1);
    }
  }

  /** What is left when the plan has been carried out. */
  ghost predicate Done(s: Sender, s': Sender) {
    var fin := if Finishes(s) then 1 else 0;
    && s'.stream.ended == s.stream.ended && s'.stream.buffer == s.stream.buffer[Outgoing(s)..]
    && s'.finSent == (s.finSent || Finishes(s))
    && s'.nextSeqno == s.nextSeqno + Outgoing(s) + fin && s'.window == s.window - Outgoing(s) - fin
  }

  /** The loop carries out a plan that has data. */
  lemma {:induction false} LoopFollows(s: Sender)
    requires s.stream.Valid() && s.window > 0 && s.stream.buffer != []
    ensures s.SendAllData().queue == s.queue + Plan(s, 0) && Done(s, s.SendAllData())
    decreases |s.stream.buffer|
  {
    hide Nth, Sender.SendData;
    SendDataFollows(s);
    var s' := s.SendData();
    if Count(s) > 1 {
      CountIsMore(s);
      RestOfPlan(s, s');
      PlanShifts(s, s', 0);
      LoopFollows(s');
      hide Count;
      DoneLater(s, s', s'.SendAllData());
      assert s.queue + ([Nth(s, 0)] + Plan(s, 1)) == s.queue + [Nth(s, 0)] + Plan(s, 1);
    } else {
      LoopStops(s');
      assert Plan(s, 1) == [] && Plan(s, 0) == [Nth(s, 0)] + Plan(s, 1);
    }
  }

  lemma CountIsMore(s: Sender)
    requires Count(s) > 1
    ensures MAX_PAYLOAD_SIZE < Outgoing(s)
    ensures !FinFirst(s)
  {
    StartsWithin(s, 0);
  }

  lemma LoopStops(s: Sender)
    requires s.stream.Valid() && (s.window == 0 || s.stream.buffer == [])
    ensures s.SendAllData() == s
  {
  }

  lemma DoneLater(s: Sender, s1: Sender, s2: Sender)
    requires Done(s1, s2) && MAX_PAYLOAD_SIZE < Outgoing(s)
    requires Outgoing(s1) == Outgoing(s) - MAX_PAYLOAD_SIZE && Finishes(s1) == Finishes(s)
    requires s1.stream.buffer == s.stream.buffer[MAX_PAYLOAD_SIZE..] && s1.stream.ended == s.stream.ended
    requires s1.nextSeqno == s.nextSeqno + MAX_PAYLOAD_SIZE && s1.window == s.window - MAX_PAYLOAD_SIZE
    requires s1.finSent == s.finSent
    ensures Done(s, s2)
  {
    assert s.stream.buffer[MAX_PAYLOAD_SIZE..][Outgoing(s1)..] == s.stream.buffer[Outgoing(s)..];
  }

  /** Filling the window carries out the plan exactly: the same segments, in order, and no
      others. */
  lemma FillFollows(s: Sender)
    requires s.stream.Valid() && s.nextSeqno > 0
    ensures s.FillWindow().queue == s.queue + Plan(s, 0) && Done(s, s.FillWindow())
  {
    FillIs(s);
    hide Sender.FillWindow, Sender.SendAllData, Sender.SendFin;
    if s.window > 0 && s.stream.buffer != [] {
      LoopFollows(s);
      NoFinAfter(s, s.SendAllData());
    } else {
      FillWithoutData(s);
    }
  }

  lemma FillIs(s: Sender)
    requires s.stream.Valid() && s.nextSeqno > 0
    ensures s.FillWindow() == if s.window == 0 then s else s.SendAllData().SendFin()
  {
    hide Sender.SendAllData, Sender.SendFin;
  }

  /** A plan with data leaves no FIN for later, or no window for it. */
  lemma NoFinAfter(s: Sender, s': Sender)
    requires s.window > 0 && s.stream.buffer != [] && Done(s, s')
    ensures s'.SendFin() == s'
  {
    hide Sender.SendNew;
  }

  lemma FillWithoutData(s: Sender)
    requires s.stream.Valid() && s.nextSeqno > 0 && (s.window == 0 || s.stream.buffer == [])
    ensures s.FillWindow().queue == s.queue + Plan(s, 0) && Done(s, s.FillWindow())
  {
    BarePlan(s);
    hide Sender.FillWindow, Sender.SendAllData, Wrap, Sender.SendNew, Count, Plan, Nth;
    FillIs(s);
    LoopStops(s);
    assert s.stream.buffer[0..] == s.stream.buffer;
    if Finishes(s) {
      SendNewIs(s.(finSent := true), [], true);
    }
  }

  lemma BarePlan(s: Sender)
    requires s.window == 0 || s.stream.buffer == []
    ensures Plan(s, 0) == if Finishes(s) then [NewSegment(Wrap(s.nextSeqno, s.isn), false, [], true)] else []
  {
    hide Wrap;
    assert Outgoing(s) == 0;
    if Finishes(s) {
      assert Count(s) == 1;
      assert Plan(s, 0) == [Nth(s, 0)] + Plan(s, 1) && Plan(s, 1) == [];
    }
  }

  lemma {:induction false} PlanIs(s: Sender, from: nat)
    requires from <= Count(s)
    ensures |Plan(s, from)| == Count(s) - from
    ensures forall i :: 0 <= i < |Plan(s, from)| ==> Plan(s, from)[i] == Nth(s, from + i)
    decreases Count(s) - from
  {
    hide Nth, Count;
    if from < Count(s) {
      PlanIs(s, from + 1);
    }
  }

  // ----- What that means -----

  /** The segments that filling adds. */
  function Added(s: Sender): seq<Segment>
    requires s.stream.Valid() && s.nextSeqno > 0
  {
    FillFollows(s);
    s.FillWindow().queue[|s.queue|..]
  }

  /** Filling cuts the bytes that the window allows into full payloads and a last one, in as
      few segments as possible, each at the number of its first byte; the FIN is on the last of
      them, exactly when the stream has ended and the window reaches one past the bytes. */
  lemma FillCuts(s: Sender)
    requires s.stream.Valid() && s.nextSeqno > 0 && s.stream.buffer != [] && s.window > 0
    ensures var n, added := Min(|s.stream.buffer|, s.window), Added(s);
            && s.queue + added == s.FillWindow().queue
            && |added| == (n + MAX_PAYLOAD_SIZE - 1) / MAX_PAYLOAD_SIZE > 0
            && forall i :: 0 <= i < |added| ==>
                 var from := i * MAX_PAYLOAD_SIZE;
                 && from < n
                 && added[i].payload == s.stream.buffer[from..Min(from + MAX_PAYLOAD_SIZE, n)]
                 && added[i].header.seqno == Wrap(s.nextSeqno + from, s.isn) && !added[i].header.syn
                 && (added[i].header.fin <==>
                       i == |added| - 1 && s.stream.ended && !s.finSent && |s.stream.buffer| < s.window)
  {
    AddedIs(s);
    var added := Added(s);
    assert |added| == (Outgoing(s) + MAX_PAYLOAD_SIZE - 1) / MAX_PAYLOAD_SIZE > 0;
    hide Wrap, Added, Count, Sender.FillWindow;
    forall i | 0 <= i < |added|
      ensures i * MAX_PAYLOAD_SIZE < Outgoing(s) && added[i] == Nth(s, i)
    {
      StartsWithin(s, i);
    }
  }

  lemma AddedIs(s: Sender)
    requires s.stream.Valid() && s.nextSeqno > 0
    ensures s.queue + Added(s) == s.FillWindow().queue && |Added(s)| == Count(s)
    ensures forall i :: 0 <= i < Count(s) ==> Added(s)[i] == Nth(s, i)
  {
    hide Sender.FillWindow, Plan, Nth, Count;
    FillFollows(s);
    PlanIs(s, 0);
    assert Added(s) == Plan(s, 0);
  }

  /** A FIN without payload goes out exactly when the stream has ended with nothing left to
      send, the FIN was not sent, and there is window; it is then the only segment. */
  lemma BareFinIff(s: Sender)
    requires s.stream.Valid() && s.nextSeqno > 0
    ensures (exists seg :: seg in Added(s) && seg.payload == []) <==>
              s.stream.ended && s.stream.buffer == [] && !s.finSent && s.window > 0
    ensures s.stream.buffer == [] ==>
              Added(s) == if s.stream.ended && !s.finSent && s.window > 0
                          then [NewSegment(Wrap(s.nextSeqno, s.isn), false, [], true)] else []
  {
    FillFollows(s);
    if s.stream.buffer != [] && s.window > 0 {
      FillCuts(s);
      hide Sender.FillWindow, Wrap, Plan;
      forall seg | seg in Added(s) ensures seg.payload != [] {
        var i :| 0 <= i < |Added(s)| && Added(s)[i] == seg;
      }
    } else {
      PlanIs(s, 0);
      hide Sender.FillWindow, Wrap;
      assert Added(s) == Plan(s, 0);
      if Count(s) == 1 {
        assert Plan(s, 0) == [Nth(s, 0)];
        assert Nth(s, 0) in Added(s);
      }
    }
  }

  /** The first filling sends the SYN at the initial number before anything else. */
  lemma SynComesFirst(s: Sender)
    requires s.stream.Valid() && s.nextSeqno == 0 && s.window <= 1
    ensures var s' := s.FillWindow();
            && s'.queue == s.queue + [NewSegment(s.isn, true, [], false)]
            && s'.nextSeqno == 1 && s'.window == 0 && s'.stream == s.stream && s'.finSent == s.finSent
  {
    assert Wrap(0, s.isn) == s.isn;
    hide Wrap, InsertByNumber;
    assert NewSegment(s.isn, true, [], false).SeqLen() == 1;
  }
}
