/** What becomes of the sender when its sequence numbers reach 2^32: it compares them raw
    (libsponge/tcp_sender.cc:114-131). */
module WrapAround {
  import opened WrappingIntegers
  import opened Segments
  import opened Senders
  import opened SenderRuns
  import SP = SenderProgress

  const LAST_NUMBER: uint32 := 0xFFFF_FFFF

  /** What added to an absolute number gives the raw one, as long as that is below 2^32: the
      initial number; but if that is the last one there is, the SYN alone lies before the
      wrap, and once it is acknowledged the raw numbers count from 0. */
  function Base(s: Sender): int { if s.isn == LAST_NUMBER && 0 <= s.highestAck then -1 else s.isn }

  /** The next number has not (or, with the last initial number, not again) reached 2^32. */
  predicate BelowWrap(s: Sender) { Base(s) + s.nextSeqno < TWO32 }

  /** The highest acknowledgment so far, if any, is of a number before the wrap, and less than
      2^31 numbers lie between it and the next one. */
  predicate InStep(s: Sender) {
    if s.highestAck < 0 then s.nextSeqno + s.window <= 1
    else Base(s) <= s.highestAck < TWO32 && s.highestAck <= Base(s) + s.nextSeqno < s.highestAck + TWO31
  }

  /** Exactly which acknowledgments of new data ack_received looks at: all of them until the
      next number reaches 2^32, and none from then on. */
  lemma AcceptsIff(s: Sender, n: nat)
    requires InStep(s) && 0 <= s.highestAck < Base(s) + n <= Base(s) + s.nextSeqno
    ensures s.Accepts(Wrap(n, s.isn)) <==> BelowWrap(s)
  {
    RawIs(s, n);
    RawIs(s, s.nextSeqno);
  }

  lemma RawIs(s: Sender, n: nat)
    requires 0 <= Base(s) + n < 2 * TWO32
    ensures Wrap(n, s.isn) == if Base(s) + n < TWO32 then Base(s) + n else Base(s) + n - TWO32
  {
    ModAdd(n, s.isn);
  }

  // ----- What filling adds -----

  /** `s'` has the outstanding segments of `s` and some at later numbers. */
  ghost predicate Adds(s: Sender, s': Sender) {
    && s'.isn == s.isn
    && s.nextSeqno <= s'.nextSeqno
    && (forall x :: x in s.outstanding ==> x in s'.outstanding)
    && forall x :: x in s'.outstanding && x !in s.outstanding ==> NumberedWithin(x, s.isn, s.nextSeqno, s'.nextSeqno)
  }

  ghost predicate NumberedWithin(seg: Segment, isn: uint32, lo: nat, hi: nat) {
    exists k: nat :: lo <= k < hi && seg.header.seqno == Wrap(k, isn)
  }

  lemma AddsThrough(s: Sender, s1: Sender, s2: Sender)
    requires Adds(s, s1) && Adds(s1, s2)
    ensures Adds(s, s2)
  {
    forall x | x in s2.outstanding && x !in s.outstanding ensures NumberedWithin(x, s.isn, s.nextSeqno, s2.nextSeqno) {
      if x in s1.outstanding {
        assert NumberedWithin(x, s.isn, s.nextSeqno, s1.nextSeqno);
      }
    }
  }

  lemma SendNewAdds(s: Sender, syn: bool, payload: seq<byte>, fin: bool)
    ensures Adds(s, s.SendNew(syn, payload, fin))
  {
    hide Wrap;
    InsertElements(s.outstanding, NewSegment(Wrap(s.nextSeqno, s.isn), syn, payload, fin));
  }

  lemma {:induction false} SendAllDataAdds(s: Sender)
    requires s.stream.Valid()
    ensures Adds(s, s.SendAllData())
    decreases |s.stream.buffer|
  {
    if s.window > 0 && s.stream.buffer != [] {
      SendDataAdds(s);
      hide Sender.SendData, Adds;
      SendAllDataAdds(s.SendData());
      AddsThrough(s, s.SendData(), s.SendAllData());
    }
  }

  lemma SendDataAdds(s: Sender)
    requires s.stream.Valid()
    ensures Adds(s, s.SendData())
    ensures s.window > 0 && s.stream.buffer != [] ==> |s.SendData().stream.buffer| < |s.stream.buffer|
  {
    hide Sender.SendNew;
    var n := Min(s.window, MAX_PAYLOAD_SIZE);
    var rest := s.stream.Read(n);
    var fin := rest.Eof() && !s.finSent && |s.stream.Peek(n)| < s.window;
    SendNewAdds(s.(stream := rest, finSent := s.finSent || fin), false, s.stream.Peek(n), fin);
    SendNewFrame(s.(stream := rest, finSent := s.finSent || fin), false, s.stream.Peek(n), fin);
  }

  lemma SendNewFrame(s: Sender, syn: bool, payload: seq<byte>, fin: bool)
    ensures s.SendNew(syn, payload, fin).stream == s.stream && s.SendNew(syn, payload, fin).nextSeqno >= s.nextSeqno
  {
  }

  lemma FillAdds(s: Sender)
    requires s.stream.Valid()
    ensures Adds(s, s.FillWindow())
  {
    hide Sender.SendNew, Sender.SendAllData;
    SendNewAdds(s, true, [], false);
    var s1 := s.SendSyn();
    SendAllDataAdds(s1);
    var s2 := s1.SendAllData();
    SendNewAdds(s2.(finSent := true), false, [], true);
    assert Adds(s2, s2.SendFin());
    hide Adds, Sender.SendSyn, Sender.SendFin;
    AddsThrough(s, s1, s2);
    AddsThrough(s, s2, s2.SendFin());
  }

  // ----- The last initial number -----

  const LAST_SYN: Segment := NewSegment(LAST_NUMBER, true, [], false)

  /** With the last initial number the SYN has the greatest raw number of all: it stays behind
      the others in the outstanding list, which are contiguous up to the next raw number. */
  ghost predicate SynLast(s: Sender) {
    s.isn == LAST_NUMBER && s.nextSeqno - 1 < TWO32 ==>
      if s.nextSeqno == 0 then s.outstanding == []
      else BeforeSyn(s.outstanding, s.nextSeqno - 1)
  }

  ghost predicate BeforeSyn(out: seq<Segment>, to: nat) {
    out != [] && out[|out| - 1] == LAST_SYN && Chain(out[..|out| - 1], to)
  }

  /** The sender's invariant, with this addition. */
  ghost predicate Sound(t: Track) { Inv(t) && SynLast(t.s) }

  lemma {:induction false} InsertBeforeSyn(data: seq<Segment>, seg: Segment)
    requires Chain(data, seg.header.seqno) && seg.header.seqno < LAST_NUMBER && seg.SeqLen() > 0
    ensures InsertByNumber(data + [LAST_SYN], seg) == data + [seg] + [LAST_SYN]
    ensures Chain(data + [seg], RawEnd(seg))
  {
    ChainAppend(data, seg, seg.header.seqno);
    if data == [] {
      assert data + [LAST_SYN] == [LAST_SYN];
    } else {
      ChainBelow(data, seg.header.seqno);
      InsertBeforeSyn(data[1..], seg);
      assert (data + [LAST_SYN])[1..] == data[1..] + [LAST_SYN];
      assert (data + [LAST_SYN])[0] == data[0];
      assert [data[0]] + (data[1..] + [seg] + [LAST_SYN]) == data + [seg] + [LAST_SYN];
    }
  }

  lemma {:induction false} DropThenSyn(data: seq<Segment>, ackno: uint32)
    ensures DropAcked(data + [LAST_SYN], ackno) == DropAcked(data, ackno) + [LAST_SYN]
  {
    if data == [] {
      assert data + [LAST_SYN] == [LAST_SYN];
    } else {
      DropThenSyn(data[1..], ackno);
      assert (data + [LAST_SYN])[1..] == data[1..] + [LAST_SYN];
    }
  }

  lemma DropBeforeSyn(s: Sender, ackno: uint32)
    requires s.isn == LAST_NUMBER && SynLast(s) && s.nextSeqno - 1 < TWO32
    ensures s.nextSeqno > 0 ==> BeforeSyn(DropAcked(s.outstanding, ackno), s.nextSeqno - 1)
    ensures s.nextSeqno == 0 ==> DropAcked(s.outstanding, ackno) == []
    ensures forall x :: x in DropAcked(s.outstanding, ackno) ==> ackno < RawEnd(x)
  {
    if s.nextSeqno > 0 {
      var data := s.outstanding[..|s.outstanding| - 1];
      assert s.outstanding == data + [LAST_SYN];
      DropThenSyn(data, ackno);
      DropKeepsUnacked(data, ackno, s.nextSeqno - 1);
      assert (DropAcked(data, ackno) + [LAST_SYN])[..|DropAcked(data, ackno)|] == DropAcked(data, ackno);
    }
  }

  lemma SendNewSynLast(s: Sender, payload: seq<byte>, fin: bool)
    requires SynLast(s) && s.nextSeqno > 0
    requires var seg := NewSegment(Wrap(s.nextSeqno, s.isn), false, payload, fin); 0 < seg.SeqLen() < TWO16
    ensures SynLast(s.SendNew(false, payload, fin))
  {
    var seg := NewSegment(Wrap(s.nextSeqno, s.isn), false, payload, fin);
    var s' := s.SendNew(false, payload, fin);
    assert s'.outstanding == InsertByNumber(s.outstanding, seg) && s'.nextSeqno == s.nextSeqno + seg.SeqLen();
    if s.isn == LAST_NUMBER && s'.nextSeqno - 1 < TWO32 {
      assert seg.header.seqno == s.nextSeqno - 1;
      var data := s.outstanding[..|s.outstanding| - 1];
      assert s.outstanding == data + [LAST_SYN];
      hide Wrap, Chain, InsertByNumber;
      InsertBeforeSyn(data, seg);
      assert (data + [seg] + [LAST_SYN])[..|data| + 1] == data + [seg];
    }
  }

  lemma SendDataSynLast(s: Sender)
    requires s.stream.Valid() && SynLast(s) && s.nextSeqno > 0 && s.window > 0 && s.stream.buffer != []
    ensures SynLast(s.SendData()) && s.SendData().nextSeqno > 0
    ensures |s.SendData().stream.buffer| < |s.stream.buffer|
  {
    hide Sender.SendNew, Wrap;
    var n := Min(s.window, MAX_PAYLOAD_SIZE);
    var rest := s.stream.Read(n);
    var fin := rest.Eof() && !s.finSent && |s.stream.Peek(n)| < s.window;
    var s1 := s.(stream := rest, finSent := s.finSent || fin);
    assert SynLast(s1);
    SendNewSynLast(s1, s.stream.Peek(n), fin);
    SendNewFrame(s1, false, s.stream.Peek(n), fin);
  }

  lemma {:induction false} SendAllDataSynLast(s: Sender)
    requires s.stream.Valid() && SynLast(s) && s.nextSeqno > 0
    ensures SynLast(s.SendAllData()) && s.SendAllData().nextSeqno > 0
    decreases |s.stream.buffer|
  {
    hide Sender.SendData, SynLast;
    if s.window > 0 && s.stream.buffer != [] {
      SendDataSynLast(s);
      SendAllDataSynLast(s.SendData());
    }
  }

  lemma FillSynLast(s: Sender)
    requires s.stream.Valid() && SynLast(s)
    ensures SynLast(s.FillWindow())
  {
    var s1 := s.SendSyn();
    assert SynLast(s1) && s1.nextSeqno > 0 by { SendSynSynLast(s); }
    hide Sender.SendSyn, Sender.SendAllData, Sender.SendNew;
    SendAllDataSynLast(s1);
    var s2 := s1.SendAllData();
    assert SynLast(s2.(finSent := true));
    hide SynLast, Wrap;
    SendNewSynLast(s2.(finSent := true), [], true);
  }

  lemma SendSynSynLast(s: Sender)
    requires SynLast(s)
    ensures SynLast(s.SendSyn()) && s.SendSyn().nextSeqno > 0
  {
    if s.nextSeqno == 0 {
      RawIsFirst(s.isn);
      hide Wrap;
      assert NewSegment(Wrap(0, s.isn), true, [], false).SeqLen() == 1;
      if s.isn == LAST_NUMBER {
        assert s.SendSyn().outstanding == [LAST_SYN];
      }
    }
  }

  lemma StepSynLast(t: Track, e: Event)
    requires t.s.stream.Valid() && SynLast(t.s)
    ensures SynLast(Step(t, e).s)
  {
    StepIsApply(t, e);
    hide Step, Wrap, Mod32, Sender.FillWindow, Sender.AckReceived, BeforeSyn;
    match e
    case Fill => FillSynLast(t.s);
    case Ack(ackno, win) => AckSynLast(t.s, ackno, win);
    case _ =>
  }

  lemma AckSynLast(s: Sender, ackno: uint32, win: uint16)
    requires s.stream.Valid() && SynLast(s)
    ensures SynLast(s.AckReceived(ackno, win))
  {
    hide Wrap, Mod32, Sender.FillWindow, Sender.Acknowledge, DropAcked, BeforeSyn;
    if s.Accepts(ackno) {
      AcknowledgeFrame(s, ackno, win);
      var s1 := s.Acknowledge(ackno, win);
      if s.isn == LAST_NUMBER && s.nextSeqno - 1 < TWO32 {
        DropBeforeSyn(s, ackno);
      }
      assert SynLast(s1);
      hide SynLast;
      FillSynLast(s1);
    }
  }

  lemma {:induction false} RunStaysSound(t: Track, events: seq<Event>)
    requires Sound(t) && WritesBeforeClose(t.s, events)
    ensures Sound(Run(t, events))
    decreases |events|
  {
    if events != [] {
      StepSynLast(t, events[0]);
      StepKeeps(t, events[0]);
      StepIsApply(t, events[0]);
      hide Inv, SynLast, Step, Apply;
      RunStaysSound(Step(t, events[0]), events[1..]);
    }
  }

  // ----- Segments that reach 2^32 -----

  lemma {:induction false} DropKeepsLast(out: seq<Segment>, seg: Segment, ackno: uint32)
    requires seg in out && RawEnd(seg) >= TWO32
    ensures seg in DropAcked(out, ackno)
  {
    if out[0] != seg && RawEnd(out[0]) <= ackno {
      DropKeepsLast(out[1..], seg, ackno);
    }
  }

  lemma AckKeepsLast(s: Sender, seg: Segment, ackno: uint32, win: uint16)
    requires s.stream.Valid() && seg in s.outstanding && RawEnd(seg) >= TWO32
    ensures seg in s.AckReceived(ackno, win).outstanding
  {
    hide Wrap, Mod32, Sender.FillWindow, Sender.Acknowledge, DropAcked, Adds;
    if s.Accepts(ackno) {
      AcknowledgeFrame(s, ackno, win);
      DropKeepsLast(s.outstanding, seg, ackno);
      var s1 := s.Acknowledge(ackno, win);
      FillAdds(s1);
      OldStay(s1, s1.FillWindow());
    }
  }

  lemma OldStay(s: Sender, s': Sender)
    requires Adds(s, s')
    ensures forall x :: x in s.outstanding ==> x in s'.outstanding
  {
  }

  /** A segment whose last number is 2^32 - 1 or beyond is never dropped, whatever
      acknowledgments come; with the last initial number, that is the SYN. */
  lemma {:induction false} LastIsNeverDropped(t: Track, seg: Segment, events: seq<Event>)
    requires t.s.stream.Valid() && WritesBeforeClose(t.s, events) && seg in t.s.outstanding && RawEnd(seg) >= TWO32
    ensures seg in Run(t, events).s.outstanding
    decreases |events|
  {
    if events != [] {
      StepIsApply(t, events[0]);
      StepKeepsLast(t.s, seg, events[0]);
      hide Step, Apply;
      LastIsNeverDropped(Step(t, events[0]), seg, events[1..]);
    }
  }

  lemma StepKeepsLast(s: Sender, seg: Segment, e: Event)
    requires s.stream.Valid() && seg in s.outstanding && RawEnd(seg) >= TWO32
    ensures seg in Apply(s, e).outstanding
  {
    hide Sender.AckReceived, Sender.FillWindow, Mod32;
    match e
    case Ack(ackno, win) => AckKeepsLast(s, seg, ackno, win);
    case Fill => FillAdds(s);
    case _ =>
  }

  // ----- The acknowledgment that covers a segment -----

  lemma NotAddedAgain(s: Sender, seg: Segment, a: nat)
    requires s.stream.Valid() && seg.header.seqno == Wrap(a, s.isn) && seg !in s.outstanding
    requires a < s.nextSeqno && s.FillWindow().nextSeqno < a + TWO32
    ensures seg !in s.FillWindow().outstanding
  {
    hide Wrap, Sender.FillWindow;
    FillAdds(s);
    if NumberedWithin(seg, s.isn, s.nextSeqno, s.FillWindow().nextSeqno) {
      var k: nat :| s.nextSeqno <= k < s.FillWindow().nextSeqno && Wrap(k, s.isn) == Wrap(a, s.isn);
      WrapCongruence(k, a, s.isn);
    }
  }

  /** Whether an outstanding segment at absolute number `a` is dropped when it is covered: as
      long as the next number is below 2^32, unless it is a SYN that itself reaches 2^32. */
  predicate Droppable(s: Sender, a: nat) {
    BelowWrap(s) && (a == 0 ==> s.isn + 1 < TWO32)
  }

  /** Exactly when the acknowledgment that covers an outstanding segment to its end makes the
      sender drop it. */
  lemma AckDropsIff(t: Track, seg: Segment, a: nat, win: uint16)
    requires Sound(t) && InStep(t.s) && seg in t.s.outstanding && Carries(seg, a, t.s, t.written)
    requires t.s.highestAck < Base(t.s) + a + seg.SeqLen() || (a == 0 && t.s.isn == LAST_NUMBER)
    ensures seg !in t.s.AckReceived(Wrap(a + seg.SeqLen(), t.s.isn), win).outstanding <==> Droppable(t.s, a)
  {
    hide Sound, Carries, Wrap, Sender.Acknowledge, Sender.FillWindow, Mod32;
    OutstandingNumber(t, seg, a);
    var s, n := t.s, a + seg.SeqLen();
    if a == 0 && s.isn == LAST_NUMBER {
      assert RawEnd(seg) >= TWO32 by { RawIsFirst(s.isn); }
      AckKeepsLast(s, seg, Wrap(n, s.isn), win);
    } else if BelowWrap(s) {
      CoveredIsDropped(t, seg, a, win);
    } else {
      AcceptsIff(s, n);
    }
  }

  lemma RawIsFirst(isn: uint32)
    ensures Wrap(0, isn) == isn
  {
  }

  lemma OutstandingNumber(t: Track, seg: Segment, a: nat)
    requires Sound(t) && seg in t.s.outstanding && Carries(seg, a, t.s, t.written)
    ensures t.s.stream.Valid() && seg.header.seqno == Wrap(a, t.s.isn)
    ensures 0 < seg.SeqLen() <= MAX_PAYLOAD_SIZE + 2 && a + seg.SeqLen() <= t.s.nextSeqno
  {
    hide Wrap, Chained, Timed, Carried, SynLast;
  }

  lemma CoveredIsDropped(t: Track, seg: Segment, a: nat, win: uint16)
    requires Sound(t) && t.s.stream.Valid() && InStep(t.s) && BelowWrap(t.s) && seg.header.seqno == Wrap(a, t.s.isn)
    requires t.s.highestAck < Base(t.s) + a + seg.SeqLen() <= Base(t.s) + t.s.nextSeqno
    requires 0 < seg.SeqLen() <= MAX_PAYLOAD_SIZE + 2 && (a == 0 ==> t.s.isn + 1 < TWO32)
    ensures seg !in t.s.AckReceived(Wrap(a + seg.SeqLen(), t.s.isn), win).outstanding
  {
    hide Sound, Wrap, Sender.Acknowledge, Sender.FillWindow, Mod32;
    var s := t.s;
    var ackno: uint32 := Base(s) + a + seg.SeqLen();
    RawIs(s, a + seg.SeqLen());
    RawIs(s, a);
    RawIs(s, s.nextSeqno);
    assert s.Accepts(ackno) && RawEnd(seg) == ackno;
    DroppedByAck(t, seg, ackno, win);
    FillsAtMost(t, ackno, win);
    NotAddedAgain(s.Acknowledge(ackno, win), seg, a);
  }

  lemma DroppedByAck(t: Track, seg: Segment, ackno: uint32, win: uint16)
    requires Sound(t) && BelowWrap(t.s) && t.s.Accepts(ackno) && RawEnd(seg) <= ackno
    ensures seg !in t.s.Acknowledge(ackno, win).outstanding
  {
    hide Chain, DropAcked, Sender.Acknowledge;
    AcknowledgeFrame(t.s, ackno, win);
    if t.s.isn == LAST_NUMBER {
      hide Inv;
      DropBeforeSyn(t.s, ackno);
    } else {
      DropKeepsUnacked(t.s.outstanding, ackno, RawNext(t.s));
    }
  }

  lemma FillsAtMost(t: Track, ackno: uint32, win: uint16)
    requires Sound(t) && t.s.Accepts(ackno)
    ensures var s := t.s.Acknowledge(ackno, win);
            s.isn == t.s.isn && s.nextSeqno == t.s.nextSeqno && s.FillWindow().nextSeqno <= t.s.nextSeqno + 0xFFFF
  {
    AcknowledgeFrame(t.s, ackno, win);
    AcknowledgeKeeps(t, ackno, win);
    hide Inv, Sender.Acknowledge, Sender.FillWindow, Roomy;
    FillKeeps(Emit(t, t.s.Acknowledge(ackno, win)));
  }

  // ----- Every run with acknowledgments of the sender's own numbers stays in step -----

  /** An acknowledgment is of some number sent, at least of the SYN. */
  ghost predicate OwnNumber(s: Sender, e: Event) {
    e.Ack? ==> exists n: nat :: 1 <= n <= s.nextSeqno && e.ackno == Wrap(n, s.isn)
  }

  predicate FewInFlight(s: Sender) { 0 <= s.highestAck ==> Base(s) + s.nextSeqno < s.highestAck + TWO31 }

  ghost predicate OwnNumbers(s: Sender, events: seq<Event>)
    requires s.stream.Valid()
    decreases |events|
  {
    events == [] ||
    (&& OwnNumber(s, events[0])
     && FewInFlight(Apply(s, events[0]))
     && OwnNumbers(Apply(s, events[0]), events[1..]))
  }

  lemma AckStaysInStep(t: Track, n: nat, win: uint16)
    requires Inv(t) && InStep(t.s) && 1 <= n <= t.s.nextSeqno
    requires FewInFlight(t.s.AckReceived(Wrap(n, t.s.isn), win))
    ensures InStep(t.s.AckReceived(Wrap(n, t.s.isn), win))
  {
    hide Wrap, Mod32, Sender.FillWindow, Sender.Acknowledge, AllCarried, Timed, Chained, Numbered, Roomy;
    var s := t.s;
    RawIs(s, n);
    RawIs(s, s.nextSeqno);
    var ackno := Wrap(n, s.isn);
    if s.Accepts(ackno) {
      AcknowledgeFrame(s, ackno, win);
      AcknowledgeKeeps(t, ackno, win);
      FillKeeps(Emit(t, s.Acknowledge(ackno, win)));
    }
  }

  lemma StepStaysInStep(t: Track, e: Event)
    requires Inv(t) && InStep(t.s) && OwnNumber(t.s, e) && FewInFlight(Step(t, e).s)
    ensures InStep(Step(t, e).s)
  {
    StepIsApply(t, e);
    match e
    case Ack(ackno, win) =>
      var n: nat :| 1 <= n <= t.s.nextSeqno && ackno == Wrap(n, t.s.isn);
      AckStaysInStep(t, n, win);
    case Fill =>
      hide Wrap, Sender.FillWindow, AllCarried, Timed, Chained, Numbered, Roomy;
      FillKeeps(t);
    case _ =>
  }

  /** So AckDropsIff speaks about every state of every such run from a fresh sender. */
  lemma {:induction false} RunStaysInStep(t: Track, events: seq<Event>)
    requires Inv(t) && InStep(t.s) && WritesBeforeClose(t.s, events) && OwnNumbers(t.s, events)
    ensures InStep(Run(t, events).s)
    decreases |events|
  {
    if events != [] {
      StepIsApply(t, events[0]);
      StepStaysInStep(t, events[0]);
      StepKeeps(t, events[0]);
      hide Inv, InStep, Step, Apply;
      RunStaysInStep(Step(t, events[0]), events[1..]);
    }
  }

  lemma StartInStep(capacity: nat, retxTimeout: uint16, isn: uint32)
    ensures Sound(Start(capacity, retxTimeout, isn)) && InStep(Start(capacity, retxTimeout, isn).s)
  {
    StartInv(capacity, retxTimeout, isn);
  }

  // ----- After the wrap -----

  /** The next number has passed 2^32, the highest acknowledgment has not, and the window
      left cannot carry the next number around to it. */
  predicate Deaf(s: Sender) {
    && Base(s) <= s.highestAck < TWO32 <= Base(s) + s.nextSeqno
    && Base(s) + s.nextSeqno + s.window < s.highestAck + TWO32
  }

  lemma WrappedIsDeaf(s: Sender)
    requires InStep(s) && 0 <= s.highestAck
    ensures Deaf(s) <==> !BelowWrap(s)
  {
  }

  lemma DeafAcceptsNothing(s: Sender, ackno: uint32)
    requires Deaf(s) && 0 <= s.highestAck
    ensures !s.Accepts(ackno)
  {
    RawIs(s, s.nextSeqno);
  }

  lemma StepStaysDeaf(t: Track, e: Event)
    requires Inv(t) && Deaf(t.s) && 0 <= t.s.highestAck
    ensures var s' := Step(t, e).s;
            Deaf(s') && s'.highestAck == t.s.highestAck && forall x :: x in t.s.outstanding ==> x in s'.outstanding
  {
    StreamOf(t);
    StepIsApply(t, e);
    hide Inv, Step, Wrap, Sender.FillWindow, Roomy;
    match e
    case Ack(ackno, win) => DeafAcceptsNothing(t.s, ackno);
    case Fill =>
      FillKeeps(t);
      FillAdds(t.s);
      hide Adds;
      OldStay(t.s, t.s.FillWindow());
    case _ =>
  }

  /** For good: no run of a deaf sender, whatever acknowledgments it brings, acknowledges
      anything or drops an outstanding segment. */
  lemma {:induction false} DeafForGood(t: Track, events: seq<Event>)
    requires Inv(t) && Deaf(t.s) && 0 <= t.s.highestAck && WritesBeforeClose(t.s, events)
    ensures var s' := Run(t, events).s;
            Deaf(s') && s'.highestAck == t.s.highestAck && forall x :: x in t.s.outstanding ==> x in s'.outstanding
    decreases |events|
  {
    if events != [] {
      StepStaysDeaf(t, events[0]);
      StepKeeps(t, events[0]);
      StepIsApply(t, events[0]);
      hide Inv, Deaf, Step, Apply;
      DeafForGood(Step(t, events[0]), events[1..]);
    }
  }

  /** Over every run from a fresh sender with acknowledgments of its own numbers and less than
      2^31 of them in flight: once something is acknowledged and the next number has reached
      2^32, nothing more is ever acknowledged or dropped, whatever comes later. */
  lemma WrapIsFinal(capacity: nat, retxTimeout: uint16, isn: uint32, events: seq<Event>, later: seq<Event>)
    requires var t0 := Start(capacity, retxTimeout, isn); WritesBeforeClose(t0.s, events) && OwnNumbers(t0.s, events)
    requires WritesBeforeClose(Run(Start(capacity, retxTimeout, isn), events).s, later)
    ensures var t := Run(Start(capacity, retxTimeout, isn), events);
            0 <= t.s.highestAck && !BelowWrap(t.s) ==>
              && Run(t, later).s.highestAck == t.s.highestAck
              && forall x :: x in t.s.outstanding ==> x in Run(t, later).s.outstanding
  {
    var t0 := Start(capacity, retxTimeout, isn);
    StartInStep(capacity, retxTimeout, isn);
    RunStaysInStep(t0, events);
    RunStaysSound(t0, events);
    var t := Run(t0, events);
    hide Inv, Run, Start, SynLast;
    if 0 <= t.s.highestAck && !BelowWrap(t.s) {
      WrappedIsDeaf(t.s);
      DeafForGood(t, later);
    }
  }

  // ----- A run that wraps -----

  const WRAP_RUN: seq<Event> := [Fill, Ack(0xFFFF_FFFE, 2), Write([97, 98]), Fill]

  lemma WrapStates() returns (ss: seq<Sender>)
    ensures |ss| == 5 && ss[0] == Start(100, 1000, 0xFFFF_FFFD).s
    ensures forall i :: 0 <= i < 4 ==>
              ss[i].stream.Valid() && !ss[i].stream.ended && ss[i + 1] == Apply(ss[i], WRAP_RUN[i])
    ensures Deaf(ss[4]) && ss[4].nextSeqno == 3
    ensures ss[4].outstanding == [NewSegment(0xFFFF_FFFE, false, [97, 98], false)]
  {
    hide Sender.FillWindow, Sender.Acknowledge;
    var s0 := Start(100, 1000, 0xFFFF_FFFD).s;
    SP.FillSyn(s0);
    var s1 := Apply(s0, Fill);
    AcknowledgeFrame(s1, 0xFFFF_FFFE, 2);
    var a := s1.Acknowledge(0xFFFF_FFFE, 2);
    assert a.outstanding == [] && a.window == 2;
    SP.FillNothing(a);
    var s2 := Apply(s1, Ack(0xFFFF_FFFE, 2));
    var s3 := Apply(s2, Write([97, 98]));
    assert s3.stream.buffer == [97, 98];
    SP.FillOnce(s3, 2);
    var s4 := Apply(s3, Fill);
    assert Wrap(1, 0xFFFF_FFFD) == 0xFFFF_FFFE;
    assert s3.stream.buffer[..2] == [97, 98];
    ss := [s0, s1, s2, s3, s4];
  }

  /** A run from a fresh sender whose next number wraps to 0 with two bytes in flight: however
      it goes on, they are never acknowledged. */
  lemma WrapWitness(events: seq<Event>)
    requires var t := Run(Start(100, 1000, 0xFFFF_FFFD), WRAP_RUN); WritesBeforeClose(t.s, events)
    ensures var t := Run(Start(100, 1000, 0xFFFF_FFFD), WRAP_RUN);
            && WritesBeforeClose(Start(100, 1000, 0xFFFF_FFFD).s, WRAP_RUN)
            && t.s.nextSeqno == 3
            && NewSegment(0xFFFF_FFFE, false, [97, 98], false) in Run(t, events).s.outstanding
  {
    hide Apply;
    var t0 := Start(100, 1000, 0xFFFF_FFFD);
    var ss := WrapStates();
    SP.RunUnfolds(t0, WRAP_RUN, ss);
    StartInv(100, 1000, 0xFFFF_FFFD);
    RunKeeps(t0, WRAP_RUN);
    DeafForGood(Run(t0, WRAP_RUN), events);
  }
}
