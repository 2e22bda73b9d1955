/** Two connections and the network between them, in both directions at once. */
module Duplex {
  import opened WrappingIntegers
  import opened Segments
  import opened Receivers
  import opened Senders
  import opened Connections
  import SR = SenderRuns
  import CR = ConnectionRuns
  import DP = DataPath

  /** One endpoint with its past: its history, what its reader took, the acknowledgments it
      may have sent and every segment it ever put out. */
  datatype Side = Side(
    h: CR.History,
    consumed: seq<byte>,
    acks: set<(uint32, uint16)>,
    wire: set<Segment>
  ) {
    predicate Valid() { h.c.Valid() && h.t.s.stream.Valid() }

    /** What its application wrote. */
    function Outbound(): seq<byte> { h.t.written }

    /** Everything its peer's stream delivered so far. */
    function Inbound(): seq<byte> { consumed + h.c.receiver.Output().buffer }
  }

  datatype Pair = Pair(a: Side, b: Side)

  /** The direction from one side to the other, as a data path. */
  function Path(from: Side, to: Side): DP.System { DP.System(from.h.t, to.h.c.receiver, to.consumed, to.acks) }

  /** What the receiver would advertise now. */
  function CurrentAck(r: Receiver): set<(uint32, uint16)> {
    if r.Ackno().Some? then {(r.Ackno().value, r.AdvertisedWindow())} else {}
  }

  /** What the reader takes in the event. */
  function Taken(c: Connection, e: CR.Event): seq<byte> {
    if e.Read? then c.receiver.Output().Peek(e.len) else []
  }

  function Do(s: Side, e: CR.Event): (s': Side)
    requires s.Valid()
    ensures s'.Valid()
  {
    var h' := CR.Step(s.h, e);
    Side(h', s.consumed + Taken(s.h.c, e), s.acks + CurrentAck(h'.c.receiver), s.wire + SR.Elements(h'.c.segmentsOut))
  }

  /** The connection hands the segment to its two halves. */
  predicate Processes(c: Connection, seg: Segment) { (c.active || seg.header.syn) && !seg.header.rst }

  /** A segment that arrives was put out by the other side at some time, and when it is
      processed its number has not been reused. */
  ghost predicate Enabled(s: Side, other: Side, e: CR.Event) {
    && (e.Write? ==> !s.h.c.sender.stream.ended && |s.h.t.written| + |e.data| + 2 < TWO64)
    && (e.Receive? ==> e.seg in other.wire && (Processes(s.h.c, e.seg) ==> DP.Near(Path(other, s), e.seg)))
  }

  /** A segment is a reset, or the data of one the sender emitted with an acknowledgment the
      receiver stood for. */
  ghost predicate Genuine(seg: Segment, emitted: set<Segment>, acks: set<(uint32, uint16)>) {
    seg.header.rst ||
    (&& (exists x :: x in emitted && DP.SameData(x, seg))
     && (seg.header.ack ==> (seg.header.ackno, seg.header.win) in acks))
  }

  ghost predicate SideOk(s: Side) {
    && CR.Inv(s.h)
    && SR.Elements(s.h.c.segmentsOut) <= s.wire
    && forall seg :: seg in s.wire ==> Genuine(seg, s.h.t.wire, s.acks)
  }

  ghost predicate Inv(p: Pair) {
    DP.Inv(Path(p.a, p.b)) && DP.Inv(Path(p.b, p.a)) && SideOk(p.a) && SideOk(p.b)
  }

  // ----- The direction in which the event sends -----

  lemma ProcessedKeeps(y: DP.System, seg: Segment)
    requires DP.Inv(y) && (seg.header.ack ==> (seg.header.ackno, seg.header.win) in y.acks)
    ensures DP.Inv(y.(t := CR.Processed(y.t, seg)))
  {
    hide SR.Step, DP.Receiving, DP.Acknowledging, SR.AllCarried, SR.Chained, SR.Timed;
    var ack := SR.Ack(seg.header.ackno, seg.header.win);
    var y2 := y;
    if seg.header.ack {
      DP.SenderKeeps(y, ack);
      y2 := y.(t := SR.Step(y.t, ack));
    }
    var y3 := y2;
    if y2.t.s.queue == [] && seg.SeqLen() > 0 {
      DP.SenderKeeps(y2, SR.Empty);
      y3 := y2.(t := SR.Step(y2.t, SR.Empty));
    }
    DP.SenderKeeps(y3, SR.Drain);
  }

  lemma ShareKeeps(y: DP.System, active: bool, e: CR.Event)
    requires DP.Inv(y)
    requires e.Write? ==> !y.t.s.stream.ended && |y.t.written| + |e.data| + 2 < TWO64
    requires e.Receive? && e.seg.header.ack && !e.seg.header.rst ==> (e.seg.header.ackno, e.seg.header.win) in y.acks
    ensures DP.Inv(y.(t := CR.SenderShare(y.t, active, e)))
  {
    assert y.t.s.stream.Valid();
    hide SR.Step, DP.Inv, CR.Processed;
    match e
    case Connect => FilledKeeps(y);
    case Write(data) =>
      DP.SenderKeeps(y, SR.Write(data));
      FilledKeeps(y.(t := SR.Step(y.t, SR.Write(data))));
    case EndInput =>
      DP.SenderKeeps(y, SR.Close);
      FilledKeeps(y.(t := SR.Step(y.t, SR.Close)));
    case Tick(ms) =>
      var y1 := y.(t := SR.Step(y.t, SR.Tick(ms)));
      DP.SenderKeeps(y, SR.Tick(ms));
      DP.SenderKeeps(y1, SR.Drain);
      DP.SenderKeeps(y1.(t := SR.Step(y1.t, SR.Drain)), SR.Fail);
    case Receive(seg) =>
      var y1 := if active then y else y.(t := SR.Step(y.t, SR.Fill));
      DP.SenderKeeps(y, SR.Fill);
      DP.SenderKeeps(y1, SR.Fail);
      if !seg.header.rst {
        ProcessedKeeps(y1, seg);
      }
    case _ =>
  }

  lemma FilledKeeps(y: DP.System)
    requires DP.Inv(y)
    ensures DP.Inv(y.(t := CR.FilledAndDrained(y.t)))
  {
    assert y.t.s.stream.Valid();
    hide SR.Step, DP.Inv;
    DP.SenderKeeps(y, SR.Fill);
    DP.SenderKeeps(y.(t := SR.Step(y.t, SR.Fill)), SR.Drain);
  }

  // ----- The direction in which the event receives -----

  function ErrorMarked(r: Receiver): Receiver {
    r.(reassembler := r.reassembler.(output := r.Output().SetError()))
  }

  lemma ReceiverAfter(c: Connection, e: CR.Event)
    requires c.Valid()
    ensures CR.Apply(c, e).receiver ==
            if e.Receive? && Processes(c, e.seg) then c.receiver.SegmentReceived(e.seg)
            else if e.Read? then c.receiver.Read(e.len)
            else if CR.Fails(c.sender, c.active, e) then ErrorMarked(c.receiver)
            else c.receiver
  {
    hide Sender.FillWindow, Sender.Tick, Receiver.SegmentReceived, AllOutgoing, TotalLen;
    if e.Receive? {
      hide Connection.Process;
      var d := c.(sinceLast := 0);
      CR.ProcessEffect(if c.active then d else d.ConnectSender(), e.seg);
    }
  }

  lemma ErrorKeeps(y: DP.System)
    requires DP.Inv(y)
    ensures DP.Inv(y.(rcv := ErrorMarked(y.rcv)))
  {
    hide SR.Inv, Wrap;
    var y' := y.(rcv := ErrorMarked(y.rcv));
    assert y'.rcv.AbsoluteAck() == y.rcv.AbsoluteAck();
    assert SR.Numbered(y.t.s, y.t.written) by { NumberedPart(y.t); }
  }

  lemma NumberedPart(t: SR.Track)
    requires SR.Inv(t)
    ensures SR.Numbered(t.s, t.written)
  {
  }

  lemma AckKeeps(y: DP.System)
    requires DP.Inv(y)
    ensures DP.Inv(y.(acks := y.acks + CurrentAck(y.rcv)))
  {
    assert y.Valid();
    if y.rcv.synReceived {
      DP.SendAckKeeps(y);
      assert DP.Next(y, DP.SendAck) == y.(acks := y.acks + CurrentAck(y.rcv));
    } else {
      assert y.acks + CurrentAck(y.rcv) == y.acks;
    }
  }

  lemma DeliverKeeps(y: DP.System, seg: Segment)
    requires DP.Inv(y) && DP.Enabled(y, DP.Deliver(seg))
    ensures DP.Inv(y.(rcv := y.rcv.SegmentReceived(seg)))
  {
    assert y.Valid();
    assert DP.Next(y, DP.Deliver(seg)) == y.(rcv := y.rcv.SegmentReceived(seg));
    hide *;
    DP.StepKeeps(y, DP.Deliver(seg));
  }

  lemma ReadKeeps(y: DP.System, len: nat)
    requires DP.Inv(y)
    ensures DP.Inv(y.(rcv := y.rcv.Read(len), consumed := y.consumed + y.rcv.Output().Peek(len)))
  {
    assert y.Valid() && DP.Enabled(y, DP.Read(len));
    assert DP.Next(y, DP.Read(len)) == y.(rcv := y.rcv.Read(len), consumed := y.consumed + y.rcv.Output().Peek(len));
    hide *;
    DP.StepKeeps(y, DP.Read(len));
  }

  lemma ReceiverKeeps(s: Side, other: Side, e: CR.Event)
    requires Inv(Pair(s, other)) && Enabled(s, other, e)
    ensures DP.Inv(Path(other, s).(rcv := CR.Apply(s.h.c, e).receiver, consumed := s.consumed + Taken(s.h.c, e)))
  {
    hide DP.Inv, DP.Near, CR.Apply;
    var y := Path(other, s);
    assert s.h.c.Valid() && DP.Inv(y);
    ReceiverAfter(s.h.c, e);
    if e.Receive? && Processes(s.h.c, e.seg) {
      ArrivalIsEnabled(s, other, e.seg);
      hide *;
      DeliverKeeps(y, e.seg);
      NothingTaken(s, e);
    } else if e.Read? {
      assert Taken(s.h.c, e) == y.rcv.Output().Peek(e.len);
      hide *;
      ReadKeeps(y, e.len);
    } else {
      NothingTaken(s, e);
      hide *;
      if CR.Fails(s.h.c.sender, s.h.c.active, e) {
        ErrorKeeps(y);
      }
    }
  }

  lemma NothingTaken(s: Side, e: CR.Event)
    ensures !e.Read? ==> s.consumed + Taken(s.h.c, e) == s.consumed
  {
  }

  lemma HeardKeeps(s: Side, other: Side, e: CR.Event)
    requires Inv(Pair(s, other)) && Enabled(s, other, e)
    ensures DP.Inv(Path(other, Do(s, e)))
  {
    var s' := Do(s, e);
    var y := Path(other, s).(rcv := s'.h.c.receiver, consumed := s'.consumed);
    ReceiverKeeps(s, other, e);
    assert s'.acks == s.acks + CurrentAck(s'.h.c.receiver);
    assert Path(other, s') == y.(acks := y.acks + CurrentAck(y.rcv));
    assert s'.h.c == CR.Apply(s.h.c, e);
    hide *;
    AckKeeps(y);
  }

  lemma ArrivalIsEnabled(s: Side, other: Side, seg: Segment)
    requires Inv(Pair(s, other)) && Enabled(s, other, CR.Receive(seg)) && Processes(s.h.c, seg)
    ensures DP.Enabled(Path(other, s), DP.Deliver(seg))
    ensures seg.header.ack ==> (seg.header.ackno, seg.header.win) in other.acks
  {
    hide DP.Inv, DP.Near;
    assert Genuine(seg, other.h.t.wire, other.acks);
  }

  // ----- What goes out is genuine -----

  lemma GenuineGrows(seg: Segment, emitted: set<Segment>, acks: set<(uint32, uint16)>,
                     emitted': set<Segment>, acks': set<(uint32, uint16)>)
    requires Genuine(seg, emitted, acks) && emitted <= emitted' && acks <= acks'
    ensures Genuine(seg, emitted', acks')
  {
  }

  lemma {:induction false} OutgoingIsGenuine(queue: seq<Segment>, r: Receiver, emitted: set<Segment>,
                                             acks: set<(uint32, uint16)>)
    requires SR.Elements(queue) <= emitted && CurrentAck(r) <= acks
    requires forall x :: x in queue ==> !x.header.ack
    ensures forall seg :: seg in AllOutgoing(queue, r) ==> Genuine(seg, emitted, acks)
  {
    if queue != [] {
      assert queue[0] in SR.Elements(queue);
      assert SR.Elements(queue[1..]) <= SR.Elements(queue);
      OutgoingIsGenuine(queue[1..], r, emitted, acks);
      hide Receiver.Ackno, Mod16, Receiver.AdvertisedWindow;
      var first := Outgoing(queue[0], r);
      assert DP.SameData(queue[0], first);
      assert Genuine(first, emitted, acks);
    }
  }

  /** Draining the queue of a sender whose queue is on its wire puts out genuine segments. */
  lemma SentIsGenuine(c: Connection, t: SR.Track, emitted: set<Segment>, acks: set<(uint32, uint16)>)
    requires SR.AllCarried(t) && t.s == c.sender && t.wire <= emitted && CurrentAck(c.receiver) <= acks
    requires forall seg :: seg in c.segmentsOut ==> Genuine(seg, emitted, acks)
    ensures forall seg :: seg in c.SendSegments().segmentsOut ==> Genuine(seg, emitted, acks)
  {
    hide Genuine, AllOutgoing, CurrentAck;
    assert forall x :: x in c.sender.queue ==> x in SR.Elements(c.sender.queue);
    OutgoingIsGenuine(c.sender.queue, c.receiver, emitted, acks);
  }

  lemma AnsweredKeeps(t: SR.Track, seg: Segment)
    requires SR.Inv(t)
    ensures SR.Inv(CR.Answered(t, seg)) && CR.Answered(t, seg).wire <= CR.Processed(t, seg).wire
  {
    assert t.s.stream.Valid();
    hide SR.Inv;
    var ack := SR.Ack(seg.header.ackno, seg.header.win);
    SR.StepKeeps(t, ack);
    SR.StepKeeps(if seg.header.ack then SR.Step(t, ack) else t, SR.Empty);
    WireGrows(CR.Answered(t, seg), SR.Drain);
    hide SR.Step;
  }

  lemma WireGrows(t: SR.Track, e: SR.Event)
    requires t.s.stream.Valid()
    ensures t.wire <= SR.Step(t, e).wire
  {
    hide SR.Apply;
  }

  lemma ProcessSends(c: Connection, seg: Segment)
    requires c.Valid()
    ensures var d := c.Dispatch(seg).Answer(seg);
            && d.receiver == c.receiver.SegmentReceived(seg) && d.segmentsOut == c.segmentsOut
            && c.Process(seg).segmentsOut == d.SendSegments().segmentsOut
  {
    hide Sender.AckReceived, Sender.SendEmpty, Receiver.SegmentReceived, AllOutgoing;
  }

  lemma ProcessIsGenuine(c: Connection, t: SR.Track, seg: Segment, emitted: set<Segment>, acks: set<(uint32, uint16)>)
    requires c.Valid() && SR.Inv(t) && t.s == c.sender
    requires CR.Processed(t, seg).wire <= emitted && CurrentAck(c.receiver.SegmentReceived(seg)) <= acks
    requires forall x :: x in c.segmentsOut ==> Genuine(x, emitted, acks)
    ensures forall x :: x in c.Process(seg).segmentsOut ==> Genuine(x, emitted, acks)
  {
    AnsweredKeeps(t, seg);
    var t' := CR.Answered(t, seg);
    assert SR.AllCarried(t');
    ProcessSends(c, seg);
    CR.ProcessedShare(c, t, seg);
    hide *;
    SentIsGenuine(c.Dispatch(seg).Answer(seg), t', emitted, acks);
  }

  lemma FillIsGenuine(c: Connection, t: SR.Track, emitted: set<Segment>, acks: set<(uint32, uint16)>)
    requires c.Valid() && SR.Inv(t) && t.s == c.sender
    requires CR.FilledAndDrained(t).wire <= emitted && CurrentAck(c.receiver) <= acks
    requires forall x :: x in c.segmentsOut ==> Genuine(x, emitted, acks)
    ensures forall x :: x in c.UpdateSender().segmentsOut ==> Genuine(x, emitted, acks)
  {
    SR.StepKeeps(t, SR.Fill);
    SR.StepIsApply(t, SR.Fill);
    var t' := SR.Step(t, SR.Fill);
    assert SR.AllCarried(t');
    WireGrows(t', SR.Drain);
    var c1 := c.(sender := c.sender.FillWindow());
    assert c.UpdateSender() == c1.SendSegments();
    assert c1.sender == t'.s;
    assert t'.wire <= emitted;
    hide *;
    SentIsGenuine(c1, t', emitted, acks);
  }

  lemma TickIsGenuine(c: Connection, t: SR.Track, ms: nat, emitted: set<Segment>, acks: set<(uint32, uint16)>)
    requires c.Valid() && SR.Inv(t) && t.s == c.sender
    requires SR.Step(t, SR.Tick(ms)).wire <= emitted && CurrentAck(c.receiver) <= acks
    requires forall x :: x in c.segmentsOut ==> Genuine(x, emitted, acks)
    ensures forall x :: x in c.Tick(ms).segmentsOut ==> Genuine(x, emitted, acks)
  {
    SR.StepKeeps(t, SR.Tick(ms));
    SR.StepIsApply(t, SR.Tick(ms));
    var t' := SR.Step(t, SR.Tick(ms));
    var c1 := c.(sinceLast := c.sinceLast + ms, sender := c.sender.Tick(ms));
    assert SR.AllCarried(t') && c1.sender == t'.s;
    TickSends(c, ms);
    assert Genuine(RST_SEGMENT, emitted, acks);
    hide *;
    SentIsGenuine(c1, t', emitted, acks);
  }

  lemma TickSends(c: Connection, ms: nat)
    requires c.Valid()
    ensures var d := c.(sinceLast := c.sinceLast + ms, sender := c.sender.Tick(ms));
            c.Tick(ms).segmentsOut == d.SendSegments().segmentsOut || c.Tick(ms).segmentsOut == [RST_SEGMENT]
  {
    hide Sender.Tick, AllOutgoing, TotalLen;
  }

  lemma WriteIsGenuine(c: Connection, t: SR.Track, data: seq<byte>, emitted: set<Segment>, acks: set<(uint32, uint16)>)
    requires c.Valid() && SR.Inv(t) && t.s == c.sender && !t.s.stream.ended
    requires CR.FilledAndDrained(SR.Step(t, SR.Write(data))).wire <= emitted && CurrentAck(c.receiver) <= acks
    requires forall x :: x in c.segmentsOut ==> Genuine(x, emitted, acks)
    ensures forall x :: x in c.Write(data).segmentsOut ==> Genuine(x, emitted, acks)
  {
    var t' := SR.Step(t, SR.Write(data));
    var c' := c.(sender := c.sender.(stream := c.sender.stream.Write(data)));
    assert c.Write(data) == c'.UpdateSender() && c'.sender == t'.s && c'.Valid();
    SR.StepKeeps(t, SR.Write(data));
    hide *;
    FillIsGenuine(c', t', emitted, acks);
  }

  lemma EndIsGenuine(c: Connection, t: SR.Track, emitted: set<Segment>, acks: set<(uint32, uint16)>)
    requires c.Valid() && SR.Inv(t) && t.s == c.sender
    requires CR.FilledAndDrained(SR.Step(t, SR.Close)).wire <= emitted && CurrentAck(c.receiver) <= acks
    requires forall x :: x in c.segmentsOut ==> Genuine(x, emitted, acks)
    ensures forall x :: x in c.EndInput().segmentsOut ==> Genuine(x, emitted, acks)
  {
    var t' := SR.Step(t, SR.Close);
    var c' := c.(sender := c.sender.(stream := c.sender.stream.EndInput()));
    assert c.EndInput() == c'.UpdateSender() && c'.sender == t'.s && c'.Valid();
    SR.StepKeeps(t, SR.Close);
    hide *;
    FillIsGenuine(c', t', emitted, acks);
  }

  lemma ReceiveIsGenuine(c: Connection, t: SR.Track, seg: Segment, emitted: set<Segment>, acks: set<(uint32, uint16)>)
    requires c.Valid() && SR.Inv(t) && t.s == c.sender
    requires CR.Received(t, c.active, seg).wire <= emitted && CurrentAck(c.Receive(seg).receiver) <= acks
    requires forall x :: x in c.segmentsOut ==> Genuine(x, emitted, acks)
    ensures forall x :: x in c.Receive(seg).segmentsOut ==> Genuine(x, emitted, acks)
  {
    hide Sender.FillWindow, Connection.Process, CR.Processed, CurrentAck, Genuine, SR.Step, SR.Inv;
    if Processes(c, seg) {
      var d := c.(sinceLast := 0);
      var c1 := if c.active then d else d.ConnectSender();
      var t1 := if c.active then t else SR.Step(t, SR.Fill);
      SR.StepIsApply(t, SR.Fill);
      SR.StepKeeps(t, SR.Fill);
      CR.ProcessEffect(c1, seg);
      assert c.Receive(seg) == c1.Process(seg);
      ProcessIsGenuine(c1, t1, seg, emitted, acks);
    }
  }

  lemma ConnectSends(c: Connection)
    requires c.Valid()
    ensures c.Connect().segmentsOut == c.UpdateSender().segmentsOut
  {
    hide Sender.FillWindow, AllOutgoing;
  }

  lemma TickedWire(t: SR.Track, ms: nat)
    requires t.s.stream.Valid()
    ensures SR.Step(t, SR.Tick(ms)).wire <= CR.Ticked(t, ms).wire
  {
    var t1 := SR.Step(t, SR.Tick(ms));
    var t2 := SR.Step(t1, SR.Drain);
    hide SR.Step;
    WireGrows(t1, SR.Drain);
    WireGrows(t2, SR.Fail);
  }

  /** Whatever a connection puts out is genuine. */
  lemma OutIsGenuine(c: Connection, t: SR.Track, e: CR.Event, emitted: set<Segment>, acks: set<(uint32, uint16)>)
    requires c.Valid() && SR.Inv(t) && t.s == c.sender && (e.Write? ==> !t.s.stream.ended)
    requires CR.SenderShare(t, c.active, e).wire <= emitted && CurrentAck(CR.Apply(c, e).receiver) <= acks
    requires forall x :: x in c.segmentsOut ==> Genuine(x, emitted, acks)
    ensures forall x :: x in CR.Apply(c, e).segmentsOut ==> Genuine(x, emitted, acks)
  {
    hide CR.Received, CR.Ticked, CR.FilledAndDrained, SR.Step, Connection.Connect, Connection.Write,
         Connection.EndInput, Connection.Tick, Connection.Receive, CurrentAck, Genuine, SR.Inv;
    if !e.Receive? {
      AckStays(c, e);
    }
    match e
    case Connect =>
      hide *;
      FillIsGenuine(c, t, emitted, acks);
      ConnectSends(c);
    case Write(data) =>
      hide *;
      WriteIsGenuine(c, t, data, emitted, acks);
    case EndInput =>
      hide *;
      EndIsGenuine(c, t, emitted, acks);
    case Tick(ms) =>
      hide *;
      TickedWire(t, ms);
      TickIsGenuine(c, t, ms, emitted, acks);
    case Receive(seg) =>
      hide *;
      ReceiveIsGenuine(c, t, seg, emitted, acks);
    case _ =>
  }

  /** Only an arriving segment or the reader changes what the receiver would advertise. */
  lemma AckStays(c: Connection, e: CR.Event)
    requires c.Valid()
    ensures !e.Receive? && !e.Read? ==> CurrentAck(CR.Apply(c, e).receiver) == CurrentAck(c.receiver)
  {
    ReceiverAfter(c, e);
    hide CR.Apply, Mod16, Mod32, CR.Fails;
  }

  lemma WireStaysGenuine(s: Side, emitted: set<Segment>, acks: set<(uint32, uint16)>)
    requires SideOk(s) && s.h.t.wire <= emitted && s.acks <= acks
    ensures forall x :: x in s.wire ==> Genuine(x, emitted, acks)
    ensures forall x :: x in s.h.c.segmentsOut ==> Genuine(x, emitted, acks)
  {
    hide CR.Inv, Genuine;
    forall x | x in s.wire ensures Genuine(x, emitted, acks) {
      GenuineGrows(x, s.h.t.wire, s.acks, emitted, acks);
    }
    assert forall x :: x in s.h.c.segmentsOut ==> x in SR.Elements(s.h.c.segmentsOut);
  }

  lemma SideKeeps(s: Side, e: CR.Event)
    requires SideOk(s) && (e.Write? ==> !s.h.c.sender.stream.ended)
    ensures SideOk(Do(s, e)) && SR.Grows(s.h.t, Do(s, e).h.t)
  {
    hide CR.Apply, CR.SenderShare, Genuine, SR.Inv, CurrentAck;
    var s' := Do(s, e);
    CR.StepInv(s.h, e);
    CR.ShareLive(s.h.t, s.h.c.active, e);
    var emitted, acks := s'.h.t.wire, s'.acks;
    hide CR.Inv, CR.Filled;
    WireStaysGenuine(s, emitted, acks);
    OutIsGenuine(s.h.c, s.h.t, e, emitted, acks);
  }

  // ----- Every step keeps all of it -----

  lemma SentKeeps(s: Side, other: Side, e: CR.Event)
    requires Inv(Pair(s, other)) && Enabled(s, other, e)
    ensures DP.Inv(Path(Do(s, e), other))
  {
    var y := Path(s, other);
    assert Path(Do(s, e), other) == y.(t := CR.SenderShare(y.t, s.h.c.active, e));
    assert DP.Inv(y) && s.h.t.s == s.h.c.sender;
    if e.Receive? {
      assert Genuine(e.seg, other.h.t.wire, other.acks);
    }
    hide *;
    ShareKeeps(y, s.h.c.active, e);
  }

  lemma DoKeeps(s: Side, other: Side, e: CR.Event)
    requires Inv(Pair(s, other)) && Enabled(s, other, e)
    ensures Inv(Pair(Do(s, e), other))
  {
    SentKeeps(s, other, e);
    HeardKeeps(s, other, e);
    assert e.Write? ==> !s.h.c.sender.stream.ended;
    hide Do, Enabled, SideOk, DP.Inv, Path;
    SideKeeps(s, e);
  }
}
