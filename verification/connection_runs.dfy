/** How a connection ends: what every shutdown without error means, over whole runs with any
    segments at all arriving. */
module ConnectionRuns {
  import opened WrappingIntegers
  import opened Segments
  import opened Reassembly
  import opened Receivers
  import opened Senders
  import opened Connections
  import opened States
  import SR = SenderRuns
  import SP = SenderProgress

  /** What can happen to a connection; Read is its reader, Take its owner sending. */
  datatype Event =
    | Connect
    | Write(data: seq<byte>)
    | EndInput
    | Tick(ms: nat)
    | Receive(seg: Segment)
    | Read(len: nat)
    | Take

  function Apply(c: Connection, e: Event): (c': Connection)
    requires c.Valid()
    ensures c'.Valid()
  {
    match e
    case Connect => c.Connect()
    case Write(data) => c.Write(data)
    case EndInput => c.EndInput()
    case Tick(ms) => c.Tick(ms)
    case Receive(seg) => c.Receive(seg)
    case Read(len) => c.(receiver := c.receiver.Read(len))
    case Take => c.(segmentsOut := [])
  }

  // ----- The sender's share of each event -----

  /** The sender's share of a processed segment, up to the point where the queue is drained. */
  function Answered(t: SR.Track, seg: Segment): (t': SR.Track)
    requires t.s.stream.Valid()
    ensures t'.s.stream.Valid()
  {
    var t2 := if seg.header.ack then SR.Step(t, SR.Ack(seg.header.ackno, seg.header.win)) else t;
    if t2.s.queue == [] && seg.SeqLen() > 0 then SR.Step(t2, SR.Empty) else t2
  }

  function Processed(t: SR.Track, seg: Segment): (t': SR.Track)
    requires t.s.stream.Valid()
    ensures t'.s.stream.Valid()
  {
    SR.Step(Answered(t, seg), SR.Drain)
  }

  function Received(t: SR.Track, active: bool, seg: Segment): (t': SR.Track)
    requires t.s.stream.Valid()
    ensures t'.s.stream.Valid()
  {
    var t1 := if active then t else SR.Step(t, SR.Fill);
    if !active && !seg.header.syn then t
    else if seg.header.rst then SR.Step(t1, SR.Fail)
    else Processed(t1, seg)
  }

  function Ticked(t: SR.Track, ms: nat): (t': SR.Track)
    requires t.s.stream.Valid()
    ensures t'.s.stream.Valid()
  {
    var t1 := SR.Step(SR.Step(t, SR.Tick(ms)), SR.Drain);
    if t1.s.retransmissions > MAX_RETX_ATTEMPTS then SR.Step(t1, SR.Fail) else t1
  }

  function FilledAndDrained(t: SR.Track): (t': SR.Track)
    requires t.s.stream.Valid()
    ensures t'.s.stream.Valid()
  {
    SR.Step(SR.Step(t, SR.Fill), SR.Drain)
  }

  function SenderShare(t: SR.Track, active: bool, e: Event): (t': SR.Track)
    requires t.s.stream.Valid()
    ensures t'.s.stream.Valid()
  {
    match e
    case Connect => FilledAndDrained(t)
    case Write(data) => FilledAndDrained(SR.Step(t, SR.Write(data)))
    case EndInput => FilledAndDrained(SR.Step(t, SR.Close))
    case Tick(ms) => Ticked(t, ms)
    case Receive(seg) => Received(t, active, seg)
    case _ => t
  }

  lemma ProcessedShare(c: Connection, t: SR.Track, seg: Segment)
    requires c.Valid() && t.s == c.sender
    ensures c.Dispatch(seg).Answer(seg).sender == Answered(t, seg).s
    ensures c.Process(seg).sender == Processed(t, seg).s
  {
    hide Sender.AckReceived, Sender.SendEmpty, Receiver.SegmentReceived, AllOutgoing, Connection.UpdateStatus,
         SR.Step, SR.Accepted, SR.Elements;
    var ack := SR.Ack(seg.header.ackno, seg.header.win);
    SR.StepIsApply(t, ack);
    var t2 := if seg.header.ack then SR.Step(t, ack) else t;
    assert c.Dispatch(seg).sender == t2.s;
    SR.StepIsApply(t2, SR.Empty);
    var t3 := if t2.s.queue == [] && seg.SeqLen() > 0 then SR.Step(t2, SR.Empty) else t2;
    assert c.Dispatch(seg).Answer(seg).sender == t3.s;
    SR.StepIsApply(t3, SR.Drain);
  }

  lemma ReceivedShare(c: Connection, t: SR.Track, seg: Segment)
    requires c.Valid() && t.s == c.sender
    ensures c.Receive(seg).sender == Received(t, c.active, seg).s
  {
    hide Sender.FillWindow, Connection.Process, Processed, SR.Accepted, SR.Elements;
    ProcessedShare(c.(sinceLast := 0), t, seg);
    ProcessedShare(c.(sinceLast := 0).ConnectSender(), SR.Step(t, SR.Fill), seg);
  }

  lemma TickedShare(c: Connection, t: SR.Track, ms: nat)
    requires c.Valid() && t.s == c.sender
    ensures c.Tick(ms).sender == Ticked(t, ms).s
  {
    hide Sender.Tick, AllOutgoing, TotalLen, SR.Accepted, SR.Elements;
  }

  /** Each event does to the sender what its share says. */
  lemma SenderShareIsRight(c: Connection, t: SR.Track, e: Event)
    requires c.Valid() && t.s == c.sender
    ensures Apply(c, e).sender == SenderShare(t, c.active, e).s
  {
    hide Sender.FillWindow, AllOutgoing, SR.Accepted, SR.Elements, Connection.Receive, Connection.Tick, Received,
         Ticked;
    match e
    case Receive(seg) => ReceivedShare(c, t, seg);
    case Tick(ms) => TickedShare(c, t, ms);
    case _ =>
  }

  // ----- The sender stays alive inside a connection -----

  /** The sender's invariant, with the window in step while numbers do not wrap. */
  ghost predicate Live(t: SR.Track) {
    SR.Inv(t) && (SR.NoEdgeWrap(t.s) ==> SR.Roomy(t.s))
  }

  /** Whatever could be sent has been sent. */
  predicate Filled(s: Sender) { s.nextSeqno > 0 && SR.Pending(s) ==> s.window == 0 }

  lemma LiveStep(t: SR.Track, e: SR.Event)
    requires SR.Inv(t) && (e.Write? ==> !t.s.stream.ended)
    ensures SR.Inv(SR.Step(t, e)) && SR.Grows(t, SR.Step(t, e))
    ensures Live(t) && !SP.Shrinks(t.s, e) ==> Live(SR.Step(t, e))
    ensures Filled(t.s) && !e.Write? && !e.Close? ==> Filled(SR.Step(t, e).s)
    ensures e.Fill? ==> Filled(SR.Step(t, e).s) && SR.Step(t, e).s.nextSeqno > 0
  {
    SR.StepKeeps(t, e);
    SR.StepGrows(t, e);
    if Live(t) && !SP.Shrinks(t.s, e) && SR.NoEdgeWrap(SR.Step(t, e).s) {
      SP.StepRoomy(t, e);
    }
    FilledStep(t, e);
  }

  lemma FilledStep(t: SR.Track, e: SR.Event)
    requires SR.Inv(t)
    ensures Filled(t.s) && !e.Write? && !e.Close? ==> Filled(SR.Step(t, e).s)
    ensures e.Fill? ==> Filled(SR.Step(t, e).s) && SR.Step(t, e).s.nextSeqno > 0
  {
    hide Sender.FillWindow, Wrap, DropAcked, Mod32, SR.AllCarried, SR.Chained, SR.Timed;
    match e
    case Fill => SR.FillKeeps(t);
    case Ack(ackno, win) =>
      if t.s.Accepts(ackno) {
        SR.AcknowledgeKeeps(t, ackno, win);
        SR.FillKeeps(SR.Emit(t, t.s.Acknowledge(ackno, win)));
      }
    case _ =>
  }

  /** The acknowledgment in `e`, if it gets to the sender, does not shrink its window. */
  ghost predicate Polite(t: SR.Track, active: bool, e: Event)
    requires t.s.stream.Valid()
  {
    e.Receive? && e.seg.header.ack && (active || e.seg.header.syn) ==>
      !SP.Shrinks((if active then t else SR.Step(t, SR.Fill)).s, SR.Ack(e.seg.header.ackno, e.seg.header.win))
  }

  lemma GrowsThrough(t: SR.Track, t1: SR.Track, t2: SR.Track)
    requires SR.Grows(t, t1) && SR.Grows(t1, t2)
    ensures SR.Grows(t, t2)
  {
  }

  lemma NoShrink(s: Sender, e: SR.Event)
    ensures !e.Ack? ==> !SP.Shrinks(s, e)
  {
  }

  lemma ProcessedLive(t: SR.Track, seg: Segment)
    requires SR.Inv(t) && Filled(t.s)
    ensures var t' := Processed(t, seg);
            && SR.Inv(t') && SR.Grows(t, t') && Filled(t'.s)
            && (Live(t) && (seg.header.ack ==> !SP.Shrinks(t.s, SR.Ack(seg.header.ackno, seg.header.win))) ==> Live(t'))
  {
    hide SR.Step, SR.Chained, SR.AllCarried, SR.Timed, SP.Shrinks, Filled;
    var ack := SR.Ack(seg.header.ackno, seg.header.win);
    LiveStep(t, ack);
    var t2 := if seg.header.ack then SR.Step(t, ack) else t;
    assert SR.Grows(t, t2);
    LiveStep(t2, SR.Empty);
    var t3 := if t2.s.queue == [] && seg.SeqLen() > 0 then SR.Step(t2, SR.Empty) else t2;
    assert SR.Grows(t2, t3);
    NoShrink(t2.s, SR.Empty);
    NoShrink(t3.s, SR.Drain);
    LiveStep(t3, SR.Drain);
    hide Live, SR.Grows;
    GrowsThrough(t, t2, t3);
    GrowsThrough(t, t3, Processed(t, seg));
  }

  lemma ReceivedLive(t: SR.Track, active: bool, seg: Segment)
    requires SR.Inv(t) && Filled(t.s) && (active ==> t.s.nextSeqno > 0)
    ensures var t' := Received(t, active, seg);
            && SR.Inv(t') && SR.Grows(t, t') && Filled(t'.s)
            && (active || seg.header.syn ==> t'.s.nextSeqno > 0)
            && (Live(t) && Polite(t, active, Receive(seg)) ==> Live(t'))
  {
    hide SR.Step, SR.Chained, SR.AllCarried, SR.Timed, SP.Shrinks, Processed;
    NoShrink(t.s, SR.Fill);
    LiveStep(t, SR.Fill);
    var t1 := if active then t else SR.Step(t, SR.Fill);
    assert SR.Grows(t, t1) && t1.s.nextSeqno > 0;
    ProcessedLive(t1, seg);
    NoShrink(t1.s, SR.Fail);
    LiveStep(t1, SR.Fail);
    hide Live, Filled;
    GrowsThrough(t, t1, Processed(t1, seg));
    GrowsThrough(t, t1, SR.Step(t1, SR.Fail));
  }

  lemma TickedLive(t: SR.Track, ms: nat)
    requires SR.Inv(t) && Filled(t.s)
    ensures var t' := Ticked(t, ms);
            && SR.Inv(t') && SR.Grows(t, t') && Filled(t'.s)
            && (Live(t) ==> Live(t'))
  {
    var t1 := SR.Step(t, SR.Tick(ms));
    LiveStep(t, SR.Tick(ms));
    LiveStep(t1, SR.Drain);
    var t2 := SR.Step(t1, SR.Drain);
    LiveStep(t2, SR.Fail);
    hide SR.Step, Live, Filled, SR.Grows;
    GrowsThrough(t, t1, t2);
    GrowsThrough(t, t2, SR.Step(t2, SR.Fail));
  }

  lemma FilledAndDrainedLive(t: SR.Track)
    requires SR.Inv(t)
    ensures var t' := FilledAndDrained(t);
            && SR.Inv(t') && SR.Grows(t, t') && Filled(t'.s) && t'.s.nextSeqno > 0
            && (Live(t) ==> Live(t'))
  {
    LiveStep(t, SR.Fill);
    LiveStep(SR.Step(t, SR.Fill), SR.Drain);
    hide Live, Filled, SR.Step;
    GrowsThrough(t, SR.Step(t, SR.Fill), FilledAndDrained(t));
  }

  /** Every event keeps the sender's invariant and leaves nothing unsent that could be. */
  lemma ShareLive(t: SR.Track, active: bool, e: Event)
    requires SR.Inv(t) && Filled(t.s) && (active ==> t.s.nextSeqno > 0)
    requires e.Write? ==> !t.s.stream.ended
    ensures var t' := SenderShare(t, active, e);
            && SR.Inv(t') && SR.Grows(t, t') && Filled(t'.s)
            && (active || e.Connect? || (e.Receive? && e.seg.header.syn) ==> t'.s.nextSeqno > 0)
            && (Live(t) && Polite(t, active, e) ==> Live(t'))
  {
    assert t.s.stream.Valid();
    hide SR.Inv, Live, Filled, Received, Ticked, FilledAndDrained, SR.Step, Polite;
    match e
    case Connect => FilledAndDrainedLive(t);
    case Write(data) =>
      var t1 := SR.Step(t, SR.Write(data));
      assert !SP.Shrinks(t.s, SR.Write(data));
      LiveStep(t, SR.Write(data));
      FilledAndDrainedLive(t1);
      GrowsThrough(t, t1, FilledAndDrained(t1));
    case EndInput =>
      var t1 := SR.Step(t, SR.Close);
      assert !SP.Shrinks(t.s, SR.Close);
      LiveStep(t, SR.Close);
      FilledAndDrainedLive(t1);
      GrowsThrough(t, t1, FilledAndDrained(t1));
    case Tick(ms) => TickedLive(t, ms);
    case Receive(seg) => ReceivedLive(t, active, seg);
    case _ =>
  }

  // ----- Histories -----

  /** A connection with what its past amounts to: its sender's track, whether the outbound
      stream was closed before the inbound one ended, whether it was ever shut down, and the
      milliseconds since the last segment arrived. */
  datatype History = History(c: Connection, t: SR.Track, closedFirst: bool, down: bool, quiet: nat)

  predicate Goes(c: Connection, c': Connection) { c.active && !c'.active }

  function Step(h: History, e: Event): (h': History)
    requires h.c.Valid() && h.t.s.stream.Valid()
    ensures h'.c.Valid() && h'.t.s.stream.Valid()
  {
    var c' := Apply(h.c, e);
    History(c', SenderShare(h.t, h.c.active, e),
            h.closedFirst || (e.EndInput? && !h.c.sender.stream.ended && !h.c.receiver.Output().ended),
            h.down || Goes(h.c, c'),
            if e.Receive? then 0 else h.quiet + if e.Tick? then e.ms else 0)
  }

  function Run(h: History, events: seq<Event>): (h': History)
    requires h.c.Valid() && h.t.s.stream.Valid()
    ensures h'.c.Valid() && h'.t.s.stream.Valid()
    decreases |events|
  {
    if events == [] then h else Run(Step(h, events[0]), events[1..])
  }

  function Start(recvCapacity: nat, sendCapacity: nat, rtTimeout: uint16, isn: uint32): (h: History)
    ensures h.c.Valid() && h.t.s.stream.Valid()
  {
    var c := NewConnection(recvCapacity, sendCapacity, rtTimeout, isn);
    History(c, SR.Track(c.sender, [], {}), false, false, 0)
  }

  /** The application writes only before it closes. */
  ghost predicate Allowed(h: History, e: Event) { e.Write? ==> !h.c.sender.stream.ended }

  ghost predicate AllowedRun(h: History, events: seq<Event>)
    requires h.c.Valid() && h.t.s.stream.Valid()
    decreases |events|
  {
    events == [] || (Allowed(h, events[0]) && AllowedRun(Step(h, events[0]), events[1..]))
  }

  ghost predicate PoliteRun(h: History, events: seq<Event>)
    requires h.c.Valid() && h.t.s.stream.Valid()
    decreases |events|
  {
    events == [] || (Polite(h.t, h.c.active, events[0]) && PoliteRun(Step(h, events[0]), events[1..]))
  }

  ghost predicate Inv(h: History) {
    && h.c.Valid()
    && h.t.s == h.c.sender && SR.Inv(h.t) && Filled(h.c.sender)
    && (h.c.active || h.c.receiver.synReceived ==> h.c.sender.nextSeqno > 0)
    && (h.c.receiver.Output().ended ==> h.c.receiver.synReceived)
    && (h.c.receiver.Output().error <==> h.c.sender.stream.error)
    && h.c.sinceLast == h.quiet
  }

  // ----- What one event does to the rest of the connection -----

  lemma ReceiverEffect(r: Receiver, seg: Segment)
    requires r.Output().Valid()
    ensures var r' := r.SegmentReceived(seg);
            && r'.Output().error == r.Output().error
            && (r.synReceived ==> r'.synReceived)
            && ((r.Output().ended ==> r.synReceived) ==> (r'.Output().ended ==> r'.synReceived))
            && (r.Output().ended ==> r'.Output().ended)
  {
    hide Unwrap, Reassembler.Push;
    var synced := r.(synReceived := true, isn := seg.header.seqno);
    PushAdvances(r.reassembler, seg.payload, r.IndexOf(seg.header.seqno), seg.header.fin);
    PushAdvances(r.reassembler, seg.payload, synced.IndexOf(Mod32(seg.header.seqno + 1)), seg.header.fin);
  }

  /** Whether `e` makes the sender's stream fail. */
  predicate Fails(s: Sender, active: bool, e: Event) {
    || (e.Receive? && (active || e.seg.header.syn) && e.seg.header.rst)
    || (e.Tick? && s.Tick(e.ms).retransmissions > MAX_RETX_ATTEMPTS)
  }

  lemma ProcessedError(t: SR.Track, seg: Segment)
    requires SR.Inv(t) && Filled(t.s)
    ensures Processed(t, seg).s.stream.error == t.s.stream.error
  {
    hide SR.Step, SR.Chained, SR.AllCarried, SR.Timed;
    var ack := SR.Ack(seg.header.ackno, seg.header.win);
    LiveStep(t, ack);
    ErrorStays(t, ack);
    var t2 := if seg.header.ack then SR.Step(t, ack) else t;
    LiveStep(t2, SR.Empty);
    ErrorStays(t2, SR.Empty);
    var t3 := if t2.s.queue == [] && seg.SeqLen() > 0 then SR.Step(t2, SR.Empty) else t2;
    ErrorStays(t3, SR.Drain);
  }

  lemma ReceivedError(t: SR.Track, active: bool, seg: Segment)
    requires SR.Inv(t) && Filled(t.s)
    ensures Received(t, active, seg).s.stream.error <==> t.s.stream.error || Fails(t.s, active, Receive(seg))
  {
    hide SR.Step, SR.Chained, SR.AllCarried, SR.Timed, Processed;
    LiveStep(t, SR.Fill);
    ErrorStays(t, SR.Fill);
    var t1 := if active then t else SR.Step(t, SR.Fill);
    ProcessedError(t1, seg);
    ErrorStays(t1, SR.Fail);
  }

  lemma TickedError(t: SR.Track, ms: nat)
    requires SR.Inv(t)
    ensures Ticked(t, ms).s.stream.error <==> t.s.stream.error || Fails(t.s, true, Tick(ms))
  {
    hide Sender.Tick, SR.Chained, SR.AllCarried, SR.Timed;
    SR.StepIsApply(t, SR.Tick(ms));
    ErrorStays(t, SR.Tick(ms));
  }

  lemma ShareError(t: SR.Track, active: bool, e: Event)
    requires SR.Inv(t) && Filled(t.s)
    requires e.Write? ==> !t.s.stream.ended
    ensures SenderShare(t, active, e).s.stream.error <==> t.s.stream.error || Fails(t.s, active, e)
  {
    hide Sender.FillWindow, Received, Ticked, SR.Chained, SR.AllCarried, SR.Timed;
    match e
    case Receive(seg) => ReceivedError(t, active, seg);
    case Tick(ms) => TickedError(t, ms);
    case Connect => ErrorStays(t, SR.Fill);
    case Write(data) =>
      LiveStep(t, SR.Write(data));
      ErrorStays(SR.Step(t, SR.Write(data)), SR.Fill);
    case EndInput =>
      LiveStep(t, SR.Close);
      ErrorStays(SR.Step(t, SR.Close), SR.Fill);
    case _ =>
  }

  /** What processing a segment decides about the connection. */
  lemma ProcessEffect(c: Connection, seg: Segment)
    requires c.Valid()
    ensures var c' := c.Process(seg);
            && c'.receiver == c.receiver.SegmentReceived(seg)
            && c'.sinceLast == c.sinceLast && c'.rtTimeout == c.rtTimeout
            && var ends := c'.receiver.Output().ended;
               var idle := c'.sender.stream.ended && c'.sender.BytesInFlight() == 0 && !c.linger;
               && c'.linger == (c.linger && (ends ==> c'.sender.stream.ended))
               && c'.active == (c.active && !(ends && idle))
  {
    hide Sender.AckReceived, Receiver.SegmentReceived, AllOutgoing, TotalLen;
  }

  lemma TickEffect(c: Connection, ms: nat)
    requires c.Valid()
    ensures var c' := c.Tick(ms);
            var gaveUp := c.sender.Tick(ms).retransmissions > MAX_RETX_ATTEMPTS;
            && c'.sinceLast == c.sinceLast + ms && c'.rtTimeout == c.rtTimeout
            && c'.receiver.synReceived == c.receiver.synReceived
            && c'.receiver.Output().ended == c.receiver.Output().ended
            && c'.receiver.Output().error == (c.receiver.Output().error || gaveUp)
            && c'.linger == (c.linger && !gaveUp && !c'.LingeredEnough())
            && c'.active == (c.active && !gaveUp && !c'.LingeredEnough())
            && (gaveUp ==> c'.segmentsOut == [RST_SEGMENT])
  {
    hide Sender.Tick, AllOutgoing, TotalLen;
  }

  /** Only these two events can shut a connection down. */
  lemma QuietEffect(c: Connection, e: Event)
    requires c.Valid() && !e.Receive? && !e.Tick?
    ensures var c' := Apply(c, e);
            && c'.active == (c.active || e.Connect?) && c'.linger == c.linger
            && c'.sinceLast == c.sinceLast && c'.rtTimeout == c.rtTimeout
            && c'.receiver.synReceived == c.receiver.synReceived
            && c'.receiver.Output().ended == c.receiver.Output().ended
            && c'.receiver.Output().error == c.receiver.Output().error
  {
    hide Sender.FillWindow, AllOutgoing;
  }

  lemma ReceiveInv(h: History, seg: Segment)
    requires Inv(h)
    ensures Inv(Step(h, Receive(seg)))
  {
    var h' := Step(h, Receive(seg));
    SenderShareIsRight(h.c, h.t, Receive(seg));
    ShareLive(h.t, h.c.active, Receive(seg));
    ShareError(h.t, h.c.active, Receive(seg));
    hide Sender.FillWindow, Receiver.SegmentReceived, Connection.Process, Received, Filled, SR.Inv;
    var c := h.c.(sinceLast := 0);
    var d := if h.c.active then c else c.ConnectSender();
    ProcessEffect(d, seg);
    ReceiverEffect(h.c.receiver, seg);
  }

  lemma StepInv(h: History, e: Event)
    requires Inv(h) && Allowed(h, e)
    ensures Inv(Step(h, e))
  {
    if e.Receive? {
      ReceiveInv(h, e.seg);
    } else {
      hide SR.Inv, Filled, Received, Ticked, FilledAndDrained, Connection.Tick;
      SenderShareIsRight(h.c, h.t, e);
      ShareLive(h.t, h.c.active, e);
      ShareError(h.t, h.c.active, e);
      hide Apply, SenderShare;
      if e.Tick? {
        TickEffect(h.c, e.ms);
        ApplyTick(h.c, e.ms);
      } else {
        QuietEffect(h.c, e);
      }
    }
  }

  lemma ApplyTick(c: Connection, ms: nat)
    requires c.Valid()
    ensures Apply(c, Tick(ms)) == c.Tick(ms)
  {
  }

  lemma {:induction false} RunInv(h: History, events: seq<Event>)
    requires Inv(h) && AllowedRun(h, events)
    ensures Inv(Run(h, events))
    decreases |events|
  {
    assert h.c.Valid() && h.t.s.stream.Valid();
    hide Inv, Step;
    if events != [] {
      StepInv(h, events[0]);
      RunInv(Step(h, events[0]), events[1..]);
    }
  }

  lemma StartInv(recvCapacity: nat, sendCapacity: nat, rtTimeout: uint16, isn: uint32)
    ensures Inv(Start(recvCapacity, sendCapacity, rtTimeout, isn))
    ensures Live(Start(recvCapacity, sendCapacity, rtTimeout, isn).t)
  {
    SR.StartInv(sendCapacity, rtTimeout, isn);
  }

  // ----- What a shutdown without error means -----

  /** The state a connection reports (TCPConnection::state). */
  function StateOf(c: Connection): TcpState {
    var alive := c.active || c.linger;
    TcpState(SummaryOfSender(c.sender), SummaryOfReceiver(c.receiver), alive, alive && c.linger)
  }

  /** A shutdown without error happens only with the inbound stream ended, the outbound
      stream closed and nothing in flight. */
  lemma ShutdownGuards(h: History, e: Event)
    requires Inv(h) && Allowed(h, e)
    ensures var h' := Step(h, e);
            Goes(h.c, h'.c) && !h'.c.sender.stream.error ==>
              && !h'.c.linger
              && h'.c.receiver.Output().ended
              && h'.c.sender.stream.ended
              && h'.c.sender.BytesInFlight() == 0
              && (h.c.linger ==> e.Tick? && h'.c.sinceLast >= 10 * h'.c.rtTimeout)
  {
    SenderShareIsRight(h.c, h.t, e);
    ShareError(h.t, h.c.active, e);
    hide SR.Inv, Filled, TotalLen, Sender.Tick, Received;
    match e
    case Receive(seg) =>
      hide Connection.Process;
      ProcessEffect(h.c.(sinceLast := 0), seg);
    case Tick(ms) =>
      hide Connection.Tick;
      TickEffect(h.c, ms);
    case _ =>
      hide Apply;
      QuietEffect(h.c, e);
  }

  /** With nothing in flight, everything is acknowledged unless the sender is stalled. */
  lemma NothingInFlight(t: SR.Track)
    requires SR.Inv(t) && SR.NoWrap(t.s) && t.s.nextSeqno > 0
    requires t.s.stream.ended && t.s.BytesInFlight() == 0 && !t.s.stream.error
    ensures t.s.outstanding == []
    ensures SummaryOfSender(t.s) == FinAcked <==> !SP.Stalled(t.s)
  {
    assert forall seg :: seg in t.s.outstanding ==> seg.SeqLen() > 0;
  }

  /** Whether the event will leave the sender stalled, told from the state before it. */
  predicate WillStall(s: Sender, e: Event) {
    if e.Receive? && e.seg.header.ack && s.Accepts(e.seg.header.ackno) then
      SP.StallsOn(s, e.seg.header.ackno, e.seg.header.win)
    else
      SP.Stalled(s)
  }

  lemma ProcessedStallsIff(t: SR.Track, seg: Segment)
    requires SR.Inv(t) && SR.NoWrap(t.s) && t.s.nextSeqno > 0
    ensures SP.Stalled(Processed(t, seg).s) <==> WillStall(t.s, Receive(seg))
  {
    assert t.s.stream.Valid();
    hide Sender.AckReceived, Sender.Accepts, SR.Inv, SP.StallsOn, SP.Stalled, Processed;
    AnswerStallsNothing(t, seg);
    if seg.header.ack && t.s.Accepts(seg.header.ackno) {
      SP.StallAfterAckIff(t, seg.header.ackno, seg.header.win);
    } else {
      RejectedAck(t.s, seg.header.ackno, seg.header.win);
    }
  }

  lemma AnswerStallsNothing(t: SR.Track, seg: Segment)
    requires t.s.stream.Valid()
    ensures SP.Stalled(Processed(t, seg).s) ==
            SP.Stalled(if seg.header.ack then t.s.AckReceived(seg.header.ackno, seg.header.win) else t.s)
  {
    hide Sender.AckReceived, SR.Step;
    var ack := SR.Ack(seg.header.ackno, seg.header.win);
    var t2 := if seg.header.ack then SR.Step(t, ack) else t;
    SR.StepIsApply(t, ack);
    SR.StepIsApply(t2, SR.Empty);
    SR.StepIsApply(Answered(t, seg), SR.Drain);
  }

  lemma RejectedAck(s: Sender, ackno: uint32, win: uint16)
    requires s.stream.Valid()
    ensures !s.Accepts(ackno) ==> s.AckReceived(ackno, win) == s
  {
  }

  lemma TickedStallsIff(t: SR.Track, ms: nat)
    requires t.s.stream.Valid()
    ensures SP.Stalled(Ticked(t, ms).s) <==> SP.Stalled(t.s)
  {
    hide Mod32;
  }

  /** A shutdown without error leaves the sender stalled exactly when the state before said so. */
  lemma WillStallIff(h: History, e: Event)
    requires Inv(h) && Allowed(h, e)
    ensures var h' := Step(h, e);
            Goes(h.c, h'.c) && !h'.c.sender.stream.error && SR.NoWrap(h'.t.s) ==>
              (SP.Stalled(h'.c.sender) <==> WillStall(h.c.sender, e))
  {
    SenderShareIsRight(h.c, h.t, e);
    ShareLive(h.t, h.c.active, e);
    ShareError(h.t, h.c.active, e);
    hide SR.Inv, Filled, WillStall, SP.Stalled, Processed, Ticked, FilledAndDrained;
    match e
    case Receive(seg) =>
      hide Connection.Process;
      if h.c.active && !seg.header.rst && SR.NoWrap(h.t.s) {
        ProcessedStallsIff(h.t, seg);
      }
    case Tick(ms) =>
      hide Connection.Tick;
      TickedStallsIff(h.t, ms);
      assert WillStall(h.c.sender, e) == SP.Stalled(h.c.sender) by { TickWillStall(h.c.sender, ms); }
    case _ =>
      hide Apply;
      QuietEffect(h.c, e);
  }

  lemma TickWillStall(s: Sender, ms: nat)
    ensures WillStall(s, Tick(ms)) == SP.Stalled(s)
  {
  }

  /** Exactly when a shutdown without error is complete, told from the state before it: the
      connection then is in the official state CLOSED, unless its sender is stalled or the
      acknowledgment just arriving will stall it. */
  lemma ShutdownIsCompleteIff(h: History, e: Event)
    requires Inv(h) && Allowed(h, e)
    ensures var h' := Step(h, e);
            Goes(h.c, h'.c) && !h'.c.sender.stream.error && SR.NoWrap(h'.t.s) ==>
              (StateOf(h'.c) == OfficialState(CLOSED) <==> !WillStall(h.c.sender, e))
  {
    StepInv(h, e);
    ShutdownGuards(h, e);
    WillStallIff(h, e);
    var h' := Step(h, e);
    hide Step, WillStall, SR.Chained, SR.AllCarried, SR.Timed, SR.Numbered, Filled;
    if Goes(h.c, h'.c) && !h'.c.sender.stream.error && SR.NoWrap(h'.t.s) {
      NothingInFlight(h'.t);
      ClosedMeans(h'.c);
    }
  }

  lemma ClosedMeans(c: Connection)
    requires !c.active && !c.linger && c.receiver.synReceived && c.receiver.Output().ended && !c.receiver.Output().error
    ensures StateOf(c) == OfficialState(CLOSED) <==> SummaryOfSender(c.sender) == FinAcked
  {
    hide SummaryOfSender;
  }

  /** Over every run whose acknowledgments never shrink the window and whose numbers do not
      wrap, a shutdown without error leaves the official state CLOSED: the inbound stream has
      ended and SYN, every byte written and FIN are acknowledged. */
  lemma CleanShutdown(h: History, events: seq<Event>, e: Event)
    requires Inv(h) && Live(h.t)
    requires AllowedRun(h, events) && PoliteRun(h, events)
    ensures var u := Run(h, events);
            var h' := Step(u, e);
            Allowed(u, e) && Polite(u.t, u.c.active, e) && SR.NoEdgeWrap(h'.t.s)
            && Goes(u.c, h'.c) && !h'.c.sender.stream.error ==>
              && StateOf(h'.c) == OfficialState(CLOSED)
              && h'.c.receiver.Output().ended
              && h'.c.sender.finSent
              && h'.c.sender.highestAck == h'.c.sender.isn + |h'.t.written| + 2
  {
    RunInv(h, events);
    RunLive(h, events);
    hide Inv, Live, Run, Step, Allowed, Polite, StateOf;
    StepShutsCleanly(Run(h, events), e);
  }

  lemma StepShutsCleanly(h: History, e: Event)
    requires Inv(h) && Live(h.t)
    ensures var h' := Step(h, e);
            Allowed(h, e) && Polite(h.t, h.c.active, e) && SR.NoEdgeWrap(h'.t.s)
            && Goes(h.c, h'.c) && !h'.c.sender.stream.error ==>
              && StateOf(h'.c) == OfficialState(CLOSED)
              && h'.c.receiver.Output().ended
              && h'.c.sender.finSent
              && h'.c.sender.highestAck == h'.c.sender.isn + |h'.t.written| + 2
  {
    var h' := Step(h, e);
    if Allowed(h, e) && Polite(h.t, h.c.active, e) && SR.NoEdgeWrap(h'.t.s)
       && Goes(h.c, h'.c) && !h'.c.sender.stream.error
    {
      StepInv(h, e);
      ShareLive(h.t, h.c.active, e);
      ShutdownGuards(h, e);
      ShutdownIsCompleteIff(h, e);
      WillStallIff(h, e);
      hide Step, Apply, SenderShare, Polite, WillStall, StateOf;
      NotStalledWhenQuiet(h'.t);
      NothingInFlight(h'.t);
      hide Live, Filled;
      SummaryIsExact(h'.t);
    }
  }

  lemma NotStalledWhenQuiet(t: SR.Track)
    requires Live(t) && SR.NoEdgeWrap(t.s) && Filled(t.s)
    ensures !SP.Stalled(t.s)
  {
    hide SR.Inv;
  }

  lemma {:induction false} RunLive(h: History, events: seq<Event>)
    requires Inv(h) && Live(h.t) && AllowedRun(h, events) && PoliteRun(h, events)
    ensures Live(Run(h, events).t)
    decreases |events|
  {
    hide Live, SenderShare, Apply, Filled, SR.Inv, Polite;
    if events != [] {
      StepInv(h, events[0]);
      ShareLive(h.t, h.c.active, events[0]);
      RunLive(Step(h, events[0]), events[1..]);
    }
  }

  // ----- Lingering -----

  /** As long as the connection was neither shut down nor failed, it keeps lingering unless
      the inbound stream ended first. */
  ghost predicate Lingers(h: History) {
    && (h.closedFirst ==> h.c.sender.stream.ended)
    && (!h.down && !h.c.sender.stream.error ==>
          && (h.c.receiver.synReceived ==> h.c.active)
          && (h.c.linger || (h.c.receiver.Output().ended && !h.closedFirst)))
  }

  lemma EndInputEnds(t: SR.Track, active: bool)
    requires SR.Inv(t)
    ensures SenderShare(t, active, EndInput).s.stream.ended
  {
    hide FilledAndDrained, SR.Chained, SR.AllCarried, SR.Timed;
    LiveStep(t, SR.Close);
    FilledAndDrainedLive(SR.Step(t, SR.Close));
  }

  lemma ReceiveLingers(h: History, seg: Segment)
    requires Inv(h) && Lingers(h)
    ensures Lingers(Step(h, Receive(seg)))
  {
    SenderShareIsRight(h.c, h.t, Receive(seg));
    ShareError(h.t, h.c.active, Receive(seg));
    ShareLive(h.t, h.c.active, Receive(seg));
    hide SR.Inv, Filled, TotalLen, Received, Sender.FillWindow, Receiver.SegmentReceived, Connection.Process;
    var c := h.c.(sinceLast := 0);
    ProcessEffect(if h.c.active then c else c.ConnectSender(), seg);
    ReceiverEffect(h.c.receiver, seg);
  }

  lemma StepLingers(h: History, e: Event)
    requires Inv(h) && Allowed(h, e) && Lingers(h)
    ensures Lingers(Step(h, e))
  {
    if e.Receive? {
      ReceiveLingers(h, e.seg);
    } else {
      SenderShareIsRight(h.c, h.t, e);
      ShareError(h.t, h.c.active, e);
      ShareLive(h.t, h.c.active, e);
      EndInputEnds(h.t, h.c.active);
      hide SR.Inv, Filled, TotalLen, Apply, SenderShare, Connection.Tick;
      if e.Tick? {
        TickEffect(h.c, e.ms);
        ApplyTick(h.c, e.ms);
      } else {
        QuietEffect(h.c, e);
      }
    }
  }

  lemma {:induction false} RunLingers(h: History, events: seq<Event>)
    requires Inv(h) && AllowedRun(h, events) && Lingers(h)
    ensures Lingers(Run(h, events))
    decreases |events|
  {
    hide SenderShare, Apply, Filled, SR.Inv, Lingers;
    if events != [] {
      StepInv(h, events[0]);
      StepLingers(h, events[0]);
      RunLingers(Step(h, events[0]), events[1..]);
    }
  }

  /** Over every run from a fresh connection: an endpoint that closed its outbound stream
      before the inbound one ended leaves, for the first time and without error, only on a
      tick, after at least ten retransmission timeouts without any segment. */
  lemma LingersLongEnough(recvCapacity: nat, sendCapacity: nat, rtTimeout: uint16, isn: uint32,
                          events: seq<Event>, e: Event)
    requires AllowedRun(Start(recvCapacity, sendCapacity, rtTimeout, isn), events)
    ensures var u := Run(Start(recvCapacity, sendCapacity, rtTimeout, isn), events);
            Allowed(u, e) && u.closedFirst && !u.down
            && Goes(u.c, Step(u, e).c) && !Step(u, e).c.sender.stream.error ==>
              e.Tick? && Step(u, e).quiet >= 10 * rtTimeout
  {
    var h := Start(recvCapacity, sendCapacity, rtTimeout, isn);
    StartInv(recvCapacity, sendCapacity, rtTimeout, isn);
    RunInv(h, events);
    RunLingers(h, events);
    TimeoutFixed(h, events);
    var u := Run(h, events);
    assert h.c.rtTimeout == rtTimeout;
    hide Start, Run;
    if Allowed(u, e) {
      StepInv(u, e);
      ShareError(u.t, u.c.active, e);
      SenderShareIsRight(u.c, u.t, e);
      ShutdownGuards(u, e);
      StepTimeout(u.c, e);
      hide Apply, SenderShare;
    }
  }

  lemma {:induction false} TimeoutFixed(h: History, events: seq<Event>)
    requires Inv(h) && AllowedRun(h, events)
    ensures Run(h, events).c.rtTimeout == h.c.rtTimeout
    decreases |events|
  {
    if events != [] {
      StepInv(h, events[0]);
      StepTimeout(h.c, events[0]);
      hide SenderShare, Apply, Filled, SR.Inv;
      TimeoutFixed(Step(h, events[0]), events[1..]);
    }
  }

  lemma StepTimeout(c: Connection, e: Event)
    requires c.Valid()
    ensures Apply(c, e).rtTimeout == c.rtTimeout
  {
    match e
    case Receive(seg) =>
      hide Connection.Process, Sender.FillWindow;
      var d := c.(sinceLast := 0);
      ProcessEffect(if c.active then d else d.ConnectSender(), seg);
    case Tick(ms) =>
      hide Connection.Tick;
      TickEffect(c, ms);
    case _ => QuietEffect(c, e);
  }

  // ----- What goes out -----

  /** Whatever the connection sends carries the queued segment's data unchanged and, once the
      SYN is received, an acknowledgment number that the peer unwraps to what the receiver
      has assembled, with the window the receiver has left. */
  lemma {:induction false} SegmentsOutAreStamped(queue: seq<Segment>, r: Receiver)
    requires r.Output().written + 2 < TWO64
    ensures |AllOutgoing(queue, r)| == |queue|
    ensures forall i :: 0 <= i < |queue| ==>
              var out := AllOutgoing(queue, r)[i];
              && out.payload == queue[i].payload
              && out.header.(ack := false, ackno := 0, win := 0) == queue[i].header.(ack := false, ackno := 0, win := 0)
              && (r.synReceived ==>
                    && out.header.ack && out.header.win == r.AdvertisedWindow()
                    && Unwrap(out.header.ackno, r.isn, r.Output().written) == r.AbsoluteAck())
  {
    hide Unwrap, Mod32, Mod16;
    if queue != [] {
      SegmentsOutAreStamped(queue[1..], r);
      if r.synReceived {
        AckUnwraps(r);
      }
      var out := AllOutgoing(queue, r);
      assert out[1..] == AllOutgoing(queue[1..], r);
      forall i | 0 <= i < |queue|
        ensures out[i].payload == queue[i].payload
        ensures out[i].header.(ack := false, ackno := 0, win := 0) ==
                queue[i].header.(ack := false, ackno := 0, win := 0)
        ensures r.synReceived ==>
                  && out[i].header.ack && out[i].header.win == r.AdvertisedWindow()
                  && Unwrap(out[i].header.ackno, r.isn, r.Output().written) == r.AbsoluteAck()
      {
        if i > 0 {
          assert out[i] == out[1..][i - 1] && queue[i] == queue[1..][i - 1];
        }
      }
    }
  }

  /** Draining the queue appends to what is waiting to go out, keeps what was there and leaves
      the queue empty; each segment is the queued one with the fields that SegmentsOutAreStamped
      describes. */
  lemma SendSegmentsAppends(c: Connection)
    ensures var c' := c.SendSegments();
            && c'.sender == c.sender.(queue := []) && c'.receiver == c.receiver
            && c'.active == c.active && c'.linger == c.linger && c'.sinceLast == c.sinceLast
            && |c'.segmentsOut| == |c.segmentsOut| + |c.sender.queue|
            && c.segmentsOut <= c'.segmentsOut
            && forall i :: 0 <= i < |c.sender.queue| ==>
                 var out, seg := c'.segmentsOut[|c.segmentsOut| + i], c.sender.queue[i];
                 && out.payload == seg.payload && out.header.seqno == seg.header.seqno
                 && out.header.syn == seg.header.syn && out.header.fin == seg.header.fin
                 && (c.receiver.synReceived ==> out.header.ack && out.header.win == c.receiver.AdvertisedWindow())
                 && (!c.receiver.synReceived ==> out == seg)
  {
    OutgoingInOrder(c.sender.queue, c.receiver);
    hide AllOutgoing;
  }

  lemma {:induction false} OutgoingInOrder(queue: seq<Segment>, r: Receiver)
    ensures |AllOutgoing(queue, r)| == |queue|
    ensures forall i :: 0 <= i < |queue| ==> AllOutgoing(queue, r)[i] == Outgoing(queue[i], r)
  {
    hide Outgoing;
    if queue != [] {
      OutgoingInOrder(queue[1..], r);
    }
  }

  /** Nothing that waits to go out is lost or changed by any event but the owner's taking it
      and giving up. */
  lemma OutOnlyGrows(c: Connection, e: Event)
    requires c.Valid() && !e.Take? && (e.Tick? ==> c.sender.Tick(e.ms).retransmissions <= MAX_RETX_ATTEMPTS)
    ensures c.segmentsOut <= Apply(c, e).segmentsOut
  {
    hide Sender.FillWindow, Sender.Tick, Sender.AckReceived, Receiver.SegmentReceived, AllOutgoing, TotalLen;
  }

  /** What a segment that is processed puts out: whatever its acknowledgment lets the sender
      send; if that is nothing, exactly one segment without data at the next number in answer to
      a segment that occupies numbers, and nothing at all in answer to any other. */
  lemma AnswerIs(c: Connection, seg: Segment)
    requires c.Valid() && c.active && !seg.header.rst && c.sender.queue == []
    ensures var c' := Apply(c, Receive(seg));
            var s := if seg.header.ack then c.sender.AckReceived(seg.header.ackno, seg.header.win) else c.sender;
            && c.segmentsOut <= c'.segmentsOut && c'.sender.queue == []
            && var out := c'.segmentsOut[|c.segmentsOut|..];
               if s.queue != [] then
                 |out| == |s.queue| && forall i :: 0 <= i < |out| ==> out[i] == Outgoing(s.queue[i], c'.receiver)
               else if seg.SeqLen() > 0 then
                 out == [Outgoing(NewSegment(Wrap(s.nextSeqno, s.isn), false, [], false), c'.receiver)]
               else out == []
  {
    hide Sender.AckReceived, Receiver.SegmentReceived, AllOutgoing, Outgoing, TotalLen, Wrap;
    var d := c.(sinceLast := 0).Dispatch(seg).Answer(seg);
    var c' := Apply(c, Receive(seg));
    assert c'.segmentsOut == c.segmentsOut + AllOutgoing(d.sender.queue, d.receiver);
    OutgoingInOrder(d.sender.queue, d.receiver);
    assert c'.segmentsOut[|c.segmentsOut|..] == AllOutgoing(d.sender.queue, d.receiver);
  }

  /** Exactly when a tick makes an active connection leave in peace: both streams have ended,
      nothing is in flight, and ten timeouts have passed in silence. */
  lemma TickLeavesIff(c: Connection, ms: nat)
    requires c.Valid() && c.active && c.sender.Tick(ms).retransmissions <= MAX_RETX_ATTEMPTS
    ensures !Apply(c, Tick(ms)).active <==>
              && c.receiver.Output().ended && c.sender.stream.ended && c.sender.BytesInFlight() == 0
              && c.sinceLast + ms >= 10 * c.rtTimeout
    ensures !Apply(c, Tick(ms)).active ==> !Apply(c, Tick(ms)).linger
  {
    hide AllOutgoing, TotalLen, Mod32;
  }

  // ----- Reachable histories, one event at a time -----

  lemma {:induction false} Extend(h: History, events: seq<Event>, e: Event)
    requires h.c.Valid() && h.t.s.stream.Valid() && AllowedRun(h, events) && Allowed(Run(h, events), e)
    ensures AllowedRun(h, events + [e]) && Run(h, events + [e]) == Step(Run(h, events), e)
    decreases |events|
  {
    hide Step, Allowed;
    if events == [] {
      assert AllowedRun(Step(h, e), []);
      assert Run(Step(h, e), []) == Step(h, e);
    } else {
      assert (events + [e])[1..] == events[1..] + [e];
      Extend(Step(h, events[0]), events[1..], e);
    }
  }

  /** The histories of all runs from `h0`. */
  ghost predicate Reachable(h0: History, h: History)
    requires h0.c.Valid() && h0.t.s.stream.Valid()
  {
    h.c.Valid() && h.t.s.stream.Valid() && exists events :: AllowedRun(h0, events) && Run(h0, events) == h
  }

  lemma ReachStart(h0: History)
    requires h0.c.Valid() && h0.t.s.stream.Valid()
    ensures Reachable(h0, h0)
  {
    assert AllowedRun(h0, []) && Run(h0, []) == h0;
  }

  lemma ReachNext(h0: History, h: History, e: Event)
    requires h0.c.Valid() && h0.t.s.stream.Valid() && Reachable(h0, h) && Allowed(h, e)
    ensures Reachable(h0, Step(h, e))
  {
    hide Run, AllowedRun, Step, Allowed;
    var events :| AllowedRun(h0, events) && Run(h0, events) == h;
    Extend(h0, events, e);
  }
}
