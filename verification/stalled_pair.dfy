/** A run of two whole connections in which one leaves without error although bytes its
    application wrote were never sent: the network only swaps two acknowledgments and repeats
    one segment. */
module StalledPair {
  import opened WrappingIntegers
  import opened ByteStreams
  import opened Options
  import opened Segments
  import opened Reassembly
  import opened Receivers
  import opened Senders
  import opened Connections
  import opened Duplex
  import opened DuplexRuns
  import SR = SenderRuns
  import SP = SenderProgress
  import CR = ConnectionRuns
  import DP = DataPath
  import SS = StalledShutdown
  import ST = StalledTransfer

  // ----- One event of the pair at a time -----

  function P0(): (p: Pair)
    ensures Valid(p)
  {
    Start(Config(10, 100, 1000, 0), Config(2, 100, 1000, 0))
  }

  ghost predicate Reached(p: Pair) {
    exists acts :: EnabledRun(P0(), acts) && Run(P0(), acts) == p
  }

  lemma {:induction false} Extend(p: Pair, acts: seq<Action>, act: Action)
    requires Valid(p) && EnabledRun(p, acts)
    requires var q := Run(p, acts); Enabled(This(q, act), Other(q, act), act.e)
    ensures EnabledRun(p, acts + [act]) && Run(p, acts + [act]) == Next(Run(p, acts), act)
    decreases |acts|
  {
    hide Next, Enabled;
    if acts == [] {
      assert EnabledRun(Next(p, act), []);
      assert Run(Next(p, act), []) == Next(p, act);
    } else {
      assert (acts + [act])[1..] == acts[1..] + [act];
      Extend(Next(p, acts[0]), acts[1..], act);
    }
  }

  lemma ReachNext(p: Pair, act: Action)
    requires Valid(p) && Reached(p) && Enabled(This(p, act), Other(p, act), act.e)
    ensures Reached(Next(p, act))
  {
    hide Next, Enabled, EnabledRun, Run, P0;
    var acts :| EnabledRun(P0(), acts) && Run(P0(), acts) == p;
    Extend(P0(), acts, act);
  }

  function Mine(p: Pair, atA: bool): Side { if atA then p.a else p.b }

  /** A reachable pair with these two connections, and at least these segments put out. */
  ghost predicate At(p: Pair, atA: bool, c: Connection, d: Connection, w: set<Segment>, v: set<Segment>) {
    && Valid(p) && Reached(p) && Inv(p)
    && Mine(p, atA).h.c == c && Mine(p, !atA).h.c == d
    && w <= Mine(p, atA).wire && v <= Mine(p, !atA).wire
  }

  lemma Flip(p: Pair, atA: bool, c: Connection, d: Connection, w: set<Segment>, v: set<Segment>)
    requires At(p, atA, c, d, w, v)
    ensures At(p, !atA, d, c, v, w)
  {
  }

  lemma WrittenLength(s: Side)
    requires SideOk(s)
    ensures |s.h.t.written| == s.h.c.sender.stream.written
  {
  }

  /** A segment of a short stream that was put out may arrive. */
  lemma MayArrive(s: Side, other: Side, seg: Segment)
    requires Inv(Pair(s, other)) && seg in other.wire && !seg.header.rst && |other.h.t.written| < TWO31
    ensures Enabled(s, other, CR.Receive(seg))
  {
    hide DP.Inv, CR.Inv;
    assert Genuine(seg, other.h.t.wire, other.acks);
    var x :| x in other.h.t.wire && DP.SameData(x, seg);
    DP.ShortStreamsAreNear(Path(other, s), x, seg);
    hide DP.Near;
  }

  lemma Moves(p: Pair, atA: bool, c: Connection, d: Connection, w: set<Segment>, v: set<Segment>, e: CR.Event)
    returns (p': Pair)
    requires At(p, atA, c, d, w, v) && c.Valid() && d.sender.stream.written < 100
    requires e.Receive? ==> e.seg in v && !e.seg.header.rst
    requires e.Write? ==> !c.sender.stream.ended && c.sender.stream.written + |e.data| < 100
    ensures At(p', atA, CR.Apply(c, e), d, w + SR.Elements(CR.Apply(c, e).segmentsOut), v)
  {
    var act := Action(atA, e);
    var s, other := This(p, act), Other(p, act);
    p' := Next(p, act);
    assert Inv(Pair(s, other)) && SideOk(s) && SideOk(other);
    hide Inv, SideOk, CR.Apply, CR.SenderShare, Reached, DP.Near;
    WrittenLength(s);
    WrittenLength(other);
    if e.Receive? {
      MayArrive(s, other, e.seg);
    }
    assert Enabled(s, other, e);
    ReachNext(p, act);
    StepKeeps(p, act);
  }

  // ----- What goes out -----

  lemma {:induction false} QueuedGoesOut(queue: seq<Segment>, r: Receiver, x: Segment)
    requires x in queue
    ensures Outgoing(x, r) in AllOutgoing(queue, r)
  {
    hide Outgoing;
    if x != queue[0] {
      QueuedGoesOut(queue[1..], r, x);
    }
  }

  lemma ReadyStamps(seg: Segment)
    ensures Outgoing(seg, SS.Ready()) == Stamped(seg, 1, 10)
  {
  }

  lemma HoldingStamps(popped: nat, buffer: seq<byte>, seg: Segment)
    requires popped < 100 && |buffer| <= 2
    ensures Outgoing(seg, ST.Holding(popped, buffer)) == Stamped(seg, popped + |buffer| + 1, 2 - |buffer|)
  {
    ST.Advertised(popped, buffer);
  }

  lemma StampedIsReceived(r: Receiver, seg: Segment, ackno: uint32, win: uint16)
    requires r.Output().Valid()
    ensures r.SegmentReceived(Stamped(seg, ackno, win)) == r.SegmentReceived(seg)
  {
    hide Reassembler.Push, Unwrap;
  }

  const SYN: Segment := NewSegment(0, true, [], false)
  const BLANK: Segment := NewSegment(1, false, [], false)

  lemma ConnectPutsOut()
    ensures SYN in CR.Apply(NewConnection(10, 100, 1000, 0), CR.Connect).segmentsOut
  {
    hide Sender.FillWindow, AllOutgoing;
    var s := NewSender(100, 1000, 0);
    SP.FillSyn(s);
    QueuedGoesOut(s.FillWindow().queue, NewReceiver(10), SYN);
  }

  lemma EmptyQueued(s: Sender)
    requires s.queue == [] && s.isn == 0 && s.nextSeqno == 1
    ensures s.SendEmpty().queue == [BLANK]
  {
    SR.PlainNumber(1, 0);
  }

  lemma SynchronizedPutsOut(c: Connection)
    requires c.Valid() && c.active && c.receiver == NewReceiver(10)
    requires c.sender.stream == EmptyStream(100) && c.sender.isn == 0 && c.sender.nextSeqno == 1
    requires c.sender.outstanding == [SYN] && c.sender.queue == [] && c.sender.highestAck == c.sender.highestRight == -1
    ensures Stamped(BLANK, 1, 10) in CR.Apply(c, CR.Receive(SS.Syn(1, 2))).segmentsOut
  {
    hide Sender.FillWindow, Sender.Acknowledge, AllOutgoing, Unwrap;
    SP.AckAll(c.sender, SYN, 1, 2);
    SP.FillNothing(c.sender.Acknowledge(1, 2));
    assert c.receiver.SegmentReceived(SS.Syn(1, 2)) == SS.Ready();
    EmptyQueued(c.sender.AckReceived(1, 2));
    ReadyStamps(BLANK);
    QueuedGoesOut([BLANK], SS.Ready(), BLANK);
  }

  lemma WritePutsOut(c: Connection, data: seq<byte>, n: nat, seg: Segment)
    requires c.Valid() && c.receiver == SS.Ready() && !c.sender.stream.ended && c.sender.nextSeqno > 0
    requires var s := c.sender.(stream := c.sender.stream.Write(data));
             && s.outstanding == [] && n == Min(s.window, |s.stream.buffer|) && 0 < n <= MAX_PAYLOAD_SIZE
             && seg == NewSegment(Wrap(s.nextSeqno, s.isn), false, s.stream.buffer[..n], false)
    ensures Stamped(seg, 1, 10) in CR.Apply(c, CR.Write(data)).segmentsOut
  {
    hide Sender.FillWindow, AllOutgoing, Wrap;
    var s := c.sender.(stream := c.sender.stream.Write(data));
    SP.FillOnce(s, n);
    ReadyStamps(seg);
    QueuedGoesOut(s.FillWindow().queue, SS.Ready(), seg);
  }

  // ----- The other side -----

  /** The side with the small buffer, past the handshake, with nothing to send. */
  ghost predicate Serves(c: Connection, r: Receiver) {
    && c.Valid() && c.active && c.receiver == r
    && c.sender.stream == EmptyStream(100) && c.sender.isn == 0 && c.sender.nextSeqno == 1
    && c.sender.outstanding == [] && c.sender.window == 10 && c.sender.highestAck == 1 && c.sender.highestRight == 11
    && c.sender.queue == [] && !c.sender.finSent
  }

  /** Its first answer is out. */
  ghost predicate Greets(c: Connection) {
    && c.Valid() && c.active && c.receiver == ST.Holding(0, [])
    && c.sender.stream == EmptyStream(100) && c.sender.isn == 0 && c.sender.nextSeqno == 1
    && c.sender.outstanding == [SYN] && c.sender.highestAck == c.sender.highestRight == -1
    && c.sender.queue == [] && !c.sender.finSent
  }

  lemma SynIsReceived()
    ensures NewReceiver(2).SegmentReceived(SYN) == ST.Holding(0, [])
  {
    ST.SynIsReceived();
  }

  lemma Greeting()
    ensures var c := CR.Apply(NewConnection(2, 100, 1000, 0), CR.Receive(SYN));
            Greets(c) && SS.Syn(1, 2) in c.segmentsOut
  {
    SynIsReceived();
    hide Sender.FillWindow, AllOutgoing, Receiver.SegmentReceived;
    var s := NewSender(100, 1000, 0);
    SP.FillSyn(s);
    HoldingStamps(0, [], SYN);
    QueuedGoesOut(s.FillWindow().queue, ST.Holding(0, []), SYN);
    assert !ST.Holding(0, []).Output().ended;
  }

  lemma NothingReceived(r: Receiver, seg: Segment)
    requires r.Output().Valid() && r.synReceived && seg.payload == [] && !seg.header.fin
    ensures r.SegmentReceived(seg) == r
  {
    hide Unwrap;
  }

  lemma Handshaken(c: Connection)
    requires Greets(c)
    ensures Serves(CR.Apply(c, CR.Receive(Stamped(BLANK, 1, 10))), ST.Holding(0, []))
  {
    hide Sender.FillWindow, Sender.Acknowledge, AllOutgoing, Receiver.SegmentReceived;
    NothingReceived(c.receiver, Stamped(BLANK, 1, 10));
    SP.AckAll(c.sender, SYN, 1, 10);
    SP.FillNothing(c.sender.Acknowledge(1, 10));
    assert !ST.Holding(0, []).Output().ended;
  }

  lemma RepeatedAck(s: Sender)
    requires s.stream == EmptyStream(100) && s.isn == 0 && s.nextSeqno == 1 && s.outstanding == []
    requires s.highestAck == 1 && s.highestRight == 11
    ensures s.AckReceived(1, 10) == s
  {
    hide Sender.FillWindow;
    assert s.Acknowledge(1, 10) == s;
    SP.FillNothing(s);
  }

  /** A segment with data is answered with what the receiver then stands for. */
  lemma Answers(c: Connection, r: Receiver, seg: Segment, r': Receiver)
    requires Serves(c, r) && r'.Output().Valid() && r.SegmentReceived(seg) == r' && !r'.Output().ended
    requires seg.header.ack && seg.header.ackno == 1 && seg.header.win == 10 && !seg.header.rst && seg.SeqLen() > 0
    ensures var c' := CR.Apply(c, CR.Receive(seg)); Serves(c', r') && Outgoing(BLANK, r') in c'.segmentsOut
  {
    hide Sender.AckReceived, AllOutgoing, Receiver.SegmentReceived, Outgoing;
    RepeatedAck(c.sender);
    EmptyQueued(c.sender);
    QueuedGoesOut([BLANK], r', BLANK);
  }

  lemma Reads(c: Connection)
    requires Serves(c, ST.Holding(0, [97, 98]))
    ensures Serves(CR.Apply(c, CR.Read(2)), ST.Holding(2, []))
  {
    hide ST.Holding, Receiver.Read;
    ST.AllIsRead(0, [97, 98]);
    ST.HoldingValid(2, []);
  }

  lemma OldIsReceived()
    ensures ST.Holding(2, []).SegmentReceived(SS.FIRST) == ST.Holding(2, [])
  {
    hide Unwrap, Wrap;
    assert Wrap(0, 1) == 1 by { SR.PlainNumber(0, 1); }
    UnwrapOfWrap(0, 1, 2);
  }

  lemma FinPutsOut(c: Connection)
    requires Serves(c, ST.Holding(2, [99]))
    ensures var c' := CR.Apply(c, CR.EndInput);
            SS.Fin(4, 1) in c'.segmentsOut && c'.Valid() && c'.receiver == c.receiver && c'.sender.stream.written == 0
  {
    hide Sender.FillWindow, AllOutgoing, ST.Holding;
    var s := c.sender.(stream := c.sender.stream.EndInput());
    var fin := NewSegment(1, false, [], true);
    SP.FillFin(s);
    SR.PlainNumber(1, 0);
    assert s.FillWindow().queue == [fin];
    HoldingStamps(2, [99], fin);
    QueuedGoesOut([fin], ST.Holding(2, [99]), fin);
  }

  // ----- The run -----

  lemma Starts() returns (p: Pair)
    ensures At(p, true, NewConnection(10, 100, 1000, 0), NewConnection(2, 100, 1000, 0), {}, {})
  {
    p := P0();
    StartInv(Config(10, 100, 1000, 0), Config(2, 100, 1000, 0));
    assert EnabledRun(P0(), []) && Run(P0(), []) == p;
    hide Inv;
  }

  lemma Weaken(p: Pair, atA: bool, c: Connection, d: Connection, w: set<Segment>, v: set<Segment>,
               w': set<Segment>, v': set<Segment>)
    requires At(p, atA, c, d, w, v) && w' <= w && v' <= v
    ensures At(p, atA, c, d, w', v')
  {
  }

  /** An event of which only that `x` was put out is kept. */
  lemma Sends(p: Pair, atA: bool, c: Connection, d: Connection, w: set<Segment>, v: set<Segment>, e: CR.Event,
              x: Segment)
    returns (p': Pair)
    requires At(p, atA, c, d, w, v) && c.Valid() && d.sender.stream.written < 100 && x in CR.Apply(c, e).segmentsOut
    requires e.Receive? ==> e.seg in v && !e.seg.header.rst
    requires e.Write? ==> !c.sender.stream.ended && c.sender.stream.written + |e.data| < 100
    ensures At(p', !atA, d, CR.Apply(c, e), v, w + {x})
  {
    hide At, CR.Apply;
    p' := Moves(p, atA, c, d, w, v, e);
    var c' := CR.Apply(c, e);
    Weaken(p', atA, c', d, w + SR.Elements(c'.segmentsOut), v, w + {x}, v);
    Flip(p', atA, c', d, w + {x}, v);
  }

  lemma Acts(p: Pair, atA: bool, c: Connection, d: Connection, w: set<Segment>, v: set<Segment>, e: CR.Event)
    returns (p': Pair)
    requires At(p, atA, c, d, w, v) && c.Valid() && d.sender.stream.written < 100
    requires e.Receive? ==> e.seg in v && !e.seg.header.rst
    requires e.Write? ==> !c.sender.stream.ended && c.sender.stream.written + |e.data| < 100
    ensures At(p', atA, CR.Apply(c, e), d, w, v)
  {
    hide At, CR.Apply;
    p' := Moves(p, atA, c, d, w, v, e);
    Weaken(p', atA, CR.Apply(c, e), d, w + SR.Elements(CR.Apply(c, e).segmentsOut), v, w, v);
  }

  const FIRST: Segment := Stamped(SS.FIRST, 1, 10)
  const SECOND: Segment := Stamped(SS.SECOND, 1, 10)
  const ACK: Segment := Stamped(BLANK, 1, 10)

  lemma ConnectFacts()
    ensures var c := NewConnection(10, 100, 1000, 0);
            c.Valid() && CR.Apply(c, CR.Connect).Valid() && CR.Apply(c, CR.Connect).sender.stream.written == 0
    ensures var d := NewConnection(2, 100, 1000, 0); d.Valid() && d.sender.stream.written == 0
  {
    hide CR.Apply;
    SS.Connects();
  }

  /** The SYN goes out and is answered. */
  lemma Greeted() returns (p: Pair, c: Connection, d: Connection)
    ensures At(p, true, c, d, {SYN}, {SS.Syn(1, 2)}) && Greets(d)
    ensures c == CR.Apply(NewConnection(10, 100, 1000, 0), CR.Connect)
  {
    hide *;
    c, d := NewConnection(10, 100, 1000, 0), NewConnection(2, 100, 1000, 0);
    p := Starts();
    ConnectFacts();
    ConnectPutsOut();
    Greeting();
    SynIsNoReset();
    p := Sends(p, true, c, d, {}, {}, CR.Connect, SYN);
    c := CR.Apply(c, CR.Connect);
    p := Sends(p, false, d, c, {}, {} + {SYN}, CR.Receive(SYN), SS.Syn(1, 2));
    d := CR.Apply(d, CR.Receive(SYN));
    Weaken(p, true, c, d, {} + {SYN}, {} + {SS.Syn(1, 2)}, {SYN}, {SS.Syn(1, 2)});
  }

  lemma SynIsNoReset()
    ensures !SYN.header.rst
  {
  }

  /** The handshake. */
  lemma Opens() returns (p: Pair, c: Connection, d: Connection)
    ensures At(p, true, c, d, {}, {}) && SS.Talks(c, EmptyStream(100), 1, [], 2, 1, 3) && Serves(d, ST.Holding(0, []))
  {
    p, c, d := Greeted();
    hide At, CR.Apply, ST.Holding;
    var w, v := {SYN}, {SS.Syn(1, 2)};
    SS.Connects();
    SS.Synchronizes(c);
    SynchronizedPutsOut(c);
    p := Sends(p, true, c, d, w, v, CR.Receive(SS.Syn(1, 2)), ACK);
    c := CR.Apply(c, CR.Receive(SS.Syn(1, 2)));
    Handshaken(d);
    p := Acts(p, false, d, c, v, w + {ACK}, CR.Receive(ACK));
    d := CR.Apply(d, CR.Receive(ACK));
    Flip(p, false, d, c, v, w + {ACK});
    Weaken(p, true, c, d, w + {ACK}, v, {}, {});
  }

  /** Two bytes are sent, arrive, are acknowledged, are read, and arrive and are acknowledged
      again. */
  lemma Exchanges() returns (p: Pair, c: Connection, d: Connection)
    ensures At(p, true, c, d, {}, {SS.Bare(3, 0), SS.Bare(3, 2)})
    ensures SS.Talks(c, SS.Both(), 3, [SS.FIRST], 0, 1, 3) && Serves(d, ST.Holding(2, []))
  {
    p, c, d := Opens();
    hide At, CR.Apply, ST.Holding;
    SS.SendsTwo(c);
    FirstPutsOut(c);
    p := Sends(p, true, c, d, {}, {}, CR.Write([97, 98]), FIRST);
    c := CR.Apply(c, CR.Write([97, 98]));
    FirstArrives(d);
    p := Sends(p, false, d, c, {}, {} + {FIRST}, CR.Receive(FIRST), SS.Bare(3, 0));
    d := CR.Apply(d, CR.Receive(FIRST));
    Flip(p, true, c, d, {} + {FIRST}, {} + {SS.Bare(3, 0)});
    Reads(d);
    p := Acts(p, false, d, c, {} + {SS.Bare(3, 0)}, {} + {FIRST}, CR.Read(2));
    d := CR.Apply(d, CR.Read(2));
    FirstArrivesAgain(d);
    p := Sends(p, false, d, c, {} + {SS.Bare(3, 0)}, {} + {FIRST}, CR.Receive(FIRST), SS.Bare(3, 2));
    d := CR.Apply(d, CR.Receive(FIRST));
    Weaken(p, true, c, d, {} + {FIRST}, {} + {SS.Bare(3, 0)} + {SS.Bare(3, 2)}, {}, {SS.Bare(3, 0), SS.Bare(3, 2)});
  }

  lemma FirstPutsOut(c: Connection)
    requires SS.Talks(c, EmptyStream(100), 1, [], 2, 1, 3)
    ensures FIRST in CR.Apply(c, CR.Write([97, 98])).segmentsOut
  {
    hide CR.Apply;
    SR.PlainNumber(1, 0);
    assert EmptyStream(100).Write([97, 98]).buffer[..2] == [97, 98];
    WritePutsOut(c, [97, 98], 2, SS.FIRST);
  }

  lemma FirstArrives(d: Connection)
    requires Serves(d, ST.Holding(0, []))
    ensures var d' := CR.Apply(d, CR.Receive(FIRST));
            Serves(d', ST.Holding(0, [97, 98])) && SS.Bare(3, 0) in d'.segmentsOut
  {
    hide CR.Apply, ST.Holding, Receiver.SegmentReceived, Outgoing, Serves;
    ST.HoldingValid(0, []);
    ST.HoldingValid(0, [97, 98]);
    ST.DataIsReceived(0, [97, 98]);
    StampedIsReceived(ST.Holding(0, []), SS.FIRST, 1, 10);
    HoldingStamps(0, [97, 98], BLANK);
    Answers(d, ST.Holding(0, []), FIRST, ST.Holding(0, [97, 98]));
  }

  lemma FirstArrivesAgain(d: Connection)
    requires Serves(d, ST.Holding(2, []))
    ensures var d' := CR.Apply(d, CR.Receive(FIRST)); Serves(d', ST.Holding(2, [])) && SS.Bare(3, 2) in d'.segmentsOut
  {
    hide CR.Apply, ST.Holding, Receiver.SegmentReceived, Outgoing, Serves;
    ST.HoldingValid(2, []);
    OldIsReceived();
    StampedIsReceived(ST.Holding(2, []), SS.FIRST, 1, 10);
    HoldingStamps(2, [], BLANK);
    Answers(d, ST.Holding(2, []), FIRST, ST.Holding(2, []));
  }

  lemma SecondArrives(d: Connection)
    requires Serves(d, ST.Holding(2, []))
    ensures Serves(CR.Apply(d, CR.Receive(SECOND)), ST.Holding(2, [99]))
  {
    hide CR.Apply, ST.Holding, Receiver.SegmentReceived, Outgoing, Serves;
    ST.HoldingValid(2, []);
    ST.HoldingValid(2, [99]);
    ST.DataIsReceived(2, [99]);
    StampedIsReceived(ST.Holding(2, []), SS.SECOND, 1, 10);
    Answers(d, ST.Holding(2, []), SECOND, ST.Holding(2, [99]));
  }

  lemma SecondPutsOut(c: Connection)
    requires SS.Talks(c, SS.Both(), 3, [], 1, 3, 5)
    ensures SECOND in CR.Apply(c, CR.Write([99, 100])).segmentsOut
  {
    hide CR.Apply;
    SR.PlainNumber(3, 0);
    assert SS.Both().Write([99, 100]).buffer[..1] == [99];
    WritePutsOut(c, [99, 100], 1, SS.SECOND);
  }

  /** The two acknowledgments arrive swapped, two more bytes are written, one is sent, and the
      application closes. */
  lemma Stalls() returns (p: Pair, c: Connection, d: Connection)
    ensures At(p, true, c, d, {SECOND}, {})
    ensures SS.Talks(c, SS.Rest().EndInput(), 4, [SS.SECOND], 0, 3, 5) && Serves(d, ST.Holding(2, []))
  {
    p, c, d := Exchanges();
    var v := {SS.Bare(3, 0), SS.Bare(3, 2)};
    hide At, CR.Apply, ST.Holding;
    SS.AcksTwo(c);
    p := Acts(p, true, c, d, {}, v, CR.Receive(SS.Bare(3, 2)));
    c := CR.Apply(c, CR.Receive(SS.Bare(3, 2)));
    SS.ForgetsTheWindow(c);
    p := Acts(p, true, c, d, {}, v, CR.Receive(SS.Bare(3, 0)));
    c := CR.Apply(c, CR.Receive(SS.Bare(3, 0)));
    SS.SendsOne(c);
    SecondPutsOut(c);
    p := Sends(p, true, c, d, {}, v, CR.Write([99, 100]), SECOND);
    c := CR.Apply(c, CR.Write([99, 100]));
    Flip(p, false, d, c, v, {} + {SECOND});
    SS.Closes(c);
    p := Acts(p, true, c, d, {} + {SECOND}, v, CR.EndInput);
    c := CR.Apply(c, CR.EndInput);
    Weaken(p, true, c, d, {} + {SECOND}, v, {SECOND}, {});
  }

  /** The byte arrives, the other application closes, and its FIN comes with the
      acknowledgment that leaves the sender stuck. */
  lemma Waiting() returns (p: Pair, c: Connection, d: Connection)
    ensures At(p, true, c, d, {}, {}) && SS.Waits(c) && d.receiver == ST.Holding(2, [99])
    ensures d.sender.stream.written == 0
  {
    p, c, d := Stalls();
    hide At, CR.Apply, ST.Holding;
    Flip(p, true, c, d, {SECOND}, {});
    SecondArrives(d);
    p := Acts(p, false, d, c, {}, {SECOND}, CR.Receive(SECOND));
    d := CR.Apply(d, CR.Receive(SECOND));
    FinPutsOut(d);
    p := Sends(p, false, d, c, {}, {SECOND}, CR.EndInput, SS.Fin(4, 1));
    d := CR.Apply(d, CR.EndInput);
    SS.FinArrives(c);
    p := Acts(p, true, c, d, {SECOND}, {} + {SS.Fin(4, 1)}, CR.Receive(SS.Fin(4, 1)));
    c := CR.Apply(c, CR.Receive(SS.Fin(4, 1)));
    Weaken(p, true, c, d, {SECOND}, {} + {SS.Fin(4, 1)}, {}, {});
  }

  /** The first side leaves without error although the other lacks a byte it wrote. */
  ghost predicate LeavesTooEarly(p: Pair, e: CR.Event)
    requires Valid(p)
  {
    var s' := Do(p.a, e);
    && Enabled(p.a, p.b, e) && CR.Goes(p.a.h.c, s'.h.c) && !s'.h.c.sender.stream.error && SR.NoWrap(s'.h.t.s)
    && |p.b.Inbound()| < |s'.Outbound()|
  }

  /** Some run of two fresh connections gets there. */
  lemma PairCanDropBytes()
    ensures exists p: Pair, e :: Valid(p) && Reached(p) && LeavesTooEarly(p, e)
  {
    var p, c, d := Waiting();
    hide At, Reached, ST.Holding;
    Leaving(p, c, d);
    assert Valid(p) && Reached(p) && LeavesTooEarly(p, CR.Tick(10000)) by { AtMeans(p, c, d); }
  }

  lemma AtMeans(p: Pair, c: Connection, d: Connection)
    requires At(p, true, c, d, {}, {})
    ensures Valid(p) && Reached(p)
  {
  }

  lemma Leaving(p: Pair, c: Connection, d: Connection)
    requires At(p, true, c, d, {}, {}) && SS.Waits(c) && d.receiver == ST.Holding(2, [99])
    ensures Valid(p) && LeavesTooEarly(p, CR.Tick(10000))
  {
    assert SideOk(p.a) && DP.Inv(Path(p.a, p.b));
    SS.Leaves(c);
    var e := CR.Tick(10000);
    CR.SenderShareIsRight(c, p.a.h.t, e);
    hide Reached, SideOk, CR.Apply, DP.Inv, SR.Inv;
    ShortBy(p);
    SenderOf(p.a);
  }

  lemma ShortBy(p: Pair)
    requires DP.Inv(Path(p.a, p.b)) && SideOk(p.a) && Valid(p)
    requires p.b.h.c.receiver == ST.Holding(2, [99]) && SS.Waits(p.a.h.c)
    ensures |p.b.Inbound()| == 3 && |p.a.Outbound()| == 4 && |Do(p.a, CR.Tick(10000)).Outbound()| == 4
    ensures SR.NoWrap(Do(p.a, CR.Tick(10000)).h.t.s)
  {
  }
}
