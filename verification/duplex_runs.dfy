/** Whole runs of two connections: safety in both directions, and what a shutdown means. */
module DuplexRuns {
  import opened WrappingIntegers
  import opened Receivers
  import opened Duplex
  import SP = SenderProgress
  import SR = SenderRuns
  import CR = ConnectionRuns
  import DP = DataPath

  /** An event at one of the two sides. */
  datatype Action = Action(atA: bool, e: CR.Event)

  function This(p: Pair, act: Action): Side { if act.atA then p.a else p.b }

  function Other(p: Pair, act: Action): Side { if act.atA then p.b else p.a }

  predicate Valid(p: Pair) { p.a.Valid() && p.b.Valid() }

  function Next(p: Pair, act: Action): (p': Pair)
    requires Valid(p)
    ensures Valid(p')
  {
    if act.atA then p.(a := Do(p.a, act.e)) else p.(b := Do(p.b, act.e))
  }

  function Run(p: Pair, acts: seq<Action>): (p': Pair)
    requires Valid(p)
    ensures Valid(p')
    decreases |acts|
  {
    if acts == [] then p else Run(Next(p, acts[0]), acts[1..])
  }

  ghost predicate EnabledRun(p: Pair, acts: seq<Action>)
    requires Valid(p)
    decreases |acts|
  {
    acts == [] || (Enabled(This(p, acts[0]), Other(p, acts[0]), acts[0].e) && EnabledRun(Next(p, acts[0]), acts[1..]))
  }

  /** The part of TCPConfig that matters here. */
  datatype Config = Config(recvCapacity: nat, sendCapacity: nat, rtTimeout: uint16, isn: uint32)

  function Fresh(k: Config): (s: Side)
    ensures s.Valid()
  {
    Side(CR.Start(k.recvCapacity, k.sendCapacity, k.rtTimeout, k.isn), [], {}, {})
  }

  function Start(ka: Config, kb: Config): (p: Pair)
    ensures Valid(p)
  {
    Pair(Fresh(ka), Fresh(kb))
  }

  // ----- Safety -----

  lemma FreshPath(ka: Config, kb: Config)
    ensures DP.Inv(Path(Fresh(ka), Fresh(kb)))
  {
    DP.StartInv(ka.sendCapacity, kb.recvCapacity, ka.rtTimeout, ka.isn);
    assert Path(Fresh(ka), Fresh(kb)) == DP.Start(ka.sendCapacity, kb.recvCapacity, ka.rtTimeout, ka.isn);
  }

  lemma StartInv(ka: Config, kb: Config)
    ensures Inv(Start(ka, kb))
  {
    FreshPath(ka, kb);
    FreshPath(kb, ka);
    CR.StartInv(ka.recvCapacity, ka.sendCapacity, ka.rtTimeout, ka.isn);
    CR.StartInv(kb.recvCapacity, kb.sendCapacity, kb.rtTimeout, kb.isn);
    hide DP.Inv, CR.Inv;
  }

  lemma StepKeeps(p: Pair, act: Action)
    requires Inv(p) && Valid(p) && Enabled(This(p, act), Other(p, act), act.e)
    ensures Inv(Next(p, act))
  {
    assert Inv(Pair(This(p, act), Other(p, act)));
    DoKeeps(This(p, act), Other(p, act), act.e);
    hide Do, SideOk, DP.Inv, Path;
  }

  lemma {:induction false} RunKeeps(p: Pair, acts: seq<Action>)
    requires Inv(p) && Valid(p) && EnabledRun(p, acts)
    ensures Inv(Run(p, acts))
    decreases |acts|
  {
    hide Inv, Next, Enabled;
    if acts != [] {
      StepKeeps(p, acts[0]);
      RunKeeps(Next(p, acts[0]), acts[1..]);
    }
  }

  /** Over every run of two fresh connections, whatever the network loses, repeats or
      reorders: each application has been given a prefix of what the other one wrote, and
      neither side acknowledges anything the other has not sent. */
  lemma BothDirectionsAreSafe(ka: Config, kb: Config, acts: seq<Action>)
    requires EnabledRun(Start(ka, kb), acts)
    ensures var p := Run(Start(ka, kb), acts);
            && p.a.Inbound() <= p.b.Outbound()
            && p.b.Inbound() <= p.a.Outbound()
            && (p.a.h.c.receiver.synReceived ==> p.a.h.c.receiver.AbsoluteAck() <= p.b.h.c.sender.nextSeqno)
            && (p.b.h.c.receiver.synReceived ==> p.b.h.c.receiver.AbsoluteAck() <= p.a.h.c.sender.nextSeqno)
  {
    StartInv(ka, kb);
    RunKeeps(Start(ka, kb), acts);
    var p := Run(Start(ka, kb), acts);
    PathIsSafe(p.a, p.b);
    PathIsSafe(p.b, p.a);
  }

  lemma PathIsSafe(s: Side, other: Side)
    requires Inv(Pair(s, other))
    ensures other.Inbound() <= s.Outbound()
    ensures other.h.c.receiver.synReceived ==> other.h.c.receiver.AbsoluteAck() <= s.h.c.sender.nextSeqno
  {
    var y := Path(s, other);
    assert SideOk(s) && DP.Inv(y);
    hide SideOk, CR.Inv, SR.Chained, SR.AllCarried, SR.Timed, DP.Acknowledging;
    assert s.h.t.s == s.h.c.sender by { SenderOf(s); }
    if y.rcv.synReceived {
      DP.AckWithinSent(y);
    }
  }

  lemma SenderOf(s: Side)
    requires SideOk(s)
    ensures s.h.t.s == s.h.c.sender
  {
  }

  // ----- Shutdown -----

  /** Nothing is in flight and the sender is not stalled exactly when the peer's stream has
      ended, and then the peer has everything. */
  lemma QuietMeansDelivered(s: Side, other: Side)
    requires Inv(Pair(s, other)) && SR.NoWrap(s.h.t.s) && s.h.c.sender.nextSeqno > 0
    requires s.h.c.sender.stream.ended && s.h.c.sender.BytesInFlight() == 0 && !s.h.c.sender.stream.error
    ensures other.h.c.receiver.Output().ended <==> !SP.Stalled(s.h.c.sender)
    ensures !SP.Stalled(s.h.c.sender) ==> other.Inbound() == s.Outbound()
  {
    var y := Path(s, other);
    SenderOf(s);
    assert DP.Inv(y);
    hide SideOk, CR.Inv, SR.AllCarried, SR.Timed;
    CR.NothingInFlight(y.t);
    if !SP.Stalled(y.t.s) {
      assert y.t.s.highestAck == y.t.s.isn + |y.t.written| + 2;
      assert y.rcv.AbsoluteAck() >= |y.t.written| + 2;
    }
  }

  /** An ended stream lacks at most its last byte. */
  lemma EndedMeansReceived(s: Side, other: Side)
    requires Inv(Pair(s, other)) && other.h.c.receiver.Output().ended
    ensures s.h.c.sender.stream.ended && other.Inbound() <= s.Outbound()
    ensures |s.Outbound()| <= |other.Inbound()| + 1
  {
    var y := Path(s, other);
    SenderOf(s);
    assert DP.Inv(y);
    hide SideOk, CR.Inv, SR.Chained, SR.AllCarried, SR.Timed, DP.Acknowledging;
  }

  /** When a side shuts down without error and its numbers do not wrap: its peer has closed
      and it has all the peer wrote but possibly the last byte; and its peer has the end of
      its own stream, and with it every byte, exactly when the state before the event did not
      say that its sender would be stalled. */
  lemma ShutdownMeansDelivered(ka: Config, kb: Config, acts: seq<Action>, act: Action)
    requires EnabledRun(Start(ka, kb), acts)
    ensures var p := Run(Start(ka, kb), acts);
            var s, s', other := This(p, act), This(Next(p, act), act), Other(p, act);
            Enabled(s, other, act.e) && CR.Goes(s.h.c, s'.h.c) && !s'.h.c.sender.stream.error && SR.NoWrap(s'.h.t.s) ==>
              && other.h.c.sender.stream.ended
              && s'.Inbound() <= other.Outbound()
              && |other.Outbound()| <= |s'.Inbound()| + 1
              && (other.h.c.receiver.Output().ended <==> !CR.WillStall(s.h.c.sender, act.e))
              && (!CR.WillStall(s.h.c.sender, act.e) ==> other.Inbound() == s'.Outbound())
  {
    StartInv(ka, kb);
    RunKeeps(Start(ka, kb), acts);
    var p := Run(Start(ka, kb), acts);
    var s, s', other := This(p, act), This(Next(p, act), act), Other(p, act);
    if Enabled(s, other, act.e) && CR.Goes(s.h.c, s'.h.c) && !s'.h.c.sender.stream.error && SR.NoWrap(s'.h.t.s) {
      assert Inv(Pair(s, other)) && s' == Do(s, act.e);
      DoKeeps(s, other, act.e);
      ShutdownOf(s, act.e);
      hide *;
      QuietMeansDelivered(s', other);
      EndedMeansReceived(other, s');
    }
  }

  lemma ShutdownOf(s: Side, e: CR.Event)
    requires SideOk(s) && SideOk(Do(s, e)) && (e.Write? ==> !s.h.c.sender.stream.ended)
    requires CR.Goes(s.h.c, Do(s, e).h.c) && !Do(s, e).h.c.sender.stream.error
    ensures var c := Do(s, e).h.c;
            && c.receiver.Output().ended && c.sender.stream.ended && c.sender.BytesInFlight() == 0
            && c.sender.nextSeqno > 0
            && (SR.NoWrap(Do(s, e).h.t.s) ==> (SP.Stalled(c.sender) <==> CR.WillStall(s.h.c.sender, e)))
  {
    assert Do(s, e).h == CR.Step(s.h, e);
    CR.ShutdownGuards(s.h, e);
    CR.WillStallIff(s.h, e);
    hide CR.Step, Do, SR.Inv, CR.Filled;
  }

  // ----- Exact delivery -----

  /** The event is a delivery that ends the stream one byte early. */
  ghost predicate Early(s: Side, other: Side, e: CR.Event)
    requires s.Valid() && other.Valid()
  {
    e.Receive? && Processes(s.h.c, e.seg) && DP.EarlyDelivery(Path(other, s), DP.Deliver(e.seg))
  }

  ghost predicate NoEarlyRun(p: Pair, acts: seq<Action>)
    requires Valid(p)
    decreases |acts|
  {
    acts == [] || (!Early(This(p, acts[0]), Other(p, acts[0]), acts[0].e) && NoEarlyRun(Next(p, acts[0]), acts[1..]))
  }

  ghost predicate Complete(p: Pair) { DP.CompleteAtEnd(Path(p.a, p.b)) && DP.CompleteAtEnd(Path(p.b, p.a)) }

  lemma SendingCompletes(s: Side, other: Side, e: CR.Event)
    requires Inv(Pair(s, other)) && Enabled(s, other, e) && DP.CompleteAtEnd(Path(s, other))
    ensures DP.CompleteAtEnd(Path(Do(s, e), other))
  {
    SideKeeps(s, e);
    hide Do, SideOk, DP.Inv;
  }

  lemma ReceivingCompletes(s: Side, other: Side, e: CR.Event)
    requires Inv(Pair(s, other)) && Enabled(s, other, e) && DP.CompleteAtEnd(Path(other, s)) && !Early(s, other, e)
    ensures DP.CompleteAtEnd(Path(other, Do(s, e)))
  {
    hide CR.Apply, CR.SenderShare;
    var y := Path(other, s);
    var y' := y.(rcv := CR.Apply(s.h.c, e).receiver, consumed := s.consumed + Taken(s.h.c, e));
    assert Path(other, Do(s, e)) == y'.(acks := Do(s, e).acks);
    assert DP.Inv(y) && y.Valid();
    hide Do, DP.Inv, DP.Near, DP.EarlyDelivery;
    ReceiverAfter(s.h.c, e);
    if e.Receive? && Processes(s.h.c, e.seg) {
      ArrivalIsEnabled(s, other, e.seg);
      NothingTaken(s, e);
      assert y' == DP.Next(y, DP.Deliver(e.seg));
      hide Receiver.SegmentReceived, SideOk, Enabled;
      DP.DeliverCompletes(y, e.seg);
    } else if e.Read? {
      assert y' == DP.Next(y, DP.Read(e.len));
      hide SideOk;
      DP.StepCompletes(y, DP.Read(e.len));
    } else {
      NothingTaken(s, e);
    }
  }

  lemma {:induction false} RunCompletes(p: Pair, acts: seq<Action>)
    requires Inv(p) && Valid(p) && Complete(p) && EnabledRun(p, acts) && NoEarlyRun(p, acts)
    ensures Complete(Run(p, acts))
    decreases |acts|
  {
    if acts != [] {
      var s, other, e := This(p, acts[0]), Other(p, acts[0]), acts[0].e;
      assert Inv(Pair(s, other));
      hide Enabled, Do, Inv, Path, DP.CompleteAtEnd, Early;
      StepKeeps(p, acts[0]);
      SendingCompletes(s, other, e);
      ReceivingCompletes(s, other, e);
      RunCompletes(Next(p, acts[0]), acts[1..]);
    }
  }

  /** Over every run in which no delivery comes early, once a side's inbound stream has ended
      it is exactly the stream its peer wrote and closed. */
  lemma EndedStreamsAreExact(ka: Config, kb: Config, acts: seq<Action>)
    requires ka.recvCapacity < TWO64 && kb.recvCapacity < TWO64
    requires EnabledRun(Start(ka, kb), acts) && NoEarlyRun(Start(ka, kb), acts)
    ensures var p := Run(Start(ka, kb), acts);
            && (p.a.h.c.receiver.Output().ended ==> p.b.h.t.s.stream.ended && p.a.Inbound() == p.b.Outbound())
            && (p.b.h.c.receiver.Output().ended ==> p.a.h.t.s.stream.ended && p.b.Inbound() == p.a.Outbound())
  {
    StartInv(ka, kb);
    RunCompletes(Start(ka, kb), acts);
  }
}
