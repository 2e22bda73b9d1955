/** How a reset ends a connection, and what its ticks still do afterwards. */
module Resets {
  import opened WrappingIntegers
  import opened Segments
  import opened Receivers
  import opened Senders
  import opened Connections
  import opened ConnectionRuns
  import opened States
  import SR = SenderRuns
  import SS = StalledShutdown

  // ----- The end -----

  /** A segment with RST that the connection looks at ends it at once: it is neither active nor
      lingering, both streams are in error, it reports RESET, and nothing goes out; a live
      connection keeps the rest of its state. */
  lemma ResetEnds(c: Connection, seg: Segment)
    requires c.Valid() && seg.header.rst && (c.active || seg.header.syn)
    ensures var c' := Apply(c, Receive(seg));
            && !c'.active && !c'.linger && StateOf(c') == OfficialState(RESET)
            && c'.sender.stream.error && c'.receiver.Output().error
            && c'.segmentsOut == c.segmentsOut && c'.sinceLast == 0
            && c'.receiver == c.receiver.(reassembler := c'.receiver.reassembler)
            && c'.receiver.reassembler == c.receiver.reassembler.(output := c'.receiver.Output())
            && c'.receiver.Output() == c.receiver.Output().(error := true)
            && (c.active ==> c'.sender == c.sender.(stream := c.sender.stream.(error := true)))
  {
    hide Sender.FillWindow, TotalLen;
  }

  /** A segment without SYN does nothing to a connection that is not active but restart the
      count of silence. */
  lemma InactiveIgnores(c: Connection, seg: Segment)
    requires c.Valid() && !c.active && !seg.header.syn
    ensures Apply(c, Receive(seg)) == c.(sinceLast := 0)
  {
  }

  /** Giving up ends the connection in the same way, and one reset segment is all that is left
      to go out. */
  lemma GivingUpEnds(c: Connection, ms: nat)
    requires c.Valid() && c.sender.Tick(ms).retransmissions > MAX_RETX_ATTEMPTS
    ensures var c' := Apply(c, Tick(ms));
            && !c'.active && !c'.linger && StateOf(c') == OfficialState(RESET)
            && c'.segmentsOut ==
                 [Segment(TcpHeader(0, 0, 0, 0, 5, false, false, false, true, false, false, 0, 0, 0), [])]
  {
    hide Sender.Tick, AllOutgoing, TotalLen;
  }

  // ----- Ticks -----

  /** The tick makes the sender send its first outstanding segment again. */
  predicate Retransmits(s: Sender, ms: nat) {
    s.timerOn && s.retransmissions <= MAX_RETX_ATTEMPTS && s.outstanding != [] && s.timeout <= Mod32(s.timer + ms)
  }

  /** What a tick puts out, active or not: nothing, or the first outstanding segment, or, if
      that was once too often, a reset in place of all. */
  lemma TickPutsOut(c: Connection, ms: nat)
    requires c.Valid() && c.sender.queue == [] && c.sender.retransmissions <= MAX_RETX_ATTEMPTS
    ensures var c' := Apply(c, Tick(ms));
            if !Retransmits(c.sender, ms) then c'.segmentsOut == c.segmentsOut
            else if c.sender.retransmissions < MAX_RETX_ATTEMPTS || c.sender.windowEmpty then
              c'.segmentsOut == c.segmentsOut + [Outgoing(c.sender.outstanding[0], c.receiver)]
            else c'.segmentsOut == [RST_SEGMENT]
  {
    hide Mod32, TotalLen, Outgoing;
    var s := c.sender.Tick(ms);
    if Retransmits(c.sender, ms) {
      assert s.queue == [c.sender.outstanding[0]];
      var first := Outgoing(c.sender.outstanding[0], c.receiver);
      assert AllOutgoing(s.queue, c.receiver) == [first] + AllOutgoing([], c.receiver);
    }
  }

  /** The tick that reaches the timeout exactly. */
  function Remaining(s: Sender): nat { if s.timer < s.timeout then s.timeout - s.timer else 0 }

  lemma TimeoutFits(s: Sender)
    requires SR.Timed(s) && s.initialTimeout < TWO16
    ensures s.timeout < TWO32
  {
    assert Pow2(9) == 512;
    PowGrows(s.retransmissions, 9);
    assert s.initialTimeout * Pow2(s.retransmissions) <= s.initialTimeout * 512;
  }

  lemma {:induction false} PowGrows(a: nat, b: nat)
    requires a <= b
    ensures Pow2(a) <= Pow2(b)
    decreases b - a
  {
    if a < b {
      PowGrows(a, b - 1);
    }
  }

  /** A connection with nothing left to send out, whether a reset ended it or not, is silent
      through any tick if and only if its sender has nothing outstanding under its timer: ticks
      do not ask whether the connection is still active. */
  lemma SilentIff(c: Connection)
    requires c.Valid() && c.sender.queue == [] && c.segmentsOut == [] && SR.Timed(c.sender)
    requires c.sender.retransmissions <= MAX_RETX_ATTEMPTS && c.sender.initialTimeout < TWO16
    ensures (forall ms: nat :: Apply(c, Tick(ms)).segmentsOut == []) <==>
              !c.sender.timerOn || c.sender.outstanding == []
  {
    hide Apply, SR.Timed;
    if c.sender.timerOn && c.sender.outstanding != [] {
      TimeoutFits(c.sender);
      var ms := Remaining(c.sender);
      InRange(c.sender.timer + ms);
      TickPutsOut(c, ms);
      assert Apply(c, Tick(ms)).segmentsOut != [];
    } else {
      forall ms: nat ensures Apply(c, Tick(ms)).segmentsOut == [] {
        TickPutsOut(c, ms);
      }
    }
  }

  /** Nothing is or will be sent. */
  predicate Silent(c: Connection) {
    && c.Valid() && !c.active && c.sender.queue == [] && c.segmentsOut == [] && c.sender.outstanding == []
    && c.sender.retransmissions <= MAX_RETX_ATTEMPTS
  }

  /** What may happen to an ended connection without starting it again. */
  predicate Passive(e: Event) {
    e.Tick? || e.Read? || e.Take? || (e.Receive? && !e.seg.header.syn)
  }

  lemma StepStaysSilent(c: Connection, e: Event)
    requires Silent(c) && Passive(e)
    ensures Silent(Apply(c, e))
  {
    if e.Tick? {
      TickStaysSilent(c, e.ms);
    } else if e.Receive? {
      InactiveIgnores(c, e.seg);
      hide Apply;
    }
  }

  lemma TickStaysSilent(c: Connection, ms: nat)
    requires Silent(c)
    ensures Silent(Apply(c, Tick(ms)))
  {
    var s := c.sender.Tick(ms);
    hide Mod32;
    assert s == c.sender.(timer := s.timer);
    hide Sender.Tick;
    assert AllOutgoing([], c.receiver) == [];
  }

  /** Over every run of ticks, reads and segments without SYN, such a connection stays inactive
      and puts nothing out. */
  lemma {:induction false} SilentForGood(h: History, events: seq<Event>)
    requires h.c.Valid() && h.t.s.stream.Valid() && Silent(h.c) && forall e :: e in events ==> Passive(e)
    ensures Silent(Run(h, events).c)
    decreases |events|
  {
    hide Silent, Passive, Apply, SenderShare;
    if events != [] {
      assert events[0] in events;
      StepStaysSilent(h.c, events[0]);
      SilentForGood(Step(h, events[0]), events[1..]);
    }
  }

  // ----- A reset connection that goes on sending -----

  const RST: Segment := Segment(BLANK_HEADER.(rst := true), [])

  lemma ConnectedFacts()
    ensures var c := Apply(NewConnection(10, 100, 1000, 0), Connect);
            && c.Valid() && c.active && c.sender.queue == [] && c.sender.outstanding != [] && c.sender.timerOn
            && c.sender.retransmissions == 0 && c.sender.initialTimeout == 1000 && SR.Timed(c.sender)
  {
    SS.Connects();
    var h0 := SS.Fresh();
    StartInv(10, 100, 1000, 0);
    StepInv(h0, Connect);
    hide Apply, SenderShare, Filled;
    var h := Step(h0, Connect);
    TimedFacts(h.t);
    assert h.t.s == h.c.sender;
    SendsNothingTwice();
  }

  lemma TimedFacts(t: SR.Track)
    requires SR.Inv(t)
    ensures SR.Timed(t.s) && (t.s.outstanding != [] ==> t.s.timerOn)
  {
    hide SR.AllCarried, SR.Chained;
  }

  lemma SendsNothingTwice()
    ensures var s := Apply(NewConnection(10, 100, 1000, 0), Connect).sender;
            s.retransmissions == 0 && s.initialTimeout == 1000
  {
    hide AllOutgoing;
  }

  /** Some run of a fresh connection is ended by a reset, and a later tick still puts a segment
      out. */
  lemma ResetCanRetransmit()
    ensures exists h, ms: nat :: Reachable(SS.Fresh(), h) && StateOf(h.c) == OfficialState(RESET)
                                 && h.c.segmentsOut == [] && Apply(h.c, Tick(ms)).segmentsOut != []
  {
    var h0 := SS.Fresh();
    assert h0.c == NewConnection(10, 100, 1000, 0);
    ConnectedFacts();
    hide Apply, SenderShare, Reachable;
    ReachStart(h0);
    var h := Reaches(h0, Connect);
    ResetEnds(h.c, RST);
    h := Reaches(h, Receive(RST));
    TakeEmpties(h.c);
    h := Reaches(h, Take);
    hide SR.Timed;
    SilentIff(h.c);
    var ms: nat :| Apply(h.c, Tick(ms)).segmentsOut != [];
  }

  lemma TakeEmpties(c: Connection)
    requires c.Valid()
    ensures Apply(c, Take) == c.(segmentsOut := [])
  {
  }

  lemma Reaches(h: History, e: Event) returns (h': History)
    requires Reachable(SS.Fresh(), h) && Allowed(h, e)
    ensures Reachable(SS.Fresh(), h') && h.c.Valid() && h'.c == Apply(h.c, e)
  {
    hide Run, AllowedRun, Apply, SenderShare;
    h' := Step(h, e);
    ReachNext(SS.Fresh(), h, e);
  }
}
