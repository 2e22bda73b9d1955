/** What the sender promises over whole runs, whatever acknowledgments it is given. */
module SenderRuns {
  import opened WrappingIntegers
  import opened Segments
  import opened Senders

  /** What can happen to a sender. Drain is the owner taking the queued segments away, Fail
      is the owner marking the stream as failed. */
  datatype Event =
    | Write(data: seq<byte>)
    | Close
    | Fill
    | Tick(ms: nat)
    | Ack(ackno: uint32, win: uint16)
    | Empty
    | Drain
    | Fail

  /** A sender, all bytes its application wrote, and every segment it ever emitted. */
  datatype Track = Track(s: Sender, written: seq<byte>, wire: set<Segment>)

  function Apply(s: Sender, e: Event): (s': Sender)
    requires s.stream.Valid()
    ensures s'.stream.Valid()
  {
    match e
    case Write(data) => s.(stream := s.stream.Write(data))
    case Close => s.(stream := s.stream.EndInput())
    case Fill => s.FillWindow()
    case Tick(ms) => s.Tick(ms)
    case Ack(ackno, win) => s.AckReceived(ackno, win)
    case Empty => s.SendEmpty()
    case Drain => s.(queue := [])
    case Fail => s.(stream := s.stream.SetError())
  }

  function Elements(q: seq<Segment>): set<Segment> { set seg | seg in q }

  function Accepted(s: Sender, e: Event): seq<byte>
    requires s.stream.Valid()
  {
    if e.Write? then e.data[..s.stream.Taken(e.data)] else []
  }

  function Step(t: Track, e: Event): (t': Track)
    requires t.s.stream.Valid()
    ensures t'.s.stream.Valid()
  {
    var s' := Apply(t.s, e);
    Track(s', t.written + Accepted(t.s, e), t.wire + Elements(s'.queue))
  }

  function Run(t: Track, events: seq<Event>): (t': Track)
    requires t.s.stream.Valid()
    ensures t'.s.stream.Valid()
    decreases |events|
  {
    if events == [] then t else Run(Step(t, events[0]), events[1..])
  }

  function Start(capacity: nat, retxTimeout: uint16, isn: uint32): (t: Track)
    ensures t.s.stream.Valid()
  {
    Track(NewSender(capacity, retxTimeout, isn), [], {})
  }

  /** The application does not write after closing. */
  ghost predicate WritesBeforeClose(s: Sender, events: seq<Event>)
    requires s.stream.Valid()
    decreases |events|
  {
    events == [] ||
    (&& (events[0].Write? ==> !s.stream.ended)
     && WritesBeforeClose(Apply(s, events[0]), events[1..]))
  }

  // ----- The sequence space: what every number stands for -----

  /** The bytes read off the application's stream so far. */
  function SentBytes(s: Sender, written: seq<byte>): int { |written| - |s.stream.buffer| }

  /** Numbers and stream agree: one number for SYN, one for each byte sent, one for FIN. */
  ghost predicate Numbered(s: Sender, written: seq<byte>) {
    && s.stream.Valid()
    && s.stream.written == |written|
    && 0 <= SentBytes(s, written)
    && s.stream.buffer == written[SentBytes(s, written)..]
    && (s.finSent ==> s.stream.Eof())
    && (s.nextSeqno == 0 ==> SentBytes(s, written) == 0 && !s.finSent)
    && (s.nextSeqno > 0 ==> s.nextSeqno == 1 + SentBytes(s, written) + if s.finSent then 1 else 0)
  }

  /** `seg`, placed at absolute number `a`, carries what the stream has there. */
  ghost predicate Carries(seg: Segment, a: nat, s: Sender, written: seq<byte>) {
    && seg.header.seqno == Wrap(a, s.isn)
    && a + seg.SeqLen() <= s.nextSeqno
    && |seg.payload| <= MAX_PAYLOAD_SIZE
    && (seg.header.syn ==> a == 0 && seg.SeqLen() == 1)
    && (!seg.header.syn && seg.SeqLen() > 0 ==>
          1 <= a && a - 1 + |seg.payload| <= |written| && seg.payload == written[a - 1..a - 1 + |seg.payload|])
    && (seg.header.fin ==> s.finSent && a - 1 + |seg.payload| == |written|)
  }

  ghost predicate Carried(seg: Segment, s: Sender, written: seq<byte>) {
    exists a: nat :: Carries(seg, a, s, written)
  }

  ghost predicate AllCarried(t: Track) {
    && Elements(t.s.queue) <= t.wire
    && Elements(t.s.outstanding) <= t.wire
    && (forall seg :: seg in t.s.outstanding ==> seg.SeqLen() > 0)
    && (forall seg :: seg in t.wire ==> !seg.header.ack && !seg.header.rst)
    && forall seg :: seg in t.wire ==> Carried(seg, t.s, t.written)
  }

  /** Nothing that was carried is lost when the sender moves on. */
  lemma StillCarried(seg: Segment, s: Sender, written: seq<byte>, s': Sender, written': seq<byte>)
    requires Carried(seg, s, written)
    requires s'.isn == s.isn && s.nextSeqno <= s'.nextSeqno && written <= written'
    requires s.finSent ==> s'.finSent && written' == written
    ensures Carried(seg, s', written')
  {
    var a: nat :| Carries(seg, a, s, written);
    assert Carries(seg, a, s', written');
  }

  lemma {:induction false} InsertElements(out: seq<Segment>, seg: Segment)
    ensures forall x :: x in InsertByNumber(out, seg) <==> x == seg || x in out
  {
    if out != [] {
      InsertElements(out[1..], seg);
    }
  }

  /** Sending a new segment that carries the stream at the next number keeps all carried. */
  lemma SendNewCarries(s: Sender, t: Track, syn: bool, payload: seq<byte>, fin: bool)
    requires AllCarried(t)
    requires s.isn == t.s.isn && s.nextSeqno == t.s.nextSeqno
    requires s.queue == t.s.queue && s.outstanding == t.s.outstanding
    requires t.s.finSent ==> s.finSent
    requires var seg := NewSegment(Wrap(s.nextSeqno, s.isn), syn, payload, fin);
             0 < seg.SeqLen() < TWO16 && Carries(seg, s.nextSeqno, s.SendNew(syn, payload, fin), t.written)
    ensures var s' := s.SendNew(syn, payload, fin);
            AllCarried(Track(s', t.written, t.wire + Elements(s'.queue)))
  {
    hide Wrap;
    var seg := NewSegment(Wrap(s.nextSeqno, s.isn), syn, payload, fin);
    var s' := s.SendNew(syn, payload, fin);
    InsertElements(s.outstanding, seg);
    assert s'.queue == s.queue + [seg];
    forall x | x in t.wire + Elements(s'.queue) ensures Carried(x, s', t.written) {
      if x in t.wire {
        StillCarried(x, t.s, t.written, s', t.written);
      } else {
        assert x == seg;
      }
    }
  }

  /** The track after the sender changed to `s'` without the application writing. */
  function Emit(t: Track, s': Sender): Track { Track(s', t.written, t.wire + Elements(s'.queue)) }

  lemma SendDataNumbers(s: Sender, written: seq<byte>)
    requires Numbered(s, written) && s.nextSeqno > 0 && s.window > 0 && s.stream.buffer != []
    ensures Numbered(s.SendData(), written)
    ensures s.SendData().nextSeqno > s.nextSeqno
  {
    hide Wrap, InsertByNumber;
    var n := Min(Min(s.window, MAX_PAYLOAD_SIZE), |s.stream.buffer|);
    assert s.stream.buffer[n..] == written[SentBytes(s, written) + n..];
  }

  lemma SendDataCarries(t: Track)
    requires Numbered(t.s, t.written) && AllCarried(t)
    requires t.s.nextSeqno > 0 && t.s.window > 0 && t.s.stream.buffer != []
    ensures AllCarried(Emit(t, t.s.SendData()))
  {
    hide Wrap, InsertByNumber;
    var s := t.s;
    var n := Min(s.window, MAX_PAYLOAD_SIZE);
    var payload := s.stream.Peek(n);
    var rest := s.stream.Read(n);
    var fin := rest.Eof() && !s.finSent && |payload| < s.window;
    var mid := s.(stream := rest, finSent := s.finSent || fin);
    var r := SentBytes(s, t.written);
    assert payload == t.written[r..r + |payload|];
    var seg := NewSegment(Wrap(s.nextSeqno, s.isn), false, payload, fin);
    assert s.SendData() == mid.SendNew(false, payload, fin);
    assert Carries(seg, s.nextSeqno, mid.SendNew(false, payload, fin), t.written);
    hide Carries, AllCarried, Sender.SendNew, Sender.SendData;
    SendNewCarries(mid, t, false, payload, fin);
  }

  // ----- The outstanding list, while 32-bit numbers do not wrap -----

  /** Raw numbers stay below 2^32. */
  ghost predicate NoWrap(s: Sender) { s.isn + s.nextSeqno < TWO32 }

  /** Raw numbers, and the right edge of any window, stay below 2^32. */
  ghost predicate NoEdgeWrap(s: Sender) { s.isn + s.nextSeqno + 0xFFFF < TWO32 }

  function RawNext(s: Sender): nat { s.isn + s.nextSeqno }

  function RawEnd(seg: Segment): nat { seg.header.seqno + seg.SeqLen() }

  function FirstNumber(out: seq<Segment>, to: nat): nat {
    if out == [] then to else out[0].header.seqno
  }

  /** Each segment starts where the one before ends, and the last ends at `to`. */
  ghost predicate Chain(out: seq<Segment>, to: nat) {
    out == [] ||
    (&& out[0].SeqLen() > 0
     && RawEnd(out[0]) == FirstNumber(out[1..], to)
     && Chain(out[1..], to))
  }

  /** The outstanding list is a contiguous run up to the next number, holding exactly the
      emitted segments not yet acknowledged to their end; the timer runs for it only, and
      every number before it is acknowledged. */
  ghost predicate Chained(t: Track) {
    && Chain(t.s.outstanding, RawNext(t.s))
    && t.s.highestAck <= RawNext(t.s)
    && (forall seg :: seg in t.wire && seg.SeqLen() > 0 ==>
          (seg in t.s.outstanding <==> t.s.highestAck < RawEnd(seg)))
    && (t.s.timerOn ==> t.s.outstanding != [])
    && (FirstNumber(t.s.outstanding, RawNext(t.s)) == t.s.isn ||
        FirstNumber(t.s.outstanding, RawNext(t.s)) <= t.s.highestAck)
  }

  lemma {:induction false} ChainBelow(out: seq<Segment>, to: nat)
    requires Chain(out, to)
    ensures FirstNumber(out, to) <= to
    ensures forall x :: x in out ==> FirstNumber(out, to) < RawEnd(x) <= to
    ensures out != [] ==> FirstNumber(out, to) < to
  {
    if out != [] {
      ChainBelow(out[1..], to);
    }
  }

  lemma {:induction false} ChainAppend(out: seq<Segment>, seg: Segment, to: nat)
    requires Chain(out, to) && seg.header.seqno == to && seg.SeqLen() > 0
    ensures InsertByNumber(out, seg) == out + [seg]
    ensures Chain(out + [seg], RawEnd(seg))
  {
    if out != [] {
      ChainBelow(out, to);
      ChainAppend(out[1..], seg, to);
      assert (out + [seg])[1..] == out[1..] + [seg];
    }
  }

  /** The bytes in flight are the distance from the first outstanding number to the next. */
  lemma {:induction false} InFlightIsDistance(out: seq<Segment>, to: nat)
    requires Chain(out, to)
    ensures TotalLen(out) == to - FirstNumber(out, to)
  {
    if out != [] {
      InFlightIsDistance(out[1..], to);
    }
  }

  /** Dropping keeps the chain and exactly the segments that end after `ackno`. */
  lemma {:induction false} DropKeepsUnacked(out: seq<Segment>, ackno: uint32, to: nat)
    requires Chain(out, to)
    ensures Chain(DropAcked(out, ackno), to)
    ensures forall x :: x in DropAcked(out, ackno) <==> x in out && ackno < RawEnd(x)
    ensures FirstNumber(DropAcked(out, ackno), to) == FirstNumber(out, to) ||
            FirstNumber(DropAcked(out, ackno), to) <= ackno
  {
    if out != [] {
      ChainBelow(out[1..], to);
      if RawEnd(out[0]) <= ackno {
        DropKeepsUnacked(out[1..], ackno, to);
      }
    }
  }

  lemma PlainNumber(a: nat, isn: uint32)
    ensures isn + a < TWO32 ==> Wrap(a, isn) == isn + a
  {
  }

  lemma SendNewChains(s: Sender, t: Track, syn: bool, payload: seq<byte>, fin: bool)
    requires Chained(t)
    requires s.isn == t.s.isn && s.nextSeqno == t.s.nextSeqno && s.queue == t.s.queue
    requires s.outstanding == t.s.outstanding && s.highestAck == t.s.highestAck
    requires Elements(t.s.queue) <= t.wire
    requires var seg := NewSegment(Wrap(s.nextSeqno, s.isn), syn, payload, fin); 0 < seg.SeqLen() < TWO16
    requires NoWrap(s.SendNew(syn, payload, fin))
    ensures Chained(Emit(t, s.SendNew(syn, payload, fin)))
  {
    hide Wrap, Chain, InsertByNumber;
    var seg := NewSegment(Wrap(s.nextSeqno, s.isn), syn, payload, fin);
    var s' := s.SendNew(syn, payload, fin);
    PlainNumber(s.nextSeqno, s.isn);
    ChainAppend(s.outstanding, seg, RawNext(t.s));
    assert s'.queue == s.queue + [seg];
    forall x | x in Emit(t, s').wire && x.SeqLen() > 0
      ensures x in s'.outstanding <==> s'.highestAck < RawEnd(x)
    {
      assert x in t.wire || x == seg;
    }
  }

  /** What acknowledging may change. */
  lemma AcknowledgeFrame(s: Sender, ackno: uint32, win: uint16)
    requires s.Accepts(ackno)
    ensures var s' := s.Acknowledge(ackno, win);
            && s' == s.(outstanding := DropAcked(s.outstanding, ackno), highestAck := ackno,
                        window := s'.window, windowEmpty := s'.windowEmpty, highestRight := s'.highestRight,
                        timeout := s'.timeout, timer := s'.timer, timerOn := s'.timerOn,
                        retransmissions := s'.retransmissions)
            && s'.window == (if win == 0 then 1 else if Mod32(ackno + win) > s.highestRight then win else s.window)
            && s'.windowEmpty == (if win == 0 then true else if Mod32(ackno + win) > s.highestRight then false
                                  else s.windowEmpty)
            && s'.highestRight == (if win > 0 && Mod32(ackno + win) > s.highestRight then Mod32(ackno + win)
                                   else s.highestRight)
            && if ackno > s.highestAck then
                 s'.timeout == s.initialTimeout && s'.timer == 0 && s'.retransmissions == 0
                 && s'.timerOn == (s'.outstanding != [])
               else
                 s'.timeout == s.timeout && s'.timer == s.timer && s'.retransmissions == s.retransmissions
                 && s'.timerOn == s.timerOn
  {
    hide Wrap, Mod32, DropAcked;
  }

  lemma AcknowledgeChains(t: Track, ackno: uint32, win: uint16)
    requires Chained(t) && NoWrap(t.s) && t.s.Accepts(ackno)
    requires Elements(t.s.outstanding) <= t.wire && Elements(t.s.queue) <= t.wire
    ensures Chained(Emit(t, t.s.Acknowledge(ackno, win)))
    ensures Elements(t.s.Acknowledge(ackno, win).outstanding) <= t.wire
  {
    hide Wrap, Chain, DropAcked, Sender.Acknowledge;
    PlainNumber(t.s.nextSeqno, t.s.isn);
    DropKeepsUnacked(t.s.outstanding, ackno, RawNext(t.s));
    AcknowledgeFrame(t.s, ackno, win);
    var s' := t.s.Acknowledge(ackno, win);
    assert Emit(t, s').wire == t.wire;
    if ackno == t.s.highestAck && t.s.outstanding != [] {
      ChainBelow(t.s.outstanding, RawNext(t.s));
      assert t.s.outstanding[0] in t.wire;
      assert t.s.outstanding[0] in s'.outstanding;
    }
  }

  // ----- The timer -----

  /** The timeout doubles with every retransmission and the timer runs while needed. */
  ghost predicate Timed(s: Sender) {
    && s.timeout == s.initialTimeout * Pow2(s.retransmissions)
    && s.retransmissions <= MAX_RETX_ATTEMPTS + 1
    && (s.outstanding != [] ==> s.timerOn)
    && (!s.timerOn ==> s.retransmissions == 0)
  }

  // ----- The window -----

  /** What is left of the window reaches at least to the highest right edge seen, and an
      exhausted window has left something outstanding. */
  ghost predicate Roomy(s: Sender) {
    && s.highestRight <= RawNext(s) + s.window
    && (s.window == 0 && s.nextSeqno > 0 ==> s.outstanding != [])
  }

  /** Bytes or a FIN that still have to be sent. */
  predicate Pending(s: Sender) {
    s.stream.buffer != [] || (s.stream.ended && !s.finSent)
  }

  /** Sending spends exactly the window it uses. */
  lemma SendNewSpends(s: Sender, syn: bool, payload: seq<byte>, fin: bool)
    requires var seg := NewSegment(Wrap(s.nextSeqno, s.isn), syn, payload, fin); 0 < seg.SeqLen() <= s.window
    ensures var s' := s.SendNew(syn, payload, fin);
            && s'.nextSeqno + s'.window == s.nextSeqno + s.window
            && s'.nextSeqno > s.nextSeqno
            && s'.outstanding != []
            && s'.timerOn
            && (Timed(s) ==> Timed(s'))
            && (Roomy(s) ==> Roomy(s'))
  {
    hide Wrap;
    InsertElements(s.outstanding, NewSegment(Wrap(s.nextSeqno, s.isn), syn, payload, fin));
  }

  // ----- Every step keeps all of it -----

  ghost predicate Inv(t: Track) {
    && Numbered(t.s, t.written)
    && (t.s.nextSeqno == 0 ==> t.s.window > 0)
    && AllCarried(t)
    && Timed(t.s)
    && (NoWrap(t.s) ==> Chained(t))
  }

  lemma StreamOf(t: Track)
    requires Inv(t)
    ensures t.s.stream.Valid()
  {
  }

  /** What filling the window may change: it sends more of the stream, spending the window. */
  ghost predicate Spends(s: Sender, s': Sender) {
    && s'.isn == s.isn
    && s'.initialTimeout == s.initialTimeout
    && s.queue <= s'.queue
    && s.nextSeqno <= s'.nextSeqno
    && s'.nextSeqno + s'.window == s.nextSeqno + s.window
    && s'.highestAck == s.highestAck && s'.highestRight == s.highestRight && s'.windowEmpty == s.windowEmpty
    && s'.retransmissions == s.retransmissions && s'.timeout == s.timeout
    && s'.stream.ended == s.stream.ended && s'.stream.written == s.stream.written && s'.stream.error == s.stream.error
    && (s.finSent ==> s'.finSent)
    && (s.timerOn ==> s'.timerOn && s'.timer == s.timer)
    && (!s.timerOn && s'.timerOn ==> s'.timer == 0)
    && (s.outstanding != [] || s.nextSeqno < s'.nextSeqno ==> s'.outstanding != [])
    && (Roomy(s) ==> Roomy(s'))
  }

  lemma EmitTwice(t: Track, s1: Sender, s2: Sender)
    requires s1.queue <= s2.queue
    ensures Emit(Emit(t, s1), s2) == Emit(t, s2)
  {
    assert Elements(s1.queue) <= Elements(s2.queue);
  }

  lemma SendDataKeeps(t: Track)
    requires Inv(t) && t.s.nextSeqno > 0 && t.s.window > 0 && t.s.stream.buffer != []
    ensures Inv(Emit(t, t.s.SendData()))
    ensures Spends(t.s, t.s.SendData()) && t.s.SendData().outstanding != []
  {
    hide Wrap, InsertByNumber, Chain;
    SendDataNumbers(t.s, t.written);
    SendDataCarries(t);
    var s := t.s;
    var n := Min(s.window, MAX_PAYLOAD_SIZE);
    var payload := s.stream.Peek(n);
    var rest := s.stream.Read(n);
    var fin := rest.Eof() && !s.finSent && |payload| < s.window;
    var mid := s.(stream := rest, finSent := s.finSent || fin);
    SendNewSpends(mid, false, payload, fin);
    if NoWrap(s.SendData()) {
      SendNewChains(mid, t, false, payload, fin);
    }
  }

  lemma {:induction false} SendAllDataKeeps(t: Track)
    requires Inv(t) && t.s.nextSeqno > 0
    ensures var s' := t.s.SendAllData();
            && Inv(Emit(t, s'))
            && Spends(t.s, s')
            && (s'.window == 0 || s'.stream.buffer == [])
    decreases |t.s.stream.buffer|
  {
    if t.s.window > 0 && t.s.stream.buffer != [] {
      var s1 := t.s.SendData();
      SendDataKeeps(t);
      SendAllDataKeeps(Emit(t, s1));
      EmitTwice(t, s1, t.s.SendAllData());
    } else {
      assert Emit(t, t.s) == t;
    }
  }

  lemma SendSynKeeps(t: Track)
    requires Inv(t)
    ensures Inv(Emit(t, t.s.SendSyn())) && Spends(t.s, t.s.SendSyn()) && t.s.SendSyn().nextSeqno > 0
  {
    hide InsertByNumber, Chain;
    if t.s.nextSeqno == 0 {
      SendNewSpends(t.s, true, [], false);
      SendNewCarries(t.s, t, true, [], false);
      if NoWrap(t.s.SendSyn()) {
        SendNewChains(t.s, t, true, [], false);
      }
    } else {
      assert Emit(t, t.s) == t;
    }
  }

  lemma SendFinKeeps(t: Track)
    requires Inv(t) && t.s.nextSeqno > 0
    ensures Inv(Emit(t, t.s.SendFin())) && Spends(t.s, t.s.SendFin())
    ensures t.s.stream.buffer == [] && Pending(t.s.SendFin()) ==> t.s.window == 0
  {
    hide Wrap, InsertByNumber, Chain;
    if t.s.stream.Eof() && !t.s.finSent && t.s.window > 0 {
      var mid := t.s.(finSent := true);
      SendNewSpends(mid, false, [], true);
      SendNewCarries(mid, t, false, [], true);
      if NoWrap(t.s.SendFin()) {
        SendNewChains(mid, t, false, [], true);
      }
    } else {
      assert Emit(t, t.s) == t;
    }
  }

  /** Filling the window keeps the invariant, and what it cannot send it leaves unsent only
      because the window is used up. */
  lemma FillKeeps(t: Track)
    requires Inv(t)
    ensures var s' := t.s.FillWindow();
            && Inv(Emit(t, s'))
            && Spends(t.s, s')
            && s'.nextSeqno > 0
            && (Pending(s') ==> s'.window == 0)
  {
    hide Sender.SendSyn, Sender.SendAllData, Sender.SendFin, Roomy;
    hide AllCarried, Timed, Chained;
    var s1 := t.s.SendSyn();
    SendSynKeeps(t);
    if s1.window > 0 {
      SendAllDataKeeps(Emit(t, s1));
      var s2 := s1.SendAllData();
      EmitTwice(t, s1, s2);
      SendFinKeeps(Emit(t, s2));
      EmitTwice(t, s2, s2.SendFin());
    }
  }

  lemma {:induction false} DropSubset(out: seq<Segment>, ackno: uint32)
    ensures forall x :: x in DropAcked(out, ackno) ==> x in out
  {
    if out != [] {
      DropSubset(out[1..], ackno);
    }
  }

  lemma AcknowledgeKeeps(t: Track, ackno: uint32, win: uint16)
    requires Inv(t) && t.s.Accepts(ackno)
    ensures Inv(Emit(t, t.s.Acknowledge(ackno, win)))
  {
    hide Wrap, Chain, DropAcked, Sender.Acknowledge;
    var s' := t.s.Acknowledge(ackno, win);
    AcknowledgeFrame(t.s, ackno, win);
    DropSubset(t.s.outstanding, ackno);
    if NoWrap(t.s) {
      AcknowledgeChains(t, ackno, win);
    }
    assert Emit(t, s').wire == t.wire;
    assert AllCarried(Emit(t, s')) by {
      forall x | x in t.wire ensures Carried(x, s', t.written) {
        StillCarried(x, t.s, t.written, s', t.written);
      }
    }
    assert Numbered(s', t.written);
    assert Timed(s') by {
      assert Pow2(0) == 1;
      assert s'.outstanding != [] ==> s'.outstanding[0] in t.s.outstanding;
    }
    assert NoWrap(s') ==> Chained(Emit(t, s'));
  }

  lemma WriteKeeps(t: Track, data: seq<byte>)
    requires Inv(t) && !t.s.stream.ended
    ensures Inv(Step(t, Write(data)))
  {
    hide Wrap, Chain;
    var n := t.s.stream.Taken(data);
    var t' := Step(t, Write(data));
    var r := SentBytes(t.s, t.written);
    assert t'.written == t.written + data[..n];
    assert t'.written[r..] == t.written[r..] + data[..n];
    assert t'.wire == t.wire;
    forall x | x in t.wire ensures Carried(x, t'.s, t'.written) {
      StillCarried(x, t.s, t.written, t'.s, t'.written);
    }
  }

  lemma TickDoubles(s: Sender, ms: nat)
    requires Timed(s)
    ensures Timed(s.Tick(ms))
  {
    hide Mod32;
    assert Pow2(s.retransmissions + 1) == 2 * Pow2(s.retransmissions);
  }

  /** A tick changes only the timer fields, and the queue by at most one retransmission. */
  lemma TickFrame(s: Sender, ms: nat)
    ensures var s' := s.Tick(ms);
            && s' == s.(queue := s'.queue, timer := s'.timer, retransmissions := s'.retransmissions,
                        timeout := s'.timeout)
            && (s'.queue == s.queue || (s.outstanding != [] && s'.queue == s.queue + [s.outstanding[0]]))
  {
    hide Mod32;
  }

  lemma TickKeeps(t: Track, ms: nat)
    requires Inv(t)
    ensures Inv(Step(t, Tick(ms)))
  {
    hide Wrap, Chain, Sender.Tick;
    var t' := Step(t, Tick(ms));
    TickFrame(t.s, ms);
    TickDoubles(t.s, ms);
    if t.s.outstanding != [] {
      assert t.s.outstanding[0] in t.wire;
    }
    assert t'.wire == t.wire && t'.written == t.written;
    CarriedAlike(t, t');
  }

  lemma EmptyKeeps(t: Track)
    requires Inv(t)
    ensures Inv(Step(t, Empty))
  {
    hide Wrap, Chain;
    var t' := Step(t, Empty);
    var seg := NewSegment(Wrap(t.s.nextSeqno, t.s.isn), false, [], false);
    assert Carries(seg, t.s.nextSeqno, t.s, t.written);
    assert t'.s.queue == t.s.queue + [seg];
    assert t'.written == t.written;
    forall x | x in t'.wire ensures Carried(x, t'.s, t'.written) {
      assert x in t.wire || x == seg;
      StillCarried(x, t.s, t.written, t'.s, t'.written);
    }
  }

  lemma CarriedAlike(t: Track, t': Track)
    requires AllCarried(t) && t'.wire == t.wire && t'.written == t.written
    requires t'.s.isn == t.s.isn && t'.s.nextSeqno == t.s.nextSeqno && t'.s.finSent == t.s.finSent
    ensures forall seg :: seg in t'.wire ==> Carried(seg, t'.s, t'.written)
  {
    forall x | x in t.wire ensures Carried(x, t'.s, t'.written) {
      StillCarried(x, t.s, t.written, t'.s, t'.written);
    }
  }

  lemma StepIsApply(t: Track, e: Event)
    requires t.s.stream.Valid()
    ensures Step(t, e).s == Apply(t.s, e)
  {
  }

  lemma CloseKeeps(t: Track)
    requires Inv(t)
    ensures Inv(Step(t, Close))
  {
    hide Wrap, Chain;
    assert Step(t, Close) == Track(t.s.(stream := t.s.stream.EndInput()), t.written, t.wire);
    CarriedAlike(t, Step(t, Close));
  }

  lemma FailKeeps(t: Track)
    requires Inv(t)
    ensures Inv(Step(t, Fail))
  {
    hide Wrap, Chain;
    assert Step(t, Fail) == Track(t.s.(stream := t.s.stream.SetError()), t.written, t.wire);
    CarriedAlike(t, Step(t, Fail));
  }

  lemma DrainKeeps(t: Track)
    requires Inv(t)
    ensures Inv(Step(t, Drain))
  {
    hide Wrap, Chain;
    assert Step(t, Drain) == Track(t.s.(queue := []), t.written, t.wire);
    CarriedAlike(t, Step(t, Drain));
  }

  lemma AckKeeps(t: Track, ackno: uint32, win: uint16)
    requires Inv(t)
    ensures Inv(Step(t, Ack(ackno, win)))
  {
    hide AllCarried, Timed, Chained, Sender.FillWindow, Sender.Acknowledge, Wrap;
    if t.s.Accepts(ackno) {
      var s1 := t.s.Acknowledge(ackno, win);
      AcknowledgeKeeps(t, ackno, win);
      FillKeeps(Emit(t, s1));
      EmitTwice(t, s1, s1.FillWindow());
      assert Step(t, Ack(ackno, win)) == Emit(t, s1.FillWindow());
    } else {
      QueueOnWire(t);
      assert Step(t, Ack(ackno, win)) == t;
    }
  }

  lemma QueueOnWire(t: Track)
    requires AllCarried(t)
    ensures t.wire + Elements(t.s.queue) == t.wire
  {
  }

  /** Every step keeps the invariant. */
  lemma StepKeeps(t: Track, e: Event)
    requires Inv(t) && (e.Write? ==> !t.s.stream.ended)
    ensures Inv(Step(t, e))
  {
    match e
    case Write(data) => WriteKeeps(t, data);
    case Fill =>
      FillKeeps(t);
      assert Step(t, e) == Emit(t, t.s.FillWindow());
    case Ack(ackno, win) => AckKeeps(t, ackno, win);
    case Tick(ms) => TickKeeps(t, ms);
    case Empty => EmptyKeeps(t);
    case Close => CloseKeeps(t);
    case Drain => DrainKeeps(t);
    case Fail => FailKeeps(t);
  }

  /** How a sender may move on: nothing sent, written or acknowledged is taken back. */
  ghost predicate Grows(t: Track, t': Track) {
    && t'.s.isn == t.s.isn
    && t.s.nextSeqno <= t'.s.nextSeqno
    && t.written <= t'.written
    && t.wire <= t'.wire
    && t.s.highestAck <= t'.s.highestAck
    && (t.s.finSent ==> t'.s.finSent && t'.written == t.written)
    && (t.s.stream.ended ==> t'.s.stream.ended && t'.written == t.written)
    && (NoWrap(t'.s) ==> NoWrap(t.s)) && (NoEdgeWrap(t'.s) ==> NoEdgeWrap(t.s))
  }

  lemma AckGrows(t: Track, ackno: uint32, win: uint16)
    requires Inv(t)
    ensures Grows(t, Step(t, Ack(ackno, win)))
  {
    hide AllCarried, Timed, Chained, Sender.FillWindow, Wrap, DropAcked, Mod32;
    if t.s.Accepts(ackno) {
      AcknowledgeKeeps(t, ackno, win);
      FillKeeps(Emit(t, t.s.Acknowledge(ackno, win)));
    }
  }

  lemma StepGrows(t: Track, e: Event)
    requires Inv(t) && (e.Write? ==> !t.s.stream.ended)
    ensures Grows(t, Step(t, e))
  {
    hide AllCarried, Timed, Chained, Sender.FillWindow, Wrap, Mod32;
    match e
    case Ack(ackno, win) => AckGrows(t, ackno, win);
    case Fill => FillKeeps(t);
    case _ =>
  }

  /** Every run of a fresh sender keeps the invariant: numbers match the stream, every
      segment ever emitted carries the stream's bytes at its number, the timer doubles, and
      without wrap-around the outstanding list is exact. */
  lemma {:induction false} RunKeeps(t: Track, events: seq<Event>)
    requires Inv(t) && WritesBeforeClose(t.s, events)
    ensures Inv(Run(t, events))
    decreases |events|
  {
    if events != [] {
      StepKeeps(t, events[0]);
      RunKeeps(Step(t, events[0]), events[1..]);
    }
  }

  lemma StartInv(capacity: nat, retxTimeout: uint16, isn: uint32)
    ensures Inv(Start(capacity, retxTimeout, isn))
    ensures Roomy(Start(capacity, retxTimeout, isn).s)
  {
  }

  // ----- What the invariant says, from a fresh sender on -----

  /** Over every run: each segment ever emitted, new or retransmitted, carries at most a full
      payload, exactly the bytes of the application's stream that its number names; the FIN
      has one place, after all data; and the next number counts SYN, bytes sent and FIN. */
  lemma EverySegmentCarriesItsBytes(capacity: nat, retxTimeout: uint16, isn: uint32, events: seq<Event>)
    requires WritesBeforeClose(Start(capacity, retxTimeout, isn).s, events)
    ensures var t := Run(Start(capacity, retxTimeout, isn), events);
            && Numbered(t.s, t.written)
            && (forall seg :: seg in t.s.queue || seg in t.s.outstanding ==> seg in t.wire)
            && (forall seg :: seg in t.wire ==> Carried(seg, t.s, t.written))
  {
    StartInv(capacity, retxTimeout, isn);
    RunKeeps(Start(capacity, retxTimeout, isn), events);
  }

  /** Over every run without wrap-around, whatever acknowledgments came: the outstanding list
      is one contiguous run up to the next number, it holds exactly the emitted segments that
      are not acknowledged to their last number, and the bytes in flight are the distance
      from its first number to the next; the timer runs exactly while it is not empty. */
  lemma OutstandingIsExact(capacity: nat, retxTimeout: uint16, isn: uint32, events: seq<Event>)
    requires WritesBeforeClose(Start(capacity, retxTimeout, isn).s, events)
    requires NoWrap(Run(Start(capacity, retxTimeout, isn), events).s)
    ensures var t := Run(Start(capacity, retxTimeout, isn), events);
            && Chain(t.s.outstanding, RawNext(t.s))
            && t.s.BytesInFlight() == RawNext(t.s) - FirstNumber(t.s.outstanding, RawNext(t.s))
            && (forall seg :: seg in t.s.outstanding <==>
                  seg in t.wire && seg.SeqLen() > 0 && t.s.highestAck < RawEnd(seg))
            && (t.s.timerOn <==> t.s.outstanding != [])
  {
    StartInv(capacity, retxTimeout, isn);
    RunKeeps(Start(capacity, retxTimeout, isn), events);
    var t := Run(Start(capacity, retxTimeout, isn), events);
    InFlightIsDistance(t.s.outstanding, RawNext(t.s));
  }
}
