/** A run of sender, network and receiver that ends in a stall: the network only swaps two
    acknowledgments that a receiver of capacity 2 really sends. */
module StalledTransfer {
  import opened WrappingIntegers
  import opened ByteStreams
  import opened Fragments
  import opened Options
  import opened Reassembly
  import opened Segments
  import opened Receivers
  import opened Senders
  import SP = SenderProgress
  import opened DataPath
  import SR = SenderRuns

  const SYN_SEGMENT: Segment := NewSegment(0, true, [], false)
  const FIRST_SEGMENT: Segment := NewSegment(1, false, [97, 98], false)
  const SECOND_SEGMENT: Segment := NewSegment(3, false, [99], false)

  function Y0(): (y: System)
    ensures y.Valid()
  {
    Start(100, 2, 1000, 0)
  }

  /** A reachable state with this sender, this receiver and at least these acknowledgments. */
  ghost predicate At(y: System, s: Sender, r: Receiver, acks: set<(uint32, uint16)>) {
    Reachable(Y0(), y) && y.Valid() && Inv(y) && y.t.s == s && y.rcv == r && acks <= y.acks
  }

  // ----- One action at a time -----

  lemma Moves(y: System, act: Action)
    requires Reachable(Y0(), y) && y.Valid() && Inv(y) && Enabled(y, act)
    ensures Reachable(Y0(), Next(y, act)) && Next(y, act).Valid() && Inv(Next(y, act))
  {
    hide *;
    ReachNext(Y0(), y, act);
    StepKeeps(y, act);
  }

  lemma WrittenLength(y: System)
    requires Inv(y)
    ensures |y.t.written| == y.t.s.stream.written
  {
  }

  lemma SenderMoves(y: System, s: Sender, r: Receiver, acks: set<(uint32, uint16)>, e: SR.Event) returns (y': System)
    requires At(y, s, r, acks) && s.stream.Valid() && !e.Ack?
    requires e.Write? ==> !s.stream.ended && s.stream.written + |e.data| < 100
    ensures At(y', SR.Apply(s, e), r, acks)
  {
    hide Inv, Reachable, SR.Apply, SR.Accepted;
    WrittenLength(y);
    y' := Next(y, SenderDoes(e));
    Moves(y, SenderDoes(e));
  }

  lemma AckArrives(y: System, s: Sender, r: Receiver, acks: set<(uint32, uint16)>, ackno: uint32, win: uint16)
    returns (y': System)
    requires At(y, s, r, acks) && s.stream.Valid() && (ackno, win) in acks
    ensures At(y', SR.Apply(s, SR.Ack(ackno, win)), r, acks)
  {
    hide Inv, Reachable, SR.Apply, SR.Accepted;
    y' := Next(y, DeliverAck(ackno, win));
    Moves(y, DeliverAck(ackno, win));
  }

  lemma SegmentArrives(y: System, s: Sender, r: Receiver, acks: set<(uint32, uint16)>, seg: Segment)
    returns (y': System)
    requires At(y, s, r, acks) && r.Output().Valid() && seg in s.queue && s.stream.written < 100
    ensures At(y', s, r.SegmentReceived(seg), acks)
  {
    hide Inv, Reachable, Receiver.SegmentReceived;
    WrittenLength(y);
    assert seg in y.t.wire by { QueuedIsEmitted(y, seg); }
    ShortStreamsAreNear(y, seg, seg);
    y' := Next(y, Deliver(seg));
    Moves(y, Deliver(seg));
  }

  lemma QueuedIsEmitted(y: System, seg: Segment)
    requires Inv(y) && seg in y.t.s.queue
    ensures seg in y.t.wire
  {
    assert seg in SR.Elements(y.t.s.queue);
  }

  lemma AckGoesOut(y: System, s: Sender, r: Receiver, acks: set<(uint32, uint16)>, ackno: uint32, win: uint16)
    returns (y': System)
    requires At(y, s, r, acks) && r.synReceived && r.Ackno() == Some(ackno) && r.AdvertisedWindow() == win
    ensures At(y', s, r, acks + {(ackno, win)})
  {
    hide Inv, Reachable, Mod16, Mod32;
    y' := Next(y, SendAck);
    Moves(y, SendAck);
  }

  lemma ReaderReads(y: System, s: Sender, r: Receiver, acks: set<(uint32, uint16)>, len: nat) returns (y': System)
    requires At(y, s, r, acks) && r.Output().Valid()
    ensures At(y', s, r.Read(len), acks)
  {
    hide Inv, Reachable;
    y' := Next(y, Read(len));
    Moves(y, Read(len));
  }

  // ----- The receiver's states -----

  function Synced(): (r: Receiver)
    ensures r.Output().Valid()
  {
    NewReceiver(2).(synReceived := true)
  }

  /** A receiver of capacity 2 whose reader has taken `popped` bytes and left `buffer`. */
  function Holding(popped: nat, buffer: seq<byte>): (r: Receiver)
    ensures |buffer| <= 2 ==> r.Output().Valid()
  {
    var r := Synced();
    var n := popped + |buffer|;
    r.(reassembler := r.reassembler.(output := Stream(2, buffer, false, n, popped, false), index := n))
  }

  lemma SynIsReceived()
    ensures NewReceiver(2).SegmentReceived(SYN_SEGMENT) == Synced()
  {
    hide Unwrap;
  }

  /** The next bytes in order, with room for them, go straight to the output. */
  lemma NextBytesPushed(r: Reassembler, data: seq<byte>)
    requires r.Valid() && r.fragments == [] && 0 < |data| <= r.output.Room() && r.WindowEnd() < TWO64 && !r.eofSet
    ensures r.Push(data, r.index, false) == r.(output := r.output.Write(data), index := r.index + |data|)
  {
    InRange(r.output.Room());
    assert r.index + r.capacity - |r.output.buffer| - r.index == r.output.Room();
    assert data[..|data|] == data;
    assert r.Trim(data, r.index) == Some(Fragment(r.index, data));
    assert r.PushUnassembled(data, r.index) == r.(fragments := [Fragment(r.index, data)]);
    assert [Fragment(r.index, data)][1..] == [];
  }

  lemma PlainIndex(r: Receiver, i: nat)
    requires r.isn == 0 && r.Output().written == i < 100
    ensures r.IndexOf(i + 1) == i
  {
    hide Unwrap;
    UnwrapOfWrap(i, 1, i);
  }

  lemma DataIsReceived(popped: nat, data: seq<byte>)
    requires popped < 100 && 0 < |data| <= 2
    ensures Holding(popped, []).SegmentReceived(NewSegment(popped + 1, false, data, false)) == Holding(popped, data)
  {
    hide Unwrap, Reassembler.Push;
    PlainIndex(Holding(popped, []), popped);
    NextBytesPushed(Holding(popped, []).reassembler, data);
    assert [] + data[..|data|] == data;
  }

  lemma AllIsRead(popped: nat, data: seq<byte>)
    requires |data| <= 2
    ensures Holding(popped, data).Read(2) == Holding(popped + |data|, [])
  {
  }

  lemma Advertised(popped: nat, buffer: seq<byte>)
    requires popped < 100 && |buffer| <= 2
    ensures var r := Holding(popped, buffer);
            r.Ackno() == Some(popped + |buffer| + 1) && r.AdvertisedWindow() == 2 - |buffer|
  {
    InRange(popped + |buffer| + 1);
    InRange(popped + |buffer|);
  }

  // ----- The run -----

  lemma Opens(ss: seq<Sender>) returns (y: System)
    requires |ss| == 6 && ss[0] == Y0().t.s && SYN_SEGMENT in ss[1].queue
    requires forall i :: 0 <= i < 5 ==>
               ss[i].stream.Valid() && !ss[i].stream.ended && ss[i + 1] == SR.Apply(ss[i], SP.STALL_RUN[i])
    requires ss[1].stream.written == 0
    ensures At(y, ss[2], Holding(0, []), {})
  {
    hide SR.Apply, Receiver.SegmentReceived, Inv, Reachable;
    StartInv(100, 2, 1000, 0);
    ReachStart(Y0());
    assert At(Y0(), ss[0], NewReceiver(2), {});
    hide At;
    y := SenderMoves(Y0(), ss[0], NewReceiver(2), {}, SR.Fill);
    SynIsReceived();
    y := SegmentArrives(y, ss[1], NewReceiver(2), {}, SYN_SEGMENT);
    assert Synced() == Holding(0, []);
    Advertised(0, []);
    y := AckGoesOut(y, ss[1], Holding(0, []), {}, 1, 2);
    y := AckArrives(y, ss[1], Holding(0, []), {} + {(1, 2)}, 1, 2);
    Weaken(y, ss[2], Holding(0, []), {} + {(1, 2)});
  }

  lemma Weaken(y: System, s: Sender, r: Receiver, acks: set<(uint32, uint16)>)
    requires At(y, s, r, acks)
    ensures At(y, s, r, {})
  {
  }

  /** Two bytes arrive, and are read between two acknowledgments, which the network swaps. */
  lemma Swaps(y0: System, ss: seq<Sender>, s6: Sender) returns (y: System)
    requires |ss| == 6 && At(y0, ss[2], Holding(0, []), {}) && FIRST_SEGMENT in ss[4].queue
    requires forall i :: 0 <= i < 5 ==>
               ss[i].stream.Valid() && !ss[i].stream.ended && ss[i + 1] == SR.Apply(ss[i], SP.STALL_RUN[i])
    requires ss[5].stream.Valid() && s6 == SR.Apply(ss[5], SP.STALL_RUN[5])
    requires ss[2].stream.written == 0 && ss[4].stream.written == 2
    ensures At(y, s6, Holding(2, []), {})
  {
    hide SR.Apply, Receiver.SegmentReceived, At, Receiver.Read, Holding;
    var acks: set<(uint32, uint16)> := {};
    y := SenderMoves(y0, ss[2], Holding(0, []), acks, SR.Write([97, 98]));
    y := SenderMoves(y, ss[3], Holding(0, []), acks, SR.Fill);
    DataIsReceived(0, [97, 98]);
    HoldingValid(0, []);
    HoldingValid(0, [97, 98]);
    y := SegmentArrives(y, ss[4], Holding(0, []), acks, FIRST_SEGMENT);
    Advertised(0, [97, 98]);
    y := AckGoesOut(y, ss[4], Holding(0, [97, 98]), acks, 3, 0);
    acks := acks + {(3, 0)};
    AllIsRead(0, [97, 98]);
    y := ReaderReads(y, ss[4], Holding(0, [97, 98]), acks, 2);
    Advertised(2, []);
    HoldingValid(2, []);
    y := AckGoesOut(y, ss[4], Holding(2, []), acks, 3, 2);
    acks := acks + {(3, 2)};
    y := AckArrives(y, ss[4], Holding(2, []), acks, 3, 2);
    y := AckArrives(y, ss[5], Holding(2, []), acks, 3, 0);
    Weaken(y, s6, Holding(2, []), acks);
  }

  lemma HoldingValid(popped: nat, buffer: seq<byte>)
    requires |buffer| <= 2
    ensures var r := Holding(popped, buffer); r.synReceived && r.Output().Valid() && !r.Output().ended
  {
  }

  /** The next two bytes are written; one is sent and acknowledged, the other never is. */
  lemma Stalls(y0: System, ss: seq<Sender>) returns (y: System)
    requires |ss| == 5 && At(y0, ss[1], Holding(2, []), {}) && SECOND_SEGMENT in ss[3].queue
    requires forall i :: 0 <= i < 4 ==>
               ss[i].stream.Valid() && !ss[i].stream.ended && ss[i + 1] == SR.Apply(ss[i], SP.STALL_RUN[i + 5])
    requires ss[1].stream.written == 2 && ss[3].stream.written == 4
    ensures At(y, ss[4], Holding(2, [99]), {})
  {
    hide SR.Apply, Receiver.SegmentReceived, At, Holding;
    var acks: set<(uint32, uint16)> := {};
    y := SenderMoves(y0, ss[1], Holding(2, []), acks, SR.Write([99, 100]));
    y := SenderMoves(y, ss[2], Holding(2, []), acks, SR.Fill);
    DataIsReceived(2, [99]);
    HoldingValid(2, []);
    HoldingValid(2, [99]);
    y := SegmentArrives(y, ss[3], Holding(2, []), acks, SECOND_SEGMENT);
    Advertised(2, [99]);
    y := AckGoesOut(y, ss[3], Holding(2, [99]), acks, 4, 1);
    acks := acks + {(4, 1)};
    y := AckArrives(y, ss[3], Holding(2, [99]), acks, 4, 1);
    Weaken(y, ss[4], Holding(2, [99]), acks);
  }

  /** Some run of the whole data path leaves its sender stuck: nothing is in flight, the window
      is used up, one byte was never sent, and the receiver has room for it. */
  lemma TransferCanStall()
    ensures exists y :: Reachable(Y0(), y) && SP.Stuck(y.t.s) && |y.Assembled()| < |y.t.written|
                        && y.rcv.AdvertisedWindow() > 0
  {
    var first := SP.StallFirstHalf();
    var second := SP.StallSecondHalf(first[5]);
    hide SR.Apply, SP.Stuck;
    var y := Opens(first);
    y := Swaps(y, first, second[1]);
    y := Stalls(y, second);
    Advertised(2, [99]);
    assert SP.Stuck(y.t.s) && Reachable(Y0(), y);
    StalledIsShort(y);
  }

  lemma StalledIsShort(y: System)
    requires Inv(y) && y.rcv == Holding(2, [99]) && y.t.s.stream.written == 4
    ensures |y.Assembled()| < |y.t.written|
  {
  }
}
