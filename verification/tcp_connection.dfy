/** A whole TCP endpoint (libsponge/tcp_connection.hh and libsponge/tcp_connection.cc). */
module Connections {
  import opened WrappingIntegers
  import opened Segments
  import opened Receivers
  import opened Senders

  const RST_SEGMENT: Segment := Segment(BLANK_HEADER.(rst := true), [])

  /** What send_segments makes of one queued segment. */
  function Outgoing(seg: Segment, receiver: Receiver): Segment {
    match receiver.Ackno()
    case None => seg
    case Some(ackno) => Stamped(seg, ackno, receiver.AdvertisedWindow())
  }

  function AllOutgoing(queue: seq<Segment>, receiver: Receiver): seq<Segment> {
    if queue == [] then [] else [Outgoing(queue[0], receiver)] + AllOutgoing(queue[1..], receiver)
  }

  datatype Connection = Connection(
    rtTimeout: uint16,
    receiver: Receiver,
    sender: Sender,
    segmentsOut: seq<Segment>,
    linger: bool,
    active: bool,
    sinceLast: nat
  ) {
    predicate Valid() { receiver.Output().Valid() && sender.stream.Valid() }

    function SendSegments(): Connection {
      this.(segmentsOut := segmentsOut + AllOutgoing(sender.queue, receiver), sender := sender.(queue := []))
    }

    function Shutdown(): Connection { this.(active := false, linger := false) }

    function SetErrors(): Connection {
      this.(receiver := receiver.(reassembler := receiver.reassembler.(output := receiver.Output().SetError())),
            sender := sender.(stream := sender.stream.SetError()))
    }

    function SendRst(): Connection {
      this.(segmentsOut := segmentsOut + [RST_SEGMENT]).Shutdown().SetErrors()
    }

    function ConnectSender(): (c: Connection)
      requires Valid()
      ensures c.Valid()
    {
      this.(active := true, sender := sender.FillWindow())
    }

    function Connect(): (c: Connection)
      requires Valid()
      ensures c.Valid()
    {
      ConnectSender().SendSegments()
    }

    function UpdateSender(): (c: Connection)
      requires Valid()
      ensures c.Valid()
    {
      this.(sender := sender.FillWindow()).SendSegments()
    }

    function UpdateStatus(): (c: Connection)
      ensures c.sender == sender && c.receiver == receiver
    {
      if !receiver.Output().ended then this
      else if !sender.stream.ended then this.(linger := false)
      else if sender.BytesInFlight() == 0 && !linger then Shutdown()
      else this
    }

    /** Hands the segment to both halves. */
    function Dispatch(seg: Segment): (c: Connection)
      requires Valid()
      ensures c.Valid()
    {
      this.(receiver := receiver.SegmentReceived(seg),
            sender := if seg.header.ack then sender.AckReceived(seg.header.ackno, seg.header.win) else sender)
    }

    function Answer(seg: Segment): Connection {
      if sender.queue == [] && seg.SeqLen() > 0 then this.(sender := sender.SendEmpty()) else this
    }

    function Process(seg: Segment): (c: Connection)
      requires Valid()
      ensures c.Valid()
    {
      Dispatch(seg).Answer(seg).SendSegments().UpdateStatus()
    }

    function Receive(seg: Segment): (c: Connection)
      requires Valid()
      ensures c.Valid()
    {
      var c := this.(sinceLast := 0);
      if !active && !seg.header.syn then c
      else
        var d := if active then c else c.ConnectSender();
        if seg.header.rst then d.Shutdown().SetErrors() else d.Process(seg)
    }

    function Write(data: seq<byte>): (c: Connection)
      requires Valid()
      ensures c.Valid()
    {
      this.(sender := sender.(stream := sender.stream.Write(data))).UpdateSender()
    }

    function EndInput(): (c: Connection)
      requires Valid()
      ensures c.Valid()
    {
      this.(sender := sender.(stream := sender.stream.EndInput())).UpdateSender()
    }

    /** Gives up after too many retransmissions. */
    function GiveUp(): Connection {
      if sender.retransmissions > MAX_RETX_ATTEMPTS then this.(segmentsOut := []).SendRst() else this
    }

    predicate LingeredEnough() {
      && receiver.Output().ended && sender.stream.ended && sender.BytesInFlight() == 0
      && sinceLast >= 10 * rtTimeout
    }

    function Tick(ms: nat): (c: Connection)
      requires Valid()
      ensures c.Valid()
    {
      var c := this.(sinceLast := sinceLast + ms, sender := sender.Tick(ms)).SendSegments().GiveUp();
      if c.LingeredEnough() then c.Shutdown() else c
    }
  }

  function NewConnection(recvCapacity: nat, sendCapacity: nat, rtTimeout: uint16, isn: uint32): (c: Connection)
    ensures c.Valid()
  {
    Connection(rtTimeout, NewReceiver(recvCapacity), NewSender(sendCapacity, rtTimeout, isn), [], true, false, 0)
  }

  class TCPConnection {
    const rtTimeout: uint16
    const receiver: TCPReceiver
    const sender: TCPSender
    var segmentsOut: seq<Segment>
    var linger: bool
    var active: bool
    var sinceLast: nat

    const Repr: set<object> :=
      {this, receiver, receiver.reassembler, receiver.reassembler.output, sender, sender.stream}

    ghost predicate Separate() { sender.stream != receiver.reassembler.output }

    function View(): Connection
      reads Repr
    {
      Connection(rtTimeout, receiver.View(), sender.View(), segmentsOut, linger, active, sinceLast)
    }

    constructor (recvCapacity: nat, sendCapacity: nat, rtTimeout: uint16, isn: uint32)
      ensures fresh(Repr) && Separate()
      ensures View() == NewConnection(recvCapacity, sendCapacity, rtTimeout, isn)
    {
      this.rtTimeout := rtTimeout;
      receiver := new TCPReceiver(recvCapacity);
      sender := new TCPSender(sendCapacity, rtTimeout, isn);
      segmentsOut, linger, active, sinceLast := [], true, false, 0;
    }

    /** One turn of the loop in send_segments. */
    method SendOne()
      requires Separate() && |sender.queue| > 0
      modifies this`segmentsOut, sender`queue
      ensures segmentsOut == old(segmentsOut) + [Outgoing(old(sender.queue[0]), receiver.View())]
      ensures sender.queue == old(sender.queue[1..])
    {
      hide Receiver.Ackno, Mod16;
      var seg := sender.queue[0];
      var ackno := receiver.Ackno();
      if ackno.Some? {
        seg := Stamped(seg, ackno.value, Mod16(receiver.capacity - |receiver.reassembler.output.buffer|));
      }
      segmentsOut := segmentsOut + [seg];
      sender.queue := sender.queue[1..];
    }

    /** Drains the sender's queue, filling in the acknowledgment fields. */
    method SendSegments()
      requires Separate()
      modifies this`segmentsOut, sender`queue
      ensures View() == old(View()).SendSegments()
    {
      hide Outgoing;
      ghost var out, queue, r := segmentsOut, sender.queue, receiver.View();
      while |sender.queue| > 0
        invariant segmentsOut + AllOutgoing(sender.queue, r) == out + AllOutgoing(queue, r)
        decreases |sender.queue|
      {
        SendOne();
      }
    }

    method Shutdown()
      modifies this
      ensures View() == old(View()).Shutdown()
    {
      active, linger := false, false;
    }

    method SetErrors()
      requires Separate()
      modifies Repr
      ensures View() == old(View()).SetErrors()
    {
      receiver.reassembler.output.SetError();
      sender.stream.SetError();
    }

    method SendRst()
      requires Separate()
      modifies Repr
      ensures View() == old(View()).SendRst()
    {
      segmentsOut := segmentsOut + [RST_SEGMENT];
      Shutdown();
      SetErrors();
    }

    method ConnectSender()
      requires Separate() && View().Valid()
      modifies Repr
      ensures View() == old(View()).ConnectSender()
    {
      active := true;
      sender.FillWindow();
    }

    method Connect()
      requires Separate() && View().Valid()
      modifies Repr
      ensures View() == old(View()).Connect()
    {
      ConnectSender();
      SendSegments();
    }

    method UpdateSender()
      requires Separate() && View().Valid()
      modifies Repr
      ensures View() == old(View()).UpdateSender()
    {
      sender.FillWindow();
      SendSegments();
    }

    method UpdateConnectionStatus()
      requires Separate()
      modifies this
      ensures View() == old(View()).UpdateStatus()
    {
      if receiver.reassembler.output.ended {
        if !sender.stream.ended {
          linger := false;
        } else {
          var inFlight := sender.BytesInFlight();
          if inFlight == 0 && !linger {
            Shutdown();
          }
        }
      }
    }

    /** The second half of segment_received. */
    method ProcessSegment(seg: Segment)
      requires Separate() && View().Valid()
      modifies Repr
      ensures View() == old(View()).Process(seg)
    {
      hide Receiver.SegmentReceived, Sender.AckReceived, Sender.SendEmpty, Connection.SendSegments,
           Connection.UpdateStatus;
      receiver.SegmentReceived(seg);
      if seg.header.ack {
        sender.AckReceived(seg.header.ackno, seg.header.win);
      }
      if |sender.queue| == 0 && seg.SeqLen() > 0 {
        sender.SendEmptySegment();
      }
      SendSegments();
      UpdateConnectionStatus();
    }

    method SegmentReceived(seg: Segment)
      requires Separate() && View().Valid()
      modifies Repr
      ensures View() == old(View()).Receive(seg)
    {
      sinceLast := 0;
      if !active {
        if seg.header.syn {
          ConnectSender();
        } else {
          return;
        }
      }
      if seg.header.rst {
        Shutdown();
        SetErrors();
        return;
      }
      ProcessSegment(seg);
    }

    method Write(data: seq<byte>) returns (n: nat)
      requires Separate() && View().Valid()
      modifies Repr
      ensures View() == old(View()).Write(data)
      ensures n == old(View()).sender.stream.Taken(data)
    {
      n := sender.stream.Write(data);
      UpdateSender();
    }

    method EndInputStream()
      requires Separate() && View().Valid()
      modifies Repr
      ensures View() == old(View()).EndInput()
    {
      sender.stream.EndInput();
      UpdateSender();
    }

    /** Resets the connection after too many retransmissions. */
    method GiveUp()
      requires Separate()
      modifies Repr
      ensures View() == old(View()).GiveUp()
    {
      if sender.retransmissions > MAX_RETX_ATTEMPTS {
        segmentsOut := [];
        SendRst();
      }
    }

    method Tick(ms: nat)
      requires Separate() && View().Valid()
      modifies Repr
      ensures View() == old(View()).Tick(ms)
    {
      hide Sender.Tick, Connection.SendSegments, Connection.GiveUp, TotalLen;
      sinceLast := sinceLast + ms;
      sender.Tick(ms);
      SendSegments();
      GiveUp();
      var inFlight := sender.BytesInFlight();
      if receiver.reassembler.output.ended && sender.stream.ended && inFlight == 0 && sinceLast >= 10 * rtTimeout {
        Shutdown();
      }
    }
  }
}
