/** The sending half of TCP (libsponge/tcp_sender.hh and libsponge/tcp_sender.cc). */
module Senders {
  import opened WrappingIntegers
  import opened ByteStreams
  import opened Segments

  const MAX_PAYLOAD_SIZE: nat := 1452
  const MAX_RETX_ATTEMPTS: nat := 8

  /** The outstanding list with `seg` put before the first segment of a greater raw number. */
  function InsertByNumber(out: seq<Segment>, seg: Segment): (r: seq<Segment>) {
    if out == [] then [seg]
    else if seg.header.seqno < out[0].header.seqno then [seg] + out
    else [out[0]] + InsertByNumber(out[1..], seg)
  }

  /** The outstanding list without the leading segments that `ackno` covers entirely. */
  function DropAcked(out: seq<Segment>, ackno: uint32): (r: seq<Segment>) {
    if out != [] && out[0].header.seqno + out[0].SeqLen() - 1 < ackno then DropAcked(out[1..], ackno)
    else out
  }

  /** The sequence numbers a list of segments occupies. */
  function TotalLen(out: seq<Segment>): nat {
    if out == [] then 0 else out[0].SeqLen() + TotalLen(out[1..])
  }

  datatype Sender = Sender(
    isn: uint32,
    queue: seq<Segment>,
    outstanding: seq<Segment>,
    initialTimeout: nat,
    timeout: nat,
    stream: Stream,
    nextSeqno: nat,
    window: uint16,
    timerOn: bool,
    timer: uint32,
    retransmissions: nat,
    highestAck: int,
    highestRight: int,
    finSent: bool,
    windowEmpty: bool
  ) {
    function SendSegment(seg: Segment): Sender {
      var length := Mod16(seg.SeqLen());
      if length == 0 then this
      else
        this.(queue := queue + [seg],
              window := if window < length then 0 else window - length,
              timerOn := true,
              timer := if timerOn then timer else 0,
              outstanding := InsertByNumber(outstanding, seg))
    }

    function SendNew(syn: bool, payload: seq<byte>, fin: bool): Sender {
      var seg := NewSegment(Wrap(nextSeqno, isn), syn, payload, fin);
      this.(nextSeqno := nextSeqno + seg.SeqLen()).SendSegment(seg)
    }

    /** Reads one payload off the stream and sends it, with the FIN when it fits. */
    function SendData(): (s: Sender)
      requires stream.Valid()
      ensures s.stream.Valid()
    {
      var n := Min(window, MAX_PAYLOAD_SIZE);
      var payload := stream.Peek(n);
      var rest := stream.Read(n);
      var fin := rest.Eof() && !finSent && |payload| < window;
      this.(stream := rest, finSent := finSent || fin).SendNew(false, payload, fin)
    }

    function SendAllData(): (s: Sender)
      requires stream.Valid()
      ensures s.stream.Valid()
      decreases |stream.buffer|
    {
      if window > 0 && stream.buffer != [] then SendData().SendAllData() else this
    }

    function SendFin(): (s: Sender)
      ensures s.stream == stream
    {
      if stream.Eof() && !finSent && window > 0 then this.(finSent := true).SendNew(false, [], true)
      else this
    }

    function SendSyn(): (s: Sender)
      ensures s.stream == stream
    {
      if nextSeqno == 0 then SendNew(true, [], false) else this
    }

    function FillWindow(): (s: Sender)
      requires stream.Valid()
      ensures s.stream.Valid()
    {
      var s := SendSyn();
      if s.window == 0 then s else s.SendAllData().SendFin()
    }

    /** Whether ack_received looks at an acknowledgment at all. */
    predicate Accepts(ackno: uint32) {
      ackno <= Wrap(nextSeqno, isn) && highestAck <= ackno
    }

    /** The window adopted from an acknowledgment. */
    function AdoptWindow(ackno: uint32, win: uint16): Sender {
      var right := Mod32(ackno + win);
      if win == 0 then this.(window := 1, windowEmpty := true)
      else if right > highestRight then this.(highestRight := right, window := win, windowEmpty := false)
      else this
    }

    /** The timer restarted when new data is acknowledged. */
    function RestartTimer(ackno: uint32): Sender {
      if ackno > highestAck then
        this.(timeout := initialTimeout, timer := 0, timerOn := outstanding != [], retransmissions := 0,
              highestAck := ackno)
      else this
    }

    function Acknowledge(ackno: uint32, win: uint16): (s: Sender)
      ensures s.stream == stream
    {
      this.(outstanding := DropAcked(outstanding, ackno)).AdoptWindow(ackno, win).RestartTimer(ackno)
    }

    function AckReceived(ackno: uint32, win: uint16): (s: Sender)
      requires stream.Valid()
      ensures s.stream.Valid()
    {
      if Accepts(ackno) then Acknowledge(ackno, win).FillWindow() else this
    }

    function Tick(ms: nat): Sender {
      if !timerOn || retransmissions > MAX_RETX_ATTEMPTS then this
      else
        var now := Mod32(timer + ms);
        if now >= timeout && outstanding != [] then
          var s := this.(queue := queue + [outstanding[0]], timer := 0);
          if windowEmpty then s else s.(retransmissions := retransmissions + 1, timeout := timeout * 2)
        else this.(timer := now)
    }

    function SendEmpty(): Sender {
      this.(queue := queue + [NewSegment(Wrap(nextSeqno, isn), false, [], false)])
    }

    function BytesInFlight(): nat { TotalLen(outstanding) }
  }

  function NewSender(capacity: nat, retxTimeout: uint16, isn: uint32): (s: Sender)
    ensures s.stream.Valid()
  {
    Sender(isn, [], [], retxTimeout, retxTimeout, EmptyStream(capacity), 0, 1, false, 0, 0, -1, -1, false, false)
  }

  class TCPSender {
    var isn: uint32
    var queue: seq<Segment>
    var outstanding: seq<Segment>
    var initialTimeout: nat
    var timeout: nat
    const stream: ByteStream
    var nextSeqno: nat
    var window: uint16
    var timerOn: bool
    var timer: uint32
    var retransmissions: nat
    var highestAck: int
    var highestRight: int
    var finSent: bool
    var windowEmpty: bool

    function View(): Sender
      reads this, stream
    {
      Sender(isn, queue, outstanding, initialTimeout, timeout, stream.View(), nextSeqno, window, timerOn, timer,
             retransmissions, highestAck, highestRight, finSent, windowEmpty)
    }

    constructor (capacity: nat, retxTimeout: uint16, isn: uint32)
      ensures fresh(stream)
      ensures View() == NewSender(capacity, retxTimeout, isn)
    {
      this.isn := isn;
      queue, outstanding := [], [];
      initialTimeout, timeout := retxTimeout, retxTimeout;
      stream := new ByteStream(capacity);
      nextSeqno, window := 0, 1;
      timerOn, timer, retransmissions := false, 0, 0;
      highestAck, highestRight := -1, -1;
      finSent, windowEmpty := false, false;
    }

    /** The insertion loop of send_segment. */
    method InsertOutstanding(seg: Segment)
      modifies this`outstanding
      ensures outstanding == InsertByNumber(old(outstanding), seg)
    {
      ghost var out := outstanding;
      var i := 0;
      while i < |outstanding|
        invariant 0 <= i <= |outstanding| && outstanding == out
        invariant InsertByNumber(out, seg) == out[..i] + InsertByNumber(out[i..], seg)
      {
        if seg.header.seqno < outstanding[i].header.seqno {
          outstanding := outstanding[..i] + [seg] + outstanding[i..];
          return;
        }
        assert out[i..][1..] == out[i + 1..];
        assert out[..i] + [out[i]] == out[..i + 1];
        i := i + 1;
      }
      outstanding := outstanding + [seg];
    }

    method SendSegment(seg: Segment)
      modifies this
      ensures View() == old(View()).SendSegment(seg)
    {
      var length := Mod16(seg.SeqLen());
      if length == 0 {
        return;
      }
      queue := queue + [seg];
      window := if window < length then 0 else window - length;
      if !timerOn {
        timerOn, timer := true, 0;
      }
      InsertOutstanding(seg);
    }

    method SendNewSegment(syn: bool, payload: seq<byte>, fin: bool)
      modifies this
      ensures View() == old(View()).SendNew(syn, payload, fin)
    {
      var seg := NewSegment(Wrap(nextSeqno, isn), syn, payload, fin);
      nextSeqno := nextSeqno + seg.SeqLen();
      SendSegment(seg);
    }

    method FillWindow()
      requires View().stream.Valid()
      modifies this, stream
      ensures View() == old(View()).FillWindow()
    {
      hide Sender.SendNew, Sender.SendSegment;
      if nextSeqno == 0 {
        SendNewSegment(true, [], false);
      }
      if window == 0 {
        return;
      }
      ghost var filled := View().SendAllData();
      while window > 0 && |stream.buffer| > 0
        invariant View().stream.Valid() && View().SendAllData() == filled
        decreases |stream.buffer|
      {
        ghost var before := View();
        var n := if window < MAX_PAYLOAD_SIZE then window else MAX_PAYLOAD_SIZE;
        var payload := stream.Read(n);
        var fin := false;
        if stream.ended && |stream.buffer| == 0 && !finSent && |payload| < window {
          finSent := true;
          fin := true;
        }
        SendNewSegment(false, payload, fin);
        assert View() == before.SendData();
      }
      if stream.ended && |stream.buffer| == 0 && !finSent && window > 0 {
        finSent := true;
        SendNewSegment(false, [], true);
      }
    }

    /** The removal loop of ack_received. */
    method RemoveAcknowledged(ackno: uint32)
      modifies this`outstanding
      ensures outstanding == DropAcked(old(outstanding), ackno)
    {
      while |outstanding| > 0 && outstanding[0].header.seqno + outstanding[0].SeqLen() - 1 < ackno
        invariant DropAcked(outstanding, ackno) == DropAcked(old(outstanding), ackno)
        decreases |outstanding|
      {
        outstanding := outstanding[1..];
      }
    }

    method AdoptWindow(ackno: uint32, win: uint16)
      modifies this
      ensures View() == old(View()).AdoptWindow(ackno, win)
    {
      var right := Mod32(ackno + win);
      if win == 0 {
        window, windowEmpty := 1, true;
      } else if right > highestRight {
        highestRight, window, windowEmpty := right, win, false;
      }
    }

    method RestartTimer(ackno: uint32)
      modifies this
      ensures View() == old(View()).RestartTimer(ackno)
    {
      if ackno > highestAck {
        timeout, timer := initialTimeout, 0;
        timerOn := |outstanding| > 0;
        retransmissions := 0;
        highestAck := ackno;
      }
    }

    method AckReceived(ackno: uint32, win: uint16)
      requires View().stream.Valid()
      modifies this, stream
      ensures View() == old(View()).AckReceived(ackno, win)
    {
      hide Sender.FillWindow, Wrap;
      if ackno > Wrap(nextSeqno, isn) || ackno < highestAck {
        return;
      }
      RemoveAcknowledged(ackno);
      AdoptWindow(ackno, win);
      RestartTimer(ackno);
      assert View() == old(View()).Acknowledge(ackno, win);
      FillWindow();
    }

    method Tick(ms: nat)
      modifies this
      ensures View() == old(View()).Tick(ms)
    {
      if !timerOn || retransmissions > MAX_RETX_ATTEMPTS {
        return;
      }
      timer := Mod32(timer + ms);
      if timer >= timeout && |outstanding| > 0 {
        queue := queue + [outstanding[0]];
        timer := 0;
        if !windowEmpty {
          retransmissions := retransmissions + 1;
          timeout := timeout * 2;
        }
      }
    }

    method SendEmptySegment()
      modifies this
      ensures View() == old(View()).SendEmpty()
    {
      queue := queue + [NewSegment(Wrap(nextSeqno, isn), false, [], false)];
    }

    method BytesInFlight() returns (n: nat)
      ensures n == View().BytesInFlight()
    {
      n := 0;
      for i := 0 to |outstanding|
        invariant n + TotalLen(outstanding[i..]) == TotalLen(outstanding)
      {
        n := n + outstanding[i].SeqLen();
        assert outstanding[i..][1..] == outstanding[i + 1..];
      }
    }
  }
}
