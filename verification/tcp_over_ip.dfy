/** TCP segments in IPv4 datagrams (libsponge/tcp_helpers/tcp_over_ip.cc). */
module TcpOverIp {
  import opened WrappingIntegers
  import opened Options
  import opened Segments
  import opened Ipv4
  import opened Parsers
  import opened Checksums
  import opened TcpCodec
  import I = Ipv4Codec

  datatype Endpoint = Endpoint(ip: uint32, port: uint16)

  datatype Config = Config(source: Endpoint, destination: Endpoint, listening: bool)

  /** The segment with the port numbers of the adapter. */
  function WithPorts(seg: Segment, c: Config): Segment {
    seg.(header := seg.header.(sport := c.source.port, dport := c.destination.port))
  }

  /** The IPv4 header wrap_tcp_in_ip makes for a segment. */
  function CarrierHeader(seg: Segment, c: Config): Ipv4Header {
    BLANK_IPV4.(src := c.source.ip, dst := c.destination.ip,
                len := Mod16(4 * BLANK_IPV4.hlen + 4 * seg.header.doff + |seg.payload|))
  }

  function Wrapped(seg: Segment, c: Config): Option<Datagram> {
    if seg.header.doff < 5 then None
    else
      var h := CarrierHeader(seg, c);
      Some(Datagram(h, SegmentBytes(WithPorts(seg, c), I.PseudoSum(h))))
  }

  /** What unwrap_tcp_in_ip returns, and the adapter's configuration afterwards. */
  datatype Unwrapping = Unwrapping(seg: Option<Segment>, config: Config)

  function Unwrapped(d: Datagram, c: Config): Unwrapping {
    if !c.listening && (d.header.dst != c.source.ip || d.header.src != c.destination.ip) then Unwrapping(None, c)
    else if d.header.proto != PROTO_TCP then Unwrapping(None, c)
    else
      var parsed := ParseSegment(d.payload, I.PseudoSum(d.header));
      if parsed.Err? then Unwrapping(None, c)
      else
        var h := parsed.value.header;
        if h.dport != c.source.port then Unwrapping(None, c)
        else if c.listening && !(h.syn && !h.rst) then Unwrapping(None, c)
        else
          var c' := if c.listening
                    then Config(Endpoint(d.header.dst, c.source.port), Endpoint(d.header.src, h.sport), false)
                    else c;
          Unwrapping(if h.sport != c'.destination.port then None else Some(parsed.value), c')
  }

  class TCPOverIPv4Adapter {
    var config: Config

    constructor (config: Config)
      ensures this.config == config
    {
      this.config := config;
    }

    /** The caller's segment is updated as well; `out` is its new value. */
    method Wrap(seg: Segment) returns (r: Option<Datagram>, out: Segment)
      ensures r == Wrapped(seg, config)
      ensures out == WithPorts(seg, config)
    {
      hide SegmentBytes, I.PseudoSum;
      out := WithPorts(seg, config);
      var h := BLANK_IPV4.(src := config.source.ip, dst := config.destination.ip);
      h := h.(len := Mod16(4 * h.hlen + 4 * seg.header.doff + |seg.payload|));
      var b := Serialize(out, I.PseudoSum(h));
      r := if b.None? then None else Some(Datagram(h, b.value));
    }

    method Unwrap(d: Datagram) returns (r: Option<Segment>)
      modifies this
      ensures Unwrapping(r, config) == Unwrapped(d, old(config))
    {
      hide ParseSegment, I.PseudoSum;
      if !config.listening && d.header.dst != config.source.ip {
        return None;
      }
      if !config.listening && d.header.src != config.destination.ip {
        return None;
      }
      if d.header.proto != PROTO_TCP {
        return None;
      }
      var parsed := Parse(d.payload, I.PseudoSum(d.header));
      if parsed.Err? {
        return None;
      }
      var h := parsed.value.header;
      if h.dport != config.source.port {
        return None;
      }
      if config.listening {
        if h.syn && !h.rst {
          config := Config(Endpoint(d.header.dst, config.source.port), Endpoint(d.header.src, h.sport), false);
        } else {
          return None;
        }
      }
      if h.sport != config.destination.port {
        return None;
      }
      return Some(parsed.value);
    }
  }

  // ----- Round trip -----

  /** The segment fits in one datagram. */
  predicate Fits(seg: Segment) {
    5 <= seg.header.doff <= 15 && 20 + 4 * seg.header.doff + |seg.payload| <= 0xFFFF
  }

  /** The bytes that arrive parse into a datagram with the same source, destination, protocol
      and pseudo-header, and the same payload. */
  lemma CarrierRoundTrip(seg: Segment, c: Config)
    requires Fits(seg)
    ensures Wrapped(seg, c).Some?
    ensures var d := Wrapped(seg, c).value;
            && I.DatagramBytes(d).Some?
            && I.ParseDatagram(I.DatagramBytes(d).value) == Ok(Datagram(I.CheckedHeader(d.header), d.payload))
            && I.HeaderVerdict(I.DatagramBytes(d).value) == NoError
            && I.PseudoSum(I.CheckedHeader(d.header)) == I.PseudoSum(d.header)
  {
    hide I.DatagramBytes, I.ParseDatagram, I.HeaderVerdict, HeaderBytes;
    var d := Wrapped(seg, c).value;
    HeaderRoundTrip(Checked(WithPorts(seg, c), I.PseudoSum(d.header)), []);
    I.DatagramRoundTrip(d);
  }

  /** Round trip: a segment wrapped, sent as bytes, parsed and unwrapped at the mirrored peer
      comes out with the same payload and header fields and the sender's ports; a listening
      peer additionally takes the sender as its destination when the segment is a SYN. */
  lemma WireRoundTrip(seg: Segment, c: Config, peer: Config)
    requires Fits(seg)
    requires peer.source.port == c.destination.port
    requires peer.listening || (peer.source == c.destination && peer.destination == c.source)
    requires peer.listening ==> seg.header.syn && !seg.header.rst
    ensures Wrapped(seg, c).Some? && I.DatagramBytes(Wrapped(seg, c).value).Some?
    ensures var wire := I.DatagramBytes(Wrapped(seg, c).value).value;
            && I.ParseDatagram(wire).Ok?
            && var u := Unwrapped(I.ParseDatagram(wire).value, peer);
               && u.seg.Some? && u.seg.value.payload == seg.payload
               && u.seg.value.header == seg.header.(sport := c.source.port, dport := c.destination.port,
                                                    cksum := u.seg.value.header.cksum)
               && u.config == Config(c.destination, c.source, false)
  {
    CarrierRoundTrip(seg, c);
    var h := CarrierHeader(seg, c);
    assert I.PseudoSum(h) + 65280 * (4 * seg.header.doff + |seg.payload|) + 0xFFFF < TWO32 by {
      PseudoBound(h);
    }
    SegmentRoundTrip(WithPorts(seg, c), I.PseudoSum(h));
    hide I.DatagramBytes, I.ParseDatagram, ParseSegment, SegmentBytes, I.PseudoSum, I.HeaderBytes;
  }

  lemma PseudoBound(h: Ipv4Header)
    ensures I.PseudoSum(h) <= 5 * 0xFFFF + 0xFF
  {
  }

  // ----- What is on the wire -----

  /** The datagram made for a segment: its header in full, the length of its payload, and the
      Internet checksum over pseudo-header and payload, which is 0 as the peer requires. */
  lemma WrapVerifies(seg: Segment, c: Config)
    requires Fits(seg)
    ensures Wrapped(seg, c).Some?
    ensures var d := Wrapped(seg, c).value;
            var n := 4 * seg.header.doff + |seg.payload|;
            && |d.payload| == n
            && d.header == Ipv4Header(4, 5, 0, 20 + n, 0, true, false, 0, 128, 6, 0, c.source.ip, c.destination.ip)
            && ValueOf(SumBytes(I.PseudoBytes(c.source.ip, c.destination.ip, 6, n) + d.payload, false)) == 0
  {
    hide CarrierHeader, WithPorts, SegmentBytes, SumBytes, ValueOf, I.PseudoBytes, I.PayloadLength, I.PseudoSum;
    var h, out := CarrierHeader(seg, c), WithPorts(seg, c);
    CarrierIs(seg, c);
    PortsOnly(seg, c);
    SentVerifies(out, I.PseudoSum(h));
    SegmentLength(out, I.PseudoSum(h));
    PseudoInSum(h, SegmentBytes(out, I.PseudoSum(h)));
  }

  lemma PortsOnly(seg: Segment, c: Config)
    ensures WithPorts(seg, c).header.doff == seg.header.doff && WithPorts(seg, c).payload == seg.payload
  {
  }

  lemma SegmentLength(seg: Segment, pseudo: uint32)
    requires 5 <= seg.header.doff <= 15
    ensures |SegmentBytes(seg, pseudo)| == 4 * seg.header.doff + |seg.payload|
  {
    hide HeaderBytes, ValueOf, SegmentSum;
    HeaderRoundTrip(Checked(seg, pseudo), []);
  }

  /** Starting from the share of the pseudo-header is summing over its bytes first. */
  lemma PseudoInSum(h: Ipv4Header, b: seq<byte>)
    requires I.PseudoSum(h) + SumBytes(b, false) < TWO32
    ensures SumBytes(I.PseudoBytes(h.src, h.dst, h.proto, I.PayloadLength(h)) + b, false) ==
            SegmentSum(b, I.PseudoSum(h))
  {
    hide SumBytes, I.PseudoBytes, I.PayloadLength, I.PseudoSum, Mod32;
    I.PseudoIsSum(h);
    SumConcat(I.PseudoBytes(h.src, h.dst, h.proto, I.PayloadLength(h)), b, false);
    InRange(I.PseudoSum(h) + SumBytes(b, false));
  }

  lemma CarrierIs(seg: Segment, c: Config)
    requires Fits(seg)
    ensures var h, n := CarrierHeader(seg, c), 4 * seg.header.doff + |seg.payload|;
            && h == Ipv4Header(4, 5, 0, 20 + n, 0, true, false, 0, 128, 6, 0, c.source.ip, c.destination.ip)
            && I.PayloadLength(h) == n && SumFits(WithPorts(seg, c), I.PseudoSum(h))
  {
    PseudoBound(CarrierHeader(seg, c));
    hide I.PseudoSum;
  }

  /** The segment in a datagram is intact: its checksum over pseudo-header and payload is 0, and
      the payload is as long as a header and as its data offset says. */
  predicate Intact(d: Datagram) {
    var pseudo := I.PseudoBytes(d.header.src, d.header.dst, d.header.proto, I.PayloadLength(d.header));
    var words := Field(d.payload, 12, 1) / 16;
    && ValueOf(Mod32(SumBytes(pseudo + d.payload, false))) == 0
    && |d.payload| >= 20 && (words < 5 || |d.payload| >= 4 * words)
  }

  /** The peer of the adapter: known by its address and port, or, while listening, whoever sends
      a SYN. */
  predicate FromPeer(d: Datagram, c: Config) {
    var flags := Field(d.payload, 13, 1);
    if c.listening then HasBit(flags, 2) && !HasBit(flags, 4)
    else d.header.dst == c.source.ip && d.header.src == c.destination.ip && Field(d.payload, 0, 2) == c.destination.port
  }

  /** Exactly which datagrams are accepted: intact TCP segments to the adapter's port from its
      peer; and only a listening adapter changes, to talk to whom it heard. */
  lemma UnwrapAcceptsIff(d: Datagram, c: Config)
    ensures var u := Unwrapped(d, c);
            && (u.seg.Some? <==>
                  d.header.proto == 6 && Intact(d) && Field(d.payload, 2, 2) == c.source.port && FromPeer(d, c))
            && u.config == if u.seg.Some? && c.listening
                           then Config(Endpoint(d.header.dst, c.source.port),
                                       Endpoint(d.header.src, Field(d.payload, 0, 2)), false)
                           else c
  {
    SegmentIntactIff(d);
    hide ParseSegment, SumBytes, ValueOf, Intact, Field;
  }

  lemma SegmentIntactIff(d: Datagram)
    ensures var parsed := ParseSegment(d.payload, I.PseudoSum(d.header));
            && (parsed.Ok? <==> Intact(d))
            && (parsed.Ok? ==>
                  var h := parsed.value.header;
                  && h.sport == Field(d.payload, 0, 2) && h.dport == Field(d.payload, 2, 2)
                  && h.syn == HasBit(Field(d.payload, 13, 1), 2) && h.rst == HasBit(Field(d.payload, 13, 1), 4))
  {
    I.PseudoIsSum(d.header);
    var pseudo := I.PseudoBytes(d.header.src, d.header.dst, d.header.proto, I.PayloadLength(d.header));
    hide I.PseudoSum, SumBytes, ValueOf, I.PseudoBytes, Field, HasBit, I.PayloadLength;
    SumConcat(pseudo, d.payload, false);
  }
}
