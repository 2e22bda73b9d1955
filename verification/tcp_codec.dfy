/** TCP headers and segments on the wire (libsponge/tcp_helpers/tcp_header.cc,
    libsponge/tcp_helpers/tcp_segment.cc, section 3.1 of RFC 793). */
module TcpCodec {
  import opened WrappingIntegers
  import opened Options
  import opened Segments
  import opened Parsers
  import opened Checksums

  const LENGTH: nat := 20

  function Flags(h: TcpHeader): nat {
    Bit(h.urg, 32) + Bit(h.ack, 16) + Bit(h.psh, 8) + Bit(h.rst, 4) + Bit(h.syn, 2) + Bit(h.fin, 1)
  }

  /** The fixed part of the header, number by number. */
  function Nums(h: TcpHeader): seq<Num> {
    [Num(h.sport, 2), Num(h.dport, 2), Num(h.seqno, 4), Num(h.ackno, 4), Num(16 * h.doff % 256, 1), Num(Flags(h), 1),
     Num(h.win, 2), Num(h.cksum, 2), Num(h.uptr, 2)]
  }

  /** The header as sent; with `doff` below 5 there is none (the source throws). */
  function HeaderBytes(h: TcpHeader): seq<byte>
    requires 5 <= h.doff
  {
    Layout(Nums(h)) + Zeros(4 * h.doff - LENGTH)
  }

  /** The fields read off the front of `b`, 0 where `b` is too short. */
  function Fields(b: seq<byte>): TcpHeader {
    FieldsFit(b);
    var flags := Field(b, 13, 1);
    TcpHeader(Field(b, 0, 2), Field(b, 2, 2), Field(b, 4, 4), Field(b, 8, 4), Field(b, 12, 1) / 16,
              HasBit(flags, 32), HasBit(flags, 16), HasBit(flags, 8), HasBit(flags, 4), HasBit(flags, 2),
              HasBit(flags, 1), Field(b, 14, 2), Field(b, 16, 2), Field(b, 18, 2))
  }

  lemma NumsLayout(h: TcpHeader)
    ensures var n := Nums(h);
            && Offset(n, 1) == 2 && Offset(n, 2) == 4 && Offset(n, 3) == 8 && Offset(n, 4) == 12 && Offset(n, 5) == 13
            && Offset(n, 6) == 14 && Offset(n, 7) == 16 && Offset(n, 8) == 18 && Offset(n, 9) == 20
            && |Layout(n)| == 20
  {
    var n := Nums(h);
    assert Offset(n, 1) == 2;
    assert Offset(n, 2) == 4;
    assert Offset(n, 3) == 8;
    assert Offset(n, 4) == 12;
    assert Offset(n, 5) == 13;
    assert Offset(n, 6) == 14;
    assert Offset(n, 7) == 16;
    assert Offset(n, 8) == 18;
    LayoutLength(n, 9);
    assert n[..9] == n;
  }

  lemma NumbersReadBack(h: TcpHeader, rest: seq<byte>)
    ensures var b := Layout(Nums(h)) + rest;
            && Field(b, 0, 2) == h.sport && Field(b, 2, 2) == h.dport && Field(b, 4, 4) == h.seqno
            && Field(b, 8, 4) == h.ackno && Field(b, 12, 1) == 16 * h.doff % 256 && Field(b, 13, 1) == Flags(h)
            && Field(b, 14, 2) == h.win && Field(b, 16, 2) == h.cksum && Field(b, 18, 2) == h.uptr
  {
    hide Layout, Field, Offset;
    var n := Nums(h);
    NumsLayout(h);
    OffsetZero(n);
    Pow256Values();
    LayoutField(n, 0, rest);
    LayoutField(n, 1, rest);
    LayoutField(n, 2, rest);
    LayoutField(n, 3, rest);
    LayoutField(n, 4, rest);
    LayoutField(n, 5, rest);
    LayoutField(n, 6, rest);
    LayoutField(n, 7, rest);
    LayoutField(n, 8, rest);
  }

  lemma FlagsReadBack(h: TcpHeader)
    ensures HasBit(Flags(h), 32) == h.urg && HasBit(Flags(h), 16) == h.ack && HasBit(Flags(h), 8) == h.psh
    ensures HasBit(Flags(h), 4) == h.rst && HasBit(Flags(h), 2) == h.syn && HasBit(Flags(h), 1) == h.fin
  {
  }

  /** Where each field is on the wire, as section 3.1 of RFC 793 has it: numbers in network byte
      order, the data offset in the high half of byte 12, the flags in byte 13. */
  lemma WireLayout(h: TcpHeader, rest: seq<byte>)
    requires 5 <= h.doff <= 15
    ensures var b := HeaderBytes(h) + rest;
            && |HeaderBytes(h)| == 4 * h.doff
            && FromBytes(b[0..2]) == h.sport && FromBytes(b[2..4]) == h.dport
            && FromBytes(b[4..8]) == h.seqno && FromBytes(b[8..12]) == h.ackno
            && b[12] == 16 * h.doff
            && b[13] == (if h.urg then 32 else 0) + (if h.ack then 16 else 0) + (if h.psh then 8 else 0)
                        + (if h.rst then 4 else 0) + (if h.syn then 2 else 0) + (if h.fin then 1 else 0)
            && FromBytes(b[14..16]) == h.win && FromBytes(b[16..18]) == h.cksum && FromBytes(b[18..20]) == h.uptr
            && forall i :: 20 <= i < 4 * h.doff ==> b[i] == 0
  {
    var zeros := Zeros(4 * h.doff - LENGTH);
    NumsLayout(h);
    NumbersReadBack(h, zeros + rest);
    hide Layout, Nums;
    var b := HeaderBytes(h) + rest;
    assert b == Layout(Nums(h)) + (zeros + rest);
    OneByte(b, 12);
    OneByte(b, 13);
    hide FromBytes;
  }

  /** Round trip of the header, whatever follows it. */
  lemma HeaderRoundTrip(h: TcpHeader, rest: seq<byte>)
    requires 5 <= h.doff <= 15
    ensures |HeaderBytes(h)| == 4 * h.doff
    ensures Fields(HeaderBytes(h) + rest) == h
  {
    var zeros := Zeros(4 * h.doff - LENGTH);
    NumsLayout(h);
    NumbersReadBack(h, zeros + rest);
    FlagsReadBack(h);
    assert HeaderBytes(h) + rest == Layout(Nums(h)) + (zeros + rest);
  }

  // ----- Segments -----

  /** The 32-bit checksum sum over a whole segment, starting from the pseudo-header's share. */
  function SegmentSum(b: seq<byte>, pseudo: uint32): uint32 { Mod32(pseudo + SumBytes(b, false)) }

  /** The header with the checksum that makes the whole segment verify. */
  function Checked(seg: Segment, pseudo: uint32): TcpHeader
    requires 5 <= seg.header.doff
  {
    seg.header.(cksum := ValueOf(SegmentSum(HeaderBytes(seg.header.(cksum := 0)) + seg.payload, pseudo)))
  }

  function SegmentBytes(seg: Segment, pseudo: uint32): seq<byte>
    requires 5 <= seg.header.doff
  {
    HeaderBytes(Checked(seg, pseudo)) + seg.payload
  }

  /** What the parser makes of `b`: a header offset below 5 is not reported. */
  function ParseBody(b: seq<byte>): Parsed<Segment> {
    var h := Fields(b);
    if |b| < LENGTH then Err(PacketTooShort)
    else if h.doff < 5 then Ok(Segment(h, b[LENGTH..]))
    else if |b| < 4 * h.doff then Err(PacketTooShort)
    else Ok(Segment(h, b[4 * h.doff..]))
  }

  function ParseSegment(b: seq<byte>, pseudo: uint32): Parsed<Segment> {
    if ValueOf(SegmentSum(b, pseudo)) != 0 then Err(BadChecksum) else ParseBody(b)
  }

  /** The checksum field adds its own value to the sum and nothing else. */
  lemma ChecksumCounts(h: TcpHeader, c: uint16, rest: seq<byte>)
    requires 5 <= h.doff
    ensures SumBytes(HeaderBytes(h.(cksum := c)) + rest, false) ==
            SumBytes(HeaderBytes(h.(cksum := 0)) + rest, false) + c
  {
    ChecksumInSum(h.(cksum := c), rest);
    ChecksumInSum(h.(cksum := 0), rest);
    var n, n0 := Nums(h.(cksum := c)), Nums(h.(cksum := 0));
    assert n[..7] == n0[..7];
  }

  lemma ChecksumInSum(h: TcpHeader, rest: seq<byte>)
    requires 5 <= h.doff
    ensures SumBytes(HeaderBytes(h) + rest, false) ==
            SumBytes(Layout(Nums(h)[..7]), false) + h.cksum
            + SumBytes(ToBytes(h.uptr, 2) + (Zeros(4 * h.doff - LENGTH) + rest), false)
  {
    var n := Nums(h);
    var front := Layout(n[..7]);
    var word := ToBytes(h.cksum, 2);
    var back := ToBytes(h.uptr, 2) + (Zeros(4 * h.doff - LENGTH) + rest);
    NumsLayout(h);
    LayoutLength(n, 7);
    assert n[..8] == n[..|n| - 1] && n[..8][..7] == n[..7];
    assert Layout(n) == Layout(n[..8]) + ToBytes(h.uptr, 2);
    assert Layout(n[..8]) == front + word;
    assert HeaderBytes(h) + rest == front + (word + back);
    SumConcat(front, word + back, false);
    SumConcat(word, back, false);
    SumOfWord(h.cksum);
  }

  /** Enough room for the 32-bit sum not to overflow. */
  ghost predicate SumFits(seg: Segment, pseudo: uint32) {
    pseudo + 65280 * (4 * seg.header.doff + |seg.payload|) + 0xFFFF < TWO32
  }

  /** The sum over the segment as sent does not overflow and verifies. */
  lemma SentVerifies(seg: Segment, pseudo: uint32)
    requires 5 <= seg.header.doff <= 15 && SumFits(seg, pseudo)
    ensures pseudo + SumBytes(SegmentBytes(seg, pseudo), false) < TWO32
    ensures ValueOf(SegmentSum(SegmentBytes(seg, pseudo), pseudo)) == 0
  {
    hide HeaderBytes, SumBytes, ValueOf;
    var h0 := seg.header.(cksum := 0);
    HeaderRoundTrip(h0, []);
    var b0 := HeaderBytes(h0) + seg.payload;
    SumBound(b0, false);
    var n := pseudo + SumBytes(b0, false);
    InRange(n);
    ChecksumCounts(seg.header, ValueOf(n), seg.payload);
    InRange(n + ValueOf(n));
    ChecksumVerifies(n);
  }

  /** Round trip of a segment: same payload, same header but for the computed checksum. */
  lemma SegmentRoundTrip(seg: Segment, pseudo: uint32)
    requires 5 <= seg.header.doff <= 15 && SumFits(seg, pseudo)
    ensures ParseSegment(SegmentBytes(seg, pseudo), pseudo) == Ok(Segment(Checked(seg, pseudo), seg.payload))
  {
    hide HeaderBytes, SumBytes, ValueOf, Fields;
    SentVerifies(seg, pseudo);
    HeaderRoundTrip(Checked(seg, pseudo), seg.payload);
    var b := SegmentBytes(seg, pseudo);
    assert b[4 * seg.header.doff..] == seg.payload;
  }

  // ----- The methods -----

  method SerializeHeader(h: TcpHeader) returns (r: Option<seq<byte>>)
    ensures r == if h.doff < 5 then None else Some(HeaderBytes(h))
  {
    if h.doff < 5 {
      return None;
    }
    var b := UnparseAll(Nums(h));
    return Some(b + Zeros(4 * h.doff - LENGTH));
  }

  /** Reads a header; the result it returns is the one its caller drops. */
  method ParseHeader(p: NetParser) returns (h: TcpHeader, result: ParseResult)
    requires p.error == NoError
    modifies p
    ensures var b := old(p.buffer);
            && h == Fields(b)
            && (|b| < LENGTH ==>
                  p.error == PacketTooShort && result == if h.doff < 5 then HeaderTooShort else PacketTooShort)
            && (|b| >= LENGTH && h.doff < 5 ==>
                  p.error == NoError && p.buffer == b[LENGTH..] && result == HeaderTooShort)
            && (|b| >= LENGTH && h.doff >= 5 ==>
                  if |b| < 4 * h.doff then p.error == PacketTooShort && result == PacketTooShort
                  else p.error == NoError && p.buffer == b[4 * h.doff..] && result == NoError)
  {
    ghost var b := p.buffer;
    Pow256Values();
    hide Field;
    var sport := ReadField(p, b, 0, 2);
    var dport := ReadField(p, b, 2, 2);
    var seqno := ReadField(p, b, 4, 4);
    var ackno := ReadField(p, b, 8, 4);
    var offset := ReadField(p, b, 12, 1);
    var flags := ReadField(p, b, 13, 1);
    var win := ReadField(p, b, 14, 2);
    var cksum := ReadField(p, b, 16, 2);
    var uptr := ReadField(p, b, 18, 2);
    h := TcpHeader(sport, dport, seqno, ackno, offset / 16,
                   HasBit(flags, 32), HasBit(flags, 16), HasBit(flags, 8), HasBit(flags, 4), HasBit(flags, 2),
                   HasBit(flags, 1), win, cksum, uptr);
    if h.doff < 5 {
      return h, HeaderTooShort;
    }
    p.RemovePrefix(4 * h.doff - LENGTH);
    result := p.error;
  }

  lemma HeaderIsEven(h: TcpHeader)
    requires 5 <= h.doff
    ensures |HeaderBytes(h)| % 2 == 0
  {
    NumsLayout(h);
  }

  /** The checksum object is fed in two parts. */
  lemma SumInTwoParts(a: seq<byte>, b: seq<byte>, pseudo: uint32)
    requires |a| % 2 == 0
    ensures Mod32(Mod32(pseudo + SumBytes(a, false)) + SumBytes(b, false)) == SegmentSum(a + b, pseudo)
  {
    hide SumBytes, Mod32;
    SumConcat(a, b, false);
    var x, y := SumBytes(a, false), SumBytes(b, false);
    assert SumBytes(a + b, false) == x + y;
    ModAdd(pseudo + x, y);
  }

  method Serialize(seg: Segment, pseudo: uint32) returns (r: Option<seq<byte>>)
    ensures r == if seg.header.doff < 5 then None else Some(SegmentBytes(seg, pseudo))
  {
    hide SumBytes, ValueOf, HeaderBytes, Mod32;
    var blank := SerializeHeader(seg.header.(cksum := 0));
    if blank.None? {
      return None;
    }
    var check := new InternetChecksum(pseudo);
    check.Add(blank.value);
    check.Add(seg.payload);
    var c := check.Value();
    HeaderIsEven(seg.header.(cksum := 0));
    SumInTwoParts(blank.value, seg.payload, pseudo);
    assert c == Checked(seg, pseudo).cksum;
    var header := SerializeHeader(seg.header.(cksum := c));
    return Some(header.value + seg.payload);
  }

  method Parse(b: seq<byte>, pseudo: uint32) returns (r: Parsed<Segment>)
    ensures r == ParseSegment(b, pseudo)
  {
    hide Fields, SumBytes, ValueOf;
    var check := new InternetChecksum(pseudo);
    check.Add(b);
    var c := check.Value();
    if c != 0 {
      return Err(BadChecksum);
    }
    var p := new NetParser(b);
    var h, _ := ParseHeader(p);
    r := if p.error == NoError then Ok(Segment(h, p.buffer)) else Err(p.error);
  }
}
