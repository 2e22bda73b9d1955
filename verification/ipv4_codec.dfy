/** IPv4 headers and datagrams on the wire (libsponge/tcp_helpers/ipv4_header.cc,
    libsponge/tcp_helpers/ipv4_datagram.cc, section 3.1 of RFC 791). */
module Ipv4Codec {
  import opened WrappingIntegers
  import opened Options
  import opened Ipv4
  import opened Parsers
  import opened Checksums

  const LENGTH: nat := 20

  function FragmentNum(h: Ipv4Header): nat { Bit(h.df, 0x4000) + Bit(h.mf, 0x2000) + h.offset % 0x2000 }

  /** The fixed part of the header, number by number. */
  function HeaderNums(h: Ipv4Header): seq<Num> {
    [Num(h.ver * 16 % 256 + h.hlen % 16, 1), Num(h.tos, 1), Num(h.len, 2), Num(h.id, 2), Num(FragmentNum(h), 2),
     Num(h.ttl, 1), Num(h.proto, 1), Num(h.cksum, 2), Num(h.src, 4), Num(h.dst, 4)]
  }

  /** Headers the source agrees to serialise. */
  predicate Sendable(h: Ipv4Header) { h.ver == 4 && 5 <= h.hlen }

  function HeaderBytes(h: Ipv4Header): seq<byte>
    requires Sendable(h)
  {
    Layout(HeaderNums(h)) + Zeros(4 * h.hlen - LENGTH)
  }

  /** The fields of `b`, which holds at least a fixed header. */
  function HeaderFields(b: seq<byte>): Ipv4Header {
    FieldsFit(b);
    var first := Field(b, 0, 1);
    var fragment := Field(b, 6, 2);
    Ipv4Header(first / 16, first % 16, Field(b, 1, 1), Field(b, 2, 2), Field(b, 4, 2),
               HasBit(fragment, 0x4000), HasBit(fragment, 0x2000), fragment % 0x2000,
               Field(b, 8, 1), Field(b, 9, 1), Field(b, 10, 2), Field(b, 12, 4), Field(b, 16, 4))
  }

  function PayloadLength(h: Ipv4Header): uint16 { Mod16(h.len - 4 * h.hlen) }

  /** The share of the pseudo-header in the TCP checksum. */
  function PseudoSum(h: Ipv4Header): uint32 {
    h.src / TWO16 + h.src % TWO16 + (h.dst / TWO16 + h.dst % TWO16) + h.proto + PayloadLength(h)
  }

  /** The pseudo-header of section 3.1 of RFC 793, as bytes. */
  function PseudoBytes(src: uint32, dst: uint32, proto: byte, length: uint16): seq<byte> {
    ToBytes(src, 4) + (ToBytes(dst, 4) + ([0, proto] + ToBytes(length, 2)))
  }

  /** Its share in the checksum is the sum over those twelve bytes. */
  lemma PseudoIsSum(h: Ipv4Header)
    ensures var b := PseudoBytes(h.src, h.dst, h.proto, PayloadLength(h));
            |b| == 12 && SumBytes(b, false) == PseudoSum(h)
  {
    var len := PayloadLength(h);
    hide PayloadLength;
    var tail := [0, h.proto] + ToBytes(len, 2);
    SumConcat(ToBytes(h.src, 4), ToBytes(h.dst, 4) + tail, false);
    SumConcat(ToBytes(h.dst, 4), tail, false);
    SumConcat([0, h.proto], ToBytes(len, 2), false);
    SumOfDouble(h.src);
    SumOfDouble(h.dst);
    SumOfWord(len);
    assert [0, h.proto][1..] == [h.proto];
    assert SumBytes([h.proto], true) == h.proto + SumBytes([], false);
  }

  /** What the header parser thinks of `b`; the datagram parser does not ask. */
  function HeaderVerdict(b: seq<byte>): ParseResult {
    var h := HeaderFields(b);
    if |b| < LENGTH || |b| < 4 * h.hlen then PacketTooShort
    else if h.ver != 4 then WrongIPVersion
    else if h.hlen < 5 then HeaderTooShort
    else if |b| != h.len then TruncatedPacket
    else if ValueOf(Mod32(SumBytes(b[..4 * h.hlen], false))) != 0 then BadChecksum
    else NoError
  }

  /** How far the header parser has consumed `b` when it gives its verdict. */
  function HeaderEnd(b: seq<byte>): (n: nat)
    ensures n <= |b|
  {
    var v := HeaderVerdict(b);
    if |b| < LENGTH then 0
    else if v == NoError || v == BadChecksum then 4 * HeaderFields(b).hlen
    else LENGTH
  }

  function ParseDatagram(b: seq<byte>): Parsed<Datagram> {
    var h := if |b| < LENGTH then BLANK_IPV4 else HeaderFields(b);
    var payload := b[HeaderEnd(b)..];
    if |payload| != PayloadLength(h) then Err(PacketTooShort) else Ok(Datagram(h, payload))
  }

  function CheckedHeader(h: Ipv4Header): Ipv4Header
    requires Sendable(h)
  {
    h.(cksum := ValueOf(Mod32(SumBytes(HeaderBytes(h.(cksum := 0)), false))))
  }

  /** The bytes of a datagram; the source throws when its length field is wrong. */
  function DatagramBytes(d: Datagram): Option<seq<byte>> {
    if |d.payload| != PayloadLength(d.header) || !Sendable(d.header) then None
    else Some(HeaderBytes(CheckedHeader(d.header)) + d.payload)
  }

  // ----- Round trip -----

  lemma HeaderLayout(h: Ipv4Header)
    ensures var n := HeaderNums(h);
            && Offset(n, 1) == 1 && Offset(n, 2) == 2 && Offset(n, 3) == 4 && Offset(n, 4) == 6 && Offset(n, 5) == 8
            && Offset(n, 6) == 9 && Offset(n, 7) == 10 && Offset(n, 8) == 12 && Offset(n, 9) == 16
            && |Layout(n)| == 20
  {
    var n := HeaderNums(h);
    assert Offset(n, 1) == 1;
    assert Offset(n, 2) == 2;
    assert Offset(n, 3) == 4;
    assert Offset(n, 4) == 6;
    assert Offset(n, 5) == 8;
    assert Offset(n, 6) == 9;
    assert Offset(n, 7) == 10;
    assert Offset(n, 8) == 12;
    assert Offset(n, 9) == 16;
    LayoutLength(n, 10);
    assert n[..10] == n;
  }

  lemma HeaderNumbersReadBack(h: Ipv4Header, rest: seq<byte>)
    ensures var b := Layout(HeaderNums(h)) + rest;
            && Field(b, 0, 1) == h.ver * 16 % 256 + h.hlen % 16 && Field(b, 1, 1) == h.tos && Field(b, 2, 2) == h.len
            && Field(b, 4, 2) == h.id && Field(b, 6, 2) == FragmentNum(h) && Field(b, 8, 1) == h.ttl
            && Field(b, 9, 1) == h.proto && Field(b, 10, 2) == h.cksum && Field(b, 12, 4) == h.src
            && Field(b, 16, 4) == h.dst
  {
    hide Layout, Field, Offset;
    var n := HeaderNums(h);
    HeaderLayout(h);
    OffsetZero(n);
    Pow256Values();
    LayoutField(n, 0, rest);
    LayoutField(n, 1, rest);
    LayoutField(n, 2, rest);
    LayoutField(n, 3, rest);
    LayoutField(n, 4, rest);
    LayoutField(n, 5, rest);
    LayoutField(n, 6, rest);
    LayoutField(n, 7, rest);
    LayoutField(n, 8, rest);
    LayoutField(n, 9, rest);
  }

  lemma FragmentReadsBack(h: Ipv4Header)
    requires h.offset < 0x2000
    ensures HasBit(FragmentNum(h), 0x4000) == h.df && HasBit(FragmentNum(h), 0x2000) == h.mf
    ensures FragmentNum(h) % 0x2000 == h.offset
  {
  }

  lemma FirstByteReadsBack(h: Ipv4Header)
    requires Sendable(h) && h.hlen <= 15
    ensures var first := h.ver * 16 % 256 + h.hlen % 16; first / 16 == h.ver && first % 16 == h.hlen
  {
  }

  /** Where each field is on the wire, as section 3.1 of RFC 791 has it. */
  lemma WireLayout(h: Ipv4Header, rest: seq<byte>)
    requires Sendable(h) && h.hlen <= 15 && h.offset < 0x2000
    ensures var b := HeaderBytes(h) + rest;
            && |HeaderBytes(h)| == 4 * h.hlen
            && b[0] == 16 * 4 + h.hlen && b[1] == h.tos
            && FromBytes(b[2..4]) == h.len && FromBytes(b[4..6]) == h.id
            && FromBytes(b[6..8]) == (if h.df then 0x4000 else 0) + (if h.mf then 0x2000 else 0) + h.offset
            && b[8] == h.ttl && b[9] == h.proto && FromBytes(b[10..12]) == h.cksum
            && FromBytes(b[12..16]) == h.src && FromBytes(b[16..20]) == h.dst
            && forall i :: 20 <= i < 4 * h.hlen ==> b[i] == 0
  {
    hide Layout, HeaderNums, HeaderBytes, FromBytes, Field, FragmentNum;
    var b := HeaderBytes(h) + rest;
    HeaderBytesAre(h, rest);
    HeaderNumbersReadBack(h, Zeros(4 * h.hlen - LENGTH) + rest);
    FragmentIs(h);
    OneByte(b, 0);
    OneByte(b, 1);
    OneByte(b, 8);
    OneByte(b, 9);
    WholeField(b, 2, 2);
    WholeField(b, 4, 2);
    WholeField(b, 6, 2);
    WholeField(b, 10, 2);
    WholeField(b, 12, 4);
    WholeField(b, 16, 4);
  }

  lemma HeaderBytesAre(h: Ipv4Header, rest: seq<byte>)
    requires Sendable(h) && h.hlen <= 15
    ensures var b, zeros := HeaderBytes(h) + rest, Zeros(4 * h.hlen - LENGTH);
            && b == Layout(HeaderNums(h)) + (zeros + rest) && |HeaderBytes(h)| == 4 * h.hlen
            && forall i :: 20 <= i < 4 * h.hlen ==> b[i] == 0
  {
    hide Layout, HeaderNums;
    HeaderLayout(h);
  }

  lemma FragmentIs(h: Ipv4Header)
    requires h.offset < 0x2000 && h.ver == 4 && h.hlen <= 15
    ensures FragmentNum(h) == (if h.df then 0x4000 else 0) + (if h.mf then 0x2000 else 0) + h.offset
    ensures h.ver * 16 % 256 + h.hlen % 16 == 64 + h.hlen
  {
  }

  /** Round trip of the header, whatever follows it. */
  lemma HeaderRoundTrip(h: Ipv4Header, rest: seq<byte>)
    requires Sendable(h) && h.hlen <= 15 && h.offset < 0x2000
    ensures |HeaderBytes(h)| == 4 * h.hlen
    ensures HeaderFields(HeaderBytes(h) + rest) == h
  {
    var zeros := Zeros(4 * h.hlen - LENGTH);
    HeaderLayout(h);
    HeaderNumbersReadBack(h, zeros + rest);
    FragmentReadsBack(h);
    FirstByteReadsBack(h);
    hide Layout, HeaderNums, Field, FragmentNum, HasBit;
    assert HeaderBytes(h) + rest == Layout(HeaderNums(h)) + (zeros + rest);
  }

  lemma ChecksumInHeader(h: Ipv4Header)
    requires Sendable(h)
    ensures SumBytes(HeaderBytes(h), false) ==
            SumBytes(Layout(HeaderNums(h)[..7]), false) + h.cksum
            + SumBytes(ToBytes(h.src, 4) + (ToBytes(h.dst, 4) + Zeros(4 * h.hlen - LENGTH)), false)
  {
    var n := HeaderNums(h);
    var front := Layout(n[..7]);
    var word := ToBytes(h.cksum, 2);
    var back := ToBytes(h.src, 4) + (ToBytes(h.dst, 4) + Zeros(4 * h.hlen - LENGTH));
    HeaderLayout(h);
    LayoutLength(n, 7);
    LayoutExtend(n, 7);
    LayoutExtend(n, 8);
    LayoutExtend(n, 9);
    assert n[..10] == n;
    assert HeaderBytes(h) == front + (word + back);
    SumConcat(front, word + back, false);
    SumConcat(word, back, false);
    SumOfWord(h.cksum);
  }

  /** The checksum field adds its own value to the sum and nothing else. */
  lemma ChecksumCountsInHeader(h: Ipv4Header, c: uint16)
    requires Sendable(h)
    ensures SumBytes(HeaderBytes(h.(cksum := c)), false) == SumBytes(HeaderBytes(h.(cksum := 0)), false) + c
  {
    hide SumBytes, HeaderBytes, Layout;
    ChecksumInHeader(h.(cksum := c));
    ChecksumInHeader(h.(cksum := 0));
    assert HeaderNums(h.(cksum := c))[..7] == HeaderNums(h.(cksum := 0))[..7];
  }

  /** The header as sent verifies. */
  lemma SentHeaderVerifies(h: Ipv4Header)
    requires Sendable(h) && h.hlen <= 15 && h.offset < 0x2000
    ensures ValueOf(Mod32(SumBytes(HeaderBytes(CheckedHeader(h)), false))) == 0
  {
    hide HeaderBytes, SumBytes, ValueOf, Mod32;
    var h0 := h.(cksum := 0);
    HeaderRoundTrip(h0, []);
    SumBound(HeaderBytes(h0), false);
    var n := SumBytes(HeaderBytes(h0), false);
    InRange(n);
    ChecksumCountsInHeader(h, ValueOf(n));
    InRange(n + ValueOf(n));
    ChecksumVerifies(n);
  }

  /** Round trip of a datagram: same payload, same header but for the computed checksum, and
      the header parser has nothing to object to. */
  lemma DatagramRoundTrip(d: Datagram)
    requires Sendable(d.header) && d.header.hlen <= 15 && d.header.offset < 0x2000
    requires d.header.len == 4 * d.header.hlen + |d.payload|
    ensures DatagramBytes(d).Some?
    ensures ParseDatagram(DatagramBytes(d).value) == Ok(Datagram(CheckedHeader(d.header), d.payload))
    ensures HeaderVerdict(DatagramBytes(d).value) == NoError
  {
    hide HeaderBytes, SumBytes, ValueOf, HeaderFields;
    var h := CheckedHeader(d.header);
    SentHeaderVerifies(d.header);
    HeaderRoundTrip(h, d.payload);
    var b := HeaderBytes(h) + d.payload;
    assert b[..4 * h.hlen] == HeaderBytes(h) && b[4 * h.hlen..] == d.payload;
  }

  // ----- The methods -----

  method SerializeIpv4Header(h: Ipv4Header) returns (r: Option<seq<byte>>)
    ensures r == if Sendable(h) then Some(HeaderBytes(h)) else None
  {
    if h.ver != 4 || 4 * h.hlen < LENGTH {
      return None;
    }
    var b := UnparseAll(HeaderNums(h));
    return Some(b + Zeros(4 * h.hlen - LENGTH));
  }

  method SerializeDatagram(d: Datagram) returns (r: Option<seq<byte>>)
    ensures r == DatagramBytes(d)
  {
    hide HeaderBytes, SumBytes, ValueOf;
    if |d.payload| != PayloadLength(d.header) {
      return None;
    }
    var blank := SerializeIpv4Header(d.header.(cksum := 0));
    if blank.None? {
      return None;
    }
    var check := new InternetChecksum(0);
    check.Add(blank.value);
    var c := check.Value();
    var header := SerializeIpv4Header(d.header.(cksum := c));
    return Some(header.value + d.payload);
  }

  /** Reads a header into fields, consuming the parser's buffer, and judges it. */
  method ParseIpv4Header(p: NetParser) returns (h: Ipv4Header, verdict: ParseResult)
    requires p.error == NoError
    modifies p
    ensures var b := old(p.buffer);
            && h == (if |b| < LENGTH then BLANK_IPV4 else HeaderFields(b))
            && verdict == HeaderVerdict(b)
            && p.error == NoError && p.buffer == b[HeaderEnd(b)..]
  {
    hide SumBytes, ValueOf, Field, Mod32;
    var original := p.buffer;
    h := BLANK_IPV4;
    if |original| < LENGTH {
      return h, PacketTooShort;
    }
    h := ReadIpv4Fields(p);
    if |original| < 4 * h.hlen {
      return h, PacketTooShort;
    }
    if h.ver != 4 {
      return h, WrongIPVersion;
    }
    if h.hlen < 5 {
      return h, HeaderTooShort;
    }
    if |original| != h.len {
      return h, TruncatedPacket;
    }
    p.RemovePrefix(4 * h.hlen - LENGTH);
    var check := new InternetChecksum(0);
    check.Add(original[..4 * h.hlen]);
    var c := check.Value();
    verdict := if c != 0 then BadChecksum else NoError;
  }

  method ReadIpv4Fields(p: NetParser) returns (h: Ipv4Header)
    requires p.error == NoError && |p.buffer| >= LENGTH
    modifies p
    ensures h == HeaderFields(old(p.buffer))
    ensures p.error == NoError && p.buffer == old(p.buffer)[LENGTH..]
  {
    ghost var b := p.buffer;
    Pow256Values();
    hide Field;
    var first := ReadField(p, b, 0, 1);
    var tos := ReadField(p, b, 1, 1);
    var len := ReadField(p, b, 2, 2);
    var id := ReadField(p, b, 4, 2);
    var fragment := ReadField(p, b, 6, 2);
    var ttl := ReadField(p, b, 8, 1);
    var proto := ReadField(p, b, 9, 1);
    var cksum := ReadField(p, b, 10, 2);
    var src := ReadField(p, b, 12, 4);
    var dst := ReadField(p, b, 16, 4);
    h := Ipv4Header(first / 16, first % 16, tos, len, id, HasBit(fragment, 0x4000), HasBit(fragment, 0x2000),
                    fragment % 0x2000, ttl, proto, cksum, src, dst);
  }

  /** The header's verdict is dropped: only the payload's size is checked. */
  method ParseBytes(b: seq<byte>) returns (r: Parsed<Datagram>)
    ensures r == ParseDatagram(b)
  {
    hide HeaderFields, HeaderVerdict;
    var p := new NetParser(b);
    var h, _ := ParseIpv4Header(p);
    if |p.buffer| != PayloadLength(h) {
      return Err(PacketTooShort);
    }
    return Ok(Datagram(h, p.buffer));
  }
}
