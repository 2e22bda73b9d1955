/** TCP segments (libsponge/tcp_helpers/tcp_header.hh, libsponge/tcp_helpers/tcp_segment.cc). */
module Segments {
  import opened WrappingIntegers

  datatype TcpHeader = TcpHeader(
    sport: uint16,
    dport: uint16,
    seqno: uint32,
    ackno: uint32,
    doff: byte,
    urg: bool,
    ack: bool,
    psh: bool,
    rst: bool,
    syn: bool,
    fin: bool,
    win: uint16,
    cksum: uint16,
    uptr: uint16
  )

  datatype Segment = Segment(header: TcpHeader, payload: seq<byte>) {
    function SeqLen(): nat {
      |payload| + (if header.syn then 1 else 0) + (if header.fin then 1 else 0)
    }
  }

  const BLANK_HEADER := TcpHeader(0, 0, 0, 0, 5, false, false, false, false, false, false, 0, 0, 0)

  /** A segment as the sender builds it. */
  function NewSegment(seqno: uint32, syn: bool, payload: seq<byte>, fin: bool): Segment {
    Segment(BLANK_HEADER.(seqno := seqno, syn := syn, fin := fin), payload)
  }

  /** `seg` with the acknowledgment fields a connection fills in before sending. */
  function Stamped(seg: Segment, ackno: uint32, win: uint16): Segment {
    seg.(header := seg.header.(ack := true, ackno := ackno, win := win))
  }
}
