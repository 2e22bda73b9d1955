/** IPv4 headers and datagrams (libsponge/tcp_helpers/ipv4_header.hh). */
module Ipv4 {
  import opened WrappingIntegers

  const PROTO_TCP: byte := 6
  const DEFAULT_TTL: byte := 128

  datatype Ipv4Header = Ipv4Header(
    ver: byte,
    hlen: byte,
    tos: byte,
    len: uint16,
    id: uint16,
    df: bool,
    mf: bool,
    offset: uint16,
    ttl: byte,
    proto: byte,
    cksum: uint16,
    src: uint32,
    dst: uint32
  )

  datatype Datagram = Datagram(header: Ipv4Header, payload: seq<byte>)

  /** The field values a fresh header starts with. */
  const BLANK_IPV4 := Ipv4Header(4, 5, 0, 0, 0, true, false, 0, DEFAULT_TTL, PROTO_TCP, 0, 0, 0)
}
