/** Socket addresses as the Rust standard library shapes them. */
module Net {
  import opened Bytes

  /** `std::net::Ipv4Addr`: four octets. */
  datatype Ipv4Addr = Ipv4Addr(a: uint8, b: uint8, c: uint8, d: uint8) {
    function Octets(): seq<uint8> {
      [a, b, c, d]
    }
  }

  /** `std::net::IpAddr`; the IPv6 case keeps its eight 16-bit segments,
      whose contents nothing in this model inspects. */
  datatype IpAddr = V4(v4: Ipv4Addr) | V6(segments: seq<uint16>)

  /** `std::net::SocketAddr`: an IP address and a port. */
  datatype SocketAddr = SocketAddr(ip: IpAddr, port: uint16)

  /** The address "0.0.0.0:0". */
  const Unspecified: SocketAddr := SocketAddr(V4(Ipv4Addr(0, 0, 0, 0)), 0)
}
