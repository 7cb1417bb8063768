/** Value types shared by both enumeration backends: the IP address values the
    enumerator reports, the interface record it returns, and the socket
    addresses the operating system hands it. */
module IfTypes {

  /** Rust's Option. */
  datatype Option<+T> = None | Some(value: T)

  /** Eight 16-bit groups: the shape of both the raw `s6_addr` array of an
      `in6_addr` and the segments of a `std::net::Ipv6Addr`. */
  type Groups = g: seq<bv16> | |g| == 8 witness [0, 0, 0, 0, 0, 0, 0, 0]

  /** `std::net::IpAddr`. An IPv4 address is four octets, first octet first
      (`Ipv4Addr::new(o0, o1, o2, o3)` is the address o0.o1.o2.o3); an IPv6
      address is eight groups in presentation order. */
  datatype IpAddr =
    | IpV4(o0: bv8, o1: bv8, o2: bv8, o3: bv8)
    | IpV6(segments: Groups)

  /** 0.0.0.0, the sentinel for "not provided by the operating system". */
  const Unspecified: IpAddr := IpV4(0, 0, 0, 0)

  /** `IfAddr`: one (interface, configured address) pair. */
  datatype IfAddr = IfAddr(name: string, addr: IpAddr, netmask: IpAddr, broadcast: IpAddr)

  /** `IfAddr::new`: empty name, every address field at the sentinel. */
  function NewIfAddr(): (r: IfAddr)
    ensures |r.name| == 0
    ensures r.addr == r.netmask == r.broadcast == IpV4(0, 0, 0, 0)
  {
    IfAddr("", Unspecified, Unspecified, Unspecified)
  }

  /** A `*const sockaddr` as the decoders see it: null, or a structure whose
      `sa_family` tag is AF_INET (an `in_addr` holding the 32-bit `s_addr`),
      AF_INET6 (an `in6_addr` holding eight raw 16-bit groups), or any other
      family. `OtherFamily` stands for every tag that is neither of the
      platform's AF_INET and AF_INET6 values. */
  datatype Sockaddr =
    | Null
    | SockaddrIn(sAddr: bv32)
    | SockaddrIn6(raw: Groups)
    | OtherFamily(family: nat)

  /** What one enumeration call produces: the records, or the panic the
      source raises when the operating system call fails (carrying its return
      code), or, for the Windows backend, no verdict yet because the supplied
      operating-system responses ran out while the buffer loop was still
      retrying. */
  datatype Enumeration =
    | Listed(addrs: seq<IfAddr>)
    | Panicked(code: int)
    | Unfinished
}
