/** The socket-address decoders of src/getifaddrs.rs: the POSIX
    `sockaddr_to_ipaddr` and the copy of the same decoding that the Windows
    backend carries inline, together with the link-local filter only the
    Windows copy applies.

    The source reads `s_addr` as a native 32-bit integer and each IPv6 group as
    a native 16-bit integer on a little-endian host, while the bytes behind them
    are in network order. Decoding therefore takes the octets of `s_addr` least
    significant byte first, and byte-swaps every IPv6 group. */
module Decode {
  import opened IfTypes

  /** Octets of an `s_addr`: octet i is `(s_addr >> 8i) & 255`. */
  function DecodeV4(s: bv32): (ip: IpAddr)
    ensures ip.IpV4?
    ensures (ip.o0 as bv32) | ((ip.o1 as bv32) << 8) | ((ip.o2 as bv32) << 16) | ((ip.o3 as bv32) << 24) == s
  {
    IpV4(((s >> 0) & 255) as bv8, ((s >> 8) & 255) as bv8,
         ((s >> 16) & 255) as bv8, ((s >> 24) & 255) as bv8)
  }

  /** The `s_addr` that holds a given IPv4 address: the inverse of DecodeV4. */
  function EncodeV4(ip: IpAddr): bv32
    requires ip.IpV4?
  {
    (ip.o0 as bv32) | ((ip.o1 as bv32) << 8) | ((ip.o2 as bv32) << 16) | ((ip.o3 as bv32) << 24)
  }

  /** `((g & 255) << 8) | ((g >> 8) & 255)`: the two bytes of a group exchanged. */
  function SwapGroup(g: bv16): (r: bv16)
    ensures r >> 8 == g & 0xFF
    ensures r & 0xFF == g >> 8
  {
    ((g & 255) << 8) | ((g >> 8) & 255)
  }

  /** The segments of an `in6_addr`: group i is raw group i byte-swapped. */
  function DecodeV6(raw: Groups): (ip: IpAddr)
    ensures ip.IpV6?
    ensures forall i :: 0 <= i < 8 ==>
      ip.segments[i] >> 8 == raw[i] & 0xFF && ip.segments[i] & 0xFF == raw[i] >> 8
  {
    IpV6(seq(8, i requires 0 <= i < 8 => SwapGroup(raw[i])))
  }

  /** The raw groups an `in6_addr` holds for a given IPv6 address: the
      inverse of DecodeV6. */
  function EncodeV6(ip: IpAddr): Groups
    requires ip.IpV6?
  {
    seq(8, i requires 0 <= i < 8 => SwapGroup(ip.segments[i]))
  }

  /** `sockaddr_to_ipaddr` of the POSIX backend. Line 73 is an `if` without
      `else` whose branch is `None`; Rust rejects that as a type error, so the
      function does not compile as written. It is modelled as if line 73 had
      no effect, which is the only reading under which the rest of the
      function runs: an AF_INET6 address is decoded whatever its first group. */
  function SockaddrToIpaddr(sa: Sockaddr): (r: Option<IpAddr>)
    ensures r.None? <==> sa.Null? || sa.OtherFamily?
    ensures r.Some? ==> (r.value.IpV4? <==> sa.SockaddrIn?)
    ensures sa.SockaddrIn? ==> r.Some? && EncodeV4(r.value) == sa.sAddr
    ensures sa.SockaddrIn6? ==> r.Some? && EncodeV6(r.value) == sa.raw
  {
    match sa
    case Null => None
    case SockaddrIn(s) => Some(DecodeV4(s))
    case SockaddrIn6(raw) =>
      // line 73 has no effect in this reading
      Some(DecodeV6(raw))
    case OtherFamily(_) => None
  }

  /** The raw test of line 251: the low 16 bits of `s_addr` are 0xfea9. */
  predicate RawLinkLocalV4(s: bv32)
  {
    s & 65535 == 0xfea9
  }

  /** The raw test of line 261: the first stored group is 0x80fe. */
  predicate RawLinkLocalV6(raw: Groups)
  {
    raw[0] == 0x80fe
  }

  /** 169.254.x.x: the IPv4 link-local auto-configuration range. */
  predicate IsLinkLocalV4(ip: IpAddr)
  {
    ip.IpV4? && ip.o0 == 169 && ip.o1 == 254
  }

  /** An IPv6 address whose first group is exactly 0xfe80. */
  predicate HasFe80Group(ip: IpAddr)
  {
    ip.IpV6? && ip.segments[0] == 0xfe80
  }

  /** fe80::/10: the first ten bits are 1111 1110 10. */
  predicate InFe80Prefix(ip: IpAddr)
  {
    ip.IpV6? && ip.segments[0] & 0xffc0 == 0xfe80
  }

  /** The Windows backend's inline decoding and filtering of one unicast
      `lpSockaddr` (lines 247-273): null, unknown families, 169.254.x.x and an
      exact fe80 first group all produce no address. */
  function WindowsDecode(sa: Sockaddr): (r: Option<IpAddr>)
    ensures r.None? <==>
      || sa.Null? || sa.OtherFamily?
      || (sa.SockaddrIn? && IsLinkLocalV4(DecodeV4(sa.sAddr)))
      || (sa.SockaddrIn6? && HasFe80Group(DecodeV6(sa.raw)))
    ensures r.Some? ==> !IsLinkLocalV4(r.value) && !HasFe80Group(r.value)
  {
    match sa
    case Null => None
    case SockaddrIn(s) =>
      if RawLinkLocalV4(s) then None
      else Some(DecodeV4(s))
    case SockaddrIn6(raw) =>
      if RawLinkLocalV6(raw) then None
      else Some(DecodeV6(raw))
    case OtherFamily(_) => None
  }

  /** A 32-bit integer read from four bytes in memory on a little-endian host. */
  function LoadLE32(b: seq<bv8>): bv32
    requires |b| == 4
  {
    (b[0] as bv32) | ((b[1] as bv32) << 8) | ((b[2] as bv32) << 16) | ((b[3] as bv32) << 24)
  }

  /** A 16-bit integer read from two bytes in memory on a little-endian host. */
  function LoadLE16(lo: bv8, hi: bv8): bv16
  {
    (lo as bv16) | ((hi as bv16) << 8)
  }

  // ---------------------------------------------------------------------
  // Properties of the decoders

  /** Decoding and encoding an `s_addr` are inverse in both directions. */
  lemma V4RoundTrip(s: bv32, ip: IpAddr)
    requires ip.IpV4?
    ensures EncodeV4(DecodeV4(s)) == s
    ensures DecodeV4(EncodeV4(ip)) == ip
  {
  }

  /** An `in_addr` whose bytes are the address octets in network order decodes
      to exactly those octets. */
  lemma V4FromWireBytes(b: seq<bv8>)
    requires |b| == 4
    ensures DecodeV4(LoadLE32(b)) == IpV4(b[0], b[1], b[2], b[3])
  {
  }

  /** Swapping the bytes of a group twice gives back the group. */
  lemma SwapGroupInvolution(g: bv16)
    ensures SwapGroup(SwapGroup(g)) == g
  {
  }

  /** A group read from network-order bytes (first byte most significant)
      comes out of the swap in presentation order. */
  lemma SwapGroupFromWire(first: bv8, second: bv8)
    ensures SwapGroup(LoadLE16(first, second)) == ((first as bv16) << 8) | (second as bv16)
  {
  }

  /** Decoding and encoding the raw groups of an `in6_addr` are inverse in
      both directions. */
  lemma V6RoundTrip(raw: Groups, ip: IpAddr)
    requires ip.IpV6?
    ensures EncodeV6(DecodeV6(raw)) == raw
    ensures DecodeV6(EncodeV6(ip)) == ip
  {
  }

  /** Output group i depends only on raw group i. */
  lemma V6GroupwiseDecode(raw1: Groups, raw2: Groups, i: int)
    requires 0 <= i < 8
    ensures DecodeV6(raw1).segments[i] == DecodeV6(raw2).segments[i] <==> raw1[i] == raw2[i]
  {
  }

  /** The test at line 251 is the 169.254.x.x test on the decoded address. */
  lemma RawLinkLocalV4Meaning(s: bv32)
    ensures RawLinkLocalV4(s) <==> IsLinkLocalV4(DecodeV4(s))
  {
  }

  /** The test at line 261 is an exact test of the decoded first group against
      0xfe80, and it implies membership of fe80::/10. */
  lemma RawLinkLocalV6Meaning(raw: Groups)
    ensures RawLinkLocalV6(raw) <==> HasFe80Group(DecodeV6(raw))
    ensures RawLinkLocalV6(raw) ==> InFe80Prefix(DecodeV6(raw))
  {
  }

  /** The Windows copy agrees with the POSIX decoder except that it drops
      what its two raw link-local tests match. */
  lemma WindowsDecodeAgrees(sa: Sockaddr)
    ensures WindowsDecode(sa) ==
      if (sa.SockaddrIn? && RawLinkLocalV4(sa.sAddr)) || (sa.SockaddrIn6? && RawLinkLocalV6(sa.raw))
      then None
      else SockaddrToIpaddr(sa)
  {
  }

  /** Both decoders produce the same IPv4 address from one `s_addr` whenever
      the Windows copy keeps it. */
  lemma V4DecodersAgree(s: bv32)
    requires !IsLinkLocalV4(DecodeV4(s))
    ensures WindowsDecode(SockaddrIn(s)) == SockaddrToIpaddr(SockaddrIn(s)) == Some(DecodeV4(s))
  {
  }

  /** The POSIX decoder, read with line 73 having no effect, does not drop
      fe80:: addresses: a stored first group 0x80fe decodes to fe80::. The
      comment at line 72 announces a filter that the code does not apply. */
  lemma PosixKeepsFe80(raw: Groups)
    requires RawLinkLocalV6(raw)
    ensures SockaddrToIpaddr(SockaddrIn6(raw)) == Some(DecodeV6(raw))
    ensures HasFe80Group(DecodeV6(raw))
    ensures WindowsDecode(SockaddrIn6(raw)) == None
  {
  }

  /** The Windows filter is an exact match on the first group: fe81::, which
      lies in fe80::/10, is kept. */
  lemma WindowsKeepsRestOfFe80Prefix()
    ensures var raw: Groups := [0x81fe, 0, 0, 0, 0, 0, 0, 0x0100];
      && InFe80Prefix(DecodeV6(raw))
      && WindowsDecode(SockaddrIn6(raw)) == Some(DecodeV6(raw))
  {
  }

  /** 192.168.1.1 stored in network byte order decodes to 192.168.1.1. */
  lemma DecodeExampleV4()
    ensures SockaddrToIpaddr(SockaddrIn(LoadLE32([192, 168, 1, 1]))) == Some(IpV4(192, 168, 1, 1))
  {
  }

  /** 2001:db8::1 stored in network byte order decodes to 2001:db8::1. */
  lemma DecodeExampleV6()
    ensures var raw: Groups := [LoadLE16(0x20, 0x01), LoadLE16(0x0d, 0xb8), 0, 0, 0, 0, 0, LoadLE16(0x00, 0x01)];
      SockaddrToIpaddr(SockaddrIn6(raw)) == Some(IpV6([0x2001, 0x0db8, 0, 0, 0, 0, 0, 0x0001]))
  {
    var raw: Groups := [LoadLE16(0x20, 0x01), LoadLE16(0x0d, 0xb8), 0, 0, 0, 0, 0, LoadLE16(0x00, 0x01)];
    SwapGroupFromWire(0x20, 0x01);
    SwapGroupFromWire(0x0d, 0xb8);
    SwapGroupFromWire(0x00, 0x01);
    assert DecodeV6(raw).segments == [0x2001, 0x0db8, 0, 0, 0, 0, 0, 0x0001];
  }
}
