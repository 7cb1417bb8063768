# getifaddrs: interface enumeration, modelled in Dafny

`src/getifaddrs.rs` lists the network interfaces of the host as `IfAddr`
records (name, address, netmask, broadcast address). It has two backends.
The POSIX one walks the `struct ifaddrs` list returned by `getifaddrs(3)`.
The Windows one grows a buffer until `GetAdaptersAddresses` fits into it,
then walks the adapters and each adapter's unicast addresses. Beneath the
raw-memory handling sit a few pure pieces, and this project models them and
proves their properties:

- the socket-address decoders: IPv4 octets taken from `s_addr`
  least-significant byte first, IPv6 groups byte-swapped, `None` for null or
  unknown families (module `Decode`, `decode.dfy`);
- the list walk shared by both backends: an order-preserving filter-map over
  a sequence (module `ListWalk`, `list_walk.dfy`);
- the POSIX policy: a node is skipped when its address does not decode, the
  netmask defaults to 0.0.0.0, and the broadcast address is taken only when
  IFF_BROADCAST is set (module `Posix`, `posix.dfy`);
- the Windows buffer-growth loop, as a function of a sequence of
  operating-system responses, with a trace of buffer allocations and releases
  (module `BufferLoop`, `buffer_loop.dfy`);
- the Windows policy: adapters flattened into one record per surviving
  unicast address, with the raw link-local filters (module `Windows`,
  `windows.dfy`).

Shared types are in `if_types.dfy` (module `IfTypes`).

Operating-system data becomes parameters. The `ifaddrs` list is a
`seq<IfaddrsRec>`. The adapter list is a `seq<Adapter>`, each adapter holding
a `seq<Sockaddr>`. The successive answers of `GetAdaptersAddresses` are a
`seq<Response>`. A `Sockaddr` is `Null`, `SockaddrIn(s_addr)`,
`SockaddrIn6(raw groups)` or `OtherFamily(tag)`. `OtherFamily` stands for
every tag other than the platform's AF_INET and AF_INET6. Their numeric
values differ between platforms, so the model does not fix them.

Where the code and its own comments differ, the model follows the code:

- Line 73 is `if <first group is 0x80fe> { None }`, an `if` without `else`
  whose branch has a value. Rust rejects that as a type error, so the POSIX
  module does not compile as written. The model takes the reading in which
  line 73 has no effect: the POSIX decoder keeps fe80:: addresses, although
  the comment on line 72 says they are ignored, and although the Windows
  copy of the same test (line 261) does skip them. `Decode.PosixKeepsFe80`
  and `Posix.PosixReportsFe80` state this behaviour.
- The Windows IPv6 filter (line 261) matches the first group exactly against
  fe80. It is not a test of the fe80::/10 prefix: fe81:: passes
  (`Decode.WindowsKeepsRestOfFe80Prefix`).
- The panic on an unexpected return code (line 220) does not free the
  buffer allocated at line 204, whereas the overflow branch (line 216) and
  the end of a successful enumeration (line 277) do. A failed enumeration
  therefore ends with one buffer still allocated
  (`Windows.EnumerationReleasesBuffer`).
- The buffer loop has no retry cap. The model reflects this with a finite
  response sequence and a `Pending` outcome when the responses run out.
- The POSIX backend treats only a return code of -1 from `getifaddrs` as
  failure (line 111).

## Model

| member | source | states |
|---|---|---|
| IfTypes.NewIfAddr | src/getifaddrs.rs:35-42 | a fresh record has an empty name, and its address, netmask and broadcast address are all the IPv4 address 0.0.0.0 |
| Decode.DecodeV4 | src/getifaddrs.rs:62-69 | the decoded address is IPv4, and packing its octets back least-significant first gives the original `s_addr` |
| Decode.V4RoundTrip | src/getifaddrs.rs:62-69 | decoding and encoding an `s_addr` are inverse in both directions |
| Decode.V4FromWireBytes | src/getifaddrs.rs:62-69 | an `in_addr` whose bytes are the octets in network order, read on a little-endian host, decodes to exactly those octets |
| Decode.SwapGroup | src/getifaddrs.rs:75-82 | the high byte of the result is the low byte of the raw group, and the low byte is the raw high byte |
| Decode.SwapGroupInvolution | src/getifaddrs.rs:75-82 | swapping a group twice gives back the raw group |
| Decode.SwapGroupFromWire | src/getifaddrs.rs:75-82 | a group read from network-order bytes on a little-endian host comes out of the swap in presentation order |
| Decode.DecodeV6 | src/getifaddrs.rs:74-83 | the decoded address is IPv6, and the bytes of each output group are the swapped bytes of the matching raw group |
| Decode.V6RoundTrip | src/getifaddrs.rs:74-83 | decoding and encoding the raw groups of an `in6_addr` are inverse in both directions |
| Decode.V6GroupwiseDecode | src/getifaddrs.rs:74-83 | output group i equals for two inputs exactly when raw group i does: it depends on raw group i alone |
| Decode.SockaddrToIpaddr | src/getifaddrs.rs:60-86 | `None` exactly for a null pointer or an unknown family; IPv4 in gives IPv4 out and IPv6 gives IPv6; the result re-encodes to the stored value, so an AF_INET6 input always decodes |
| Decode.PosixKeepsFe80 | src/getifaddrs.rs:72-83 | a stored first group of 0x80fe decodes to an fe80:: address that the POSIX decoder returns, while the Windows copy drops it |
| Decode.RawLinkLocalV4Meaning | src/getifaddrs.rs:251 | `s_addr & 65535 == 0xfea9` holds exactly when the decoded address is 169.254.x.x |
| Decode.RawLinkLocalV6Meaning | src/getifaddrs.rs:261 | raw group 0 == 0x80fe holds exactly when the decoded first group is 0xfe80, and then the address lies in fe80::/10 |
| Decode.WindowsKeepsRestOfFe80Prefix | src/getifaddrs.rs:261 | an address in fe80::/10 whose first group is not exactly fe80 (fe81::1) passes the Windows filter |
| Decode.WindowsDecode | src/getifaddrs.rs:246-273 | no address exactly for null, unknown family, 169.254.x.x or a first group of fe80; a returned address is never one of those |
| Decode.WindowsDecodeAgrees | src/getifaddrs.rs:246-273 | the Windows inline decoding equals the POSIX decoder except where one of its two raw link-local tests matches |
| Decode.V4DecodersAgree | src/getifaddrs.rs:252-257 | for any `s_addr` that is not 169.254.x.x, both decoders give the same IPv4 address |
| Decode.DecodeExampleV4 | src/getifaddrs.rs:62-69 | 192.168.1.1 stored in network byte order decodes to 192.168.1.1 |
| Decode.DecodeExampleV6 | src/getifaddrs.rs:74-83 | 2001:db8::1 stored in network byte order decodes to 2001:db8::1 |
| ListWalk.FilterMap | src/getifaddrs.rs:116-142 | the walk pushes at most one value per node, and exactly one per node only when every node is accepted |
| ListWalk.Accepted | src/getifaddrs.rs:116-142 | the accepted positions are in range, strictly increasing, and each names an accepted node |
| ListWalk.AcceptedComplete | src/getifaddrs.rs:116-142 | every accepted node's position is among the accepted positions |
| ListWalk.FilterMapIsAcceptedMapped | src/getifaddrs.rs:116-142 | the output is the accepted nodes mapped, one per accepted position, in list order |
| ListWalk.FilterMapAppend | src/getifaddrs.rs:116-142 | walking two lists in turn gives the two outputs in turn |
| ListWalk.FilterMapSound | src/getifaddrs.rs:116-142 | every output value comes from some accepted node |
| ListWalk.FilterMapComplete | src/getifaddrs.rs:116-142 | every accepted node's value appears in the output |
| Posix.DoBroadcast | src/getifaddrs.rs:88-102 | the decoded broadcast/destination slot, or 0.0.0.0 when that slot is null or of an unknown family |
| Posix.PosixItem | src/getifaddrs.rs:124-141 | a record exists exactly when the address is non-null and of a known family; it has the node's name and decoded address; the netmask is the decoded one or the 0.0.0.0 default of `IfAddr::new`; the broadcast address is 0.0.0.0 unless IFF_BROADCAST is set, and then it is `do_broadcast` |
| Posix.Getifaddrs | src/getifaddrs.rs:106-145 | panics exactly when the call returns -1, with that code; for any other return code it lists the records of the traversal |
| Posix.PosixList | src/getifaddrs.rs:116-142 | the records of the traversal: one per reported node, in the order of the reported positions, each the node policy's record for that node |
| Posix.PosixReportedPositions | src/getifaddrs.rs:118-142 | the reported positions are exactly those of nodes whose address is non-null and of a known family, in increasing order; there is one record per such position, so the output is never longer than the list |
| Posix.PosixRecordsInOrder | src/getifaddrs.rs:124-141 | the k-th record is built from the k-th reported node and carries its name and decoded address, so the output is an order-preserving subsequence of the list after mapping |
| Posix.PosixListAppend | src/getifaddrs.rs:118-142 | the records of two lists walked in turn are the two outputs in turn |
| Posix.PosixDefaults | src/getifaddrs.rs:134-140 | each record's netmask is its node's decoded netmask or 0.0.0.0, and its broadcast address is 0.0.0.0 unless the node's flags have bit 2 set |
| Posix.PosixReportsFe80 | src/getifaddrs.rs:130-131 | a node whose IPv6 address has the stored first group 0x80fe yields a record with that fe80:: address |
| BufferLoop.Grow | src/getifaddrs.rs:217 | doubling a 32-bit `c_ulong`: exactly twice the size when that fits, otherwise twice the size minus 2^32 |
| BufferLoop.Retries | src/getifaddrs.rs:213-219 | the number of leading ERROR_BUFFER_OVERFLOW responses: every earlier response overflowed and the next one did not |
| BufferLoop.Run | src/getifaddrs.rs:201-223 | after the leading overflow responses the loop keeps the buffer if the next code is ERROR_SUCCESS and fails with any other code, or stays pending when the responses run out; the size it holds is 15000, or twice the size the last overflowing call wrote back |
| BufferLoop.OneBufferAtATime | src/getifaddrs.rs:202-222 | replaying the loop's allocations, calls and releases never allocates while a buffer is live and never calls or frees without one; the loop ends holding one buffer, or none when still retrying |
| BufferLoop.AllocationsPerCall | src/getifaddrs.rs:204-217 | one allocation per call made and one release per retry |
| BufferLoop.Trace | src/getifaddrs.rs:202-222 | three buffer events per retry, and two more (allocation and call) when the loop stops before the responses run out |
| BufferLoop.TraceRound | src/getifaddrs.rs:204-217 | retry k allocates the size left by the retries before it, calls, is told ERROR_BUFFER_OVERFLOW and frees the buffer |
| BufferLoop.TraceEnd | src/getifaddrs.rs:204-218 | a loop that stops allocates the size the retries left behind and then makes the call whose code stops it |
| BufferLoop.HeldSize | src/getifaddrs.rs:201-217 | started from the initial size, a successful loop holds 15000 bytes after no retry, otherwise the doubled size the last overflowing call asked for |
| Windows.WindowsItem | src/getifaddrs.rs:242-274 | a record exists exactly when the Windows decoding gives an address; it carries the adapter's name and that address, and its netmask and broadcast address stay at 0.0.0.0 |
| Windows.WalkUnicasts | src/getifaddrs.rs:234-275 | the inner loop builds the filter-map of the unicast policy over one adapter's unicast nodes |
| Windows.WalkAdapters | src/getifaddrs.rs:225-276 | the nested loop builds the filter-map of the unicast policy over the adapters' unicast nodes, adapter by adapter |
| Windows.Getifaddrs | src/getifaddrs.rs:198-279 | lists records exactly when the buffer loop succeeds, and they are the walk's output; panics exactly when the loop fails, with a code other than 0 and 111 |
| Windows.WindowsListAppend | src/getifaddrs.rs:227-276 | the output over a list of adapters is the concatenation, in adapter order, of the per-adapter outputs |
| Windows.WindowsListSingle | src/getifaddrs.rs:234-275 | a single adapter yields the filter-map of its own unicast nodes |
| Windows.WindowsRecordOrigin | src/getifaddrs.rs:234-275 | every record comes from a surviving unicast node of some adapter: it has that adapter's name and the decoded address, 0.0.0.0 netmask and broadcast, and it is neither 169.254.x.x nor has a first group of fe80 |
| Windows.WindowsComplete | src/getifaddrs.rs:234-275 | every non-null unicast address of a known family that passes the link-local filters appears in the output under its adapter's name |
| Windows.WindowsLength | src/getifaddrs.rs:234-275 | there are at most as many records as unicast nodes over all adapters |
| Windows.WindowsList | src/getifaddrs.rs:225-276 | the nested walk produces as many records as there are unicast nodes that survive the filters |
| Windows.WindowsListIsAcceptedMapped | src/getifaddrs.rs:225-276 | the k-th record is the Windows policy's record for the k-th surviving unicast node of the flattened sequence: one record per surviving node, in adapter and list order |
| Windows.UnicastsAppend | src/getifaddrs.rs:225-240 | the unicast nodes of two adapter lists walked in turn are the two node sequences in turn |
| Windows.EnumerationTrace | src/getifaddrs.rs:201-277 | the buffer events of a whole enumeration: one allocation per call made; one release per retry, plus one more when the loop succeeded; a successful run ends with a release, a failed one with the failing call |
| Windows.EnumerationReleasesBuffer | src/getifaddrs.rs:201-277 | over a whole enumeration at most one buffer is live at a time; a successful one frees its kept buffer once at line 277 and leaves none live; a failed one panics with one buffer still allocated |

## Left out

- Operating-system calls: `getifaddrs`/`freeifaddrs`, `GetAdaptersAddresses`, `malloc` and `free` are foreign calls. Their results are parameters. The buffer allocations and releases appear only as events in a trace.
- Raw-pointer walking, including the `first` flag dance of both loops, is not modelled. Each linked list is a sequence and is walked from head to tail.
- Name decoding (`CStr::from_ptr` and `str::from_utf8(..).unwrap()`, lines 128-129 and 243-244) reads foreign memory and panics on invalid UTF-8. Names are given strings.
- The allocation-failure panic (line 206) is not modelled.
- The release of the `ifaddrs` list (line 143) is not modelled. The list belongs to the operating system.
- The `#[cfg]` dispatch (lines 147-150 and 281-284) is not modelled. The two backends are separate modules.
- The two cfg variants of `do_broadcast` read the same slot of `struct ifaddrs`, which libc calls `ifa_ifu` on Linux and `ifa_dstaddr` on the BSDs. Both are modelled by one function over one field.
- The loopback test (lines 292-305) depends on the host, so it is not modelled.
- Byte order: the decoders are stated for the little-endian hosts the source assumes.
- BufferLoop.Grow: models the wrap-around of a release build. A debug build would panic when the doubling overflows.
- Windows.Getifaddrs: the panic carries the unsigned return code. The source casts the result of `GetAdaptersAddresses` to `c_int` (line 212) and matches on the cast value (lines 213-220). The cast reinterprets the 32 bits, which leaves 0 and 111 unchanged and maps no other code onto them, so the three branches are taken for the same codes; only the printed number of a code at or above 2^31 differs.
