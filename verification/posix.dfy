/** The POSIX backend of src/getifaddrs.rs (`getifaddrs_posix`): the list
    that `getifaddrs(3)` returns, walked from head to tail, one `IfAddr` per
    node whose address decodes. */
module Posix {
  import opened IfTypes
  import opened Decode
  import opened ListWalk

  /** One node of the `struct ifaddrs` list. `broadDst` is the slot that
      holds the broadcast address of a broadcast interface or the peer
      address of a point-to-point one; libc names it `ifa_ifu` on Linux,
      Android and NaCl and `ifa_dstaddr` on FreeBSD, macOS and iOS, which is
      the whole difference between the two `do_broadcast` variants. */
  datatype IfaddrsRec = IfaddrsRec(
    name: string,
    flags: bv32,
    addr: Sockaddr,
    netmask: Sockaddr,
    broadDst: Sockaddr)

  /** IFF_BROADCAST in `ifa_flags`. */
  const IffBroadcast: bv32 := 2

  /** `do_broadcast`: the decoded broadcast/destination slot, or 0.0.0.0. */
  function DoBroadcast(rec: IfaddrsRec): (b: IpAddr)
    ensures SockaddrToIpaddr(rec.broadDst).Some? ==> b == SockaddrToIpaddr(rec.broadDst).value
    ensures rec.broadDst.Null? || rec.broadDst.OtherFamily? ==> b == Unspecified
  {
    match SockaddrToIpaddr(rec.broadDst)
    case Some(a) => a
    case None => Unspecified
  }

  /** The body of the traversal loop for one node (lines 124-141): no record
      when the address is null or does not decode; otherwise a record with the
      node's name and address, the decoded netmask if any, and a broadcast
      address only when IFF_BROADCAST is set. */
  function PosixItem(rec: IfaddrsRec): (r: Option<IfAddr>)
    ensures r.Some? <==> rec.addr.SockaddrIn? || rec.addr.SockaddrIn6?
    ensures r.Some? ==> r.value.name == rec.name
    ensures r.Some? ==> Some(r.value.addr) == SockaddrToIpaddr(rec.addr)
    ensures r.Some? && SockaddrToIpaddr(rec.netmask).Some? ==>
      r.value.netmask == SockaddrToIpaddr(rec.netmask).value
    ensures r.Some? && SockaddrToIpaddr(rec.netmask).None? ==> r.value.netmask == Unspecified
    ensures r.Some? && rec.flags & IffBroadcast == 0 ==> r.value.broadcast == Unspecified
    ensures r.Some? && rec.flags & IffBroadcast != 0 ==> r.value.broadcast == DoBroadcast(rec)
  {
    if rec.addr.Null? then None
    else
      var named := NewIfAddr().(name := rec.name);
      match SockaddrToIpaddr(rec.addr)
      case None => None
      case Some(a) =>
        var addressed := named.(addr := a);
        var masked :=
          match SockaddrToIpaddr(rec.netmask)
          case Some(m) => addressed.(netmask := m)
          case None => addressed;
        Some(if rec.flags & IffBroadcast != 0 then masked.(broadcast := DoBroadcast(rec)) else masked)
  }

  /** The records the traversal pushes, in list order: one per reported
      node, taken at the reported positions in ascending order. */
  function PosixList(list: seq<IfaddrsRec>): (r: seq<IfAddr>)
    ensures var idx := Accepted(PosixItem, list);
      && |r| == |idx|
      && forall k :: 0 <= k < |idx| ==>
           Reported(list[idx[k]]) && PosixItem(list[idx[k]]) == Some(r[k])
  {
    FilterMapIsAcceptedMapped(PosixItem, list);
    FilterMap(PosixItem, list)
  }

  /** `getifaddrs` (lines 106-145). `rc` is the return code of the operating
      system call and `list` the list it produced. Only -1 is treated as a
      failure; then the source panics. */
  method Getifaddrs(rc: int, list: seq<IfaddrsRec>) returns (r: Enumeration)
    ensures rc == -1 <==> r.Panicked?
    ensures r.Panicked? ==> r.code == -1
    ensures rc != -1 ==> r == Listed(PosixList(list))
  {
    if rc == -1 {
      return Panicked(rc);
    }
    var ret: seq<IfAddr> := [];
    var i := 0;
    while i < |list|
      invariant 0 <= i <= |list|
      invariant ret == PosixList(list[..i])
    {
      var node := list[i];
      FilterMapSnoc(PosixItem, list[..i], node);
      assert list[..i + 1] == list[..i] + [node];
      i := i + 1;
      if node.addr.Null? {
        continue;
      }
      var item := NewIfAddr().(name := node.name);
      match SockaddrToIpaddr(node.addr) {
        case None =>
          continue;
        case Some(a) =>
          item := item.(addr := a);
      }
      match SockaddrToIpaddr(node.netmask) {
        case Some(m) =>
          item := item.(netmask := m);
        case None =>
      }
      if node.flags & IffBroadcast != 0 {
        item := item.(broadcast := DoBroadcast(node));
      }
      ret := ret + [item];
    }
    assert list[..|list|] == list;
    return Listed(ret);
  }

  // ---------------------------------------------------------------------
  // Properties of the traversal

  /** A node is reported exactly when its address is non-null and of a
      known family. */
  ghost predicate Reported(rec: IfaddrsRec)
  {
    rec.addr.SockaddrIn? || rec.addr.SockaddrIn6?
  }

  /** The positions the walk reports are exactly the positions of reported
      nodes, in increasing order, and there are as many records as such
      positions: the output never grows longer than the list. */
  lemma PosixReportedPositions(list: seq<IfaddrsRec>)
    ensures var idx := Accepted(PosixItem, list);
      && |PosixList(list)| == |idx| <= |list|
      && Increasing(idx)
      && forall i :: 0 <= i < |list| ==> (Reported(list[i]) <==> i in idx)
  {
    FilterMapIsAcceptedMapped(PosixItem, list);
    var idx := Accepted(PosixItem, list);
    forall i | 0 <= i < |list| && Reported(list[i])
      ensures i in idx
    {
      AcceptedComplete(PosixItem, list, i);
    }
  }

  /** The k-th record is built from the k-th reported node: it carries that
      node's name and decoded address. With PosixReportedPositions, the output
      is an order-preserving subsequence of the list after mapping. */
  lemma PosixRecordsInOrder(list: seq<IfaddrsRec>, k: int)
    requires 0 <= k < |Accepted(PosixItem, list)|
    ensures var out, rec := PosixList(list), list[Accepted(PosixItem, list)[k]];
      && k < |out|
      && Reported(rec)
      && out[k] == PosixItem(rec).value
      && out[k].name == rec.name
      && Some(out[k].addr) == SockaddrToIpaddr(rec.addr)
  {
    FilterMapIsAcceptedMapped(PosixItem, list);
  }

  /** Walking two lists in turn reports their records in turn. */
  lemma PosixListAppend(a: seq<IfaddrsRec>, b: seq<IfaddrsRec>)
    ensures PosixList(a + b) == PosixList(a) + PosixList(b)
  {
    FilterMapAppend(PosixItem, a, b);
  }

  /** Every reported record's netmask is the node's decoded netmask or
      0.0.0.0, and its broadcast address is 0.0.0.0 unless the node has
      IFF_BROADCAST set. */
  lemma PosixDefaults(list: seq<IfaddrsRec>, k: int)
    requires 0 <= k < |PosixList(list)|
    ensures exists i :: (
      && 0 <= i < |list|
      && PosixItem(list[i]) == Some(PosixList(list)[k])
      && var rec, out := list[i], PosixList(list)[k];
         && (out.netmask == Unspecified || Some(out.netmask) == SockaddrToIpaddr(rec.netmask))
         && (rec.flags & IffBroadcast == 0 ==> out.broadcast == Unspecified)
         && (rec.flags & IffBroadcast != 0 ==> out.broadcast == DoBroadcast(rec)))
  {
    FilterMapSound(PosixItem, list, k);
  }

  /** The POSIX backend reports an fe80:: address: a node whose stored first
      group is 0x80fe produces a record with address fe80::... */
  lemma PosixReportsFe80(list: seq<IfaddrsRec>, i: int)
    requires 0 <= i < |list|
    requires list[i].addr.SockaddrIn6? && RawLinkLocalV6(list[i].addr.raw)
    ensures exists k :: (0 <= k < |PosixList(list)| &&
      PosixList(list)[k].addr == DecodeV6(list[i].addr.raw) && HasFe80Group(PosixList(list)[k].addr))
  {
    RawLinkLocalV6Meaning(list[i].addr.raw);
    FilterMapComplete(PosixItem, list, i);
    var out := PosixList(list);
    var k :| 0 <= k < |out| && out[k] == PosixItem(list[i]).value;
    assert out[k].addr == DecodeV6(list[i].addr.raw);
  }
}
