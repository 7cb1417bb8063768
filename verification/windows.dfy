/** The Windows backend of src/getifaddrs.rs (`getifaddrs_windows`): the
    buffer loop, then a walk over the adapter list and, inside it, over each
    adapter's unicast-address list, one `IfAddr` per unicast address that
    decodes and is not link-local. */
module Windows {
  import opened IfTypes
  import opened Decode
  import opened ListWalk
  import opened BufferLoop

  /** One `IP_ADAPTER_ADDRESSES`: its `AdapterName` and the `lpSockaddr` of
      every node of its `FirstUnicastAddress` list, in list order. */
  datatype Adapter = Adapter(name: string, unicast: seq<Sockaddr>)

  /** One unicast-address node together with the name of its adapter. */
  datatype UnicastSlot = UnicastSlot(adapterName: string, sockaddr: Sockaddr)

  /** The unicast nodes of one adapter. */
  function Slots(ad: Adapter): seq<UnicastSlot>
  {
    seq(|ad.unicast|, j requires 0 <= j < |ad.unicast| => UnicastSlot(ad.name, ad.unicast[j]))
  }

  /** All unicast nodes, adapter by adapter: the order of the nested walk. */
  function Unicasts(adapters: seq<Adapter>): seq<UnicastSlot>
  {
    if |adapters| == 0 then []
    else Unicasts(adapters[..|adapters| - 1]) + Slots(adapters[|adapters| - 1])
  }

  /** The body of the inner loop for one node (lines 242-274): a record named
      after the adapter with the decoded address, netmask and broadcast left at
      0.0.0.0, or nothing for a null, unknown or link-local address. */
  function WindowsItem(slot: UnicastSlot): (r: Option<IfAddr>)
    ensures r.Some? <==> WindowsDecode(slot.sockaddr).Some?
    ensures r.Some? ==>
      && r.value.name == slot.adapterName
      && Some(r.value.addr) == WindowsDecode(slot.sockaddr)
      && r.value.netmask == Unspecified
      && r.value.broadcast == Unspecified
  {
    var item := NewIfAddr().(name := slot.adapterName);
    match WindowsDecode(slot.sockaddr)
    case None => None
    case Some(a) => Some(item.(addr := a))
  }

  /** The records the nested walk pushes, in order: exactly one per unicast
      node that survives the filters. WindowsRecordOrigin and WindowsComplete
      say which records these are. */
  function WindowsList(adapters: seq<Adapter>): (r: seq<IfAddr>)
    ensures |r| == |Accepted(WindowsItem, Unicasts(adapters))|
  {
    FilterMapIsAcceptedMapped(WindowsItem, Unicasts(adapters));
    FilterMap(WindowsItem, Unicasts(adapters))
  }

  /** The inner loop over one adapter's unicast-address list (lines
      234-275): the records it pushes, in list order. */
  method WalkUnicasts(ad: Adapter) returns (items: seq<IfAddr>)
    ensures items == FilterMap(WindowsItem, Slots(ad))
  {
    items := [];
    var u := 0;
    while u < |ad.unicast|
      invariant 0 <= u <= |ad.unicast|
      invariant items == FilterMap(WindowsItem, Slots(ad)[..u])
    {
      var slot := UnicastSlot(ad.name, ad.unicast[u]);
      FilterMapSnoc(WindowsItem, Slots(ad)[..u], slot);
      assert Slots(ad)[..u + 1] == Slots(ad)[..u] + [slot];
      u := u + 1;
      var item := NewIfAddr().(name := ad.name);
      match WindowsDecode(slot.sockaddr) {
        case None =>
          continue;
        case Some(addr) =>
          item := item.(addr := addr);
      }
      items := items + [item];
    }
    assert Slots(ad)[..u] == Slots(ad);
  }

  /** The outer loop over the adapters the successful call produced
      (lines 225-276). */
  method WalkAdapters(adapters: seq<Adapter>) returns (ret: seq<IfAddr>)
    ensures ret == WindowsList(adapters)
  {
    ret := [];
    var a := 0;
    while a < |adapters|
      invariant 0 <= a <= |adapters|
      invariant ret == FilterMap(WindowsItem, Unicasts(adapters[..a]))
    {
      var items := WalkUnicasts(adapters[a]);
      var done := adapters[..a + 1];
      assert done[..|done| - 1] == adapters[..a] && done[|done| - 1] == adapters[a];
      assert Unicasts(done) == Unicasts(adapters[..a]) + Slots(adapters[a]);
      FilterMapAppend(WindowsItem, Unicasts(adapters[..a]), Slots(adapters[a]));
      ret := ret + items;
      a := a + 1;
    }
    assert adapters[..a] == adapters;
    assert ret == FilterMap(WindowsItem, Unicasts(adapters));
  }

  /** `getifaddrs` (lines 198-279). `responses` are the answers of successive
      `GetAdaptersAddresses` calls; `adapters` is the list the successful call
      wrote into the buffer. */
  method Getifaddrs(responses: seq<Response>, adapters: seq<Adapter>) returns (r: Enumeration)
    ensures Run(InitialBufferSize, responses).Ready? <==> r.Listed?
    ensures Run(InitialBufferSize, responses).Failed? <==> r.Panicked?
    ensures r.Panicked? ==> r.code == Run(InitialBufferSize, responses).code
    ensures r.Panicked? ==> r.code != ErrorSuccess && r.code != ErrorBufferOverflow
    ensures r.Listed? ==> r.addrs == WindowsList(adapters)
  {
    var buffersize := InitialBufferSize;
    var i := 0;
    while i < |responses|
      invariant 0 <= i <= |responses|
      invariant Run(buffersize, responses[i..]) == Run(InitialBufferSize, responses)
    {
      assert responses[i..][0] == responses[i] && responses[i..][1..] == responses[i + 1..];
      var retcode := responses[i].code;
      if retcode == ErrorSuccess {
        var ret := WalkAdapters(adapters);
        return Listed(ret);
      } else if retcode == ErrorBufferOverflow {
        buffersize := Grow(responses[i].sizeAfter);
        i := i + 1;
      } else {
        return Panicked(retcode);
      }
    }
    return Unfinished;
  }

  /** The buffer events of a whole Windows enumeration: the loop's, then the
      release of the kept buffer at line 277 once the walk is over. */
  function EnumerationTrace(responses: seq<Response>): (t: seq<Event>)
    ensures var n := Retries(responses);
      && Mallocs(t) == (if n < |responses| then n + 1 else n)
      && Frees(t) == (if Run(InitialBufferSize, responses).Ready? then n + 1 else n)
      && (Run(InitialBufferSize, responses).Ready? ==> t[|t| - 1] == Free)
      && (Run(InitialBufferSize, responses).Failed? ==>
            t[|t| - 1] == Call(Run(InitialBufferSize, responses).code))
  {
    var loop := Trace(InitialBufferSize, responses);
    AllocationsPerCall(InitialBufferSize, responses);
    CountAppend(loop, [Free]);
    assert [Free][1..] == [];
    assert Mallocs([Free]) == 0 && Frees([Free]) == 1;
    assert loop + [] == loop;
    TraceEnd(InitialBufferSize, responses);
    loop + (if Run(InitialBufferSize, responses).Ready? then [Free] else [])
  }

  // ---------------------------------------------------------------------
  // Properties of the walk

  /** A unicast node survives the filters exactly when it decodes and is not
      link-local. */
  ghost predicate Survives(sa: Sockaddr)
  {
    || (sa.SockaddrIn? && !RawLinkLocalV4(sa.sAddr))
    || (sa.SockaddrIn6? && !RawLinkLocalV6(sa.raw))
  }

  /** The walk over several adapters reports the first adapter's records,
      then the rest's: the output is the concatenation, adapter by adapter,
      of each adapter's surviving unicast addresses. */
  lemma WindowsListAppend(a: seq<Adapter>, b: seq<Adapter>)
    ensures Unicasts(a + b) == Unicasts(a) + Unicasts(b)
    ensures WindowsList(a + b) == WindowsList(a) + WindowsList(b)
  {
    UnicastsAppend(a, b);
    FilterMapAppend(WindowsItem, Unicasts(a), Unicasts(b));
  }

  /** Flattening two adapter lists in turn flattens their concatenation. */
  lemma {:induction false} UnicastsAppend(a: seq<Adapter>, b: seq<Adapter>)
    decreases |b|
    ensures Unicasts(a + b) == Unicasts(a) + Unicasts(b)
  {
    if |b| == 0 {
      assert a + b == a;
    } else {
      var b', last := b[..|b| - 1], b[|b| - 1];
      assert (a + b)[..|a + b| - 1] == a + b';
      assert (a + b)[|a + b| - 1] == last;
      UnicastsAppend(a, b');
      assert Unicasts(a + b) == Unicasts(a + b') + Slots(last);
      assert Unicasts(b) == Unicasts(b') + Slots(last);
    }
  }

  /** The k-th record is the one built from the k-th surviving unicast node
      of the flattened sequence: one record per surviving node, in order. */
  lemma WindowsListIsAcceptedMapped(adapters: seq<Adapter>)
    ensures var u := Unicasts(adapters);
      var r, idx := WindowsList(adapters), Accepted(WindowsItem, u);
      && |r| == |idx|
      && forall k :: 0 <= k < |idx| ==> WindowsItem(u[idx[k]]) == Some(r[k])
  {
    FilterMapIsAcceptedMapped(WindowsItem, Unicasts(adapters));
  }

  /** One adapter on its own yields its unicast nodes that survive, in their
      order, each named after the adapter. */
  lemma WindowsListSingle(ad: Adapter)
    ensures Unicasts([ad]) == Slots(ad)
    ensures WindowsList([ad]) == FilterMap(WindowsItem, Slots(ad))
  {
  }

  /** Every record comes from a surviving unicast node of some adapter: it
      carries that adapter's name and the decoded address, its netmask and
      broadcast address are 0.0.0.0, and its address is neither 169.254.x.x
      nor fe80:: with an exact first group. */
  lemma WindowsRecordOrigin(adapters: seq<Adapter>, k: int)
    requires 0 <= k < |WindowsList(adapters)|
    ensures exists i, j :: (
      && 0 <= i < |adapters| && 0 <= j < |adapters[i].unicast|
      && var out, sa := WindowsList(adapters)[k], adapters[i].unicast[j];
         && Survives(sa)
         && out.name == adapters[i].name
         && Some(out.addr) == SockaddrToIpaddr(sa)
         && out.netmask == Unspecified && out.broadcast == Unspecified
         && !IsLinkLocalV4(out.addr) && !HasFe80Group(out.addr))
  {
    FilterMapSound(WindowsItem, Unicasts(adapters), k);
    var s :| 0 <= s < |Unicasts(adapters)| && WindowsItem(Unicasts(adapters)[s]) == Some(WindowsList(adapters)[k]);
    var i, j := UnicastOrigin(adapters, s);
    WindowsDecodeAgrees(adapters[i].unicast[j]);
  }

  /** Every surviving unicast node of every adapter appears in the output, named
      after its adapter. */
  lemma WindowsComplete(adapters: seq<Adapter>, i: int, j: int)
    requires 0 <= i < |adapters| && 0 <= j < |adapters[i].unicast|
    requires Survives(adapters[i].unicast[j])
    ensures exists k :: (
      && 0 <= k < |WindowsList(adapters)|
      && WindowsList(adapters)[k].name == adapters[i].name
      && Some(WindowsList(adapters)[k].addr) == SockaddrToIpaddr(adapters[i].unicast[j]))
  {
    var s := UnicastPosition(adapters, i, j);
    WindowsDecodeAgrees(adapters[i].unicast[j]);
    FilterMapComplete(WindowsItem, Unicasts(adapters), s);
    var out := WindowsList(adapters);
    var k :| 0 <= k < |out| && out[k] == WindowsItem(Unicasts(adapters)[s]).value;
    assert out[k].name == adapters[i].name;
  }

  /** The output holds at most one record per unicast node. */
  lemma WindowsLength(adapters: seq<Adapter>)
    ensures |WindowsList(adapters)| <= |Unicasts(adapters)|
  {
  }

  /** Where a flattened unicast node came from. */
  lemma {:induction false} UnicastOrigin(adapters: seq<Adapter>, s: int) returns (i: int, j: int)
    decreases |adapters|
    requires 0 <= s < |Unicasts(adapters)|
    ensures 0 <= i < |adapters| && 0 <= j < |adapters[i].unicast|
    ensures Unicasts(adapters)[s] == UnicastSlot(adapters[i].name, adapters[i].unicast[j])
  {
    var init := adapters[..|adapters| - 1];
    if s < |Unicasts(init)| {
      i, j := UnicastOrigin(init, s);
    } else {
      i, j := |adapters| - 1, s - |Unicasts(init)|;
    }
  }

  /** Where in the flattened sequence a given unicast node sits. */
  lemma {:induction false} UnicastPosition(adapters: seq<Adapter>, i: int, j: int) returns (s: int)
    decreases |adapters|
    requires 0 <= i < |adapters| && 0 <= j < |adapters[i].unicast|
    ensures 0 <= s < |Unicasts(adapters)|
    ensures Unicasts(adapters)[s] == UnicastSlot(adapters[i].name, adapters[i].unicast[j])
  {
    var init := adapters[..|adapters| - 1];
    if i < |adapters| - 1 {
      s := UnicastPosition(init, i, j);
    } else {
      s := |Unicasts(init)| + j;
    }
  }

  /** Buffer ownership over a whole enumeration: at most one buffer is live at
      any time; a successful enumeration releases the buffer it kept, exactly
      once, and leaves none live; a failed one panics with its buffer still
      allocated, since line 220 does not free it. */
  lemma EnumerationReleasesBuffer(responses: seq<Response>)
    ensures Run(InitialBufferSize, responses).Ready? ==> Replay(0, EnumerationTrace(responses)) == Some(0)
    ensures Run(InitialBufferSize, responses).Failed? ==> Replay(0, EnumerationTrace(responses)) == Some(1)
    ensures Run(InitialBufferSize, responses).Pending? ==> Replay(0, EnumerationTrace(responses)) == Some(0)
  {
    OneBufferAtATime(InitialBufferSize, responses);
    var t := Trace(InitialBufferSize, responses);
    if Run(InitialBufferSize, responses).Ready? {
      ReplayAppend(0, t, [Free]);
      assert [Free][1..] == [];
    } else {
      assert EnumerationTrace(responses) == t;
    }
  }
}
