/** The buffer-growth loop of the Windows backend (src/getifaddrs.rs lines
    201-223): allocate `buffersize` bytes, call `GetAdaptersAddresses` with
    the buffer and `&mut buffersize`, keep the buffer on ERROR_SUCCESS, free
    it and retry with twice the size on ERROR_BUFFER_OVERFLOW, and panic on
    any other return code.

    The operating system is a finite sequence of responses, one per call. When
    the responses run out while the loop is still retrying, the outcome is
    Pending: the source would call again. */
module BufferLoop {
  import opened IfTypes

  /** A 32-bit Windows `c_ulong`. */
  type ULong = x: int | 0 <= x < 0x1_0000_0000

  /** The size the first buffer is allocated with. */
  const InitialBufferSize: ULong := 15000

  /** ERROR_SUCCESS. */
  const ErrorSuccess: ULong := 0

  /** ERROR_BUFFER_OVERFLOW. */
  const ErrorBufferOverflow: ULong := 111

  /** One call of `GetAdaptersAddresses`: its return code, and the value the
      call left in `buffersize` (on ERROR_BUFFER_OVERFLOW, the size it needs). */
  datatype Response = Response(code: ULong, sizeAfter: ULong)

  /** How the loop ends: holding a buffer of `held` bytes that the call filled,
      failing with the call's code, or still retrying with `next` bytes. */
  datatype LoopOutcome = Ready(held: ULong) | Failed(code: ULong) | Pending(next: ULong)

  /** `buffersize = buffersize * 2` on a 32-bit `c_ulong`, wrapping around
      as in a release build. */
  function Grow(sizeAfter: ULong): (n: ULong)
    ensures sizeAfter < 0x8000_0000 ==> n == 2 * sizeAfter
    ensures sizeAfter >= 0x8000_0000 ==> n == 2 * sizeAfter - 0x1_0000_0000
  {
    (sizeAfter * 2) % 0x1_0000_0000
  }

  /** The loop, started with a buffer of `size` bytes. */
  function Run(size: ULong, responses: seq<Response>): (r: LoopOutcome)
    decreases |responses|
    ensures var n := Retries(responses);
      && (r.Pending? <==> n == |responses|)
      && (r.Ready? <==> n < |responses| && responses[n].code == ErrorSuccess)
      && (r.Failed? <==> n < |responses| && responses[n].code != ErrorSuccess && responses[n].code != ErrorBufferOverflow)
      && (r.Failed? ==> r.code == responses[n].code)
      && (r.Ready? ==> r.held == SizeAfterRetries(size, responses, n))
      && (r.Pending? ==> r.next == SizeAfterRetries(size, responses, n))
  {
    if |responses| == 0 then Pending(size)
    else if responses[0].code == ErrorSuccess then Ready(size)
    else if responses[0].code == ErrorBufferOverflow then Run(Grow(responses[0].sizeAfter), responses[1..])
    else Failed(responses[0].code)
  }

  /** The number of leading ERROR_BUFFER_OVERFLOW responses: how many times
      the loop frees its buffer and retries before it stops or runs out. */
  function Retries(responses: seq<Response>): (n: nat)
    ensures n <= |responses|
    ensures forall k :: 0 <= k < n ==> responses[k].code == ErrorBufferOverflow
    ensures n < |responses| ==> responses[n].code != ErrorBufferOverflow
  {
    if |responses| == 0 || responses[0].code != ErrorBufferOverflow then 0
    else 1 + Retries(responses[1..])
  }

  /** The buffer size after `n` retries: the starting size if there were none,
      otherwise twice what the last overflowing call wrote back. */
  function SizeAfterRetries(size: ULong, responses: seq<Response>, n: nat): ULong
    requires n <= |responses|
  {
    if n == 0 then size else Grow(responses[n - 1].sizeAfter)
  }

  /** What happens to buffers while the loop runs. */
  datatype Event = Malloc(size: ULong) | Call(code: ULong) | Free

  /** The buffer events of the loop, started with `size` bytes: three
      events (allocate, call, free) per retry, then, unless the responses
      ran out, the allocation and the call that end the loop. TraceRound and
      TraceEnd say what the events are. */
  function Trace(size: ULong, responses: seq<Response>): (t: seq<Event>)
    decreases |responses|
    ensures |t| == (if Retries(responses) < |responses| then 3 * Retries(responses) + 2 else 3 * Retries(responses))
  {
    if |responses| == 0 then []
    else
      var step := [Malloc(size), Call(responses[0].code)];
      if responses[0].code == ErrorBufferOverflow
      then step + [Free] + Trace(Grow(responses[0].sizeAfter), responses[1..])
      else step
  }

  /** Retry k allocates the size the k retries before it left behind, calls,
      is told ERROR_BUFFER_OVERFLOW and frees the buffer. */
  lemma {:induction false} TraceRound(size: ULong, responses: seq<Response>, k: nat)
    decreases k
    requires k < Retries(responses)
    ensures var t := Trace(size, responses);
      && 3 * k + 2 < |t|
      && t[3 * k] == Malloc(SizeAfterRetries(size, responses, k))
      && t[3 * k + 1] == Call(ErrorBufferOverflow)
      && t[3 * k + 2] == Free
  {
    assert responses[0].code == ErrorBufferOverflow;
    var rest := responses[1..];
    var grown := Grow(responses[0].sizeAfter);
    var t := Trace(size, responses);
    assert t == [Malloc(size), Call(ErrorBufferOverflow), Free] + Trace(grown, rest);
    if k > 0 {
      assert Retries(responses) == 1 + Retries(rest);
      TraceRound(grown, rest, k - 1);
      if k > 1 {
        assert rest[k - 2] == responses[k - 1];
      }
      assert SizeAfterRetries(grown, rest, k - 1) == SizeAfterRetries(size, responses, k);
      var u := Trace(grown, rest);
      assert t[3 * k] == u[3 * (k - 1)] && t[3 * k + 1] == u[3 * (k - 1) + 1] && t[3 * k + 2] == u[3 * (k - 1) + 2];
    }
  }

  /** Unless the responses ran out, the loop ends with an allocation of the
      size the retries left behind and the call whose code stops it. */
  lemma {:induction false} TraceEnd(size: ULong, responses: seq<Response>)
    decreases |responses|
    ensures var t, n := Trace(size, responses), Retries(responses);
      n < |responses| ==>
        && t[3 * n] == Malloc(SizeAfterRetries(size, responses, n))
        && t[3 * n + 1] == Call(responses[n].code)
  {
    var n := Retries(responses);
    if 0 < n < |responses| {
      var rest := responses[1..];
      var grown := Grow(responses[0].sizeAfter);
      TraceEnd(grown, rest);
      assert SizeAfterRetries(grown, rest, n - 1) == SizeAfterRetries(size, responses, n);
      assert rest[n - 1] == responses[n];
      var t := Trace(size, responses);
      assert t == [Malloc(size), Call(ErrorBufferOverflow), Free] + Trace(grown, rest);
    }
  }

  /** Replays buffer events from `live` live buffers: a buffer is allocated
      only when none is live, and called with or freed only while one is. The
      number of live buffers at the end, or None at the first misuse. */
  function Replay(live: nat, t: seq<Event>): Option<nat>
    decreases |t|
  {
    if |t| == 0 then Some(live)
    else
      match t[0]
      case Malloc(_) => if live == 0 then Replay(1, t[1..]) else None
      case Call(_) => if live == 1 then Replay(1, t[1..]) else None
      case Free => if live == 1 then Replay(0, t[1..]) else None
  }

  /** Replaying two traces in turn is replaying their concatenation. */
  lemma {:induction false} ReplayAppend(live: nat, a: seq<Event>, b: seq<Event>)
    decreases |a|
    ensures Replay(live, a + b) ==
      match Replay(live, a) case Some(m) => Replay(m, b) case None => None
  {
    if |a| == 0 {
      assert a + b == b;
    } else {
      assert (a + b)[0] == a[0] && (a + b)[1..] == a[1..] + b;
      match a[0]
      case Malloc(_) => if live == 0 { ReplayAppend(1, a[1..], b); }
      case Call(_) => if live == 1 { ReplayAppend(1, a[1..], b); }
      case Free => if live == 1 { ReplayAppend(0, a[1..], b); }
    }
  }

  /** At most one buffer is live at any time, every freed buffer is the one
      allocated before it, every call is made with a live buffer, and the loop
      ends holding exactly one buffer unless it is still retrying. */
  lemma {:induction false} OneBufferAtATime(size: ULong, responses: seq<Response>)
    decreases |responses|
    ensures Replay(0, Trace(size, responses)) == Some(if Run(size, responses).Pending? then 0 else 1)
  {
    if |responses| > 0 {
      var code := responses[0].code;
      var step := [Malloc(size), Call(code)];
      OneCall(size, code);
      if code == ErrorBufferOverflow {
        var rest := Trace(Grow(responses[0].sizeAfter), responses[1..]);
        OneBufferAtATime(Grow(responses[0].sizeAfter), responses[1..]);
        ReplayAppend(0, step, [Free]);
        assert [Free][1..] == [];
        ReplayAppend(0, step + [Free], rest);
      }
    }
  }

  /** The loop allocates once per call it makes, and frees once per retry. */
  lemma {:induction false} AllocationsPerCall(size: ULong, responses: seq<Response>)
    decreases |responses|
    ensures var t, n := Trace(size, responses), Retries(responses);
      && Mallocs(t) == (if n < |responses| then n + 1 else n)
      && Frees(t) == n
  {
    if |responses| > 0 {
      var step := [Malloc(size), Call(responses[0].code)];
      OneCall(size, responses[0].code);
      if responses[0].code == ErrorBufferOverflow {
        var rest := Trace(Grow(responses[0].sizeAfter), responses[1..]);
        AllocationsPerCall(Grow(responses[0].sizeAfter), responses[1..]);
        CountAppend(step + [Free], rest);
        CountAppend(step, [Free]);
        assert [Free][1..] == [];
        assert Mallocs([Free]) == 0 && Frees([Free]) == 1;
      }
    }
  }

  /** One pass of the loop body up to the call: one allocation, no release,
      and a live buffer for the call. */
  lemma OneCall(size: ULong, code: ULong)
    ensures var step := [Malloc(size), Call(code)];
      Mallocs(step) == 1 && Frees(step) == 0 && Replay(0, step) == Some(1)
  {
    var step := [Malloc(size), Call(code)];
    assert step[1..] == [Call(code)] && [Call(code)][1..] == [];
    assert Replay(1, [Call(code)]) == Some(1);
    assert Mallocs([Call(code)]) == 0 && Frees([Call(code)]) == 0;
  }

  /** The number of allocations in a trace. */
  function Mallocs(t: seq<Event>): nat
  {
    if |t| == 0 then 0 else (if t[0].Malloc? then 1 else 0) + Mallocs(t[1..])
  }

  /** The number of releases in a trace. */
  function Frees(t: seq<Event>): nat
  {
    if |t| == 0 then 0 else (if t[0].Free? then 1 else 0) + Frees(t[1..])
  }

  /** Counting events over two traces in turn adds the counts. */
  lemma {:induction false} CountAppend(a: seq<Event>, b: seq<Event>)
    ensures Mallocs(a + b) == Mallocs(a) + Mallocs(b)
    ensures Frees(a + b) == Frees(a) + Frees(b)
  {
    if |a| == 0 {
      assert a + b == b;
    } else {
      assert (a + b)[0] == a[0] && (a + b)[1..] == a[1..] + b;
      CountAppend(a[1..], b);
    }
  }

  /** Started from the initial size, a loop that succeeds on its first call
      holds a 15000-byte buffer, and one that succeeds after retries holds a
      buffer of twice the size the last overflowing call asked for. */
  lemma HeldSize(responses: seq<Response>)
    requires Run(InitialBufferSize, responses).Ready?
    ensures var n := Retries(responses);
      && (n == 0 ==> Run(InitialBufferSize, responses).held == 15000)
      && (n > 0 ==> Run(InitialBufferSize, responses).held == Grow(responses[n - 1].sizeAfter))
  {
  }
}
