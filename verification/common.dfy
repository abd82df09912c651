/** Shared vocabulary of the one-sided window model: machine integers, status
    codes, the lock kinds a process can hold on a peer, and the events that the
    synchronisation calls emit towards the transports.  The events are recorded
    in a trace so that orderings such as "flush before release" can be stated. */
module Common {

  const TWO_64: int := 0x1_0000_0000_0000_0000

  /** An unsigned 64-bit value (addresses, sizes and remote lock words). */
  type U64 = x: int | 0 <= x < TWO_64

  /** Unsigned 64-bit wrap-around, as C performs it on `uint64_t`/`size_t`. */
  function Wrap64(x: int): (r: U64)
    ensures 0 <= x < TWO_64 ==> r == x
    ensures (r - x) % TWO_64 == 0
  {
    x % TWO_64
  }

  /** A C `int` status code. */
  type Status = x: int | -0x8000_0000 <= x < 0x8000_0000

  const SUCCESS: Status := 0
  const ERROR: Status := -1
  const ERR_TEMP_OUT_OF_RESOURCE: Status := -3
  /** The value of the RMA synchronisation error lives in a header that is not
      part of this model; only its distinctness from the others is used. */
  const ERR_RMA_SYNC: Status := -202

  datatype LockType = SharedLock | ExclusiveLock

  /** The per-target record kept in `outstanding_locks`. */
  datatype LockRecord = LockRecord(kind: LockType, nocheck: bool)

  /** Observable calls into the transports, in issue order. */
  datatype Event =
    | Acquire(rank: int, kind: LockType)   // start_shared / start_exclusive on the peer's lock word
    | Release(rank: int, kind: LockType)   // end_shared / end_exclusive on the peer's lock word
    | AccAcquire(rank: int)                // compare-and-swap on the peer's accumulate lock
    | AccRelease(rank: int)                // swap of the accumulate lock back to unlocked
    | MemFence                             // fence on the window memory
    | FabricEpFlush(rank: int)             // endpoint-scoped flush of the RDMA context
    | FabricWorkerFlush                    // worker-scoped flush of the RDMA context
    | OffloadEpFlush(rank: int)            // endpoint-flush command sent to the offload helper
    | OffloadWorkerFlush                   // worker-flush command sent to the offload helper
    | ChannelEpFlush                       // flush of the local host-channel endpoint, polled to completion
    | ChannelWorkerFlush                   // flush of the local host-channel worker, polled to completion
    | RegisterRegion(base: U64, len: U64)  // memory registration of an attached region
    | DeregisterRegion(index: int)         // deregistration of the region in the given slot
    | FreeBuffer                           // release of a temporary buffer

  /** Position of the first occurrence of `e` in `trace`, if any. */
  function IndexOf(trace: seq<Event>, e: Event): (r: int)
    ensures -1 <= r < |trace|
    ensures r >= 0 ==> trace[r] == e && forall k :: 0 <= k < r ==> trace[k] != e
    ensures r == -1 <==> e !in trace
  {
    if |trace| == 0 then -1
    else if trace[0] == e then 0
    else
      var k := IndexOf(trace[1..], e);
      if k < 0 then -1 else k + 1
  }

  /** `a` occurs in `trace`, and strictly before any occurrence of `b`. */
  predicate Precedes(trace: seq<Event>, a: Event, b: Event)
  {
    a in trace && (b in trace ==> IndexOf(trace, a) < IndexOf(trace, b))
  }

  /** Events absent from a prefix keep their relative order behind it. */
  lemma {:induction false} PrecedesAfter(p: seq<Event>, u: seq<Event>, a: Event, b: Event)
    requires Precedes(u, a, b) && a !in p && b !in p
    ensures Precedes(p + u, a, b)
  {
    IndexAfter(p, u, a);
    if b in u {
      IndexAfter(p, u, b);
    }
  }

  lemma {:induction false} IndexAfter(p: seq<Event>, u: seq<Event>, e: Event)
    requires e in u && e !in p
    ensures IndexOf(p + u, e) == |p| + IndexOf(u, e)
  {
    if |p| > 0 {
      assert (p + u)[0] == p[0] != e;
      assert (p + u)[1..] == p[1..] + u;
      assert e !in p[1..];
      IndexAfter(p[1..], u, e);
    } else {
      assert p + u == u;
    }
  }
}
