/** The access-epoch state machine of `osc_ucx_passive_target.c`.

    A window is in one access epoch at a time.  `lock`/`unlock` open and close
    per-target passive epochs, counted by `lockCount` and recorded in `locks`;
    `lock_all`/`unlock_all` open and close the all-targets epoch; `sync` and
    the flushes only act inside a passive epoch.  What the remote side and the
    transports answer is passed in: the status the lock-word spin returned
    (the spin itself is `LockWord.StartExclusive`/`StartShared`), the status of
    each flush and release, and which targets share this process's offload
    endpoint.  Every transport call is appended to the trace.

    `Lock`, `Unlock` and `LockAll` follow the code as written; the `Fixed`
    versions repair the defects shown in `PassiveTargetFindings`, and the
    epoch invariant is proved for them. */
module PassiveTarget {
  import opened Common

  datatype Epoch = NoEpoch | FenceEpoch | PassiveEpoch | PassiveAllEpoch

  datatype Window = Window(
    access: Epoch,
    lockCount: int,
    locks: map<int, LockRecord>,   // outstanding_locks, keyed by target rank
    lockAllNocheck: bool,
    noLocks: bool,
    commSize: nat)

  datatype Outcome = Outcome(status: Status, win: Window, trace: seq<Event>)

  /** Answers of the transports to one synchronisation call: the status of the
      fabric flush, of the rank-map lookup, and the ranks whose offload
      endpoint is this process's own. */
  datatype Transport = Transport(flush: Status, rankMap: Status, colocated: set<int>)

  predicate InPassive(w: Window)
  {
    w.access == PassiveEpoch || w.access == PassiveAllEpoch
  }

  // ---------------------------------------------------------------------
  // Per-target lock and unlock
  // ---------------------------------------------------------------------

  /** The three cases in which `lock` refuses before touching anything. */
  predicate LockRefused(w: Window, target: int)
  {
    || w.noLocks
    || (w.lockCount == 0 && w.access != NoEpoch && w.access != FenceEpoch)
    || (w.lockCount != 0 && target in w.locks)
  }

  /** The calls `lock` issues: one acquisition unless the caller asserted
      NOCHECK. */
  function LockTrace(kind: LockType, target: int, nocheck: bool): seq<Event>
  {
    if nocheck then [] else [Acquire(target, kind)]
  }

  /** `ompi_osc_ucx_lock`, as written; `acquire` is what the acquisition
      spin on the target's lock word returned. */
  function Lock(w: Window, kind: LockType, target: int, nocheck: bool, acquire: Status): (r: Outcome)
    ensures LockRefused(w, target) ==> r == Outcome(ERR_RMA_SYNC, w, [])
    ensures !LockRefused(w, target) ==>
              && r.trace == LockTrace(kind, target, nocheck)
              && r.status == (if nocheck then SUCCESS else acquire)
              // the count is raised whether or not the acquisition succeeds
              && r.win.lockCount == w.lockCount + 1
              && (r.status == SUCCESS ==>
                    r.win == w.(access := PassiveEpoch, lockCount := w.lockCount + 1,
                                locks := w.locks[target := LockRecord(kind, nocheck)]))
              && (r.status != SUCCESS ==> r.win == w.(lockCount := w.lockCount + 1))
  {
    if LockRefused(w, target) then Outcome(ERR_RMA_SYNC, w, [])
    else
      var raised := w.(access := PassiveEpoch, lockCount := w.lockCount + 1);
      var ret := if nocheck then SUCCESS else acquire;
      if ret == SUCCESS then
        Outcome(ret, raised.(locks := w.locks[target := LockRecord(kind, nocheck)]), LockTrace(kind, target, nocheck))
      else Outcome(ret, raised.(access := w.access), LockTrace(kind, target, nocheck))
  }

  /** `lock` with a failed acquisition undoing all of its effects. */
  function LockFixed(w: Window, kind: LockType, target: int, nocheck: bool, acquire: Status): (r: Outcome)
    ensures r.status != SUCCESS ==> r.win == w
    ensures r.status == SUCCESS <==> !LockRefused(w, target) && (nocheck || acquire == SUCCESS)
    ensures r.status == SUCCESS ==>
              r.win == w.(access := PassiveEpoch, lockCount := w.lockCount + 1,
                          locks := w.locks[target := LockRecord(kind, nocheck)])
  {
    var r := Lock(w, kind, target, nocheck, acquire);
    if r.status == SUCCESS then r else r.(win := w)
  }

  /** The calls `unlock` issues once the record is found: the fabric flush of
      the target endpoint; then, if the rank map is available, the offload
      endpoint flush, the host-channel flush when the target shares this
      process's offload endpoint, and the release of the lock word unless the
      lock was taken with NOCHECK. */
  function UnlockTrace(target: int, rec: LockRecord, tr: Transport): (t: seq<Event>)
    ensures |t| > 0 && t[0] == FabricEpFlush(target)
    ensures Release(target, rec.kind) in t <==> tr.flush == SUCCESS && tr.rankMap == SUCCESS && !rec.nocheck
    ensures Precedes(t, FabricEpFlush(target), Release(target, rec.kind))
    ensures Precedes(t, OffloadEpFlush(target), Release(target, rec.kind)) || Release(target, rec.kind) !in t
  {
    if tr.flush != SUCCESS || tr.rankMap != SUCCESS then [FabricEpFlush(target)]
    else
      var local := if target in tr.colocated then [ChannelEpFlush] else [];
      var release := if rec.nocheck then [] else [Release(target, rec.kind)];
      var t := [FabricEpFlush(target), OffloadEpFlush(target)] + local + release;
      assert !rec.nocheck ==> t[|t| - 1] == Release(target, rec.kind);
      t
  }

  /** `ompi_osc_ucx_unlock`, as written; `release` is what the release of
      the lock word returned. */
  function Unlock(w: Window, target: int, tr: Transport, release: Status): (r: Outcome)
    ensures w.access != PassiveEpoch || target !in w.locks ==> r == Outcome(ERR_RMA_SYNC, w, [])
    ensures w.access == PassiveEpoch && target in w.locks ==>
              && r.trace == UnlockTrace(target, w.locks[target], tr)
              // the record goes first, whatever happens next
              && r.win.locks == w.locks - {target}
              // a failed flush or rank map loses the record and changes nothing else
              && (tr.flush != SUCCESS ==> r.status == tr.flush && r.win == w.(locks := w.locks - {target}))
              && (tr.flush == SUCCESS && tr.rankMap != SUCCESS ==>
                    r.status == tr.rankMap && r.win == w.(locks := w.locks - {target}))
              // otherwise the count drops and the epoch closes with the last lock
              && (tr.flush == SUCCESS && tr.rankMap == SUCCESS ==>
                    && r.status == (if w.locks[target].nocheck then SUCCESS else release)
                    && r.win == w.(locks := w.locks - {target}, lockCount := w.lockCount - 1,
                                   access := if w.lockCount == 1 then NoEpoch else PassiveEpoch))
  {
    if w.access != PassiveEpoch || target !in w.locks then Outcome(ERR_RMA_SYNC, w, [])
    else
      var rec := w.locks[target];
      var removed := w.(locks := w.locks - {target});
      var trace := UnlockTrace(target, rec, tr);
      if tr.flush != SUCCESS then Outcome(tr.flush, removed, trace)
      else if tr.rankMap != SUCCESS then Outcome(tr.rankMap, removed, trace)
      else
        var ret := if rec.nocheck then SUCCESS else release;
        var count := w.lockCount - 1;
        Outcome(ret, removed.(lockCount := count, access := if count == 0 then NoEpoch else w.access), trace)
  }

  /** `unlock` that keeps the record when a flush or the rank map fails, so
      that the unlock can be retried. */
  function UnlockFixed(w: Window, target: int, tr: Transport, release: Status): (r: Outcome)
    ensures tr.flush != SUCCESS || tr.rankMap != SUCCESS ==> r.win == w
    ensures tr.flush == SUCCESS && tr.rankMap == SUCCESS ==> r == Unlock(w, target, tr, release)
  {
    var r := Unlock(w, target, tr, release);
    if tr.flush != SUCCESS || tr.rankMap != SUCCESS then r.(win := w) else r
  }

  // ---------------------------------------------------------------------
  // Lock-all and unlock-all
  // ---------------------------------------------------------------------

  /** Shared acquisitions of ranks `0..n-1`, in rank order. */
  function Acquires(n: nat): (t: seq<Event>)
    ensures |t| == n && forall i :: 0 <= i < n ==> t[i] == Acquire(i, SharedLock)
  {
    seq(n, i => Acquire(i, SharedLock))
  }

  /** Shared releases of ranks `0..n-1`, in rank order. */
  function Releases(n: nat): (t: seq<Event>)
    ensures |t| == n && forall i :: 0 <= i < n ==> t[i] == Release(i, SharedLock)
  {
    seq(n, i => Release(i, SharedLock))
  }

  /** The first rank below `n` whose acquisition failed, or `n`. */
  function FirstFailure(acquire: int -> Status, n: nat): (f: nat)
    ensures f <= n
    ensures forall i :: 0 <= i < f ==> acquire(i) == SUCCESS
    ensures f < n ==> acquire(f) != SUCCESS
  {
    if n == 0 then 0
    else
      var f := FirstFailure(acquire, n - 1);
      if f < n - 1 then f
      else if acquire(n - 1) == SUCCESS then n
      else n - 1
  }

  predicate LockAllRefused(w: Window)
  {
    w.noLocks || (w.access != NoEpoch && w.access != FenceEpoch)
  }

  /** `ompi_osc_ucx_lock_all`, as written; `acquire(i)` is what the shared
      acquisition of rank `i` returned. */
  function LockAll(w: Window, nocheck: bool, acquire: int -> Status): (r: Outcome)
    ensures LockAllRefused(w) ==> r == Outcome(ERR_RMA_SYNC, w, [])
    ensures !LockAllRefused(w) ==>
              // the epoch is entered even if an acquisition then fails
              && r.win == w.(access := PassiveAllEpoch, lockAllNocheck := nocheck)
              && (nocheck ==> r.status == SUCCESS && r.trace == [])
              && (!nocheck ==>
                    var f := FirstFailure(acquire, w.commSize);
                    && (r.status == SUCCESS <==> f == w.commSize)
                    && (f == w.commSize ==> r.trace == Acquires(w.commSize))
                    // on a failure at rank f the ranks before it are released
                    && (f < w.commSize ==> r.status == acquire(f) && r.trace == Acquires(f + 1) + Releases(f)))
  {
    if LockAllRefused(w) then Outcome(ERR_RMA_SYNC, w, [])
    else
      var entered := w.(access := PassiveAllEpoch, lockAllNocheck := nocheck);
      if nocheck then Outcome(SUCCESS, entered, [])
      else
        var f := FirstFailure(acquire, w.commSize);
        if f == w.commSize then Outcome(SUCCESS, entered, Acquires(w.commSize))
        else Outcome(acquire(f), entered, Acquires(f + 1) + Releases(f))
  }

  /** `lock_all` that leaves the epoch where it was when an acquisition fails. */
  function LockAllFixed(w: Window, nocheck: bool, acquire: int -> Status): (r: Outcome)
    ensures r.status != SUCCESS ==> r.win == w
    ensures r.status == SUCCESS ==> r.win == w.(access := PassiveAllEpoch, lockAllNocheck := nocheck)
    ensures r.trace == LockAll(w, nocheck, acquire).trace
  {
    var r := LockAll(w, nocheck, acquire);
    if r.status == SUCCESS then r else r.(win := w)
  }

  function Pow2(k: nat): (p: nat)
    ensures p >= 1
  {
    if k == 0 then 1 else 2 * Pow2(k - 1)
  }

  /** Bitwise OR of the low `k` bits of two naturals. */
  function OrBits(a: nat, b: nat, k: nat): (r: nat)
    requires a < Pow2(k) && b < Pow2(k)
    ensures r < Pow2(k)
    ensures r == 0 <==> a == 0 && b == 0
  {
    if k == 0 then 0
    else 2 * OrBits(a / 2, b / 2, k - 1) + (if a % 2 == 1 || b % 2 == 1 then 1 else 0)
  }

  /** `a | b` on C `int`s: OR of the two's-complement bit patterns. */
  function OrStatus(a: Status, b: Status): (r: Status)
    ensures r == SUCCESS <==> a == SUCCESS && b == SUCCESS
  {
    assert Pow2(32) == 0x1_0000_0000 by {
      assert Pow2(8) == 0x100;
      assert Pow2(16) == 0x1_0000;
      assert Pow2(24) == 0x100_0000;
    }
    var ua := if a >= 0 then a else a + 0x1_0000_0000;
    var ub := if b >= 0 then b else b + 0x1_0000_0000;
    var u := OrBits(ua, ub, 32);
    if u < 0x8000_0000 then u else u - 0x1_0000_0000
  }

  /** `ret |= end_shared(i)` over ranks `0..n-1`, starting from SUCCESS. */
  function OrAll(release: int -> Status, n: nat): (r: Status)
    ensures r == SUCCESS <==> forall i :: 0 <= i < n ==> release(i) == SUCCESS
  {
    if n == 0 then SUCCESS
    else
      var r := OrStatus(OrAll(release, n - 1), release(n - 1));
      assert r == SUCCESS <==> OrAll(release, n - 1) == SUCCESS && release(n - 1) == SUCCESS;
      r
  }

  /** The calls `unlock_all` issues once in the epoch: the fabric worker
      flush; then the host-channel worker flush and, if the rank map is
      available, the offload worker flush and the shared releases of every
      rank unless the epoch was opened with NOCHECK. */
  function UnlockAllTrace(w: Window, tr: Transport): (t: seq<Event>)
    ensures |t| > 0 && t[0] == FabricWorkerFlush
    ensures tr.flush == SUCCESS && tr.rankMap == SUCCESS && !w.lockAllNocheck ==>
              |t| >= 3 && t[3..] == Releases(w.commSize) && t[..3] == [FabricWorkerFlush, ChannelWorkerFlush, OffloadWorkerFlush]
    ensures forall i :: 0 <= i < |t| ==> !t[i].Acquire? && (t[i].Release? ==> 3 <= i)
  {
    if tr.flush != SUCCESS then [FabricWorkerFlush]
    else if tr.rankMap != SUCCESS then [FabricWorkerFlush, ChannelWorkerFlush]
    else
      var t := [FabricWorkerFlush, ChannelWorkerFlush, OffloadWorkerFlush]
               + (if w.lockAllNocheck then [] else Releases(w.commSize));
      assert t[..3] == [FabricWorkerFlush, ChannelWorkerFlush, OffloadWorkerFlush];
      t
  }

  /** `ompi_osc_ucx_unlock_all`; `release(i)` is what the shared release of
      rank `i` returned.  The statuses are combined with `|`, as the code
      does, so the result is SUCCESS exactly when every release succeeded. */
  function UnlockAll(w: Window, tr: Transport, release: int -> Status): (r: Outcome)
    ensures w.access != PassiveAllEpoch ==> r == Outcome(ERR_RMA_SYNC, w, [])
    ensures w.access == PassiveAllEpoch ==>
              && r.trace == UnlockAllTrace(w, tr)
              && (tr.flush != SUCCESS ==> r.status == tr.flush && r.win == w)
              && (tr.flush == SUCCESS && tr.rankMap != SUCCESS ==> r.status == tr.rankMap && r.win == w)
              && (tr.flush == SUCCESS && tr.rankMap == SUCCESS ==>
                    && r.win == w.(access := NoEpoch)
                    && (r.status == SUCCESS <==>
                          w.lockAllNocheck || forall i :: 0 <= i < w.commSize ==> release(i) == SUCCESS))
  {
    if w.access != PassiveAllEpoch then Outcome(ERR_RMA_SYNC, w, [])
    else if tr.flush != SUCCESS then Outcome(tr.flush, w, UnlockAllTrace(w, tr))
    else if tr.rankMap != SUCCESS then Outcome(tr.rankMap, w, UnlockAllTrace(w, tr))
    else
      var ret := if w.lockAllNocheck then SUCCESS else OrAll(release, w.commSize);
      Outcome(ret, w.(access := NoEpoch), UnlockAllTrace(w, tr))
  }

  // ---------------------------------------------------------------------
  // Sync and flushes
  // ---------------------------------------------------------------------

  /** `ompi_osc_ucx_sync`: a memory fence inside a passive epoch. */
  function Sync(w: Window, fence: Status): (r: Outcome)
    ensures r.win == w
    ensures !InPassive(w) ==> r.status == ERR_RMA_SYNC && r.trace == []
    ensures InPassive(w) ==> r.status == fence && r.trace == [MemFence]
  {
    if !InPassive(w) then Outcome(ERR_RMA_SYNC, w, []) else Outcome(fence, w, [MemFence])
  }

  /** `ompi_osc_ucx_flush`: fabric endpoint flush, then the offload endpoint
      flush, then the host-channel flush when the target shares this
      process's offload endpoint.  Later failures are only asserted on, so the
      result is SUCCESS once the rank map is obtained. */
  function Flush(w: Window, target: int, tr: Transport): (r: Outcome)
    ensures r.win == w
    ensures !InPassive(w) ==> r.status == ERR_RMA_SYNC && r.trace == []
    ensures InPassive(w) ==>
              && |r.trace| > 0 && r.trace[0] == FabricEpFlush(target)
              && (r.status == SUCCESS <==> tr.flush == SUCCESS && tr.rankMap == SUCCESS)
              && (r.status != SUCCESS ==> r.status == (if tr.flush != SUCCESS then tr.flush else tr.rankMap))
              && (OffloadEpFlush(target) in r.trace <==> r.status == SUCCESS)
              && (ChannelEpFlush in r.trace <==> r.status == SUCCESS && target in tr.colocated)
  {
    if !InPassive(w) then Outcome(ERR_RMA_SYNC, w, [])
    else if tr.flush != SUCCESS then Outcome(tr.flush, w, [FabricEpFlush(target)])
    else if tr.rankMap != SUCCESS then Outcome(tr.rankMap, w, [FabricEpFlush(target)])
    else
      var local := if target in tr.colocated then [ChannelEpFlush] else [];
      Outcome(SUCCESS, w, [FabricEpFlush(target), OffloadEpFlush(target)] + local)
  }

  /** `ompi_osc_ucx_flush_all`: fabric worker flush, host-channel worker
      flush, offload worker flush. */
  function FlushAll(w: Window, tr: Transport): (r: Outcome)
    ensures r.win == w
    ensures !InPassive(w) ==> r.status == ERR_RMA_SYNC && r.trace == []
    ensures InPassive(w) ==>
              && |r.trace| > 0 && r.trace[0] == FabricWorkerFlush
              && (r.status == SUCCESS <==> tr.flush == SUCCESS && tr.rankMap == SUCCESS)
              && (ChannelWorkerFlush in r.trace <==> tr.flush == SUCCESS)
              && (OffloadWorkerFlush in r.trace <==> r.status == SUCCESS)
  {
    if !InPassive(w) then Outcome(ERR_RMA_SYNC, w, [])
    else if tr.flush != SUCCESS then Outcome(tr.flush, w, [FabricWorkerFlush])
    else if tr.rankMap != SUCCESS then Outcome(tr.rankMap, w, [FabricWorkerFlush, ChannelWorkerFlush])
    else Outcome(SUCCESS, w, [FabricWorkerFlush, ChannelWorkerFlush, OffloadWorkerFlush])
  }

  /** `ompi_osc_ucx_flush_local`: local completion is not implemented, so
      this is a full flush. */
  function FlushLocal(w: Window, target: int, tr: Transport): (r: Outcome)
    ensures r == Flush(w, target, tr)
    ensures r.win == w && (!InPassive(w) ==> r.status == ERR_RMA_SYNC)
  {
    Flush(w, target, tr)
  }

  /** `ompi_osc_ucx_flush_local_all`: a full flush of every target. */
  function FlushLocalAll(w: Window, tr: Transport): (r: Outcome)
    ensures r == FlushAll(w, tr)
    ensures r.win == w && (!InPassive(w) ==> r.status == ERR_RMA_SYNC)
  {
    FlushAll(w, tr)
  }

  // ---------------------------------------------------------------------
  // The epoch invariant
  // ---------------------------------------------------------------------

  /** One synchronisation call with the answers it receives. */
  datatype Call =
    | LockCall(kind: LockType, target: int, nocheck: bool, acquire: Status)
    | UnlockCall(target: int, tr: Transport, release: Status)
    | LockAllCall(nocheck: bool, acquireAll: int -> Status)
    | UnlockAllCall(tr: Transport, releaseAll: int -> Status)
    | SyncCall(fence: Status)
    | FlushCall(target: int, tr: Transport)
    | FlushAllCall(tr: Transport)

  /** The repaired calls. */
  function Step(w: Window, c: Call): Outcome
  {
    match c
    case LockCall(kind, target, nocheck, acquire) => LockFixed(w, kind, target, nocheck, acquire)
    case UnlockCall(target, tr, release) => UnlockFixed(w, target, tr, release)
    case LockAllCall(nocheck, acquire) => LockAllFixed(w, nocheck, acquire)
    case UnlockAllCall(tr, release) => UnlockAll(w, tr, release)
    case SyncCall(fence) => Sync(w, fence)
    case FlushCall(target, tr) => Flush(w, target, tr)
    case FlushAllCall(tr) => FlushAll(w, tr)
  }

  function Run(w: Window, calls: seq<Call>): Window
    decreases |calls|
  {
    if |calls| == 0 then w else Run(Step(w, calls[0]).win, calls[1..])
  }

  /** The count equals the number of records, and the per-target epoch is
      open exactly while some lock is outstanding. */
  predicate EpochInv(w: Window)
  {
    && w.lockCount == |w.locks|
    && (w.access == PassiveEpoch <==> w.lockCount > 0)
  }

  function Fresh(commSize: nat, noLocks: bool): (w: Window)
    ensures EpochInv(w)
  {
    Window(NoEpoch, 0, map[], false, noLocks, commSize)
  }

  lemma StepKeepsInv(w: Window, c: Call)
    requires EpochInv(w)
    ensures EpochInv(Step(w, c).win)
  {
    match c
    case LockCall(kind, target, nocheck, acquire) => LockKeepsInv(w, kind, target, nocheck, acquire);
    case UnlockCall(target, tr, release) => UnlockKeepsInv(w, target, tr, release);
    case _ => OtherCallsKeepInv(w, c);
  }

  lemma LockKeepsInv(w: Window, kind: LockType, target: int, nocheck: bool, acquire: Status)
    requires EpochInv(w)
    ensures EpochInv(LockFixed(w, kind, target, nocheck, acquire).win)
  {
    var r := LockFixed(w, kind, target, nocheck, acquire);
    if r.status == SUCCESS {
      assert target !in w.locks;
      assert |w.locks[target := LockRecord(kind, nocheck)]| == |w.locks| + 1;
    }
  }

  lemma UnlockKeepsInv(w: Window, target: int, tr: Transport, release: Status)
    requires EpochInv(w)
    ensures EpochInv(UnlockFixed(w, target, tr, release).win)
  {
    if w.access == PassiveEpoch && target in w.locks && tr.flush == SUCCESS && tr.rankMap == SUCCESS {
      assert |w.locks - {target}| == |w.locks| - 1;
    }
  }

  lemma OtherCallsKeepInv(w: Window, c: Call)
    requires EpochInv(w) && !c.LockCall? && !c.UnlockCall?
    ensures EpochInv(Step(w, c).win)
  {
  }

  lemma {:induction false} RunKeepsInv(w: Window, calls: seq<Call>)
    requires EpochInv(w)
    ensures EpochInv(Run(w, calls))
    decreases |calls|
  {
    if |calls| > 0 {
      StepKeepsInv(w, calls[0]);
      RunKeepsInv(Step(w, calls[0]).win, calls[1..]);
    }
  }

  /** Under the invariant, when every record names a rank of the
      communicator, the count never exceeds the communicator size (the
      condition `lock` asserts). */
  lemma LockCountBounded(w: Window)
    requires EpochInv(w)
    requires forall t :: t in w.locks ==> 0 <= t < w.commSize
    ensures w.lockCount <= w.commSize
  {
    KeysBounded(w.locks.Keys, w.commSize);
  }

  lemma {:induction false} KeysBounded(s: set<int>, n: nat)
    requires forall t :: t in s ==> 0 <= t < n
    ensures |s| <= n
    decreases n
  {
    if n == 0 {
      assert forall t :: t !in s;
      assert s == {};
    } else {
      KeysBounded(s - {n - 1}, n - 1);
      assert |s| <= |s - {n - 1}| + 1;
    }
  }

  /** A lock followed by its unlock, both succeeding, leaves the window as it
      was, from no epoch or from inside the per-target epoch. */
  lemma LockUnlockRestores(w: Window, kind: LockType, target: int, nocheck: bool, tr: Transport)
    requires EpochInv(w) && !LockRefused(w, target) && w.access != FenceEpoch
    requires tr.flush == SUCCESS && tr.rankMap == SUCCESS
    ensures var l := LockFixed(w, kind, target, nocheck, SUCCESS);
            var u := UnlockFixed(l.win, target, tr, SUCCESS);
            l.status == SUCCESS && u.status == SUCCESS && u.win == w
  {
    var l := LockFixed(w, kind, target, nocheck, SUCCESS);
    assert target !in w.locks;
    assert l.win.locks - {target} == w.locks;
  }

  /** Across a checked lock and its unlock the lock word is taken first, the
      target endpoint is flushed next, and the word is released last. */
  lemma LockUnlockOrders(w: Window, kind: LockType, target: int, tr: Transport)
    requires w.access == NoEpoch && w.lockCount == 0 && !w.noLocks
    requires tr.flush == SUCCESS && tr.rankMap == SUCCESS
    ensures var l := Lock(w, kind, target, false, SUCCESS);
            var t := l.trace + Unlock(l.win, target, tr, SUCCESS).trace;
            && Precedes(t, Acquire(target, kind), FabricEpFlush(target))
            && Precedes(t, FabricEpFlush(target), Release(target, kind))
            && Release(target, kind) in t
  {
    var l := Lock(w, kind, target, false, SUCCESS);
    var u := UnlockTrace(target, LockRecord(kind, false), tr);
    assert Unlock(l.win, target, tr, SUCCESS).trace == u;
    var t := [Acquire(target, kind)] + u;
    PrecedesAfter([Acquire(target, kind)], u, FabricEpFlush(target), Release(target, kind));
    assert t[0] == Acquire(target, kind) && t[1] == FabricEpFlush(target);
    assert IndexOf(t, Acquire(target, kind)) == 0;
    assert IndexOf(t, FabricEpFlush(target)) == 1;
  }

  /** A successful lock-all followed by a successful unlock-all releases each
      rank once, after every acquisition, and closes the epoch. */
  lemma LockAllUnlockAllRoundTrip(w: Window, tr: Transport)
    requires !LockAllRefused(w) && tr.flush == SUCCESS && tr.rankMap == SUCCESS
    ensures var l := LockAll(w, false, _ => SUCCESS);
            var u := UnlockAll(l.win, tr, _ => SUCCESS);
            && l.status == SUCCESS && u.status == SUCCESS
            && u.win == w.(access := NoEpoch, lockAllNocheck := false)
            && l.trace == Acquires(w.commSize) && u.trace[3..] == Releases(w.commSize)
  {
  }
}

/** Inputs on which the calls as written leave the window inconsistent,
    next to the repaired calls on the same inputs. */
module PassiveTargetFindings {
  import opened Common
  import opened PassiveTarget

  function Ok(): Transport
  {
    Transport(SUCCESS, SUCCESS, {})
  }

  /** A lock whose acquisition fails leaves the count at 1 with no record and
      no epoch.  A later lock and unlock of another target then leave the
      window in the per-target epoch with no outstanding lock, and lock-all is
      refused from then on.  The repaired lock leaves nothing behind. */
  lemma FailedLockStrandsEpoch()
    ensures var w0 := Fresh(2, false);
            var w1 := Lock(w0, ExclusiveLock, 1, false, ERROR).win;
            var w2 := Lock(w1, SharedLock, 0, false, SUCCESS).win;
            var w3 := Unlock(w2, 0, Ok(), SUCCESS).win;
            && w1.access == NoEpoch && w1.lockCount == 1 && w1.locks == map[]
            && w3.access == PassiveEpoch && w3.locks == map[] && !EpochInv(w3)
            && LockAll(w3, false, _ => SUCCESS).status == ERR_RMA_SYNC
            && LockFixed(w0, ExclusiveLock, 1, false, ERROR).win == w0
  {
  }

  /** Three failed locks on a communicator of two push the count past the
      communicator size, which `lock` asserts it never exceeds. */
  lemma FailedLocksExceedCommSize()
    ensures var w0 := Fresh(2, false);
            var w3 := Lock(Lock(Lock(w0, SharedLock, 0, false, ERROR).win, SharedLock, 0, false, ERROR).win,
                           SharedLock, 0, false, ERROR).win;
            w3.lockCount == 3 > w3.commSize
  {
  }

  /** A lock-all failing at rank 1 releases rank 0 but stays in the
      all-targets epoch; the unlock-all then allowed releases rank 0 a second
      time.  The repaired lock-all returns to no epoch and the unlock-all is
      refused. */
  lemma FailedLockAllReleasesTwice()
    ensures var w0 := Fresh(2, false);
            var acquire := (i: int) => if i == 1 then ERROR else SUCCESS;
            var l := LockAll(w0, false, acquire);
            var u := UnlockAll(l.win, Ok(), _ => SUCCESS);
            && l.status == ERROR && l.win.access == PassiveAllEpoch
            && l.trace == [Acquire(0, SharedLock), Acquire(1, SharedLock), Release(0, SharedLock)]
            && u.status == SUCCESS
            && u.trace[3] == Release(0, SharedLock)
            && UnlockAll(LockAllFixed(w0, false, acquire).win, Ok(), _ => SUCCESS).status == ERR_RMA_SYNC
  {
    var acquire := (i: int) => if i == 1 then ERROR else SUCCESS;
    assert FirstFailure(acquire, 2) == 1;
    assert Acquires(2) == [Acquire(0, SharedLock), Acquire(1, SharedLock)];
    assert Releases(1) == [Release(0, SharedLock)];
  }

  /** An unlock whose flush fails drops the record but keeps the count and
      never releases the lock word; a retry is refused, so the target stays
      locked and the epoch open.  The repaired unlock keeps the record and
      the retry releases the lock. */
  lemma FailedFlushStrandsLock()
    ensures var w1 := Lock(Fresh(2, false), ExclusiveLock, 1, false, SUCCESS).win;
            var bad := Transport(ERROR, SUCCESS, {});
            var u := Unlock(w1, 1, bad, SUCCESS);
            && u.status == ERROR && Release(1, ExclusiveLock) !in u.trace
            && u.win.locks == map[] && u.win.lockCount == 1 && u.win.access == PassiveEpoch
            && Unlock(u.win, 1, Ok(), SUCCESS).status == ERR_RMA_SYNC
            && var f := UnlockFixed(w1, 1, bad, SUCCESS);
               && f.win == w1
               && UnlockFixed(f.win, 1, Ok(), SUCCESS).win == Fresh(2, false)
  {
    var w1 := Lock(Fresh(2, false), ExclusiveLock, 1, false, SUCCESS).win;
    assert w1.locks - {1} == map[];
  }
}
