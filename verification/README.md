# One-sided window synchronisation of the UCX RMA component

This project models, in Dafny, the synchronisation core of Open MPI's UCX
one-sided ("osc") component, in the variant that forwards part of its work to
an offload unit (DPU). It also models the process-name helpers of
`opal/util/proc.c`. The model covers six parts:

- **Lock word** (`lock_word.dfy`, module `LockWord`). Each peer exposes a
  64-bit word. Shared and exclusive locks are taken on it with
  compare-and-swap and fetch-and-add only. A second word, the accumulate
  lock, guards the dynamic-region table.
  - Single rounds of `start_shared`, `start_exclusive`, `end_shared` and
    `end_exclusive` are pure transitions of the word.
  - The acquisition spins are folds over the replies the peer gave.
  - A model of many processes on one word proves mutual exclusion from the
    encoding `word == EXCLUSIVE * owners + increments`.
- **Region table** (`region_table.dfy`, module `RegionTable`). This is the
  dynamic-window table of `osc_ucx_component.c`: the replicated array of
  `{base, size}` slots, the local reference counts, and the live count. It
  covers the recursive binary search, `win_attach` and `win_detach` as
  written, repaired versions of both, and the sortedness and reference
  invariant for the repaired versions.
- **Access epochs** (`passive_target.dfy`, module `PassiveTarget`). This is
  the state machine of `osc_ucx_passive_target.c`: lock, unlock, lock-all,
  unlock-all, sync and the flushes.
  - The calls made on the fabric, the offload unit and the host channel are
    appended to an event trace, so orderings can be stated (e.g. "flush
    before release").
  - The epoch invariant is proved for the repaired calls.
- **Window set-up** (`window_setup.dfy`, module `WindowSetup`). These are the
  pure pieces of `component_select` and `exchange_len_info_v1`:
  - the uniform-displacement-unit test;
  - the blob displacements;
  - page rounding and the layout of a shared segment;
  - the window count that keeps the progress callback registered.
- **Process names** (`proc.dfy`, module `Proc`): the name comparator, the
  swap of the current local process object with its reference counting, and
  the local-only hostname lookup.
- **Shared vocabulary** (`common.dfy`, module `Common`): 64-bit wrap-around,
  status codes, lock kinds, and the trace events with a "precedes" relation.

Transports and remote peers are not executed. What they answer is passed in
as a parameter: a status, the value a remote atomic fetched, or the set of
targets that share this process's offload endpoint. C `assert`s are modelled
as in a release build, where they do nothing. Where an asserted condition
matters, it is stated as a lemma: one that holds, or a finding that shows it
can fail.

In three places the code does not do what the rest of it relies on:
- a new region should start with one reference: detach removes a region
  when its count drops to zero, and window free asserts that every live slot
  holds at least one reference (`osc_ucx_component.c:1349`);
- a failed attach, lock or lock-all should leave no state behind, as their
  other error paths do, returning before anything changes;
- detach should act only on an attached region, the live slots
  `0..count-1` that attach searches.

The model follows the code. Each departure is a row under "Findings", next to
a repaired definition that proves the intended behaviour.

The table invariant proved for the repaired operations is that the live
regions are sorted by base and each holds a reference. Live regions may
overlap: attach asks only whether one region contains the new range, so
[100,110) and then [105,120) are both attached
(`RegionTableFindings.AttachAllowsOverlap`). The code neither prevents nor
relies on disjointness, and neither does the model. A related case is
left without a repair: `start_shared` leaves its increment on the word when
the undo post fails, which `LockWord.SharedRound` states.

## Model

| member | source | states |
|---|---|---|
| `LockWord.ExclusiveRound` | ompi/mca/osc/ucx/osc_ucx_passive_target.c:57-75 | One compare-and-swap round acquires exactly when the transport succeeds and the word is UNLOCKED, and then leaves EXCLUSIVE. Otherwise the word is untouched, and a transport error is reported as a failure. |
| `LockWord.SharedRound` | ompi/mca/osc/ucx/osc_ucx_passive_target.c:21-49 | One fetch-and-add round acquires exactly when the word is below EXCLUSIVE, adding one. A round that saw an exclusive holder undoes its increment. If that undo fails, the increment stays on the word and the undo's status is returned. |
| `LockWord.EndShared` | ompi/mca/osc/ucx/osc_ucx_passive_target.c:51-55 | A posted release takes one shared holder off the word. A failed post leaves the word as it was. |
| `LockWord.EndExclusive` | ompi/mca/osc/ucx/osc_ucx_passive_target.c:77-82 | A posted release subtracts EXCLUSIVE from an owned word. A failed post leaves it as it was. |
| `LockWord.ExclusiveRoundTrip` | ompi/mca/osc/ucx/osc_ucx_passive_target.c:57-82 | An exclusive acquisition followed by its release restores the word, which relies on UNLOCKED being 0. |
| `LockWord.SharedRoundTrip` | ompi/mca/osc/ucx/osc_ucx_passive_target.c:21-55 | A shared acquisition followed by its release restores the word. |
| `LockWord.StartExclusive` | ompi/mca/osc/ucx/osc_ucx_passive_target.c:57-75 | The spin returns at the first round that either saw UNLOCKED (success) or failed in transport (that status). Every earlier round saw the word taken. It spins on exactly when every reply shows the word taken. |
| `LockWord.StartShared` | ompi/mca/osc/ucx/osc_ucx_passive_target.c:21-49 | The spin returns at the first round that saw no exclusive holder (success) or hit an error. The error is the fetch's status when the fetch failed; otherwise the fetch saw an exclusive holder and the error is the undo's status. Every earlier round was blocked and undone. |
| `LockWord.NeedAccLock` | ompi/mca/osc/ucx/osc_ucx_component.c:1079-1087 | The accumulate lock is needed exactly when this process holds no exclusive lock record for the target. |
| `LockWord.StateLock` | ompi/mca/osc/ucx/osc_ucx_component.c:1089-1121 | When the lock is neither forced nor needed, nothing is issued and it is not acquired. Otherwise the spin stops at the first reply that does not find the word taken, and keeps spinning exactly when every reply does. It is acquired exactly when that reply saw UNLOCKED. A transport error becomes ERROR with `acquired` false. |
| `LockWord.StateUnlock` | ompi/mca/osc/ucx/osc_ucx_component.c:1123-1159 | The accumulate lock is released only after the memory fence, and only if the fence succeeded. Without the lock, a buffer is freed only after the endpoint flush. The status is SUCCESS exactly when every call issued succeeded. |
| `LockWord.WordDecodes` | ompi/mca/osc/ucx/osc_ucx_passive_target.c:34 | Under the encoding invariant the word is below EXCLUSIVE exactly when nobody owns it, and it always fits a signed 64-bit value, as `start_shared` asserts. |
| `LockWord.StepPreservesInv` | ompi/mca/osc/ucx/osc_ucx_passive_target.c:21-82 | Every atomic step of acquiring, undoing and releasing keeps the invariant: the word counts EXCLUSIVE per owner plus one per increment, there is at most one owner, and an owner excludes shared holders. |
| `LockWord.RunPreservesInv` | ompi/mca/osc/ucx/osc_ucx_passive_target.c:21-82 | Any interleaving of such steps keeps the invariant. |
| `LockWord.MutualExclusion` | ompi/mca/osc/ucx/osc_ucx_passive_target.c:21-82 | While one process owns the word, no other process owns it or holds it shared. |
| `LockWord.ScheduleIsExclusive` | ompi/mca/osc/ucx/osc_ucx_passive_target.c:21-82 | Mutual exclusion holds after every schedule that starts from all processes idle. |
| `LockWord.AccStepPreservesInv` | ompi/mca/osc/ucx/osc_ucx_component.c:1098-1144 | On the accumulate lock, which is driven only by compare-and-swap and swap, the steps keep the invariant and no shared holder appears. |
| `LockWord.AccSwapSeesExclusive` | ompi/mca/osc/ucx/osc_ucx_component.c:1140-1144 | The owner's releasing swap fetches EXCLUSIVE, as the code asserts, and leaves the word UNLOCKED. |
| `RegionTable.Step` | ompi/mca/osc/ucx/osc_ucx_component.c:1058-1077 | One probe either ends or narrows the range past the probed slot. It goes below a slot whose base is above the query, and above a slot whose base is at most the query. A hit is the probed slot, starting at or below the query base and covering the query unless the slot has size 1. A miss happens only on an empty range, at its lower bound. The query length is kept unless the probed slot has size 1. |
| `RegionTable.Find` | ompi/mca/osc/ucx/osc_ucx_component.c:1055-1078 | A hit lies in the searched range, and a miss's insertion point lies in `[min, max+1]`. The search reads past the array only when the range ends at the array's length. |
| `RegionTable.FindHitCovers` | ompi/mca/osc/ucx/osc_ucx_component.c:1058-1073 | A hit starts at or below the query base. It covers the whole query, or, once a region of size 1 was probed, its range reaches the query base, which may equal its end. If no region in the range has size 1, it covers the whole query: base and end, in 64-bit arithmetic. |
| `RegionTable.FindMissNeighbours` | ompi/mca/osc/ucx/osc_ucx_component.c:1064-1077 | A miss's insertion point comes after a base no greater than the query's and before one above it. |
| `RegionTable.FindMissSplits` | ompi/mca/osc/ucx/osc_ucx_component.c:1064-1077 | On a sorted range, the insertion point of a miss splits it: every base before it is at most the query base, and every base from it on is above. |
| `RegionTable.LivePosition` | ompi/mca/osc/ucx/osc_ucx_component.c:1182-1201 | The search that attach runs over the live slots never reads past them. A hit is a live slot, and the insertion point is at most the count. |
| `RegionTable.ShiftRight` | ompi/mca/osc/ucx/osc_ucx_component.c:1194-1199 | The insertion memmove: slots from `k` move one to the right, slot `k` keeps its old content, and the last slot's content drops off. |
| `RegionTable.ShiftLeft` | ompi/mca/osc/ucx/osc_ucx_component.c:1282-1287 | The removal memmove: slots after `k` move one to the left, and the last slot keeps its content. |
| `RegionTable.Moved` | ompi/mca/osc/ucx/osc_ucx_component.c:1182-1202 | Both arrays move right from the insertion point only when the table is not empty. The count does not change. |
| `RegionTable.Inserted` | ompi/mca/osc/ucx/osc_ucx_component.c:1232-1240 | After insertion, the live regions are the old ones with the new region at the insertion point. The count grows by one, and the other counts keep their order. |
| `RegionTable.Removed` | ompi/mca/osc/ucx/osc_ucx_component.c:1282-1289 | Removing a live slot leaves the other live regions and counts in order, with one fewer slot. Removing from an empty table wraps the 64-bit count to its maximum. |
| `RegionTable.Attach` | ompi/mca/osc/ucx/osc_ucx_component.c:1161-1243 | A full table is refused with TEMP_OUT_OF_RESOURCE before the lock is taken, leaving the table unchanged. A failed accumulate lock returns ERROR with the table unchanged. A covered range only gains a reference. A new range is registered; on success it is inserted with the stale count of its slot plus one. On a failed registration the arrays stay shifted. |
| `RegionTable.Detach` | ompi/mca/osc/ucx/osc_ucx_component.c:1245-1293 | The search covers slots `0..count`. Only a detach from an empty table can leave the table ill-formed, because the count wraps. A hit with one reference is deregistered and removed, and any other hit loses a reference. A miss changes nothing. The status is that of the lock release. |
| `RegionTable.AttachFixed` | ompi/mca/osc/ucx/osc_ucx_component.c:1161-1243 | The table changes size only through a successful registration of a missed range, which inserts it with exactly one reference. A failed registration leaves the table as it was. |
| `RegionTable.DetachFixed` | ompi/mca/osc/ucx/osc_ucx_component.c:1245-1293 | Only an address inside a live region changes the table, and then with the same decrement or removal as the original. |
| `RegionTable.TableUpdatesFenceBeforeRelease` | ompi/mca/osc/ucx/osc_ucx_component.c:1131-1144 | Both attach and detach fence the window memory before the accumulate lock is released. |
| `RegionTable.InsertKeepsSorted` | ompi/mca/osc/ucx/osc_ucx_component.c:1192-1201 | Inserting at a point that splits a sorted sequence keeps it sorted by base. |
| `RegionTable.RemoveKeepsSorted` | ompi/mca/osc/ucx/osc_ucx_component.c:1282-1289 | Removing a slot keeps the live regions sorted. |
| `RegionTable.InsertKeepsReferenced` | ompi/mca/osc/ucx/osc_ucx_component.c:1239-1240 | Inserting with a positive count keeps every live slot referenced. |
| `RegionTable.RemoveKeepsReferenced` | ompi/mca/osc/ucx/osc_ucx_component.c:1270-1289 | Removing a slot keeps every live slot referenced. |
| `RegionTable.MissInsertKeepsSorted` | ompi/mca/osc/ucx/osc_ucx_component.c:1182-1240 | Inserting a new region at the insertion point of a miss keeps the live regions sorted, whatever its count. |
| `RegionTable.MovedKeepsSorted` | ompi/mca/osc/ucx/osc_ucx_component.c:1192-1199 | The memmoves left behind by a failed registration keep the live regions sorted. |
| `RegionTable.AttachKeepsSorted` | ompi/mca/osc/ucx/osc_ucx_component.c:1161-1243 | Attach as written keeps the live regions sorted by base on every path, including a failed registration. |
| `RegionTable.MissInsertKeepsGood` | ompi/mca/osc/ucx/osc_ucx_component.c:1182-1240 | Inserting a new region with one reference at the insertion point of a miss keeps the table sorted and referenced. |
| `RegionTable.AttachFixedKeepsGood` | ompi/mca/osc/ucx/osc_ucx_component.c:1161-1243 | The repaired attach keeps the live regions sorted by base and each one referenced. |
| `RegionTable.DetachFixedKeepsGood` | ompi/mca/osc/ucx/osc_ucx_component.c:1245-1293 | The repaired detach keeps the live regions sorted by base and each one referenced. |
| `RegionTableFindings.AttachCountsStaleReference` | ompi/mca/osc/ucx/osc_ucx_component.c:1194-1239 | Attaching [100,110) and then [50,60) gives the second region two references. Its single detach then leaves it attached. |
| `RegionTableFindings.AttachFixedCountsOneReference` | ompi/mca/osc/ucx/osc_ucx_component.c:1194-1239 | With the repaired attach the same region has one reference, and its detach removes it. |
| `RegionTableFindings.FailedAttachDropsRegion` | ompi/mca/osc/ucx/osc_ucx_component.c:1194-1214 | A failed registration below two live regions leaves the first region twice in the live slots and the second one gone. The repaired attach leaves the table unchanged. |
| `RegionTableFindings.UnitRegionStretchesSearch` | ompi/mca/osc/ucx/osc_ucx_component.c:1058-1072 | With [50,51) and [100,110) live, attaching [110,120) counts as covered by [100,110) and only raises its count, in both attaches. The address 51, one past [50,51), finds that region in both detach searches. |
| `RegionTableFindings.UnitSearch` | ompi/mca/osc/ucx/osc_ucx_component.c:1058-1072 | The same searches on any table holding [50,51) and [100,110) as its two live slots. |
| `RegionTableFindings.DetachSearchOverruns` | ompi/mca/osc/ucx/osc_ucx_component.c:1260-1262 | On a full table whose regions all lie below the address, the detach search reads the slot one past the array. The search over live slots never does. |
| `RegionTableFindings.FindPastEnd` | ompi/mca/osc/ucx/osc_ucx_component.c:1055-1078 | A search whose range ends at the array's length, over regions that all end below the query, runs off the end. |
| `RegionTableFindings.AttachAllowsOverlap` | ompi/mca/osc/ucx/osc_ucx_component.c:1181-1243 | Attaching [105,120) next to [100,110) leaves both live, overlapping, with both attaches. The repaired table stays sorted and referenced. |
| `RegionTableFindings.OverlapAttach` | ompi/mca/osc/ucx/osc_ucx_component.c:1181-1243 | The same from any table whose one live slot is [100,110). |
| `RegionTableFindings.OverlapMisses` | ompi/mca/osc/ucx/osc_ucx_component.c:1055-1078 | Over the one live slot [100,110), the search for [105,120) misses with insertion point 1. |
| `RegionTableFindings.StaleSlotDetach` | ompi/mca/osc/ucx/osc_ucx_component.c:1260-1290 | From any table with [100,110) live and a stale [200,210) in slot 1, detaching 205 empties the live slots, and the repaired detach changes nothing. |
| `RegionTableFindings.StaleSlotSearch` | ompi/mca/osc/ucx/osc_ucx_component.c:1055-1078 | The search for 205 over slots 0..1 hits the stale slot 1; over the live slot alone it misses. |
| `RegionTableFindings.DetachMatchesStaleSlot` | ompi/mca/osc/ucx/osc_ucx_component.c:1260-1290 | Detaching an address of a stale slot just past the live ones removes it and drops the count, which loses the live region. The repaired detach changes nothing. |
| `PassiveTarget.Lock` | ompi/mca/osc/ucx/osc_ucx_passive_target.c:84-141 | Three cases are refused with RMA_SYNC and no effect: with `no_locks`; with no lock held outside NONE or FENCE; and a second lock on a target already held. Otherwise the count rises even if the acquisition fails. The record is stored and PASSIVE entered only on success. |
| `PassiveTarget.LockFixed` | ompi/mca/osc/ucx/osc_ucx_passive_target.c:84-141 | Succeeds exactly when not refused and the acquisition succeeded or was skipped with NOCHECK. On failure the window is unchanged. |
| `PassiveTarget.UnlockTrace` | ompi/mca/osc/ucx/osc_ucx_passive_target.c:160-194 | Unlock flushes the target endpoint first, then the offload endpoint, before any release. The lock word is released exactly when the endpoint flush and the rank-map lookup succeed and the lock was not taken with NOCHECK. The offload flush's reply is only asserted, so it does not gate the release. |
| `PassiveTarget.Unlock` | ompi/mca/osc/ucx/osc_ucx_passive_target.c:144-205 | Outside PASSIVE, or without a record for the target, it is refused with no effect. Otherwise the record is dropped first. A failing flush or rank map returns its status, and nothing but the record changes. Otherwise the count falls by one, the epoch closes exactly when it reaches zero, and nothing else changes. |
| `PassiveTarget.UnlockFixed` | ompi/mca/osc/ucx/osc_ucx_passive_target.c:144-205 | A failing flush or rank map leaves the window unchanged, so the unlock can be retried. Otherwise it behaves as the original. |
| `PassiveTarget.FirstFailure` | ompi/mca/osc/ucx/osc_ucx_passive_target.c:227-236 | The loop stops at the first rank whose acquisition failed: every earlier rank succeeded. |
| `PassiveTarget.LockAll` | ompi/mca/osc/ucx/osc_ucx_passive_target.c:207-242 | Refused with RMA_SYNC when `no_locks` is set or outside NONE and FENCE. Otherwise PASSIVE_ALL is entered even if an acquisition fails. It acquires ranks in order, and a failure at rank f releases ranks 0..f-1 and returns f's status. |
| `PassiveTarget.LockAllFixed` | ompi/mca/osc/ucx/osc_ucx_passive_target.c:207-242 | Issues the same calls, but a failure leaves the window unchanged. |
| `PassiveTarget.OrBits` | ompi/mca/osc/ucx/osc_ucx_passive_target.c:280-282 | The bitwise OR of two k-bit values stays within k bits, and it is zero exactly when both are. |
| `PassiveTarget.OrStatus` | ompi/mca/osc/ucx/osc_ucx_passive_target.c:280-282 | `a \| b` on C ints is SUCCESS exactly when both are. |
| `PassiveTarget.OrAll` | ompi/mca/osc/ucx/osc_ucx_passive_target.c:278-283 | The statuses of the releases OR-ed together give SUCCESS exactly when every release succeeded. |
| `PassiveTarget.UnlockAllTrace` | ompi/mca/osc/ucx/osc_ucx_passive_target.c:244-288 | Unlock-all starts with the worker flush. When it gets through, the host-channel and offload worker flushes come before the release of every rank in order, and nothing is acquired. |
| `PassiveTarget.UnlockAll` | ompi/mca/osc/ucx/osc_ucx_passive_target.c:244-288 | Outside PASSIVE_ALL it is refused with no effect. A failing flush or rank map returns its status with the epoch still open. Otherwise the epoch closes, and the status is SUCCESS exactly when every release succeeded or the epoch was NOCHECK. |
| `PassiveTarget.Sync` | ompi/mca/osc/ucx/osc_ucx_passive_target.c:290-307 | Outside a passive epoch it is refused with no call. Inside one it fences the memory and returns the fence's status. The window never changes. |
| `PassiveTarget.Flush` | ompi/mca/osc/ucx/osc_ucx_passive_target.c:309-348 | Refused outside a passive epoch. Otherwise the endpoint flush comes first. It succeeds exactly when the flush and the rank map do. The offload flush is issued exactly on success, and the host-channel flush exactly on success for a co-located target. |
| `PassiveTarget.FlushAll` | ompi/mca/osc/ucx/osc_ucx_passive_target.c:350-383 | Refused outside a passive epoch. Otherwise the worker flush comes first, then the host-channel worker flush once the fabric flush succeeded, then the offload worker flush exactly on success. |
| `PassiveTarget.FlushLocal` | ompi/mca/osc/ucx/osc_ucx_passive_target.c:385-389 | Identical to the full flush of the target. |
| `PassiveTarget.FlushLocalAll` | ompi/mca/osc/ucx/osc_ucx_passive_target.c:391-395 | Identical to the full flush of all targets. |
| `PassiveTarget.StepKeepsInv` | ompi/mca/osc/ucx/osc_ucx_passive_target.c:84-307 | Every repaired call keeps the epoch invariant: the count equals the number of lock records, and PASSIVE is open exactly while a lock is outstanding. |
| `PassiveTarget.RunKeepsInv` | ompi/mca/osc/ucx/osc_ucx_passive_target.c:84-307 | Any sequence of repaired calls keeps the epoch invariant. |
| `PassiveTarget.LockCountBounded` | ompi/mca/osc/ucx/osc_ucx_passive_target.c:109-111 | Under the invariant, when records name ranks of the communicator, the count never exceeds its size, which is the condition `lock` asserts. |
| `PassiveTarget.LockUnlockRestores` | ompi/mca/osc/ucx/osc_ucx_passive_target.c:84-205 | A successful lock followed by its successful unlock leaves the window exactly as it was, from no epoch or from inside the per-target epoch. |
| `PassiveTarget.LockUnlockOrders` | ompi/mca/osc/ucx/osc_ucx_passive_target.c:84-205 | Across a checked lock and its unlock, the word is acquired, then the target endpoint flushed, then the word released. |
| `PassiveTarget.LockAllUnlockAllRoundTrip` | ompi/mca/osc/ucx/osc_ucx_passive_target.c:207-288 | A successful lock-all and unlock-all acquire every rank in order, then release every rank in order, and close the epoch. |
| `PassiveTargetFindings.FailedLockStrandsEpoch` | ompi/mca/osc/ucx/osc_ucx_passive_target.c:134-139 | After a failed lock the count stays at one with no record. A later lock and unlock leave PASSIVE open with no lock, and a following lock-all is refused. The repaired lock leaves nothing behind. |
| `PassiveTargetFindings.FailedLocksExceedCommSize` | ompi/mca/osc/ucx/osc_ucx_passive_target.c:109-139 | Three failed locks on a communicator of two push the count to three, past the size `lock` asserts it never exceeds. |
| `PassiveTargetFindings.FailedLockAllReleasesTwice` | ompi/mca/osc/ucx/osc_ucx_passive_target.c:221-236 | A lock-all failing at rank 1 releases rank 0 yet stays in PASSIVE_ALL, so the allowed unlock-all releases rank 0 again. The repaired lock-all makes that unlock-all a refusal. |
| `PassiveTargetFindings.FailedFlushStrandsLock` | ompi/mca/osc/ucx/osc_ucx_passive_target.c:160-165 | An unlock whose flush fails drops the record without releasing the word, and the retry is refused, so the target stays locked. The repaired unlock can be retried and returns the window to its fresh state. |
| `WindowSetup.Min` | ompi/mca/osc/ucx/osc_ucx_component.c:733-735 | The MIN reduction is a lower bound of every value and is one of them. |
| `WindowSetup.SameDispUnitIff` | ompi/mca/osc/ucx/osc_ucx_component.c:730-740 | Comparing the minimum of the units with the negated minimum of their negations succeeds exactly when every process gave the same unit. |
| `WindowSetup.ModuleDispUnit` | ompi/mca/osc/ucx/osc_ucx_component.c:740-744 | The module records the common unit when all agree, and -1 as soon as one differs. |
| `WindowSetup.Displacements` | ompi/mca/osc/ucx/osc_ucx_component.c:388-393 | Each blob's displacement is the total length of the blobs of lower ranks, and the final total is the sum of all lengths. |
| `WindowSetup.DisplacementsTile` | ompi/mca/osc/ucx/osc_ucx_component.c:388-395 | With non-negative lengths, blob i starts where blob i-1 ends, and each blob lies inside the receive buffer. |
| `WindowSetup.PageRoundCovers` | ompi/mca/osc/ucx/osc_ucx_component.c:788-791 | Without overflow, a non-empty share rounds up to a page boundary with less than one page to spare. |
| `WindowSetup.PageRoundEmpty` | ompi/mca/osc/ucx/osc_ucx_component.c:791 | An empty share rounds to zero when the page size divides 2^64: the subtraction and the multiplication both wrap. |
| `WindowSetup.SegmentTotal` | ompi/mca/osc/ucx/osc_ucx_component.c:803-806 | The segment size is the 64-bit sum of the shares. Without wrap-around it is zero, so no segment is made, exactly when every share is empty. |
| `WindowSetup.ShmemLayout` | ompi/mca/osc/ucx/osc_ucx_component.c:881-889 | Each placed share's address is the segment base plus the shares of lower ranks, and an empty share of a non-contiguous segment gets the null address. |
| `WindowSetup.LayoutDisjoint` | ompi/mca/osc/ucx/osc_ucx_component.c:881-889 | When the segment fits in 64 bits, placed shares lie inside the segment in rank order without overlapping. |
| `WindowSetup.AddWindow` | ompi/mca/osc/ucx/osc_ucx_component.c:682-695 | Creating a window adds one to the count, and the callback becomes registered if it was or if this is the first window. |
| `WindowSetup.RemoveWindow` | ompi/mca/osc/ucx/osc_ucx_component.c:423-440 | Freeing a window takes one from the count, and the callback stays registered unless this was the last window. |
| `WindowSetup.ApplyWindowsKeepsInv` | ompi/mca/osc/ucx/osc_ucx_component.c:430-437 | Over any sequence of creations and frees that never frees more windows than exist, the callback is registered exactly while a window is live. The count is the balance of creations and frees. |
| `Proc.Compare` | opal/util/proc.c:85-100 | The comparator returns only -1, 0 or 1, and returns 0 exactly when job id and vpid are both equal. |
| `Proc.CompareIsKeyOrder` | opal/util/proc.c:85-100 | It orders names as the 64-bit numbers with the job id in the high half, that is lexicographically on (job id, vpid). |
| `Proc.CompareAntisymmetric` | opal/util/proc.c:85-100 | Swapping the arguments negates the result. |
| `Proc.CompareTransitive` | opal/util/proc.c:85-100 | `a <= b` and `b <= c` give `a <= c`, so the comparator is a total order. |
| `Proc.LocalSet` | opal/util/proc.c:109-124 | Always succeeds. Setting the current process is a no-op. Afterwards the current process is the argument, or the static default for NULL. |
| `Proc.LocalSetCounts` | opal/util/proc.c:109-124 | A swap gives the new object one more reference. The old object loses one unless it is the static default, and its last release destroys it. No other object changes. |
| `Proc.LocalSetKeepsValid` | opal/util/proc.c:104-124 | A swap keeps the current process a live object and never frees the static default. |
| `Proc.LocalSetRoundTrip` | opal/util/proc.c:104-124 | Swapping to another object and back restores the current process, and restores the reference count of an object someone else also holds. |
| `Proc.HostnameLocalOnly` | opal/util/proc.c:195-208 | Returns "unknown" for NULL or for any process but the current one, and the node name for the current one. |
| `Proc.HostnameFollowsLocalSet` | opal/util/proc.c:109-208 | After a swap, the lookup answers with the node name for the new process and for no other. |

## Left out

- Remote transports, the offload unit and the host channel are not executed.
  Their answers are parameters: statuses, fetched values, and the co-located
  set. Their calls are trace events, and the offload command encoding is not
  modelled.
- The asserts on offload command responses in unlock, flush, flush-all and
  unlock-all, and the `printf` debugging, are left out. In a release build
  they do not change behaviour.
- The acquisition spins (`start_shared`, `start_exclusive`,
  `ompi_osc_state_lock`) are folds over a finite list of replies. Their
  termination is not claimed: a spin still running when the list ends is
  reported as spinning. Lock, lock-all, attach and detach take the status
  the spin returned.
- The many-process lock-word model interleaves atomic steps with transports
  that succeed. It does not model progress draining or memory ordering
  (`opal_atomic_mb`), or the mutex and init lock of the component.
- The lock-word constants and the attach capacity live in a header that is
  not part of this model. The values used are UNLOCKED = 0,
  EXCLUSIVE = 2^32 and ATTACH_MAX = 32. The proofs rely only on
  UNLOCKED = 0 and on EXCLUSIVE exceeding the number of processes.
  ERR_RMA_SYNC is likewise a placeholder value.
- `RegionTable.Detach`: the code reads the slot one past the array when the
  search range ends there, which is undefined behaviour. The model reports
  that read as `Overrun` and treats it as a miss. `DetachSearchOverruns`
  shows when it happens.
- `RegionTable.AttachFixed`: like the code, it accepts a range that
  overlaps a live region without lying inside it. The invariant proved is
  sortedness and positive counts, not disjointness.
- `RegionTable.Find`: like the code, once it probes a region of size 1 it
  drops the query length, and its containment test then accepts a query base
  equal to a region's end. A range starting right after a region can count
  as attached, and an address one past a region can detach it
  (`RegionTableFindings.UnitRegionStretchesSearch`). Whether the size-1 rule
  is meant only for detach's one-byte query cannot be told from the code, so
  it is not listed as a finding and no repair is modelled.
- `RegionTable.Find`: the code reads `dynamic_wins[mid].size` before testing
  for an empty range, when `mid` may be -1. That read only decides a length
  that is then unused, so the model guards it.
- Registration handles, `memcpy` of packed keys and deregistration calls are
  reduced to trace events. The region table keeps bases, sizes and reference
  counts only.
- `WindowSetup.Displacements`: lengths and totals are unbounded integers.
  The C `int` sum can overflow for very large blobs, and that overflow is not
  modelled.
- `WindowSetup.SameDispUnitIff`: units are unbounded integers. The C
  negation of `INT_MIN` overflows, and that is not modelled.
- `WindowSetup.PageRoundCovers` requires no 64-bit overflow. With overflow
  the rounded share wraps, which is what `PageRound` computes.
- `WindowSetup.AddWindow`: the failure of `opal_progress_register` is not
  modelled. On that path, as on every early failure of `component_select`,
  the error label dereferences a module that was never allocated. That path
  is left out with the rest of `component_select`: configuration, the UCX
  context, segment creation, barriers and allgathers.
- Component open, close, register, init, finalize and query are left out.
  So are window free with its offload cleanup, `set_no_lock_info`,
  `shared_query` and the DPU bootstrap. These are foreign-library plumbing
  and teardown.
- `Proc.LocalSet` requires its argument to be NULL or a live object, as
  `OBJ_RETAIN` on a freed object is undefined. The surrogate print and
  convert functions of `proc.c`, `opal_proc_set_name`, the constructor and
  destructor, and the `opal_process_info` initialiser are constants and
  object plumbing. They are left out.
- Exposure epochs (post, start, complete, wait) and fence are not part of
  this model. The fence epoch appears only as a state that lock and
  lock-all may start from.

## Findings

| source | as written | input that shows it | evidently intended | confidence | as-written member | corrected member |
|---|---|---|---|---|---|---|
| ompi/mca/osc/ucx/osc_ucx_component.c:1239 | A new region's count is `refcnt++` on the insertion slot. After the memmove, that slot still holds the count of the region that was there. | attach [100,110), then attach [50,60): the second region has count 2, and one detach leaves it attached | a new region starts with one reference | high, not executed | `RegionTableFindings.AttachCountsStaleReference` | `RegionTableFindings.AttachFixedCountsOneReference` |
| ompi/mca/osc/ucx/osc_ucx_component.c:1194-1214 | The arrays are shifted before registration. A failed registration returns with them still shifted and the count unchanged. | regions [100,110) and [200,210), then attach [50,60) with a failing registration: the live slots read [100,110) twice | a failed attach leaves the table unchanged | high, not executed | `RegionTableFindings.FailedAttachDropsRegion` | `RegionTable.AttachFixed` |
| ompi/mca/osc/ucx/osc_ucx_component.c:1260-1262 | Detach searches slots `0..count` and acts on a hit in slot `count`, which is not live. | count 1 with a stale [200,210) in slot 1, then detach 205: slot 1 is removed, the count drops to 0 and the live region is lost | search the live slots `0..count-1` and ignore a miss | high, not executed | `RegionTableFindings.DetachMatchesStaleSlot` | `RegionTable.DetachFixed` |
| ompi/mca/osc/ucx/osc_ucx_component.c:1260-1262 | With a full table, the same range makes the search read `dynamic_wins[ATTACH_MAX]`, past the array. | 32 live regions all ending below the address | never read past the live slots | high, not executed | `RegionTableFindings.DetachSearchOverruns` | `RegionTable.LivePosition` |
| ompi/mca/osc/ucx/osc_ucx_passive_target.c:134-139 | A failed acquisition restores the epoch but not `lock_count`. | lock target 1 failing, lock target 0, unlock target 0: PASSIVE stays open with no lock, and a following lock-all is refused | a failed lock leaves no state behind | high, not executed | `PassiveTargetFindings.FailedLockStrandsEpoch` | `PassiveTarget.LockFixed` |
| ompi/mca/osc/ucx/osc_ucx_passive_target.c:109-111 | The asserted bound `lock_count <= comm_size` is broken by repeated failed locks. | three failed locks of rank 0 on a communicator of two: the count is 3 | the count stays within the communicator size | high, not executed | `PassiveTargetFindings.FailedLocksExceedCommSize` | `PassiveTarget.LockCountBounded` |
| ompi/mca/osc/ucx/osc_ucx_passive_target.c:221-236 | Lock-all enters PASSIVE_ALL before acquiring. A failure releases the ranks already taken but keeps the epoch. | lock-all on two ranks failing at rank 1, then unlock-all: rank 0 is released twice | a failed lock-all leaves the epoch where it was | high, not executed | `PassiveTargetFindings.FailedLockAllReleasesTwice` | `PassiveTarget.LockAllFixed` |
| ompi/mca/osc/ucx/osc_ucx_passive_target.c:160-165 | Unlock removes the lock record before flushing. A failed flush returns with the record gone and the word still held. | lock target 1 exclusively, then unlock with a failing flush: the retry is refused and the target stays locked | a failed unlock can be retried | medium, not executed | `PassiveTargetFindings.FailedFlushStrandsLock` | `PassiveTarget.UnlockFixed` |
