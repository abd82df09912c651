/** The distributed readers-writer lock realised on one remote 64-bit word per
    peer, driven only by compare-and-swap, fetch-and-add and swap.

    Three layers:
    - single rounds of the protocol as pure transitions of the word
      (`ExclusiveRound`, `SharedRound`, `EndShared`, `EndExclusive`);
    - the acquisition spins of `start_exclusive`, `start_shared` and
      `ompi_osc_state_lock`, as folds over the finite list of replies the
      remote side gave (the spin is still running when the list runs out);
    - a model of many processes sharing one word, with the invariant
      `word == EXCLUSIVE * owners + (sharers + pending undos)` from which
      mutual exclusion follows. */
module LockWord {
  import opened Common

  /** Lock-word values; the header defining them is not part of this model.
      Only `UNLOCKED == 0` and `EXCLUSIVE` exceeding every process count are used. */
  const UNLOCKED: U64 := 0
  const EXCLUSIVE: U64 := 0x1_0000_0000

  /** Result of one remote fetching atomic: the value seen and the word after it. */
  datatype Fetched = Fetched(seen: U64, after: U64)

  function CompareAndSwap(word: U64, expected: U64, desired: U64): Fetched
  {
    Fetched(word, if word == expected then desired else word)
  }

  function FetchAdd(word: U64, delta: int): Fetched
  {
    Fetched(word, Wrap64(word + delta))
  }

  function Swap(word: U64, value: U64): Fetched
  {
    Fetched(word, value)
  }

  // ---------------------------------------------------------------------
  // One round of each protocol step
  // ---------------------------------------------------------------------

  datatype Round = Acquired | Busy | Failed(status: Status)

  /** One iteration of `start_exclusive`: CAS(UNLOCKED -> EXCLUSIVE).  A
      transport error leaves the word alone. */
  function ExclusiveRound(word: U64, cas: Status): (r: (Round, U64))
    ensures r.0 == Acquired <==> cas == SUCCESS && word == UNLOCKED
    ensures r.0 == Acquired ==> r.1 == EXCLUSIVE
    ensures r.0 != Acquired ==> r.1 == word
    ensures r.0.Failed? <==> cas != SUCCESS
  {
    if cas != SUCCESS then (Failed(cas), word)
    else
      var f := CompareAndSwap(word, UNLOCKED, EXCLUSIVE);
      if f.seen == UNLOCKED then (Acquired, f.after) else (Busy, f.after)
  }

  /** One iteration of `start_shared`: fetch-and-add(+1); if an exclusive
      holder was seen, the increment is undone by a posted add(-1).  When the
      undo itself fails, the increment stays on the word. */
  function SharedRound(word: U64, fetch: Status, undo: Status): (r: (Round, U64))
    ensures r.0 == Acquired <==> fetch == SUCCESS && word < EXCLUSIVE
    ensures r.0 == Acquired ==> r.1 == word + 1
    ensures r.0 == Busy <==> fetch == SUCCESS && word >= EXCLUSIVE && undo == SUCCESS
    ensures r.0 == Busy ==> r.1 == word
    ensures fetch != SUCCESS ==> r == (Failed(fetch), word)
    ensures fetch == SUCCESS && word >= EXCLUSIVE && undo != SUCCESS ==>
              r == (Failed(undo), Wrap64(word + 1))
  {
    if fetch != SUCCESS then (Failed(fetch), word)
    else
      var f := FetchAdd(word, 1);
      if f.seen >= EXCLUSIVE then
        if undo != SUCCESS then (Failed(undo), f.after)
        else (Busy, FetchAdd(f.after, -1).after)
      else (Acquired, f.after)
  }

  /** `end_shared`: posted add(-1); the word changes only if the post went out. */
  function EndShared(word: U64, post: Status): (r: (Status, U64))
    ensures r.0 == post
    ensures post == SUCCESS && word >= 1 ==> r.1 == word - 1
    ensures post != SUCCESS ==> r.1 == word
  {
    (post, if post == SUCCESS then FetchAdd(word, -1).after else word)
  }

  /** `end_exclusive`: posted add(-EXCLUSIVE), which takes an owned word back
      to the shared count it carried. */
  function EndExclusive(word: U64, post: Status): (r: (Status, U64))
    ensures r.0 == post
    ensures post == SUCCESS && word >= EXCLUSIVE ==> r.1 == word - EXCLUSIVE
    ensures post != SUCCESS ==> r.1 == word
  {
    (post, if post == SUCCESS then FetchAdd(word, -(EXCLUSIVE as int)).after else word)
  }

  /** An exclusive acquisition followed by its release restores the word. */
  lemma ExclusiveRoundTrip(word: U64)
    requires ExclusiveRound(word, SUCCESS).0 == Acquired
    ensures EndExclusive(ExclusiveRound(word, SUCCESS).1, SUCCESS) == (SUCCESS, word)
  {
  }

  /** A shared acquisition followed by its release restores the word. */
  lemma SharedRoundTrip(word: U64, undo: Status)
    requires SharedRound(word, SUCCESS, undo).0 == Acquired
    ensures EndShared(SharedRound(word, SUCCESS, undo).1, SUCCESS) == (SUCCESS, word)
  {
  }

  // ---------------------------------------------------------------------
  // The acquisition spins
  // ---------------------------------------------------------------------

  /** Transport status and fetched value of one remote atomic round trip. */
  datatype Reply = Reply(status: Status, value: U64)

  /** What one `start_shared` iteration got back: the fetch-and-add reply and
      the status of the undo post (consulted only when the fetch saw an
      exclusive holder). */
  datatype SharedReply = SharedReply(fetch: Reply, undo: Status)

  /** A spin either returned after `rounds` iterations, or is still going when
      the replies run out. */
  datatype Spin = Returned(status: Status, rounds: nat) | Spinning

  /** A CAS round that went through but found the word taken. */
  predicate CasMissed(x: Reply)
  {
    x.status == SUCCESS && x.value != UNLOCKED
  }

  /** A `start_shared` round that found an exclusive holder and undid its increment. */
  predicate SharedBlocked(x: SharedReply)
  {
    x.fetch.status == SUCCESS && x.fetch.value >= EXCLUSIVE && x.undo == SUCCESS
  }

  /** The `start_exclusive` loop over the replies of successive CAS attempts. */
  function StartExclusive(replies: seq<Reply>): (r: Spin)
    ensures r.Returned? ==> 1 <= r.rounds <= |replies|
    ensures r.Returned? ==> forall k :: 0 <= k < r.rounds - 1 ==> CasMissed(replies[k])
    ensures r.Returned? && r.status == SUCCESS ==> replies[r.rounds - 1] == Reply(SUCCESS, UNLOCKED)
    ensures r.Returned? && r.status != SUCCESS ==> replies[r.rounds - 1].status == r.status
    ensures r.Spinning? <==> forall k :: 0 <= k < |replies| ==> CasMissed(replies[k])
  {
    if |replies| == 0 then Spinning
    else if replies[0].status != SUCCESS then Returned(replies[0].status, 1)
    else if replies[0].value == UNLOCKED then Returned(SUCCESS, 1)
    else
      match StartExclusive(replies[1..])
      case Spinning => Spinning
      case Returned(s, n) => Returned(s, n + 1)
  }

  /** The `start_shared` loop over the replies of successive iterations. */
  function StartShared(replies: seq<SharedReply>): (r: Spin)
    ensures r.Returned? ==> 1 <= r.rounds <= |replies|
    ensures r.Returned? ==> forall k :: 0 <= k < r.rounds - 1 ==> SharedBlocked(replies[k])
    ensures r.Returned? && r.status == SUCCESS ==>
              replies[r.rounds - 1].fetch.status == SUCCESS && replies[r.rounds - 1].fetch.value < EXCLUSIVE
    // an error is the fetch's status when the fetch failed, else the undo's
    ensures r.Returned? && r.status != SUCCESS ==>
              var x := replies[r.rounds - 1];
              if x.fetch.status != SUCCESS then r.status == x.fetch.status
              else x.fetch.value >= EXCLUSIVE && r.status == x.undo
    ensures r.Spinning? <==> forall k :: 0 <= k < |replies| ==> SharedBlocked(replies[k])
  {
    if |replies| == 0 then Spinning
    else
      var x := replies[0];
      if x.fetch.status != SUCCESS then Returned(x.fetch.status, 1)
      else if x.fetch.value < EXCLUSIVE then Returned(SUCCESS, 1)
      else if x.undo != SUCCESS then Returned(x.undo, 1)
      else
        match StartShared(replies[1..])
        case Spinning => Spinning
        case Returned(s, n) => Returned(s, n + 1)
  }

  // ---------------------------------------------------------------------
  // The accumulate ("state") lock
  // ---------------------------------------------------------------------

  /** `ompi_osc_need_acc_lock`: the accumulate lock is elided exactly when this
      process already holds an exclusive lock on the target. */
  function NeedAccLock(locks: map<int, LockRecord>, target: int): (r: bool)
    ensures !r <==> target in locks && locks[target].kind == ExclusiveLock
  {
    !(target in locks && locks[target].kind == ExclusiveLock)
  }

  datatype AccLock = AccLocked(status: Status, acquired: bool, rounds: nat) | AccSpinning

  /** `ompi_osc_state_lock`.  When neither forced nor needed, no remote
      operation is issued.  Otherwise it spins on CAS(UNLOCKED -> EXCLUSIVE);
      a transport error is reported as ERROR and leaves `acquired` false (the
      callers initialise it so). */
  function StateLock(locks: map<int, LockRecord>, target: int, force: bool, replies: seq<Reply>): (r: AccLock)
    ensures !(force || NeedAccLock(locks, target)) ==> r == AccLocked(SUCCESS, false, 0)
    ensures r.AccLocked? && r.acquired ==>
              && (force || NeedAccLock(locks, target))
              && r.status == SUCCESS
              && 1 <= r.rounds <= |replies|
              && replies[r.rounds - 1] == Reply(SUCCESS, UNLOCKED)
    ensures r.AccLocked? && r.status != SUCCESS ==>
              && r.status == ERROR && !r.acquired
              && 1 <= r.rounds <= |replies| && replies[r.rounds - 1].status != SUCCESS
    ensures r.AccLocked? && (force || NeedAccLock(locks, target)) ==> (r.acquired <==> r.status == SUCCESS)
    // the spin stops at the first reply that does not find the word taken
    ensures (force || NeedAccLock(locks, target)) ==>
              (r.AccSpinning? <==> forall k :: 0 <= k < |replies| ==> CasMissed(replies[k]))
    ensures r.AccLocked? && (force || NeedAccLock(locks, target)) ==>
              forall k :: 0 <= k < r.rounds - 1 ==> CasMissed(replies[k])
  {
    if force || NeedAccLock(locks, target) then
      match StartExclusive(replies)
      case Spinning => AccSpinning
      case Returned(s, n) => if s == SUCCESS then AccLocked(SUCCESS, true, n) else AccLocked(ERROR, false, n)
    else AccLocked(SUCCESS, false, 0)
  }

  /** `ompi_osc_state_unlock`, as its status and the transport calls it makes.
      `fence`, `swap` and `flush` are the statuses those calls return. */
  function StateUnlock(acquired: bool, hasBuffer: bool, target: int, fence: Status, swap: Status, flush: Status)
    : (r: (Status, seq<Event>))
    ensures r.0 == SUCCESS || r.0 == ERROR
    ensures AccRelease(target) in r.1 ==> acquired && fence == SUCCESS
    ensures acquired ==> Precedes(r.1, MemFence, AccRelease(target))
    ensures acquired && fence == SUCCESS ==> AccRelease(target) in r.1
    ensures !acquired ==> MemFence !in r.1 && AccRelease(target) !in r.1
    ensures !acquired && FreeBuffer in r.1 ==> Precedes(r.1, FabricEpFlush(target), FreeBuffer)
    ensures FreeBuffer in r.1 <==> hasBuffer && (acquired ==> fence == SUCCESS)
    ensures r.0 == SUCCESS <==>
              (if acquired then fence == SUCCESS && swap == SUCCESS
               else hasBuffer ==> flush == SUCCESS)
  {
    if acquired then
      if fence != SUCCESS then (ERROR, [MemFence])
      else
        var freed := if hasBuffer then [FreeBuffer] else [];
        (if swap == SUCCESS then SUCCESS else ERROR, [MemFence, AccRelease(target)] + freed)
    else if hasBuffer then
      (if flush == SUCCESS then SUCCESS else ERROR, [FabricEpFlush(target), FreeBuffer])
    else (SUCCESS, [])
  }

  // ---------------------------------------------------------------------
  // Many processes on one word
  // ---------------------------------------------------------------------

  /** Where one process stands with respect to the word.  `Undoing`: its
      fetch-and-add saw an exclusive holder and the undo is still to come. */
  datatype Hold = Idle | Undoing | Sharing | Owning

  datatype World = World(word: U64, procs: seq<Hold>)

  datatype Action = TryExclusive | FetchShared | UndoShared | ReleaseShared | ReleaseExclusive | SwapRelease

  function Count(s: seq<Hold>, h: Hold): (r: nat)
    ensures r <= |s|
  {
    if |s| == 0 then 0 else (if s[0] == h then 1 else 0) + Count(s[1..], h)
  }

  /** The word encodes the holders: one EXCLUSIVE per owner plus one per
      increment (held shared lock or increment awaiting its undo). */
  ghost predicate Inv(w: World)
  {
    && |w.procs| < EXCLUSIVE
    && w.word as int == EXCLUSIVE * Count(w.procs, Owning) + Count(w.procs, Sharing) + Count(w.procs, Undoing)
    && Count(w.procs, Owning) <= 1
    && (Count(w.procs, Owning) == 1 ==> Count(w.procs, Sharing) == 0)
  }

  function Initial(n: nat): (w: World)
    ensures |w.procs| == n && w.word == UNLOCKED
    ensures forall k :: 0 <= k < n ==> w.procs[k] == Idle
  {
    World(UNLOCKED, seq(n, _ => Idle))
  }

  /** Process `p` performs one atomic step of the protocol; a step that is not
      enabled in `p`'s current hold leaves the world unchanged.  Transports
      are taken to succeed here. */
  function Step(w: World, p: nat, a: Action): (r: World)
    requires p < |w.procs|
    ensures |r.procs| == |w.procs|
  {
    var h := w.procs[p];
    match a
    case TryExclusive =>
      if h != Idle then w
      else
        var (res, word) := ExclusiveRound(w.word, SUCCESS);
        World(word, w.procs[p := if res == Acquired then Owning else Idle])
    case FetchShared =>
      if h != Idle then w
      else
        var f := FetchAdd(w.word, 1);
        World(f.after, w.procs[p := if f.seen >= EXCLUSIVE then Undoing else Sharing])
    case UndoShared =>
      if h != Undoing then w else World(FetchAdd(w.word, -1).after, w.procs[p := Idle])
    case ReleaseShared =>
      if h != Sharing then w else World(EndShared(w.word, SUCCESS).1, w.procs[p := Idle])
    case ReleaseExclusive =>
      if h != Owning then w else World(EndExclusive(w.word, SUCCESS).1, w.procs[p := Idle])
    case SwapRelease =>
      if h != Owning then w else World(Swap(w.word, UNLOCKED).after, w.procs[p := Idle])
  }

  lemma {:induction false} CountUpdate(s: seq<Hold>, p: nat, h: Hold, x: Hold)
    requires p < |s|
    ensures Count(s[p := h], x) + (if s[p] == x then 1 else 0) == Count(s, x) + (if h == x then 1 else 0)
  {
    if p == 0 {
      assert s[p := h][1..] == s[1..];
    } else {
      assert s[p := h][1..] == s[1..][p - 1 := h];
      CountUpdate(s[1..], p - 1, h, x);
    }
  }

  lemma {:induction false} CountAtLeastTwo(s: seq<Hold>, i: nat, j: nat, x: Hold)
    requires i < j < |s| && s[i] == x && s[j] == x
    ensures Count(s, x) >= 2
  {
    if i == 0 {
      CountAtLeastOne(s[1..], j - 1, x);
    } else {
      CountAtLeastTwo(s[1..], i - 1, j - 1, x);
    }
  }

  lemma {:induction false} CountAtLeastOne(s: seq<Hold>, i: nat, x: Hold)
    requires i < |s| && s[i] == x
    ensures Count(s, x) >= 1
  {
    if i > 0 {
      CountAtLeastOne(s[1..], i - 1, x);
    }
  }

  lemma {:induction false} CountAllIdle(n: nat, x: Hold)
    requires x != Idle
    ensures Count(Initial(n).procs, x) == 0
  {
    if n > 0 {
      assert Initial(n).procs[1..] == Initial(n - 1).procs;
      CountAllIdle(n - 1, x);
    }
  }

  lemma {:induction false} CountsBounded(s: seq<Hold>)
    ensures Count(s, Owning) + Count(s, Sharing) + Count(s, Undoing) <= |s|
  {
    if |s| > 0 {
      CountsBounded(s[1..]);
    }
  }

  lemma InitialInv(n: nat)
    requires n < EXCLUSIVE
    ensures Inv(Initial(n))
  {
    CountAllIdle(n, Owning);
    CountAllIdle(n, Sharing);
    CountAllIdle(n, Undoing);
  }

  /** The word is below EXCLUSIVE exactly when nobody owns it; in particular it
      always fits a signed 64-bit integer, which `start_shared` asserts. */
  lemma {:induction false} WordDecodes(w: World)
    requires Inv(w)
    ensures w.word < EXCLUSIVE <==> Count(w.procs, Owning) == 0
    ensures w.word < 0x8000_0000_0000_0000
  {
    CountsBounded(w.procs);
  }

  /** Every step of the lock-word protocol keeps the encoding.  (The swap
      release belongs to the accumulate lock only; see `AccStepPreservesInv`.) */
  lemma {:induction false} StepPreservesInv(w: World, p: nat, a: Action)
    requires Inv(w) && p < |w.procs| && a != SwapRelease
    ensures Inv(Step(w, p, a))
  {
    WordDecodes(w);
    var r := Step(w, p, a);
    var h := w.procs[p];
    var nh := r.procs[p];
    if r != w {
      assert r.procs == w.procs[p := nh];
      CountUpdate(w.procs, p, nh, Owning);
      CountUpdate(w.procs, p, nh, Sharing);
      CountUpdate(w.procs, p, nh, Undoing);
      CountsBounded(r.procs);
      if h == Owning && a == ReleaseExclusive {
        assert Count(w.procs, Owning) == 1;
      }
    }
  }

  /** Runs a schedule of (process, action) steps. */
  function Run(w: World, schedule: seq<(nat, Action)>): (r: World)
    ensures |r.procs| == |w.procs|
    decreases |schedule|
  {
    if |schedule| == 0 then w
    else
      var (p, a) := schedule[0];
      if p < |w.procs| then Run(Step(w, p, a), schedule[1..]) else Run(w, schedule[1..])
  }

  predicate NoSwaps(schedule: seq<(nat, Action)>)
  {
    forall k :: 0 <= k < |schedule| ==> schedule[k].1 != SwapRelease
  }

  lemma {:induction false} RunPreservesInv(w: World, schedule: seq<(nat, Action)>)
    requires Inv(w) && NoSwaps(schedule)
    ensures Inv(Run(w, schedule))
    decreases |schedule|
  {
    if |schedule| > 0 {
      var (p, a) := schedule[0];
      if p < |w.procs| {
        StepPreservesInv(w, p, a);
        RunPreservesInv(Step(w, p, a), schedule[1..]);
      } else {
        RunPreservesInv(w, schedule[1..]);
      }
    }
  }

  /** Mutual exclusion: an owner of the word is alone, neither another owner
      nor a shared holder exists at the same time. */
  lemma {:induction false} MutualExclusion(w: World, i: nat, j: nat)
    requires Inv(w) && i < |w.procs| && j < |w.procs| && i != j
    requires w.procs[i] == Owning
    ensures w.procs[j] != Owning && w.procs[j] != Sharing
  {
    if w.procs[j] == Owning {
      if i < j { CountAtLeastTwo(w.procs, i, j, Owning); } else { CountAtLeastTwo(w.procs, j, i, Owning); }
    }
    if w.procs[j] == Sharing {
      CountAtLeastOne(w.procs, i, Owning);
      CountAtLeastOne(w.procs, j, Sharing);
    }
  }

  /** Every schedule from the all-idle start keeps mutual exclusion. */
  lemma ScheduleIsExclusive(n: nat, schedule: seq<(nat, Action)>, i: nat, j: nat)
    requires n < EXCLUSIVE && i < n && j < n && i != j && NoSwaps(schedule)
    requires Run(Initial(n), schedule).procs[i] == Owning
    ensures Run(Initial(n), schedule).procs[j] !in {Owning, Sharing}
  {
    InitialInv(n);
    RunPreservesInv(Initial(n), schedule);
    MutualExclusion(Run(Initial(n), schedule), i, j);
  }

  /** A word driven only by compare-and-swap and swap, as the accumulate lock is. */
  predicate AccWord(w: World)
  {
    forall k :: 0 <= k < |w.procs| ==> w.procs[k] in {Idle, Owning}
  }

  /** On the accumulate lock, the steps keep the encoding. */
  lemma {:induction false} AccStepPreservesInv(w: World, p: nat, a: Action)
    requires Inv(w) && AccWord(w) && p < |w.procs| && a in {TryExclusive, SwapRelease}
    ensures Inv(Step(w, p, a)) && AccWord(Step(w, p, a))
  {
    var r := Step(w, p, a);
    if r != w {
      var nh := r.procs[p];
      assert r.procs == w.procs[p := nh];
      CountUpdate(w.procs, p, nh, Owning);
      CountUpdate(w.procs, p, nh, Sharing);
      CountUpdate(w.procs, p, nh, Undoing);
      AccWordCounts(w.procs);
      AccWordCounts(r.procs);
      if a == SwapRelease {
        CountAtLeastOne(w.procs, p, Owning);
      }
    }
  }

  lemma {:induction false} AccWordCounts(s: seq<Hold>)
    requires forall k :: 0 <= k < |s| ==> s[k] in {Idle, Owning}
    ensures Count(s, Sharing) == 0 && Count(s, Undoing) == 0
  {
    if |s| > 0 {
      AccWordCounts(s[1..]);
    }
  }

  /** On the accumulate lock the owner's releasing swap sees EXCLUSIVE, as
      `ompi_osc_state_unlock` asserts, and leaves the word UNLOCKED. */
  lemma {:induction false} AccSwapSeesExclusive(w: World, p: nat)
    requires Inv(w) && AccWord(w) && p < |w.procs| && w.procs[p] == Owning
    ensures Swap(w.word, UNLOCKED).seen == EXCLUSIVE
    ensures Step(w, p, SwapRelease).word == UNLOCKED
  {
    CountAtLeastOne(w.procs, p, Owning);
    AccWordCounts(w.procs);
  }
}
