/** The dynamic-window region table of `osc_ucx_component.c`.

    The table is the pair of fixed-capacity arrays the C code keeps: the
    replicated `dynamic_wins[ATTACH_MAX]` (base and size of each region) and
    the local `refcnt` of each slot, plus `dynamic_win_count`.  Slots at and
    beyond the count keep whatever they last held; the C code reads some of
    them, so the model keeps them too.

    `Attach` and `Detach` follow the code as written; `AttachFixed` and
    `DetachFixed` repair the defects the lemmas at the end exhibit, and are the
    versions the table invariant is proved for. */
module RegionTable {
  import opened Common
  import LockWord

  /** Capacity of the table; the header defining it is not part of this model. */
  const ATTACH_MAX: nat := 32

  datatype Region = Region(base: U64, size: U64)

  datatype Table = Table(wins: seq<Region>, refcnt: seq<int>, count: U64)

  /** The arrays have their full capacity and the count fits in them. */
  predicate WellFormed(t: Table)
  {
    |t.wins| == ATTACH_MAX && |t.refcnt| == ATTACH_MAX && t.count <= ATTACH_MAX
  }

  /** The attached regions, in slot order. */
  function Live(t: Table): seq<Region>
    requires WellFormed(t)
  {
    t.wins[..t.count]
  }

  /** A table as `component_select` leaves it: no region, every count zero. */
  function Empty(): (t: Table)
    ensures WellFormed(t) && Live(t) == []
  {
    Table(seq(ATTACH_MAX, _ => Region(0, 0)), seq(ATTACH_MAX, _ => 0), 0)
  }

  predicate Sorted(s: seq<Region>)
  {
    forall i, j :: 0 <= i < j < |s| ==> s[i].base <= s[j].base
  }

  /** The table invariant: live regions sorted by base, which the binary
      search relies on, each holding at least one reference, which window
      free asserts at ompi/mca/osc/ucx/osc_ucx_component.c:1349.  Live
      regions may overlap: attach tests only whether one region contains
      the new range. */
  predicate Good(t: Table)
  {
    && WellFormed(t)
    && Sorted(Live(t))
    && Referenced(t)
  }

  // ---------------------------------------------------------------------
  // The search
  // ---------------------------------------------------------------------

  /** The probe of the binary search: `(lo + hi) >> 1`, which floors like
      Dafny's division. */
  function Mid(lo: int, hi: int): (m: int)
    ensures lo <= hi ==> lo <= m <= hi
  {
    (lo + hi) / 2
  }

  /** End of a region as the search computes it, in 64-bit arithmetic. */
  function End(r: Region): U64
  {
    Wrap64(r.base + r.size)
  }

  /** The containment test of the search: the query starts at or after the
      region's base and its (wrapped) end does not pass the region's end. */
  predicate Covers(r: Region, base: U64, len: U64)
  {
    r.base <= base && Wrap64(base + len) <= End(r)
  }

  /** No region among slots `lo..hi` has size 1 (a probed region of size 1
      makes the search drop the query length). */
  predicate NoUnit(wins: seq<Region>, lo: int, hi: int)
  {
    forall k :: lo <= k <= hi && 0 <= k < |wins| ==> wins[k].size != 1
  }

  predicate SortedOn(wins: seq<Region>, lo: int, hi: int)
  {
    forall i, j :: lo <= i < j <= hi && 0 <= i && j < |wins| ==> wins[i].base <= wins[j].base
  }

  /** `Hit`: a containing slot.  `Miss`: the insertion point.  `Overrun`: the
      search read the slot one past the array. */
  datatype Position = Hit(index: nat) | Miss(insert: nat) | Overrun

  /** One probe of the search: it either ends with a position or narrows
      the range to the slots below or above the probed one, carrying the
      query length on (dropped to 0 when the probed region has size 1). */
  datatype Probe = Done(p: Position) | Below(hi: int, len: U64) | Above(lo: int, len: U64)

  /** The body of one call of `ompi_osc_find_attached_region_position`.  The
      C code reads the size of slot `mid` before testing for an empty range,
      when `mid` may be -1; that read only decides the (then unused) length,
      so the model guards it. */
  function Step(wins: seq<Region>, lo: int, hi: int, base: U64, len: U64): (s: Probe)
    requires 0 <= lo <= |wins| && lo <= hi + 1 && hi <= |wins|
    // a hit is a probed slot that starts at or below the query base
    ensures s.Done? && s.p.Hit? ==>
              && lo <= s.p.index <= hi && s.p.index < |wins| && wins[s.p.index].base <= base
              && (wins[s.p.index].size != 1 ==> Covers(wins[s.p.index], base, len))
              && (Covers(wins[s.p.index], base, len) || Covers(wins[s.p.index], base, 0))
    ensures s.Done? && s.p.Miss? ==> s.p.insert == lo && lo > hi
    ensures s.Done? && s.p.Overrun? ==> hi == |wins|
    // the range narrows past a probed slot on the correct side of the query
    ensures s.Below? ==>
              && lo - 1 <= s.hi < hi && s.hi + 1 < |wins| && wins[s.hi + 1].base > base
              && (wins[s.hi + 1].size != 1 ==> s.len == len)
              && (s.len == len || s.len == 0)
    ensures s.Above? ==>
              && lo < s.lo <= hi + 1 && s.lo - 1 < |wins| && wins[s.lo - 1].base <= base
              && (wins[s.lo - 1].size != 1 ==> s.len == len)
              && (s.len == len || s.len == 0)
  {
    var mid := Mid(lo, hi);
    var len' := if 0 <= mid < |wins| && wins[mid].size == 1 then 0 else len;
    if lo > hi then Done(Miss(lo))
    else if mid == |wins| then Done(Overrun)
    else if wins[mid].base > base then Below(mid - 1, len')
    else if Wrap64(base + len') <= End(wins[mid]) then Done(Hit(mid))
    else Above(mid + 1, len')
  }

  /** `ompi_osc_find_attached_region_position`: binary search of slots
      `lo..hi` for a region containing the query. */
  function Find(wins: seq<Region>, lo: int, hi: int, base: U64, len: U64): (p: Position)
    requires 0 <= lo <= |wins| && lo <= hi + 1 && hi <= |wins|
    ensures p.Hit? ==> lo <= p.index <= hi && p.index < |wins|
    ensures p.Miss? ==> lo <= p.insert <= hi + 1 && p.insert <= |wins|
    ensures p.Overrun? ==> hi == |wins|
    decreases hi - lo + 1
  {
    match Step(wins, lo, hi, base, len)
    case Done(p) => p
    case Below(h, n) => Find(wins, lo, h, base, n)
    case Above(l, n) => Find(wins, l, hi, base, n)
  }

  /** A hit starts at or below the query base and covers the query, or,
      once a region of size 1 was probed, reaches the query base (its end
      may equal that base); without regions of size 1 in the range it
      covers the whole query. */
  lemma {:induction false} FindHitCovers(wins: seq<Region>, lo: int, hi: int, base: U64, len: U64, i: nat)
    requires 0 <= lo <= |wins| && lo <= hi + 1 && hi <= |wins|
    requires Find(wins, lo, hi, base, len) == Hit(i)
    ensures wins[i].base <= base
    ensures Covers(wins[i], base, len) || Covers(wins[i], base, 0)
    ensures NoUnit(wins, lo, hi) ==> Covers(wins[i], base, len)
    decreases hi - lo + 1
  {
    match Step(wins, lo, hi, base, len)
    case Done(p) =>
    case Below(h, n) => FindHitCovers(wins, lo, h, base, n, i);
    case Above(l, n) => FindHitCovers(wins, l, hi, base, n, i);
  }

  /** A miss's insertion point sits between a base at most the query's and
      one above it. */
  lemma {:induction false} FindMissNeighbours(wins: seq<Region>, lo: int, hi: int, base: U64, len: U64, k: nat)
    requires 0 <= lo <= |wins| && lo <= hi + 1 && hi <= |wins|
    requires Find(wins, lo, hi, base, len) == Miss(k)
    ensures lo < k ==> wins[k - 1].base <= base
    ensures k <= hi && k < |wins| ==> wins[k].base > base
    decreases hi - lo + 1
  {
    match Step(wins, lo, hi, base, len)
    case Done(p) =>
    case Below(h, n) => FindMissNeighbours(wins, lo, h, base, n, k);
    case Above(l, n) => FindMissNeighbours(wins, l, hi, base, n, k);
  }

  /** On a sorted range the insertion point of a miss splits it: every base
      before it is at most the query's, every base from it on is above. */
  lemma FindMissSplits(wins: seq<Region>, lo: int, hi: int, base: U64, len: U64, k: nat)
    requires 0 <= lo <= |wins| && lo <= hi + 1 && hi <= |wins|
    requires SortedOn(wins, lo, hi)
    requires Find(wins, lo, hi, base, len) == Miss(k)
    ensures forall j :: lo <= j < k ==> wins[j].base <= base
    ensures forall j :: k <= j <= hi && j < |wins| ==> wins[j].base > base
  {
    FindMissNeighbours(wins, lo, hi, base, len, k);
    forall j | lo <= j < k
      ensures wins[j].base <= base
    {
      if j < k - 1 {
        assert wins[j].base <= wins[k - 1].base;
      }
    }
    forall j | k <= j <= hi && j < |wins|
      ensures wins[j].base > base
    {
      if j > k {
        assert wins[k].base <= wins[j].base;
      }
    }
  }

  /** The search over the live slots, as attach runs it. */
  function LivePosition(t: Table, base: U64, len: U64): (p: Position)
    requires WellFormed(t)
    ensures p.Hit? ==> p.index < t.count
    ensures p.Miss? ==> p.insert <= t.count
    ensures !p.Overrun?
  {
    if t.count > 0 then Find(t.wins, 0, t.count - 1, base, len) else Miss(0)
  }

  // ---------------------------------------------------------------------
  // Array moves
  // ---------------------------------------------------------------------

  /** `memmove(&a[k+1], &a[k], (N - (k+1)) * size)`: slots from `k` move one
      to the right, the last slot's content drops off, slot `k` keeps its
      old content. */
  function ShiftRight<T>(s: seq<T>, k: nat): (r: seq<T>)
    requires k < |s|
    ensures |r| == |s|
    ensures forall j :: 0 <= j <= k ==> r[j] == s[j]
    ensures forall j :: k < j < |s| ==> r[j] == s[j - 1]
  {
    s[..k + 1] + s[k..|s| - 1]
  }

  /** `memmove(&a[k], &a[k+1], (N - (k+1)) * size)`: slots after `k` move
      one to the left, the last slot keeps its old content. */
  function ShiftLeft<T>(s: seq<T>, k: nat): (r: seq<T>)
    requires k < |s|
    ensures |r| == |s|
    ensures forall j :: 0 <= j < k ==> r[j] == s[j]
    ensures forall j :: k <= j < |s| - 1 ==> r[j] == s[j + 1]
    ensures r[|s| - 1] == s[|s| - 1]
  {
    s[..k] + s[k + 1..] + [s[|s| - 1]]
  }

  // ---------------------------------------------------------------------
  // Attach and detach
  // ---------------------------------------------------------------------

  /** Statuses the external calls of one attach or detach return: the
      compare-and-swap that ends the forced accumulate-lock spin on this
      process (SUCCESS means acquired), the memory registration, and the
      fence and swap of the lock release. */
  datatype Env = Env(stateLock: Status, register: Status, fence: Status, swap: Status)

  datatype Outcome = Outcome(status: Status, table: Table, trace: seq<Event>)

  /** Status of `ompi_osc_state_lock` when forced: the spin ends acquired,
      or on a transport error, which it reports as ERROR. */
  function LockStatus(env: Env): (s: Status)
    ensures s == SUCCESS || s == ERROR
    ensures s == SUCCESS <==> env.stateLock == SUCCESS
  {
    LockWord.StateLock(map[], 0, true, [LockWord.Reply(env.stateLock, LockWord.UNLOCKED)]).status
  }

  /** Status and calls of releasing the accumulate lock taken on `me`. */
  function Unlock(me: int, env: Env): (Status, seq<Event>)
  {
    LockWord.StateUnlock(true, false, me, env.fence, env.swap, SUCCESS)
  }

  /** The two memmoves of attach: when the table is not empty, both arrays
      move one slot to the right from `k` on. */
  function Moved(t: Table, k: nat): (r: Table)
    requires WellFormed(t) && k < ATTACH_MAX
    ensures WellFormed(r) && r.count == t.count
    ensures t.count == 0 ==> r == t
    ensures forall j :: 0 <= j <= k ==> r.wins[j] == t.wins[j] && r.refcnt[j] == t.refcnt[j]
    ensures t.count > 0 ==> forall j :: k < j < ATTACH_MAX ==> r.wins[j] == t.wins[j - 1] && r.refcnt[j] == t.refcnt[j - 1]
  {
    if t.count > 0 then t.(wins := ShiftRight(t.wins, k), refcnt := ShiftRight(t.refcnt, k)) else t
  }

  /** The table after the region `x` is placed at slot `k` with count `rc`. */
  function Inserted(t: Table, k: nat, x: Region, rc: int): (r: Table)
    requires WellFormed(t) && t.count < ATTACH_MAX && k <= t.count
    ensures WellFormed(r) && r.count == t.count + 1
    ensures Live(r) == Live(t)[..k] + [x] + Live(t)[k..]
    ensures r.refcnt[k] == rc
    ensures r.refcnt[..k] == t.refcnt[..k] && r.refcnt[k + 1..r.count] == t.refcnt[k..t.count]
  {
    var moved := Moved(t, k);
    var r := Table(moved.wins[k := x], moved.refcnt[k := rc], t.count + 1);
    assert Live(r) == Live(t)[..k] + [x] + Live(t)[k..];
    r
  }

  /** The table after slot `i` is released by detach: both arrays move one
      slot to the left over it, and the count drops by one in 64-bit
      arithmetic. */
  function Removed(t: Table, i: nat): (r: Table)
    requires WellFormed(t) && i < ATTACH_MAX
    ensures t.count == 0 ==> r.count == TWO_64 - 1
    ensures i < t.count ==>
              && WellFormed(r) && r.count == t.count - 1
              && Live(r) == Live(t)[..i] + Live(t)[i + 1..]
              && r.refcnt[..i] == t.refcnt[..i]
              && r.refcnt[i..r.count] == t.refcnt[i + 1..t.count]
    ensures 0 < t.count <= i ==> WellFormed(r) && Live(r) == Live(t)[..t.count - 1]
  {
    var r := Table(ShiftLeft(t.wins, i), ShiftLeft(t.refcnt[i := 0], i), Wrap64(t.count - 1));
    assert i < t.count ==> r.wins[..t.count - 1] == Live(t)[..i] + Live(t)[i + 1..];
    r
  }

  /** `ompi_osc_ucx_win_attach`, as written.  `me` is this process's rank. */
  function Attach(t: Table, base: U64, len: U64, me: int, env: Env): (r: Outcome)
    requires WellFormed(t)
    ensures WellFormed(r.table)
    // a full table is refused before the lock is taken, whatever the range
    ensures t.count >= ATTACH_MAX ==> r == Outcome(ERR_TEMP_OUT_OF_RESOURCE, t, [])
    ensures t.count < ATTACH_MAX && env.stateLock != SUCCESS ==> r == Outcome(LockStatus(env), t, [AccAcquire(me)])
    ensures t.count < ATTACH_MAX && env.stateLock == SUCCESS ==>
              match LivePosition(t, base, len)
              // a covered range only gains a reference, whatever the release reports
              case Hit(i) =>
                r.status == SUCCESS && r.table == t.(refcnt := t.refcnt[i := t.refcnt[i] + 1])
              // a new range is registered; it is inserted at the search's
              // insertion point with the stale count of that slot plus one
              case Miss(k) =>
                && RegisterRegion(base, len) in r.trace
                && (env.register == SUCCESS ==>
                      r.status == Unlock(me, env).0 && r.table == Inserted(t, k, Region(base, len), t.refcnt[k] + 1))
                && (env.register != SUCCESS ==> r.status == env.register && r.table == Moved(t, k))
              case Overrun => false
  {
    if t.count >= ATTACH_MAX then Outcome(ERR_TEMP_OUT_OF_RESOURCE, t, [])
    else if env.stateLock != SUCCESS then Outcome(LockStatus(env), t, [AccAcquire(me)])
    else
      var (ustatus, utrace) := Unlock(me, env);
      match LivePosition(t, base, len)
      case Hit(i) =>
        Outcome(SUCCESS, t.(refcnt := t.refcnt[i := t.refcnt[i] + 1]), [AccAcquire(me)] + utrace)
      case Miss(k) =>
        var moved := Moved(t, k);
        var trace := [AccAcquire(me), RegisterRegion(base, len)] + utrace;
        if env.register != SUCCESS then Outcome(env.register, moved, trace)
        else Outcome(ustatus, Inserted(t, k, Region(base, len), moved.refcnt[k] + 1), trace)
      case Overrun => assert false; Outcome(SUCCESS, t, [])
  }

  /** `ompi_osc_ucx_win_detach`, as written: the search runs over slots
      `0..count` (one past the live ones), and neither a missed lookup nor a
      hit beyond the live slots is refused.  A search reaching past the array
      is taken to find nothing. */
  function Detach(t: Table, base: U64, me: int, env: Env): (r: Outcome)
    requires WellFormed(t)
    // only a detach from an empty table can wrap the count
    ensures t.count > 0 ==> WellFormed(r.table)
    ensures env.stateLock != SUCCESS ==> r == Outcome(LockStatus(env), t, [AccAcquire(me)])
    ensures env.stateLock == SUCCESS ==>
              && r.status == Unlock(me, env).0
              && match Find(t.wins, 0, t.count, base, 1)
                 case Hit(i) =>
                   && (t.refcnt[i] != 1 ==> r.table == t.(refcnt := t.refcnt[i := t.refcnt[i] - 1]))
                   && (t.refcnt[i] == 1 ==> DeregisterRegion(i) in r.trace && r.table == Removed(t, i))
                 case _ => r.table == t
  {
    if env.stateLock != SUCCESS then Outcome(LockStatus(env), t, [AccAcquire(me)])
    else
      var (ustatus, utrace) := Unlock(me, env);
      match Find(t.wins, 0, t.count, base, 1)
      case Hit(i) =>
        if t.refcnt[i] - 1 == 0 then Outcome(ustatus, Removed(t, i), [AccAcquire(me), DeregisterRegion(i)] + utrace)
        else Outcome(ustatus, t.(refcnt := t.refcnt[i := t.refcnt[i] - 1]), [AccAcquire(me)] + utrace)
      case _ => Outcome(ustatus, t, [AccAcquire(me)] + utrace)
  }

  /** Attach with the two defects repaired: the memory is registered before
      the table is touched, so a failed registration changes nothing, and a
      new region starts with exactly one reference. */
  function AttachFixed(t: Table, base: U64, len: U64, me: int, env: Env): (r: Outcome)
    requires WellFormed(t)
    ensures WellFormed(r.table)
    ensures t.count >= ATTACH_MAX ==> r == Outcome(ERR_TEMP_OUT_OF_RESOURCE, t, [])
    ensures r.table.count != t.count ==>
              && t.count < ATTACH_MAX && env.stateLock == SUCCESS && env.register == SUCCESS
              && LivePosition(t, base, len).Miss?
              && r.table == Inserted(t, LivePosition(t, base, len).insert, Region(base, len), 1)
    ensures t.count < ATTACH_MAX && env.stateLock == SUCCESS ==>
              match LivePosition(t, base, len)
              case Hit(i) => r.status == SUCCESS && r.table == t.(refcnt := t.refcnt[i := t.refcnt[i] + 1])
              case Miss(k) =>
                && (env.register != SUCCESS ==> r == Outcome(env.register, t, [AccAcquire(me), RegisterRegion(base, len)] + Unlock(me, env).1))
                && (env.register == SUCCESS ==> r.status == Unlock(me, env).0 && r.table.count == t.count + 1)
              case Overrun => false
  {
    if t.count >= ATTACH_MAX then Outcome(ERR_TEMP_OUT_OF_RESOURCE, t, [])
    else if env.stateLock != SUCCESS then Outcome(LockStatus(env), t, [AccAcquire(me)])
    else
      var (ustatus, utrace) := Unlock(me, env);
      match LivePosition(t, base, len)
      case Hit(i) =>
        Outcome(SUCCESS, t.(refcnt := t.refcnt[i := t.refcnt[i] + 1]), [AccAcquire(me)] + utrace)
      case Miss(k) =>
        var trace := [AccAcquire(me), RegisterRegion(base, len)] + utrace;
        if env.register != SUCCESS then Outcome(env.register, t, trace)
        else Outcome(ustatus, Inserted(t, k, Region(base, len), 1), trace)
      case Overrun => assert false; Outcome(SUCCESS, t, [])
  }

  /** Detach searching the live slots only; an address outside every live
      region leaves the table alone. */
  function DetachFixed(t: Table, base: U64, me: int, env: Env): (r: Outcome)
    requires WellFormed(t)
    ensures WellFormed(r.table)
    ensures r.table != t ==> env.stateLock == SUCCESS && LivePosition(t, base, 1).Hit?
    ensures env.stateLock == SUCCESS ==>
              && r.status == Unlock(me, env).0
              && match LivePosition(t, base, 1)
                 case Hit(i) =>
                   && (t.refcnt[i] != 1 ==> r.table == t.(refcnt := t.refcnt[i := t.refcnt[i] - 1]))
                   && (t.refcnt[i] == 1 ==> r.table == Removed(t, i))
                 case _ => r.table == t
  {
    if env.stateLock != SUCCESS then Outcome(LockStatus(env), t, [AccAcquire(me)])
    else
      var (ustatus, utrace) := Unlock(me, env);
      match LivePosition(t, base, 1)
      case Hit(i) =>
        if t.refcnt[i] - 1 == 0 then Outcome(ustatus, Removed(t, i), [AccAcquire(me), DeregisterRegion(i)] + utrace)
        else Outcome(ustatus, t.(refcnt := t.refcnt[i := t.refcnt[i] - 1]), [AccAcquire(me)] + utrace)
      case _ => Outcome(ustatus, t, [AccAcquire(me)] + utrace)
  }

  /** Both attach and detach release the accumulate lock only after fencing
      the window memory. */
  lemma TableUpdatesFenceBeforeRelease(t: Table, base: U64, len: U64, me: int, env: Env)
    requires WellFormed(t) && t.count < ATTACH_MAX && env.stateLock == SUCCESS
    ensures Precedes(Attach(t, base, len, me, env).trace, MemFence, AccRelease(me))
    ensures Precedes(Detach(t, base, me, env).trace, MemFence, AccRelease(me))
  {
    AttachFenceBeforeRelease(t, base, len, me, env);
    DetachFenceBeforeRelease(t, base, me, env);
  }

  lemma AttachFenceBeforeRelease(t: Table, base: U64, len: U64, me: int, env: Env)
    requires WellFormed(t) && t.count < ATTACH_MAX && env.stateLock == SUCCESS
    ensures Precedes(Attach(t, base, len, me, env).trace, MemFence, AccRelease(me))
  {
    var u := Unlock(me, env).1;
    PrecedesAfter([AccAcquire(me)], u, MemFence, AccRelease(me));
    PrecedesAfter([AccAcquire(me), RegisterRegion(base, len)], u, MemFence, AccRelease(me));
  }

  lemma DetachFenceBeforeRelease(t: Table, base: U64, me: int, env: Env)
    requires WellFormed(t) && env.stateLock == SUCCESS
    ensures Precedes(Detach(t, base, me, env).trace, MemFence, AccRelease(me))
  {
    var u := Unlock(me, env).1;
    PrecedesAfter([AccAcquire(me)], u, MemFence, AccRelease(me));
    match Find(t.wins, 0, t.count, base, 1)
    case Hit(i) => PrecedesAfter([AccAcquire(me), DeregisterRegion(i)], u, MemFence, AccRelease(me));
    case _ =>
  }

  // ---------------------------------------------------------------------
  // The invariant of the repaired operations
  // ---------------------------------------------------------------------

  lemma GoodEmpty()
    ensures Good(Empty())
  {
  }

  lemma SortedPrefix(wins: seq<Region>, n: nat)
    requires n <= |wins| && Sorted(wins[..n])
    ensures SortedOn(wins, 0, n - 1)
  {
    forall i, j | 0 <= i < j <= n - 1
      ensures wins[i].base <= wins[j].base
    {
      assert wins[i] == wins[..n][i] && wins[j] == wins[..n][j];
    }
  }

  /** Inserting at a point that splits a sorted sequence keeps it sorted. */
  lemma InsertKeepsSorted(s: seq<Region>, k: nat, x: Region)
    requires Sorted(s) && k <= |s|
    requires forall j :: 0 <= j < k ==> s[j].base <= x.base
    requires forall j :: k <= j < |s| ==> s[j].base > x.base
    ensures Sorted(s[..k] + [x] + s[k..])
  {
    var u := s[..k] + [x] + s[k..];
    forall i, j | 0 <= i < j < |u|
      ensures u[i].base <= u[j].base
    {
      var i' := if i < k then i else i - 1;
      var j' := if j <= k then j else j - 1;
      if i != k && j != k {
        assert u[i] == s[i'] && u[j] == s[j'];
      } else if i == k {
        assert u[j] == s[j'];
      } else {
        assert u[i] == s[i'];
      }
    }
  }

  /** Removing an element keeps a sequence sorted. */
  lemma RemoveKeepsSorted(s: seq<Region>, i: nat)
    requires Sorted(s) && i < |s|
    ensures Sorted(s[..i] + s[i + 1..])
  {
    var u := s[..i] + s[i + 1..];
    forall a, b | 0 <= a < b < |u|
      ensures u[a].base <= u[b].base
    {
      var a' := if a < i then a else a + 1;
      var b' := if b < i then b else b + 1;
      assert u[a] == s[a'] && u[b] == s[b'];
    }
  }

  /** Every live slot of a table, and so of its update, holds a reference. */
  predicate Referenced(t: Table)
    requires WellFormed(t)
  {
    forall i :: 0 <= i < t.count ==> t.refcnt[i] >= 1
  }

  lemma InsertKeepsReferenced(t: Table, k: nat, x: Region, rc: int)
    requires WellFormed(t) && t.count < ATTACH_MAX && k <= t.count
    requires Referenced(t) && rc >= 1
    ensures Referenced(Inserted(t, k, x, rc))
  {
    var r := Inserted(t, k, x, rc);
    forall i | 0 <= i < r.count
      ensures r.refcnt[i] >= 1
    {
      if i < k {
        assert r.refcnt[i] == r.refcnt[..k][i];
      } else if i > k {
        assert r.refcnt[i] == r.refcnt[k + 1..r.count][i - k - 1];
      }
    }
  }

  lemma RemoveKeepsReferenced(t: Table, i: nat)
    requires WellFormed(t) && i < t.count && Referenced(t)
    ensures WellFormed(Removed(t, i)) && Referenced(Removed(t, i))
  {
    var r := Removed(t, i);
    forall j | 0 <= j < r.count
      ensures r.refcnt[j] >= 1
    {
      if j < i {
        assert r.refcnt[j] == r.refcnt[..i][j];
      } else {
        assert r.refcnt[j] == r.refcnt[i..r.count][j - i];
      }
    }
  }

  /** Attaching keeps the live regions sorted by base and referenced. */
  lemma AttachFixedKeepsGood(t: Table, base: U64, len: U64, me: int, env: Env)
    requires Good(t)
    ensures Good(AttachFixed(t, base, len, me, env).table)
  {
    var r := AttachFixed(t, base, len, me, env);
    if r.table.count != t.count {
      MissInsertKeepsGood(t, base, len);
    }
  }

  /** Inserting a new region at the insertion point of a miss keeps the
      table good. */
  lemma MissInsertKeepsGood(t: Table, base: U64, len: U64)
    requires Good(t) && t.count < ATTACH_MAX && LivePosition(t, base, len).Miss?
    ensures Good(Inserted(t, LivePosition(t, base, len).insert, Region(base, len), 1))
  {
    var k := LivePosition(t, base, len).insert;
    MissInsertKeepsSorted(t, base, len, 1);
    InsertKeepsReferenced(t, k, Region(base, len), 1);
  }

  /** Inserting a new region at the insertion point of a miss keeps the live
      regions sorted, whatever count it starts with. */
  lemma MissInsertKeepsSorted(t: Table, base: U64, len: U64, rc: int)
    requires WellFormed(t) && Sorted(Live(t)) && t.count < ATTACH_MAX
    requires LivePosition(t, base, len).Miss?
    ensures Sorted(Live(Inserted(t, LivePosition(t, base, len).insert, Region(base, len), rc)))
  {
    var k := LivePosition(t, base, len).insert;
    if t.count > 0 {
      SortedPrefix(t.wins, t.count);
      FindMissSplits(t.wins, 0, t.count - 1, base, len, k);
    }
    InsertKeepsSorted(Live(t), k, Region(base, len));
  }

  /** The memmoves of an attach whose registration then fails keep the live
      regions sorted: slot `k` is duplicated and the last live region drops
      out. */
  lemma MovedKeepsSorted(t: Table, k: nat)
    requires WellFormed(t) && Sorted(Live(t)) && k < ATTACH_MAX
    ensures Sorted(Live(Moved(t, k)))
  {
    var r := Moved(t, k);
    forall i, j | 0 <= i < j < r.count
      ensures Live(r)[i].base <= Live(r)[j].base
    {
      var i' := if i <= k then i else i - 1;
      var j' := if j <= k then j else j - 1;
      assert Live(r)[i] == Live(t)[i'] && Live(r)[j] == Live(t)[j'];
    }
  }

  /** Attach as written keeps the live regions sorted by base, on every
      path: a failed registration leaves the arrays shifted, but still in
      order. */
  lemma AttachKeepsSorted(t: Table, base: U64, len: U64, me: int, env: Env)
    requires WellFormed(t) && Sorted(Live(t))
    ensures Sorted(Live(Attach(t, base, len, me, env).table))
  {
    if t.count < ATTACH_MAX && env.stateLock == SUCCESS {
      var p := LivePosition(t, base, len);
      if p.Miss? {
        if env.register == SUCCESS {
          MissInsertKeepsSorted(t, base, len, t.refcnt[p.insert] + 1);
        } else {
          MovedKeepsSorted(t, p.insert);
        }
      }
    }
  }

  /** Detaching keeps the live regions sorted by base and referenced. */
  lemma DetachFixedKeepsGood(t: Table, base: U64, me: int, env: Env)
    requires Good(t)
    ensures Good(DetachFixed(t, base, me, env).table)
  {
    var r := DetachFixed(t, base, me, env);
    if r.table != t {
      var i := LivePosition(t, base, 1).index;
      if t.refcnt[i] == 1 {
        RemoveKeepsSorted(Live(t), i);
        RemoveKeepsReferenced(t, i);
      }
    }
  }
}

/** Inputs on which the code as written departs from what the rest of it
    relies on, next to the repaired operations on the same inputs, and an
    input showing that attached regions may overlap. */
module RegionTableFindings {
  import opened Common
  import opened RegionTable

  function AllOk(): Env
  {
    Env(SUCCESS, SUCCESS, SUCCESS, SUCCESS)
  }

  /** [100, 110) attached to the empty table with one reference. */
  function One(): (t: Table)
    ensures WellFormed(t) && t.count == 1 && t.wins[0] == Region(100, 10) && t.refcnt[0] == 1
  {
    var t := Inserted(Empty(), 0, Region(100, 10), 1);
    assert t.wins[0] == Live(t)[0];
    t
  }

  /** [50, 60) inserted in front of [100, 110), with count `rc`. */
  function Two(rc: int): (t: Table)
    ensures WellFormed(t) && t.count == 2 && t.refcnt[0] == rc && t.refcnt[1] == 1
    ensures t.wins[0] == Region(50, 10) && t.wins[1] == Region(100, 10)
    ensures Live(t) == [Region(50, 10), Region(100, 10)]
  {
    var t := Inserted(One(), 0, Region(50, 10), rc);
    assert t.wins[0] == Live(t)[0] && t.wins[1] == Live(t)[1];
    assert t.refcnt[1] == t.refcnt[1..t.count][0];
    t
  }

  lemma AttachIntoEmpty()
    ensures Attach(Empty(), 100, 10, 0, AllOk()).table == One()
    ensures AttachFixed(Empty(), 100, 10, 0, AllOk()).table == One()
  {
  }

  lemma AttachBelowOne()
    ensures Attach(One(), 50, 10, 0, AllOk()).table == Two(2)
    ensures AttachFixed(One(), 50, 10, 0, AllOk()).table == Two(1)
  {
    assert Step(One().wins, 0, 0, 50, 10) == Below(-1, 10);
    assert LivePosition(One(), 50, 10) == Miss(0);
  }

  /** Attaching [100, 110) and then [50, 60) gives the second region the
      stale count of the slot it lands in: two references for one attach,
      so its only detach leaves it attached. */
  lemma AttachCountsStaleReference()
    ensures var t1 := Attach(Empty(), 100, 10, 0, AllOk()).table;
            Attach(t1, 50, 10, 0, AllOk()).table.count == 2
    ensures var t1 := Attach(Empty(), 100, 10, 0, AllOk()).table;
            var t2 := Attach(t1, 50, 10, 0, AllOk()).table;
            && Live(t2) == [Region(50, 10), Region(100, 10)]
            && t2.refcnt[0] == 2
            && Live(Detach(t2, 50, 0, AllOk()).table) == Live(t2)
  {
    AttachIntoEmpty();
    AttachBelowOne();
    DetachSharedRegion(Two(2));
  }

  /** The detach search over slots `0..2` finds [50, 60) in slot 0, whose
      count 2 only drops to 1. */
  lemma DetachSharedRegion(t2: Table)
    requires WellFormed(t2) && t2.count == 2 && t2.refcnt[0] == 2
    requires t2.wins[0] == Region(50, 10) && t2.wins[1] == Region(100, 10)
    ensures Detach(t2, 50, 0, AllOk()).table == t2.(refcnt := t2.refcnt[0 := 1])
  {
    assert Step(t2.wins, 0, 2, 50, 1) == Below(0, 1);
    assert Step(t2.wins, 0, 0, 50, 1) == Done(Hit(0));
    assert Find(t2.wins, 0, 2, 50, 1) == Hit(0);
  }

  /** The repaired attach gives the same region one reference, and its detach
      removes it. */
  lemma AttachFixedCountsOneReference()
    ensures var t1 := AttachFixed(Empty(), 100, 10, 0, AllOk()).table;
            var t2 := AttachFixed(t1, 50, 10, 0, AllOk()).table;
            && Live(t2) == [Region(50, 10), Region(100, 10)]
            && t2.refcnt[0] == 1
            && Live(DetachFixed(t2, 50, 0, AllOk()).table) == [Region(100, 10)]
  {
    AttachIntoEmpty();
    AttachBelowOne();
    var t2 := Two(1);
    assert Step(t2.wins, 0, 1, 50, 1) == Done(Hit(0));
    assert LivePosition(t2, 50, 1) == Hit(0);
  }

  /** Attaching [105, 120) next to [100, 110) adds a second live region
      overlapping the first: the search asks only whether one region
      contains the new range.  The repaired attach does the same and the
      table stays good, so the invariant it keeps says nothing about
      overlap. */
  lemma AttachAllowsOverlap()
    ensures Live(Attach(One(), 105, 15, 0, AllOk()).table) == [Region(100, 10), Region(105, 15)]
    ensures var t := AttachFixed(One(), 105, 15, 0, AllOk()).table;
            && Good(t)
            && Live(t) == [Region(100, 10), Region(105, 15)]
            && t.wins[0].base < t.wins[1].base < End(t.wins[0])
  {
    OverlapAttach(One());
  }

  /** The same from any table whose one live slot is [100, 110). */
  lemma OverlapAttach(t1: Table)
    requires WellFormed(t1) && t1.count == 1 && t1.wins[0] == Region(100, 10) && t1.refcnt[0] == 1
    ensures Live(Attach(t1, 105, 15, 0, AllOk()).table) == [Region(100, 10), Region(105, 15)]
    ensures var t := AttachFixed(t1, 105, 15, 0, AllOk()).table;
            && Good(t)
            && Live(t) == [Region(100, 10), Region(105, 15)]
            && t.wins[0].base < t.wins[1].base < End(t.wins[0])
  {
    OverlapMisses(t1);
    AttachFixedKeepsGood(t1, 105, 15, 0, AllOk());
    var t := AttachFixed(t1, 105, 15, 0, AllOk()).table;
    assert t.wins[0] == Live(t)[0] && t.wins[1] == Live(t)[1];
  }

  /** Over the one live slot [100, 110) the search for [105, 120) misses
      after it. */
  lemma OverlapMisses(t: Table)
    requires WellFormed(t) && t.count == 1 && t.wins[0] == Region(100, 10) && t.refcnt[0] == 1
    ensures Good(t) && Live(t) == [Region(100, 10)]
    ensures LivePosition(t, 105, 15) == Miss(1)
  {
    assert Step(t.wins, 0, 0, 105, 15) == Above(1, 15);
    assert Live(t) == [t.wins[0]];
  }

  /** [50, 51), a region of size 1, inserted in front of [100, 110), each
      with one reference. */
  function UnitPair(): (t: Table)
    ensures WellFormed(t) && t.count == 2 && t.refcnt[0] == 1 && t.refcnt[1] == 1
    ensures t.wins[0] == Region(50, 1) && t.wins[1] == Region(100, 10)
  {
    var t := Inserted(One(), 0, Region(50, 1), 1);
    assert t.wins[0] == Live(t)[0] && t.wins[1] == Live(t)[1];
    assert t.refcnt[1] == t.refcnt[1..t.count][0];
    t
  }

  /** Once the search probes a region of size 1 it drops the query length,
      and its containment test then accepts a query base equal to a region's
      end.  Next to [50, 51), attaching [110, 120) counts as covered by
      [100, 110) and only raises its count, in both attaches, so [110, 120)
      is never registered; and the address 51, one past [50, 51), finds that
      region, in both detach searches. */
  lemma UnitRegionStretchesSearch()
    ensures var t := UnitPair();
            && Good(t)
            && End(t.wins[1]) == 110
            && Attach(t, 110, 10, 0, AllOk()) == AttachFixed(t, 110, 10, 0, AllOk())
            && Attach(t, 110, 10, 0, AllOk()).status == SUCCESS
            && Attach(t, 110, 10, 0, AllOk()).table == t.(refcnt := t.refcnt[1 := 2])
            && End(t.wins[0]) == 51
            && Find(t.wins, 0, t.count, 51, 1) == Hit(0)
            && LivePosition(t, 51, 1) == Hit(0)
  {
    UnitSearch(UnitPair());
  }

  /** The searches of `UnitRegionStretchesSearch` on any table holding
      [50, 51) and [100, 110) as its two live slots. */
  lemma UnitSearch(t: Table)
    requires WellFormed(t) && t.count == 2 && t.refcnt[0] == 1 && t.refcnt[1] == 1
    requires t.wins[0] == Region(50, 1) && t.wins[1] == Region(100, 10)
    ensures Good(t)
    ensures LivePosition(t, 110, 10) == Hit(1)
    ensures Attach(t, 110, 10, 0, AllOk()) == AttachFixed(t, 110, 10, 0, AllOk())
    ensures Attach(t, 110, 10, 0, AllOk()).status == SUCCESS
    ensures Attach(t, 110, 10, 0, AllOk()).table == t.(refcnt := t.refcnt[1 := 2])
    ensures Find(t.wins, 0, t.count, 51, 1) == Hit(0)
    ensures LivePosition(t, 51, 1) == Hit(0)
  {
    assert Live(t) == [t.wins[0], t.wins[1]];
    assert Step(t.wins, 0, 1, 110, 10) == Above(1, 0);
    assert Step(t.wins, 1, 1, 110, 0) == Done(Hit(1));
    assert Step(t.wins, 0, 2, 51, 1) == Below(0, 1);
    assert Step(t.wins, 0, 0, 51, 1) == Done(Hit(0));
    assert Step(t.wins, 0, 1, 51, 1) == Done(Hit(0));
  }

  /** [100, 110) and [200, 210) in slots 0 and 1, each with one reference,
      the first `n` of them live. */
  function Pair(n: U64): (t: Table)
    requires n <= 2
    ensures WellFormed(t) && t.count == n
    ensures t.wins[0] == Region(100, 10) && t.wins[1] == Region(200, 10)
    ensures t.refcnt[0] == 1 && t.refcnt[1] == 1
  {
    var t := Table([Region(100, 10), Region(200, 10)] + seq(ATTACH_MAX - 2, _ => Region(0, 0)),
                   [1, 1] + seq(ATTACH_MAX - 2, _ => 0), n);
    assert t.wins[0] == Region(100, 10) && t.wins[1] == Region(200, 10);
    t
  }

  /** Two attached regions [100, 110) and [200, 210); attaching [50, 60) with a
      failing registration shifts the table and keeps the count, so the last
      attached region drops out of the live slots and the first appears twice. */
  lemma FailedAttachDropsRegion()
    ensures var t := Pair(2);
            && Good(t)
            && Live(Attach(t, 50, 10, 0, Env(SUCCESS, ERROR, SUCCESS, SUCCESS)).table)
               == [Region(100, 10), Region(100, 10)]
            && AttachFixed(t, 50, 10, 0, Env(SUCCESS, ERROR, SUCCESS, SUCCESS)).table == t
  {
    var t := Pair(2);
    assert Find(t.wins, 0, 1, 50, 10) == Miss(0);
    var m := Moved(t, 0);
    assert m.wins[0] == Region(100, 10) && m.wins[1] == Region(100, 10);
    assert Live(m) == [m.wins[0], m.wins[1]];
  }

  /** Every region of a full table lies below the address: the detach search
      over slots `0..count` reads the slot one past the array. */
  lemma DetachSearchOverruns(t: Table, base: U64)
    requires WellFormed(t) && t.count == ATTACH_MAX && base + 1 < TWO_64
    requires forall i :: 0 <= i < ATTACH_MAX ==> t.wins[i].base <= End(t.wins[i]) < base
    ensures Find(t.wins, 0, t.count, base, 1) == Overrun
    ensures !LivePosition(t, base, 1).Overrun?
  {
    FindPastEnd(t.wins, 0, base, 1);
  }

  lemma {:induction false} FindPastEnd(wins: seq<Region>, lo: nat, base: U64, len: U64)
    requires lo <= |wins| && len <= 1 && base + 1 < TWO_64
    requires forall i :: lo <= i < |wins| ==> wins[i].base <= End(wins[i]) < base
    ensures Find(wins, lo, |wins|, base, len) == Overrun
    decreases |wins| - lo
  {
    match Step(wins, lo, |wins|, base, len)
    case Done(p) =>
    case Below(h, n) =>
    case Above(l, n) => FindPastEnd(wins, l, base, n);
  }

  /** Slot 1 still holds [200, 210) with one reference while only slot 0 is
      live.  Detaching an address of that stale region removes slot 1 and
      drops the count, so the live region [100, 110) is lost; the repaired
      detach leaves the table unchanged. */
  lemma DetachMatchesStaleSlot()
    ensures var t := Pair(1);
            && Good(t)
            && Live(Detach(t, 205, 0, AllOk()).table) == []
            && DetachFixed(t, 205, 0, AllOk()).table == t
  {
    StaleSlotDetach(Pair(1));
  }

  /** Detach of 205 from such a table removes slot 1 and empties the live
      slots; the repaired detach misses. */
  lemma StaleSlotDetach(t: Table)
    requires WellFormed(t) && t.count == 1 && t.refcnt[0] == 1 && t.refcnt[1] == 1
    requires t.wins[0] == Region(100, 10) && t.wins[1] == Region(200, 10)
    ensures Good(t)
    ensures Live(Detach(t, 205, 0, AllOk()).table) == []
    ensures DetachFixed(t, 205, 0, AllOk()).table == t
  {
    StaleSlotSearch(t.wins);
    assert LivePosition(t, 205, 1) == Miss(1);
    assert Live(Removed(t, 1)) == Live(t)[..0];
  }

  /** Over slots `0..1` the search for 205 finds [200, 210) in slot 1; over
      the live slot 0 alone it misses. */
  lemma StaleSlotSearch(wins: seq<Region>)
    requires |wins| == ATTACH_MAX && wins[0] == Region(100, 10) && wins[1] == Region(200, 10)
    ensures Find(wins, 0, 1, 205, 1) == Hit(1)
    ensures Find(wins, 0, 0, 205, 1) == Miss(1)
  {
    assert Step(wins, 0, 1, 205, 1) == Above(1, 1);
    assert Step(wins, 1, 1, 205, 1) == Done(Hit(1));
    assert Step(wins, 0, 0, 205, 1) == Above(1, 1);
  }
}
