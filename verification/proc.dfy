/** Process names and the "current local process" of `opal/util/proc.c`:
    the three-way comparator on names, the swap of the local process object
    with its reference counting, and the hostname lookup used before a
    runtime environment installs its own. */
module Proc {
  import opened Common

  const TWO_32: int := 0x1_0000_0000

  /** An unsigned 32-bit job id or vpid. */
  type U32 = x: int | 0 <= x < TWO_32

  datatype ProcName = ProcName(jobid: U32, vpid: U32)

  /** `opal_compare_opal_procs`: job id first, vpid to break a tie. */
  function Compare(a: ProcName, b: ProcName): (r: int)
    ensures r == -1 || r == 0 || r == 1
    ensures r == 0 <==> a == b
  {
    if a.jobid < b.jobid then -1
    else if a.jobid > b.jobid then 1
    else if a.vpid < b.vpid then -1
    else if a.vpid > b.vpid then 1
    else 0
  }

  /** A name read as one 64-bit number, job id in the high half. */
  function Key(n: ProcName): int
  {
    n.jobid * TWO_32 + n.vpid
  }

  function Sign(x: int): int
  {
    if x < 0 then -1 else if x > 0 then 1 else 0
  }

  /** The comparator orders names as their 64-bit keys: lexicographically
      on (job id, vpid). */
  lemma CompareIsKeyOrder(a: ProcName, b: ProcName)
    ensures Compare(a, b) == Sign(Key(a) - Key(b))
  {
    if a.jobid < b.jobid {
      KeyHighDominates(a, b);
    } else if a.jobid > b.jobid {
      KeyHighDominates(b, a);
    }
  }

  lemma KeyHighDominates(a: ProcName, b: ProcName)
    requires a.jobid < b.jobid
    ensures Key(a) < Key(b)
  {
    assert Key(a) < (a.jobid + 1) * TWO_32;
    assert (a.jobid + 1) * TWO_32 <= b.jobid * TWO_32;
  }

  /** Swapping the arguments negates the result. */
  lemma CompareAntisymmetric(a: ProcName, b: ProcName)
    ensures Compare(a, b) == -Compare(b, a)
  {
    CompareIsKeyOrder(a, b);
    CompareIsKeyOrder(b, a);
  }

  /** The order is transitive, so the comparator is a total order. */
  lemma CompareTransitive(a: ProcName, b: ProcName, c: ProcName)
    requires Compare(a, b) <= 0 && Compare(b, c) <= 0
    ensures Compare(a, c) <= 0
  {
    CompareIsKeyOrder(a, b);
    CompareIsKeyOrder(b, c);
    CompareIsKeyOrder(a, c);
  }

  // ---------------------------------------------------------------------
  // The current local process
  // ---------------------------------------------------------------------

  /** A pointer to a process object: NULL, the static default object, or a
      heap object identified by an id. */
  datatype ProcPtr = Null | Static | Obj(id: nat)

  /** The module's view of the heap: the current local process and the
      reference count of every live object (the static one included). */
  datatype LocalState = LocalState(current: ProcPtr, refs: map<ProcPtr, int>)

  /** The current process is a live object, and a heap object is only kept
      alive while someone holds a reference. */
  predicate Valid(s: LocalState)
  {
    && s.current != Null
    && Null !in s.refs
    && s.current in s.refs
    && (forall p :: p in s.refs && p != Static ==> s.refs[p] >= 1)
  }

  /** The initial state: the static object, which nobody can free. */
  function Initial(): (s: LocalState)
    ensures Valid(s) && s.current == Static
  {
    LocalState(Static, map[Static := 1])
  }

  /** `OBJ_RETAIN`. */
  function Retain(refs: map<ProcPtr, int>, p: ProcPtr): map<ProcPtr, int>
    requires p in refs
  {
    refs[p := refs[p] + 1]
  }

  /** `OBJ_RELEASE`: the last release destroys the object. */
  function Release(refs: map<ProcPtr, int>, p: ProcPtr): map<ProcPtr, int>
    requires p in refs
  {
    if refs[p] <= 1 then refs - {p} else refs[p := refs[p] - 1]
  }

  /** `opal_proc_local_get`. */
  function LocalGet(s: LocalState): ProcPtr
  {
    s.current
  }

  /** `opal_proc_local_set`.  The argument must be NULL or a live object;
      the call always succeeds. */
  function LocalSet(s: LocalState, p: ProcPtr): (r: (Status, LocalState))
    requires Valid(s) && (p == Null || p in s.refs)
    ensures r.0 == SUCCESS
    ensures p == s.current ==> r.1 == s
    ensures LocalGet(r.1) == (if p == Null then Static else p)
  {
    if p == s.current then (SUCCESS, s)
    else
      var held := if p != Null then Retain(s.refs, p) else s.refs;
      var dropped := if s.current != Static then Release(held, s.current) else held;
      (SUCCESS, LocalState(if p != Null then p else Static, dropped))
  }

  /** Reference counting across a swap: the new object gains a reference,
      the old one loses the reference the module held unless it is the
      static object, and every other object is untouched. */
  lemma LocalSetCounts(s: LocalState, p: ProcPtr, q: ProcPtr)
    requires Valid(s) && (p == Null || p in s.refs) && p != s.current
    requires q in s.refs
    ensures var t := LocalSet(s, p).1;
            var gained := if q == p then 1 else 0;
            var lost := if q == s.current && q != Static then 1 else 0;
            (q in t.refs <==> s.refs[q] + gained - lost >= 1 || q == Static)
            && (q in t.refs ==> t.refs[q] == s.refs[q] + gained - lost)
  {
  }

  /** A swap keeps the state valid, with the static object never freed. */
  lemma LocalSetKeepsValid(s: LocalState, p: ProcPtr)
    requires Valid(s) && (p == Null || p in s.refs)
    requires Static in s.refs
    ensures Valid(LocalSet(s, p).1) && Static in LocalSet(s, p).1.refs
  {
  }

  /** Setting the current process back to what it was restores the
      pointer, and the object first set keeps the count it had. */
  lemma LocalSetRoundTrip(s: LocalState, p: ProcPtr)
    requires Valid(s) && s.current != Static && s.refs[s.current] >= 2
    requires p in s.refs && p != s.current && p != Static
    ensures var t := LocalSet(s, p).1;
            s.current in t.refs && LocalGet(LocalSet(t, s.current).1) == s.current
            && LocalSet(t, s.current).1.refs[s.current] == s.refs[s.current]
  {
  }

  /** `opal_get_proc_hostname_local_only`: only the current process's own
      node name is known. */
  function HostnameLocalOnly(s: LocalState, p: ProcPtr, nodename: string): (h: string)
    ensures p != Null && p == LocalGet(s) ==> h == nodename
    ensures p == Null || p != LocalGet(s) ==> h == "unknown"
  {
    if p == Null then "unknown"
    else if p == s.current then nodename
    else "unknown"
  }

  /** After a swap, the hostname lookup answers for the new process and
      for no other. */
  lemma HostnameFollowsLocalSet(s: LocalState, p: ProcPtr, q: ProcPtr, nodename: string)
    requires Valid(s) && p in s.refs && nodename != "unknown"
    ensures HostnameLocalOnly(LocalSet(s, p).1, q, nodename) == nodename <==> q == p
  {
  }
}
