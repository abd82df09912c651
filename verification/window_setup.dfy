/** The pure pieces of window creation in `osc_ucx_component.c`: the test
    for a uniform displacement unit, the displacements of the gathered
    address blobs, the layout of a shared-memory segment, and the count of
    windows that keeps the progress callback registered. */
module WindowSetup {
  import opened Common

  // ---------------------------------------------------------------------
  // Sums
  // ---------------------------------------------------------------------

  /** Sum of a sequence, taken from the back so that prefixes extend it. */
  function Sum(s: seq<int>): int
  {
    if |s| == 0 then 0 else Sum(s[..|s| - 1]) + s[|s| - 1]
  }

  predicate NonNegative(s: seq<int>)
  {
    forall i :: 0 <= i < |s| ==> s[i] >= 0
  }

  /** Extending a prefix by one element adds that element. */
  lemma SumStep(s: seq<int>, i: nat)
    requires i < |s|
    ensures Sum(s[..i + 1]) == Sum(s[..i]) + s[i]
  {
    assert s[..i + 1][..i] == s[..i];
  }

  /** With non-negative entries, a longer prefix never sums to less. */
  lemma {:induction false} SumMonotone(s: seq<int>, i: nat, j: nat)
    requires NonNegative(s) && i <= j <= |s|
    ensures Sum(s[..i]) <= Sum(s[..j])
    decreases j - i
  {
    if i < j {
      SumMonotone(s, i, j - 1);
      SumStep(s, j - 1);
    }
  }

  // ---------------------------------------------------------------------
  // Displacement units
  // ---------------------------------------------------------------------

  /** MPI_MIN reduction. */
  function Min(s: seq<int>): (m: int)
    requires |s| > 0
    ensures forall i :: 0 <= i < |s| ==> m <= s[i]
    ensures exists i :: 0 <= i < |s| && m == s[i]
  {
    if |s| == 1 then s[0]
    else
      var m := Min(s[..|s| - 1]);
      assert forall i :: 0 <= i < |s| - 1 ==> s[..|s| - 1][i] == s[i];
      if s[|s| - 1] < m then s[|s| - 1] else m
  }

  function Negated(s: seq<int>): (n: seq<int>)
    ensures |n| == |s| && forall i :: 0 <= i < |s| ==> n[i] == -s[i]
  {
    seq(|s|, i requires 0 <= i < |s| => -s[i])
  }

  /** The test of `component_select`: reduce `(d, -d)` with MPI_MIN over all
      processes and compare the minimum with the negated second minimum,
      that is with the maximum.  `units` holds one unit per process. */
  function SameDispUnit(units: seq<int>): bool
    requires |units| > 0
  {
    Min(units) == -Min(Negated(units))
  }

  /** The test passes exactly when every process gave the same unit. */
  lemma SameDispUnitIff(units: seq<int>)
    requires |units| > 0
    ensures SameDispUnit(units) <==> forall i, j :: 0 <= i < |units| && 0 <= j < |units| ==> units[i] == units[j]
  {
    var lo := Min(units);
    var hi := -Min(Negated(units));
    assert forall i :: 0 <= i < |units| ==> lo <= units[i] <= hi;
    var k :| 0 <= k < |units| && Min(Negated(units)) == Negated(units)[k];
    assert units[k] == hi;
    if forall i, j :: 0 <= i < |units| && 0 <= j < |units| ==> units[i] == units[j] {
      var m :| 0 <= m < |units| && lo == units[m];
      assert units[m] == units[k];
    }
  }

  /** The unit the module records: the common one, or -1 when the units
      differ (they are then gathered per process). */
  function ModuleDispUnit(units: seq<int>, mine: int): (d: int)
    requires |units| > 0
    ensures (forall i :: 0 <= i < |units| ==> units[i] == units[0]) ==> d == mine
    ensures (exists i :: 0 <= i < |units| && units[i] != units[0]) ==> d == -1
  {
    SameDispUnitIff(units);
    if SameDispUnit(units) then mine else -1
  }

  // ---------------------------------------------------------------------
  // Displacements of the exchanged blobs
  // ---------------------------------------------------------------------

  /** The loop of `exchange_len_info_v1`: each process's blob starts where
      the previous ones end. */
  method Displacements(lens: seq<int>) returns (disps: seq<int>, total: int)
    ensures |disps| == |lens|
    ensures forall i :: 0 <= i < |lens| ==> disps[i] == Sum(lens[..i])
    ensures total == Sum(lens)
  {
    disps := [];
    total := 0;
    var i := 0;
    while i < |lens|
      invariant 0 <= i <= |lens| && |disps| == i
      invariant forall k :: 0 <= k < i ==> disps[k] == Sum(lens[..k])
      invariant total == Sum(lens[..i])
    {
      disps := disps + [total];
      SumStep(lens, i);
      total := total + lens[i];
      i := i + 1;
    }
    assert lens[..i] == lens;
  }

  /** The blobs tile the receive buffer: consecutive, in rank order, and
      inside the total length. */
  lemma DisplacementsTile(lens: seq<int>, i: nat)
    requires NonNegative(lens) && i < |lens|
    ensures Sum(lens[..i]) + lens[i] == Sum(lens[..i + 1])
    ensures 0 <= Sum(lens[..i]) && Sum(lens[..i + 1]) <= Sum(lens)
  {
    SumStep(lens, i);
    SumMonotone(lens, 0, i);
    SumMonotone(lens, i + 1, |lens|);
    assert lens[..|lens|] == lens;
  }

  // ---------------------------------------------------------------------
  // Shared-memory segment
  // ---------------------------------------------------------------------

  /** A process's share of a non-contiguous segment: its size rounded up to
      whole pages, in `size_t` arithmetic. */
  function PageRound(size: U64, pagesize: U64): U64
    requires pagesize > 0
  {
    Wrap64((Wrap64(size - 1) / pagesize + 1) * pagesize)
  }

  /** The share `component_select` gathers: the page-rounded size for a
      non-contiguous segment, the size itself otherwise. */
  function Share(size: U64, pagesize: U64, noncontig: bool): U64
    requires pagesize > 0
  {
    if noncontig then PageRound(size, pagesize) else size
  }

  /** Without overflow, rounding covers the size with less than a page to
      spare and lands on a page boundary. */
  lemma PageRoundCovers(size: U64, pagesize: U64)
    requires pagesize > 0 && 0 < size && size + pagesize <= TWO_64
    ensures var r := PageRound(size, pagesize);
            size <= r < size + pagesize && r % pagesize == 0
  {
    var q := (size - 1) / pagesize;
    var m := (size - 1) % pagesize;
    assert Wrap64(size - 1) == size - 1;
    DivMod(size - 1, pagesize);
    assert (q + 1) * pagesize == q * pagesize + pagesize;
    MultipleMod(q + 1, pagesize);
  }

  lemma DivMod(n: int, d: int)
    requires d > 0
    ensures n == (n / d) * d + n % d && 0 <= n % d < d
  {
  }

  lemma MultipleMod(k: int, d: int)
    requires d > 0
    ensures (k * d) % d == 0
  {
    var x := k * d;
    DivMod(x, d);
    var c := k - x / d;
    assert x % d == c * d by {
      assert x - (x / d) * d == k * d - (x / d) * d == (k - x / d) * d;
    }
    if c >= 1 {
      MulAtLeast(c, d);
    } else if c <= -1 {
      MulAtLeast(-c, d);
    }
  }

  lemma MulAtLeast(c: int, d: int)
    requires c >= 1 && d > 0
    ensures c * d >= d
  {
    assert c * d == (c - 1) * d + d;
    assert (c - 1) * d >= 0;
  }

  /** An empty share rounds to zero when the page size divides 2^64, as
      every power of two up to it does: `size - 1` wraps round and the
      multiplication wraps back. */
  lemma PageRoundEmpty(pagesize: U64)
    requires pagesize > 0 && TWO_64 % pagesize == 0
    ensures PageRound(0, pagesize) == 0
  {
    var n := TWO_64 / pagesize;
    assert TWO_64 == n * pagesize;
    assert TWO_64 - 1 == (n - 1) * pagesize + (pagesize - 1);
    assert (TWO_64 - 1) / pagesize == n - 1;
  }

  /** A share is given an address in the segment unless it is empty in a
      non-contiguous segment. */
  predicate Placed(size: U64, noncontig: bool)
  {
    size != 0 || !noncontig
  }

  /** Closed form of the layout: a placed share starts after all earlier
      shares, counted from the segment base in 64-bit arithmetic; an
      unplaced one gets the null address. */
  function Layout(segBase: U64, sizes: seq<U64>, noncontig: bool): (addrs: seq<U64>)
    ensures |addrs| == |sizes|
  {
    seq(|sizes|, i requires 0 <= i < |sizes| => Addr(segBase, sizes, noncontig, i))
  }

  function Addr(segBase: U64, sizes: seq<U64>, noncontig: bool, i: nat): U64
    requires i < |sizes|
  {
    if Placed(sizes[i], noncontig) then Wrap64(segBase + Sum(sizes[..i])) else 0
  }

  lemma WrapAdd(a: int, b: int)
    ensures Wrap64(Wrap64(a) + b) == Wrap64(a + b)
  {
  }

  /** The first loop of `component_select` over the gathered shares: the
      segment size, summed in 64-bit arithmetic (the segment is created only
      when it is not zero). */
  method SegmentTotal(sizes: seq<U64>) returns (total: U64)
    ensures total == Wrap64(Sum(sizes))
    ensures NoWrap(sizes) ==> (total == 0 <==> forall i :: 0 <= i < |sizes| ==> sizes[i] == 0)
  {
    total := 0;
    var i := 0;
    while i < |sizes|
      invariant 0 <= i <= |sizes|
      invariant total == Wrap64(Sum(sizes[..i]))
    {
      SumStep(sizes, i);
      WrapAdd(Sum(sizes[..i]), sizes[i]);
      total := Wrap64(total + sizes[i]);
      i := i + 1;
    }
    assert sizes[..i] == sizes;
    SumZero(sizes);
  }

  /** The segment size does not wrap round. */
  predicate NoWrap(sizes: seq<U64>)
  {
    Sum(sizes) < TWO_64
  }

  /** A sum of non-negative sizes is zero exactly when every size is. */
  lemma {:induction false} SumZero(sizes: seq<int>)
    requires NonNegative(sizes)
    ensures Sum(sizes) >= 0
    ensures Sum(sizes) == 0 <==> forall i :: 0 <= i < |sizes| ==> sizes[i] == 0
  {
    if |sizes| > 0 {
      var init := sizes[..|sizes| - 1];
      assert forall i :: 0 <= i < |init| ==> init[i] == sizes[i];
      SumZero(init);
    }
  }

  /** The second loop: each process's address in the segment. */
  method ShmemLayout(segBase: U64, sizes: seq<U64>, noncontig: bool) returns (addrs: seq<U64>)
    ensures addrs == Layout(segBase, sizes, noncontig)
  {
    addrs := [];
    var offset: U64 := 0;
    var i := 0;
    while i < |sizes|
      invariant 0 <= i <= |sizes| && |addrs| == i
      invariant offset == Wrap64(Sum(sizes[..i]))
      invariant forall k :: 0 <= k < i ==> addrs[k] == Addr(segBase, sizes, noncontig, k)
    {
      SumStep(sizes, i);
      WrapAdd(Sum(sizes[..i]), sizes[i]);
      if Placed(sizes[i], noncontig) {
        WrapAdd(Sum(sizes[..i]), segBase);
        addrs := addrs + [Wrap64(segBase + offset)];
        offset := Wrap64(offset + sizes[i]);
      } else {
        addrs := addrs + [0];
      }
      i := i + 1;
    }
  }

  /** When the segment fits below 2^64, placed shares follow one another
      without overlap, in rank order, inside the segment. */
  lemma LayoutDisjoint(segBase: U64, sizes: seq<U64>, noncontig: bool, i: nat, j: nat)
    requires segBase + Sum(sizes) < TWO_64
    requires i < j < |sizes| && Placed(sizes[i], noncontig) && Placed(sizes[j], noncontig)
    ensures var a := Layout(segBase, sizes, noncontig);
            segBase <= a[i] && a[i] as int + sizes[i] <= a[j] && a[j] as int + sizes[j] <= segBase + Sum(sizes)
  {
    var a := Layout(segBase, sizes, noncontig);
    assert NonNegative(sizes);
    SumMonotone(sizes, 0, i);
    SumStep(sizes, i);
    SumMonotone(sizes, i + 1, j);
    SumStep(sizes, j);
    SumMonotone(sizes, j + 1, |sizes|);
    assert sizes[..|sizes|] == sizes;
    WrapSmall(segBase + Sum(sizes[..i]));
    WrapSmall(segBase + Sum(sizes[..j]));
    assert a[i] == segBase + Sum(sizes[..i]);
    assert a[j] == segBase + Sum(sizes[..j]);
  }

  lemma WrapSmall(x: int)
    requires 0 <= x < TWO_64
    ensures Wrap64(x) == x
  {
  }

  // ---------------------------------------------------------------------
  // Progress callback
  // ---------------------------------------------------------------------

  /** The component's count of live windows and whether the progress
      callback is registered. */
  datatype Progress = Progress(numModules: int, registered: bool)

  /** `component_select`: count the window; the first one registers the
      callback. */
  function AddWindow(p: Progress): (r: Progress)
    ensures r.numModules == p.numModules + 1
    ensures r.registered <==> p.registered || p.numModules == 0
  {
    var n := p.numModules + 1;
    Progress(n, if n == 1 then true else p.registered)
  }

  /** `ompi_osc_ucx_unregister_progress`: uncount the window; the last one
      unregisters the callback. */
  function RemoveWindow(p: Progress): (r: Progress)
    ensures r.numModules == p.numModules - 1
    ensures r.registered <==> p.registered && p.numModules != 1
  {
    var n := p.numModules - 1;
    Progress(n, if n == 0 then false else p.registered)
  }

  /** The callback is registered exactly while a window is live. */
  predicate ProgressInv(p: Progress)
  {
    p.numModules >= 0 && (p.registered <==> p.numModules > 0)
  }

  /** Window creations (`true`) and frees (`false`) in order. */
  function ApplyWindows(p: Progress, ops: seq<bool>): Progress
    decreases |ops|
  {
    if |ops| == 0 then p
    else ApplyWindows(if ops[0] then AddWindow(p) else RemoveWindow(p), ops[1..])
  }

  /** Number of creations minus frees in `ops`. */
  function Balance(ops: seq<bool>): int
  {
    if |ops| == 0 then 0 else (if ops[0] then 1 else -1) + Balance(ops[1..])
  }

  /** Every prefix frees no more windows than were live. */
  predicate NeverBelow(n: int, ops: seq<bool>)
  {
    forall k :: 0 <= k <= |ops| ==> n + Balance(ops[..k]) >= 0
  }

  lemma {:induction false} ApplyWindowsKeepsInv(p: Progress, ops: seq<bool>)
    requires ProgressInv(p) && NeverBelow(p.numModules, ops)
    ensures ProgressInv(ApplyWindows(p, ops))
    ensures ApplyWindows(p, ops).numModules == p.numModules + Balance(ops)
    decreases |ops|
  {
    if |ops| > 0 {
      var q := if ops[0] then AddWindow(p) else RemoveWindow(p);
      assert ops[..1] == [ops[0]];
      assert Balance([ops[0]]) == (if ops[0] then 1 else -1);
      forall k | 0 <= k <= |ops| - 1
        ensures q.numModules + Balance(ops[1..][..k]) >= 0
      {
        assert ops[..k + 1] == [ops[0]] + ops[1..][..k];
        assert Balance(ops[..k + 1]) == (if ops[0] then 1 else -1) + Balance(ops[1..][..k]);
      }
      ApplyWindowsKeepsInv(q, ops[1..]);
    } else {
      assert ops[..0] == [];
    }
  }
}
