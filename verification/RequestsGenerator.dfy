/** The request generator of `requests_generator.py`: two arrays whose live
    prefixes list the free and the allocated blocks. Removing an entry moves the
    last live entry into its place. Random numbers are arbitrary choices. */
module RequestsGenerator {
  import opened Ring
  import opened Permutations
  import opened AllocationMap
  import opened Requests

  const MAX_ALLOC_REQUEST_SZ := 2016

  datatype Mode = Batch | Targeted

  // ----- what the generator may write -----

  /** The generator's state without the order of its lists; the blocks below `nb`
      that are not free are taken. */
  datatype GenState = GenState(free: set<int>, allocedBlocks: int, freedBlocks: int)

  /** The test of the main loop. */
  predicate GoesOn(s: GenState, nAlloc: int, nFree: int) {
    s.allocedBlocks < nAlloc || s.freedBlocks < nFree
  }

  /** One pass of the main loop may write `r` and lead from `s` to `t`. */
  ghost predicate MayStep(mode: Mode, nb: nat, nAlloc: int, nFree: int, s: GenState, r: Request, t: GenState) {
    match r
    case Alloc(c) =>
      && mode.Batch? && s.allocedBlocks < nAlloc
      && 1 <= c <= |s.free| && c <= MAX_ALLOC_REQUEST_SZ
      && t.free <= s.free && |t.free| == |s.free| - c
      && t.allocedBlocks == s.allocedBlocks + c && t.freedBlocks == s.freedBlocks
    case Delete(b) =>
      && mode.Targeted? && s.allocedBlocks < nAlloc
      && b in s.free
      && t == GenState(s.free - {b}, s.allocedBlocks + 1, s.freedBlocks)
    case Free(b) =>
      && s.freedBlocks < nFree
      && 0 <= b < nb && b !in s.free
      && t == GenState(s.free + {b}, s.allocedBlocks, s.freedBlocks + 1)
    case Other => false
  }

  /** Some number of passes may write `trace` and lead from `s` to `t`; passes that
      write nothing change nothing. */
  ghost predicate MayWrite(mode: Mode, nb: nat, nAlloc: int, nFree: int, s: GenState, trace: seq<Request>, t: GenState)
    decreases |trace|
  {
    if trace == [] then t == s
    else
      var last := |trace| - 1;
      exists m :: MayWrite(mode, nb, nAlloc, nFree, s, trace[..last], m)
               && MayStep(mode, nb, nAlloc, nFree, m, trace[last], t)
  }

  lemma MayWriteAppend(mode: Mode, nb: nat, nAlloc: int, nFree: int, s: GenState, trace: seq<Request>, m: GenState,
                       r: Request, t: GenState)
    requires MayWrite(mode, nb, nAlloc, nFree, s, trace, m) && MayStep(mode, nb, nAlloc, nFree, m, r, t)
    ensures MayWrite(mode, nb, nAlloc, nFree, s, trace + [r], t)
  {
    var all := trace + [r];
    assert all[..|all| - 1] == trace && all[|all| - 1] == r;
  }

  /** Over any run the counters differ by the change of the number of free blocks,
      they only grow, the free counter stops at its target, and blocks stay in range. */
  lemma {:induction false} MayWriteCounts(mode: Mode, nb: nat, nAlloc: int, nFree: int, s: GenState,
                                          trace: seq<Request>, t: GenState)
    requires MayWrite(mode, nb, nAlloc, nFree, s, trace, t)
    requires forall x :: x in s.free ==> 0 <= x < nb
    ensures forall x :: x in t.free ==> 0 <= x < nb
    ensures t.allocedBlocks - s.allocedBlocks == t.freedBlocks - s.freedBlocks + |s.free| - |t.free|
    ensures t.allocedBlocks >= s.allocedBlocks && t.freedBlocks >= s.freedBlocks
    ensures t.freedBlocks <= if s.freedBlocks >= nFree then s.freedBlocks else nFree
    decreases |trace|
  {
    if trace != [] {
      var last := |trace| - 1;
      var m :| MayWrite(mode, nb, nAlloc, nFree, s, trace[..last], m)
            && MayStep(mode, nb, nAlloc, nFree, m, trace[last], t);
      MayWriteCounts(mode, nb, nAlloc, nFree, s, trace[..last], m);
    }
  }

  /** The most that one request may allocate. */
  function Most(mode: Mode, nb: nat): nat {
    match mode
    case Targeted => 1
    case Batch => if nb < MAX_ALLOC_REQUEST_SZ then nb else MAX_ALLOC_REQUEST_SZ
  }

  /** What a caller can check before a run: with so many allocations and frees to go,
      the free list need neither run dry nor fill up before both targets are met. Only
      the last allocation may exceed the target. */
  predicate WithinReach(mode: Mode, nb: nat, size: nat, allocsToGo: int, freesToGo: int) {
    || (allocsToGo <= 0 && freesToGo <= 0)
    || (&& 0 < nb
        && allocsToGo <= size + Clip(freesToGo)
        && freesToGo <= nb - size + if allocsToGo > 0 then allocsToGo - 1 + Most(mode, nb) else 0)
  }

  ghost predicate CanFinish(mode: Mode, nb: nat, nAlloc: int, nFree: int, s: GenState) {
    WithinReach(mode, nb, |s.free|, nAlloc - s.allocedBlocks, nFree - s.freedBlocks)
  }

  /** No allocation starts once the target is met. */
  lemma {:induction false} AllocsStop(mode: Mode, nb: nat, nAlloc: int, nFree: int, s: GenState,
                                      trace: seq<Request>, t: GenState)
    requires MayWrite(mode, nb, nAlloc, nFree, s, trace, t) && forall x :: x in s.free ==> 0 <= x < nb
    ensures t.allocedBlocks <= if s.allocedBlocks >= nAlloc then s.allocedBlocks else nAlloc - 1 + Most(mode, nb)
    decreases |trace|
  {
    if trace == [] {
      if nb == 0 { SetFits(s.free, 0); }
    } else {
      var last := |trace| - 1;
      var m :| MayWrite(mode, nb, nAlloc, nFree, s, trace[..last], m) && MayStep(mode, nb, nAlloc, nFree, m, trace[last], t);
      AllocsStop(mode, nb, nAlloc, nFree, s, trace[..last], m);
      MayWriteCounts(mode, nb, nAlloc, nFree, s, trace[..last], m);
      SetFits(m.free, nb);
    }
  }

  /** Without blocks nothing is written. */
  lemma NoBlocks(mode: Mode, nAlloc: int, nFree: int, s: GenState, trace: seq<Request>, t: GenState)
    requires MayWrite(mode, 0, nAlloc, nFree, s, trace, t) && forall x :: x in s.free ==> 0 <= x < 0
    ensures t == s
  {
    if trace != [] {
      var last := |trace| - 1;
      var m :| MayWrite(mode, 0, nAlloc, nFree, s, trace[..last], m) && MayStep(mode, 0, nAlloc, nFree, m, trace[last], t);
      MayWriteCounts(mode, 0, nAlloc, nFree, s, trace[..last], m);
      SetFits(m.free, 0);
    }
  }

  /** Targets out of reach are never met: the main loop then goes on for ever, whatever
      is drawn. */
  lemma NeverDone(mode: Mode, nb: nat, nAlloc: int, nFree: int, s: GenState, trace: seq<Request>, t: GenState)
    requires MayWrite(mode, nb, nAlloc, nFree, s, trace, t) && forall x :: x in s.free ==> 0 <= x < nb
    requires !CanFinish(mode, nb, nAlloc, nFree, s)
    ensures GoesOn(t, nAlloc, nFree)
  {
    MayWriteCounts(mode, nb, nAlloc, nFree, s, trace, t);
    AllocsStop(mode, nb, nAlloc, nFree, s, trace, t);
    SetFits(t.free, nb);
    if nb == 0 { NoBlocks(mode, nAlloc, nFree, s, trace, t); }
  }

  /** A pass may allocate any number of blocks up to the limit. */
  lemma AllocOf(mode: Mode, nb: nat, nAlloc: int, nFree: int, m: GenState, c: nat) returns (r: Request, t: GenState)
    requires m.allocedBlocks < nAlloc && 1 <= c <= |m.free| && c <= Most(mode, nb)
    ensures MayStep(mode, nb, nAlloc, nFree, m, r, t) && t.free <= m.free && |t.free| == |m.free| - c
    ensures mode.Batch? ==> r == Alloc(c)
    ensures t.allocedBlocks == m.allocedBlocks + c && t.freedBlocks == m.freedBlocks
  {
    if mode.Targeted? {
      var b := AnyOf(m.free);
      r, t := Delete(b), GenState(m.free - {b}, m.allocedBlocks + 1, m.freedBlocks);
    } else {
      var rest := Smaller(m.free, |m.free| - c);
      r, t := Alloc(c), GenState(rest, m.allocedBlocks + c, m.freedBlocks);
    }
  }

  /** Within reach, some pass writes something and keeps the targets within reach: it
      allocates one block while more than one is to go; the last allocation is as large
      as the frees to come need it. */
  lemma StaysWithinReach(mode: Mode, nb: nat, nAlloc: int, nFree: int, m: GenState) returns (r: Request, t: GenState)
    requires GoesOn(m, nAlloc, nFree) && CanFinish(mode, nb, nAlloc, nFree, m)
    requires forall x :: x in m.free ==> 0 <= x < nb
    ensures MayStep(mode, nb, nAlloc, nFree, m, r, t) && forall x :: x in t.free ==> 0 <= x < nb
    ensures CanFinish(mode, nb, nAlloc, nFree, t)
  {
    SetFits(m.free, nb);
    var allocs, frees := nAlloc - m.allocedBlocks, nFree - m.freedBlocks;
    if allocs > 0 && m.free != {} && (allocs > 1 || frees <= nb - |m.free| + 1) {
      r, t := AllocOf(mode, nb, nAlloc, nFree, m, 1);
    } else if allocs > 0 && |m.free| == nb {
      r, t := AllocOf(mode, nb, nAlloc, nFree, m, Most(mode, nb));
    } else {
      var b :| 0 <= b < nb && b !in m.free;
      r, t := Free(b), GenState(m.free + {b}, m.allocedBlocks, m.freedBlocks + 1);
    }
  }

  /** Within reach, some draws meet both targets. */
  lemma Finish(mode: Mode, nb: nat, nAlloc: int, nFree: int, s: GenState, before: seq<Request>, m: GenState)
    returns (trace: seq<Request>, t: GenState)
    requires MayWrite(mode, nb, nAlloc, nFree, s, before, m) && forall x :: x in m.free ==> 0 <= x < nb
    requires CanFinish(mode, nb, nAlloc, nFree, m)
    ensures MayWrite(mode, nb, nAlloc, nFree, s, trace, t) && !GoesOn(t, nAlloc, nFree)
    decreases Clip(nAlloc - m.allocedBlocks) + Clip(nFree - m.freedBlocks)
  {
    if !GoesOn(m, nAlloc, nFree) {
      trace, t := before, m;
    } else {
      var r, next := StaysWithinReach(mode, nb, nAlloc, nFree, m);
      MayWriteAppend(mode, nb, nAlloc, nFree, s, before, m, r, next);
      trace, t := Finish(mode, nb, nAlloc, nFree, s, before + [r], next);
    }
  }

  /** The main loop can end exactly when its targets are within reach. */
  lemma FinishIff(mode: Mode, nb: nat, nAlloc: int, nFree: int, s: GenState)
    requires forall x :: x in s.free ==> 0 <= x < nb
    ensures (exists trace, t :: MayWrite(mode, nb, nAlloc, nFree, s, trace, t) && !GoesOn(t, nAlloc, nFree))
       <==> WithinReach(mode, nb, |s.free|, nAlloc - s.allocedBlocks, nFree - s.freedBlocks)
  {
    if CanFinish(mode, nb, nAlloc, nFree, s) {
      var trace, t := Finish(mode, nb, nAlloc, nFree, s, [], s);
      assert MayWrite(mode, nb, nAlloc, nFree, s, trace, t) && !GoesOn(t, nAlloc, nFree);
    } else {
      forall trace, t | MayWrite(mode, nb, nAlloc, nFree, s, trace, t)
        ensures GoesOn(t, nAlloc, nFree)
      {
        NeverDone(mode, nb, nAlloc, nFree, s, trace, t);
      }
    }
  }

  /** Without frees left to write, a batch trace only allocates, as many blocks as the
      free list loses. */
  lemma {:induction false} BatchOnlyAllocates(nb: nat, nAlloc: int, nFree: int, s: GenState,
                                              trace: seq<Request>, t: GenState)
    requires MayWrite(Batch, nb, nAlloc, nFree, s, trace, t) && s.freedBlocks >= nFree
    ensures AllocOnly(trace) && Operations(trace) == |s.free| - |t.free| && t.freedBlocks == s.freedBlocks
    decreases |trace|
  {
    if trace != [] {
      var last := |trace| - 1;
      var m :| MayWrite(Batch, nb, nAlloc, nFree, s, trace[..last], m)
            && MayStep(Batch, nb, nAlloc, nFree, m, trace[last], t);
      BatchOnlyAllocates(nb, nAlloc, nFree, s, trace[..last], m);
      AllocAppend(trace[..last], trace[last]);
      assert trace == trace[..last] + [trace[last]];
    }
  }

  /** A targeted trace is legal for the set of free blocks and describes it. */
  lemma {:induction false} TargetedIsLegal(nb: nat, nAlloc: int, nFree: int, s: GenState,
                                           trace: seq<Request>, t: GenState)
    requires MayWrite(Mode.Targeted, nb, nAlloc, nFree, s, trace, t)
    ensures TargetedTrace(nb, s.free, trace) && forall r :: r in trace ==> Requests.Targeted(r)
    ensures t.free == ServeSetAll(s.free, trace)
    decreases |trace|
  {
    if trace != [] {
      var last := |trace| - 1;
      var m :| MayWrite(Mode.Targeted, nb, nAlloc, nFree, s, trace[..last], m)
            && MayStep(Mode.Targeted, nb, nAlloc, nFree, m, trace[last], t);
      TargetedIsLegal(nb, nAlloc, nFree, s, trace[..last], m);
      TargetedTraceAppend(nb, s.free, trace[..last], trace[last]);
      assert trace == trace[..last] + [trace[last]];
    }
  }

  /** No written allocation asks for more than 2016 blocks ... */
  lemma {:induction false} AllocSizes(mode: Mode, nb: nat, nAlloc: int, nFree: int, s: GenState,
                                      trace: seq<Request>, t: GenState)
    requires MayWrite(mode, nb, nAlloc, nFree, s, trace, t)
    ensures forall r :: r in trace && r.Alloc? ==> mode.Batch? && 1 <= r.count <= 2016
    decreases |trace|
  {
    if trace != [] {
      var last := |trace| - 1;
      var m :| MayWrite(mode, nb, nAlloc, nFree, s, trace[..last], m) && MayStep(mode, nb, nAlloc, nFree, m, trace[last], t);
      AllocSizes(mode, nb, nAlloc, nFree, s, trace[..last], m);
      assert trace == trace[..last] + [trace[last]];
    }
  }

  /** ... and every size up to that, with that many blocks free, may be asked for. */
  lemma AnyAllocSize(nb: nat, nAlloc: int, nFree: int, m: GenState, c: nat) returns (t: GenState)
    requires m.allocedBlocks < nAlloc && forall x :: x in m.free ==> 0 <= x < nb
    requires 1 <= c <= |m.free| && c <= 2016
    ensures MayStep(Batch, nb, nAlloc, nFree, m, Alloc(c), t)
  {
    SetFits(m.free, nb);
    var r;
    r, t := AllocOf(Batch, nb, nAlloc, nFree, m, c);
  }

  /** What any run of the main loop keeps, in both modes. */
  lemma WhatWasWritten(mode: Mode, nb: nat, nAlloc: int, nFree: int, s: GenState, trace: seq<Request>, t: GenState)
    requires MayWrite(mode, nb, nAlloc, nFree, s, trace, t)
    requires forall x :: x in s.free ==> 0 <= x < nb
    ensures t.allocedBlocks - s.allocedBlocks == t.freedBlocks - s.freedBlocks + |s.free| - |t.free|
    ensures mode.Targeted? ==>
              && TargetedTrace(nb, s.free, trace) && (forall r :: r in trace ==> Requests.Targeted(r))
              && t.free == ServeSetAll(s.free, trace)
    ensures mode.Batch? && s.freedBlocks >= nFree ==> AllocOnly(trace) && Operations(trace) == |s.free| - |t.free|
    ensures !CanFinish(mode, nb, nAlloc, nFree, s) ==> GoesOn(t, nAlloc, nFree)
    ensures forall r :: r in trace && r.Alloc? ==> mode.Batch? && 1 <= r.count <= 2016
  {
    AllocSizes(mode, nb, nAlloc, nFree, s, trace, t);
    if !CanFinish(mode, nb, nAlloc, nFree, s) { NeverDone(mode, nb, nAlloc, nFree, s, trace, t); }
    MayWriteCounts(mode, nb, nAlloc, nFree, s, trace, t);
    if mode.Targeted? {
      TargetedIsLegal(nb, nAlloc, nFree, s, trace, t);
    } else if s.freedBlocks >= nFree {
      BatchOnlyAllocates(nb, nAlloc, nFree, s, trace, t);
    }
  }

  /** A trace of allocations only. */
  predicate AllocOnly(trace: seq<Request>) {
    forall r :: r in trace ==> r.Alloc? && r.count >= 1
  }

  lemma {:induction false} AllocAppend(trace: seq<Request>, r: Request)
    requires AllocOnly(trace) && r.Alloc? && r.count >= 1
    ensures AllocOnly(trace + [r]) && Operations(trace + [r]) == Operations(trace) + r.count
  {
    if trace == [] {
      assert trace + [r] == [r] && [r][1..] == [];
    } else {
      assert trace == [trace[0]] + trace[1..];
      AllocAppend(trace[1..], r);
      assert (trace + [r])[1..] == trace[1..] + [r];
    }
  }

  // ----- the two lists -----

  /** `free` and `taken` list every block below `nb` once, in one of the two. */
  ghost predicate Partition(free: seq<int>, taken: seq<int>, nb: nat) {
    && Distinct(free) && Distinct(taken)
    && |free| + |taken| == nb
    && (forall x :: x in free ==> x !in taken)
    && (forall x :: x in free || x in taken <==> 0 <= x < nb)
  }

  function SwapRemove(s: seq<int>, i: nat): (r: seq<int>)
    requires i < |s|
    ensures |r| == |s| - 1
    ensures forall k :: 0 <= k < |r| ==> r[k] == if k == i then s[|s| - 1] else s[k]
  {
    s[i := s[|s| - 1]][..|s| - 1]
  }

  lemma SwapRemoveElems(s: seq<int>, i: nat)
    requires Distinct(s) && i < |s|
    ensures Distinct(SwapRemove(s, i))
    ensures forall x :: x in SwapRemove(s, i) <==> x in s && x != s[i]
  {
    var r := SwapRemove(s, i);
    forall x | x in s && x != s[i]
      ensures x in r
    {
      var k :| 0 <= k < |s| && s[k] == x;
      assert r[if k == |s| - 1 then i else k] == x;
    }
  }

  /** The free list after swap-removing the entries `picks`, one after the other. */
  ghost predicate Picked(s: seq<int>, picks: seq<nat>, r: seq<int>)
    decreases |picks|
  {
    if picks == [] then r == s
    else picks[0] < |s| && Picked(SwapRemove(s, picks[0]), picks[1..], r)
  }

  /** Whatever blocks a pass is to leave on the free list, there are draws that leave
      exactly those. */
  lemma {:induction false} AnyPicks(s: seq<int>, keep: set<int>) returns (picks: seq<nat>, r: seq<int>)
    requires Distinct(s) && keep <= Elems(s)
    ensures Picked(s, picks, r) && |picks| == |s| - |keep|
    ensures Distinct(r) && Elems(r) == keep
    decreases |s|
  {
    ElemsSize(s);
    if keep == Elems(s) {
      picks, r := [], s;
    } else {
      var x :| x in Elems(s) && x !in keep;
      var i :| 0 <= i < |s| && s[i] == x;
      SwapRemoveElems(s, i);
      var rest;
      rest, r := AnyPicks(SwapRemove(s, i), keep);
      picks := [i] + rest;
      assert picks[1..] == rest;
    }
  }

  /** Moving one block from one list to the other keeps the partition. */
  lemma MoveKeeps(from: seq<int>, to: seq<int>, nb: nat, i: nat)
    requires Partition(from, to, nb) && i < |from|
    ensures Partition(SwapRemove(from, i), to + [from[i]], nb)
  {
    SwapRemoveElems(from, i);
    assert from[i] in from;
  }

  lemma PartitionSymmetric(a: seq<int>, b: seq<int>, nb: nat)
    requires Partition(a, b, nb)
    ensures Partition(b, a, nb)
  {
  }

  /** Two lists that split the blocks between them have the right total length. */
  lemma SplitIsPartition(a: seq<int>, b: seq<int>, nb: nat)
    requires Distinct(a) && Distinct(b)
    requires forall x :: x in a ==> x !in b
    requires forall x :: x in a || x in b <==> 0 <= x < nb
    ensures Partition(a, b, nb)
  {
    ElemsSize(a);
    ElemsSize(b);
    ElemsSize(Range(nb));
    RangeMembers(nb);
    assert Elems(a) + Elems(b) == Elems(Range(nb));
    assert Elems(a) !! Elems(b);
  }

  ghost predicate Ascending(s: seq<int>) {
    forall i, j :: 0 <= i < j < |s| ==> s[i] < s[j]
  }

  class Generator {
    const nb: nat
    const freelist: array<int>
    var freelistptr: nat
    var freelistsz: int
    const alloclist: array<int>
    var alloclistptr: nat
    var alloclistsz: int
    var allocedBlocks: int
    var freedBlocks: int

    ghost predicate Laid()
      reads this
    {
      && freelist != alloclist
      && freelist.Length == alloclist.Length == nb
      && freelistptr <= nb && alloclistptr <= nb
    }

    ghost function Free(): seq<int>
      requires Laid()
      reads this, freelist
    {
      freelist[..freelistptr]
    }

    ghost function Taken(): seq<int>
      requires Laid()
      reads this, alloclist
    {
      alloclist[..alloclistptr]
    }

    ghost function Now(): GenState
      requires Laid()
      reads this, freelist
    {
      GenState(Elems(Free()), allocedBlocks, freedBlocks)
    }

    ghost predicate Valid()
      reads this, freelist, alloclist
    {
      && Laid()
      && freelistsz == freelistptr && alloclistsz == alloclistptr
      && Partition(Free(), Taken(), nb)
    }

    /** Reads an allocation map with a correct header and no block twice. */
    constructor (nb: nat, nFree: nat, rows: seq<int>)
      requires nFree == |rows| && Distinct(rows)
      requires forall k :: 0 <= k < |rows| ==> 0 <= rows[k] < nb
      ensures Valid() && this.nb == nb && Free() == rows && Ascending(Taken())
      ensures allocedBlocks == freedBlocks == 0
      ensures fresh(freelist) && fresh(alloclist)
    {
      this.nb := nb;
      freelist := new int[nb](_ => 0);
      alloclist := new int[nb](_ => 0);
      freelistptr := 0;
      freelistsz := nFree;
      alloclistptr := 0;
      alloclistsz := nb - nFree;
      allocedBlocks, freedBlocks := 0, 0;
      new;
      var allocationMap := new int[nb](_ => 0);
      ReadMap(rows, allocationMap);
      ListAllocated(rows, allocationMap);
      SplitIsPartition(Free(), Taken(), nb);
    }

    method ReadMap(rows: seq<int>, allocationMap: array<int>)
      requires Laid() && Distinct(rows) && freelistptr == 0 && allocationMap.Length == nb
      requires allocationMap != freelist
      requires forall k :: 0 <= k < |rows| ==> 0 <= rows[k] < nb
      requires forall x :: 0 <= x < nb ==> allocationMap[x] == 0
      modifies this`freelistptr, freelist, allocationMap
      ensures Laid() && freelistptr == |rows| && Free() == rows
      ensures forall x :: 0 <= x < nb ==> allocationMap[x] == if x in rows then 1 else 0
    {
      FitsIn(rows, nb);
      while freelistptr < |rows|
        invariant freelistptr <= |rows| && Laid()
        invariant freelist[..freelistptr] == rows[..freelistptr]
        invariant forall x :: 0 <= x < nb ==> allocationMap[x] == if x in rows[..freelistptr] then 1 else 0
      {
        var freeidx := rows[freelistptr];
        assert rows[..freelistptr + 1] == rows[..freelistptr] + [freeidx];
        allocationMap[freeidx] := 1;
        freelist[freelistptr] := freeidx;
        freelistptr := freelistptr + 1;
      }
      assert rows[..freelistptr] == rows;
    }

    method ListAllocated(ghost rows: seq<int>, allocationMap: array<int>)
      requires Laid() && alloclistptr == 0 && allocationMap.Length == nb && allocationMap != alloclist
      requires forall x :: 0 <= x < nb ==> allocationMap[x] == if x in rows then 1 else 0
      modifies this`alloclistptr, alloclist
      ensures Laid() && Ascending(Taken())
      ensures forall x :: x in Taken() <==> 0 <= x < nb && x !in rows
    {
      var i := 0;
      while i < nb
        invariant 0 <= i <= nb && Laid() && alloclistptr <= i
        invariant Ascending(Taken())
        invariant forall x :: x in Taken() <==> 0 <= x < i && x !in rows
      {
        if allocationMap[i] == 0 {
          ghost var before := Taken();
          alloclist[alloclistptr] := i;
          alloclistptr := alloclistptr + 1;
          assert Taken() == before + [i];
          assert forall k :: 0 <= k < |before| ==> before[k] in before;
        }
        i := i + 1;
      }
    }

    /** Swap-removes entry `i` of the free list and appends it to the other. */
    method TakeAt(i: nat) returns (block: int)
      requires Valid() && i < freelistptr
      modifies this`freelistptr, this`freelistsz, this`alloclistptr, this`alloclistsz, freelist, alloclist
      ensures Valid() && block == old(Free())[i]
      ensures Free() == SwapRemove(old(Free()), i) && Taken() == old(Taken()) + [block]
    {
      MoveKeeps(Free(), Taken(), nb, i);
      block := freelist[i];
      alloclist[alloclistptr] := block;
      alloclistptr := alloclistptr + 1;
      alloclistsz := alloclistsz + 1;
      freelist[i] := freelist[freelistptr - 1];
      freelistptr := freelistptr - 1;
      freelistsz := freelistsz - 1;
      assert Free() == SwapRemove(old(Free()), i);
      assert Taken() == old(Taken()) + [block];
    }

    /** The opposite move. */
    method GiveAt(i: nat) returns (block: int)
      requires Valid() && i < alloclistptr
      modifies this`freelistptr, this`freelistsz, this`alloclistptr, this`alloclistsz, freelist, alloclist
      ensures Valid() && block == old(Taken())[i]
      ensures Taken() == SwapRemove(old(Taken()), i) && Free() == old(Free()) + [block]
    {
      PartitionSymmetric(Free(), Taken(), nb);
      MoveKeeps(Taken(), Free(), nb, i);
      block := alloclist[i];
      freelist[freelistptr] := block;
      freelistptr := freelistptr + 1;
      freelistsz := freelistsz + 1;
      alloclist[i] := alloclist[alloclistptr - 1];
      alloclistptr := alloclistptr - 1;
      alloclistsz := alloclistsz - 1;
      assert Taken() == SwapRemove(old(Taken()), i);
      assert Free() == old(Free()) + [block];
      PartitionSymmetric(Taken(), Free(), nb);
    }

    /** The batch branch: the entries `picks`, drawn one after the other, change lists. */
    method TakeMany(count: nat) returns (ghost picks: seq<nat>)
      requires Valid() && count <= freelistptr
      modifies this`freelistptr, this`freelistsz, this`alloclistptr, this`alloclistsz, freelist, alloclist
      ensures Valid() && |picks| == count && Picked(old(Free()), picks, Free())
      ensures |Free()| == old(|Free()|) - count && Elems(Free()) <= old(Elems(Free()))
    {
      picks := [];
      var j := 0;
      while j < count
        invariant 0 <= j <= count && Valid()
        invariant |picks| == j && Picked(old(Free()), picks, Free())
        invariant freelistptr == old(freelistptr) - j && Elems(Free()) <= old(Elems(Free()))
      {
        var allocidx := RandInt(0, freelistptr - 1);
        SwapRemoveElems(Free(), allocidx);
        PickedAppend(old(Free()), picks, Free(), allocidx);
        var _ := TakeAt(allocidx);
        picks := picks + [allocidx];
        j := j + 1;
      }
    }

    /** The targeted branch. */
    method TakeOne() returns (block: int)
      requires Valid() && freelistptr > 0
      modifies this`freelistptr, this`freelistsz, this`alloclistptr, this`alloclistsz, freelist, alloclist
      ensures Valid() && block in old(Elems(Free()))
      ensures Elems(Free()) == old(Elems(Free())) - {block}
    {
      var allocidx := RandInt(0, freelistptr - 1);
      SwapRemoveElems(Free(), allocidx);
      block := TakeAt(allocidx);
    }

    /** The free branch. */
    method GiveOne() returns (block: int)
      requires Valid() && alloclistptr > 0
      modifies this`freelistptr, this`freelistsz, this`alloclistptr, this`alloclistsz, freelist, alloclist
      ensures Valid() && block !in old(Elems(Free())) && 0 <= block < nb
      ensures Elems(Free()) == old(Elems(Free())) + {block}
    {
      var freeidx := RandInt(0, alloclistptr - 1);
      assert Taken()[freeidx] in Taken();
      block := GiveAt(freeidx);
    }

    /** One pass through the main loop: what it writes, and which operation was drawn. */
    method Iterate(mode: Mode, nAlloc: int, nFree: int) returns (emitted: seq<Request>, opSelect: int)
      requires Valid()
      modifies this, freelist, alloclist
      ensures Valid() && 0 <= opSelect <= 1
      ensures var takes := opSelect == 0 && old(|Free()|) > 0 && old(allocedBlocks) < nAlloc;
              var gives := !takes && old(|Taken()|) > 0 && old(freedBlocks) < nFree;
              && |emitted| == (if takes || gives then 1 else 0)
              && (emitted != [] ==> (emitted[0].Free? <==> gives))
      ensures emitted == [] ==> Now() == old(Now())
      ensures emitted != [] ==> MayStep(mode, nb, nAlloc, nFree, old(Now()), emitted[0], Now())
    {
      opSelect := RandInt(0, 1);
      assert |Free()| == freelistsz && |Taken()| == alloclistsz;
      emitted := [];
      if opSelect == 0 && freelistsz > 0 && allocedBlocks < nAlloc {
        match mode
        case Batch =>
          var request := EmitAlloc(nAlloc, nFree);
          emitted := [request];
        case Targeted =>
          var request := EmitDelete(nAlloc, nFree);
          emitted := [request];
      } else if alloclistsz > 0 && freedBlocks < nFree {
        var request := EmitFree(mode, nAlloc, nFree);
        emitted := [request];
      }
    }

    method EmitAlloc(nAlloc: int, nFree: int) returns (r: Request)
      requires Valid() && freelistsz > 0 && allocedBlocks < nAlloc
      modifies this, freelist, alloclist
      ensures Valid() && r.Alloc? && MayStep(Batch, nb, nAlloc, nFree, old(Now()), r, Now())
    {
      ElemsSize(Free());
      var alloccnt := RandInt(1, MAX_ALLOC_REQUEST_SZ);
      if freelistsz < alloccnt {
        alloccnt := freelistsz;
      }
      r := Alloc(alloccnt);
      var _ := TakeMany(alloccnt);
      ElemsSize(Free());
      allocedBlocks := allocedBlocks + alloccnt;
    }

    method EmitDelete(nAlloc: int, nFree: int) returns (r: Request)
      requires Valid() && freelistsz > 0 && allocedBlocks < nAlloc
      modifies this, freelist, alloclist
      ensures Valid() && r.Delete? && MayStep(Mode.Targeted, nb, nAlloc, nFree, old(Now()), r, Now())
    {
      var allocaddr := TakeOne();
      r := Delete(allocaddr);
      allocedBlocks := allocedBlocks + 1;
    }

    method EmitFree(mode: Mode, nAlloc: int, nFree: int) returns (r: Request)
      requires Valid() && alloclistsz > 0 && freedBlocks < nFree
      modifies this, freelist, alloclist
      ensures Valid() && r.Free? && MayStep(mode, nb, nAlloc, nFree, old(Now()), r, Now())
    {
      ghost var s := Now();
      var block := GiveOne();
      r := Request.Free(block);
      freedBlocks := freedBlocks + 1;
      assert Now() == GenState(s.free + {block}, s.allocedBlocks, s.freedBlocks + 1);
    }

    /** The main loop, stopped after `steps` passes. It writes what `MayWrite` allows,
        and stops earlier only when both targets are met. */
    method Generate(mode: Mode, nAlloc: int, nFree: int, steps: nat) returns (trace: seq<Request>, passes: nat)
      requires Valid()
      modifies this, freelist, alloclist
      ensures Valid() && MayWrite(mode, nb, nAlloc, nFree, old(Now()), trace, Now())
      ensures passes <= steps && (passes < steps ==> !GoesOn(Now(), nAlloc, nFree))
      ensures allocedBlocks - old(allocedBlocks) == freedBlocks - old(freedBlocks) + old(|Free()|) - |Free()|
      ensures mode.Targeted? ==>
                && TargetedTrace(nb, old(Elems(Free())), trace)
                && Elems(Free()) == (TargetedTraceTargets(nb, old(Elems(Free())), trace);
                                     ServeSetAll(old(Elems(Free())), trace))
      ensures mode.Batch? && old(freedBlocks) >= nFree ==>
                AllocOnly(trace) && Operations(trace) == old(|Free()|) - |Free()|
      ensures !CanFinish(mode, nb, nAlloc, nFree, old(Now())) ==> passes == steps
      ensures forall r :: r in trace && r.Alloc? ==> mode.Batch? && 1 <= r.count <= 2016
    {
      trace, passes := [], 0;
      ghost var s := Now();
      while (allocedBlocks < nAlloc || freedBlocks < nFree) && passes < steps
        invariant Valid() && MayWrite(mode, nb, nAlloc, nFree, s, trace, Now())
        invariant passes <= steps
        decreases steps - passes
      {
        ghost var m := Now();
        var emitted, _ := Iterate(mode, nAlloc, nFree);
        if emitted != [] {
          assert emitted == [emitted[0]];
          MayWriteAppend(mode, nb, nAlloc, nFree, s, trace, m, emitted[0], Now());
          trace := trace + emitted;
        }
        passes := passes + 1;
      }
      WhatWasWritten(mode, nb, nAlloc, nFree, s, trace, Now());
      ElemsSize(Free());
      ElemsSize(old(Free()));
    }
  }

  lemma {:induction false} PickedAppend(s: seq<int>, picks: seq<nat>, r: seq<int>, i: nat)
    requires Picked(s, picks, r) && i < |r|
    ensures Picked(s, picks + [i], SwapRemove(r, i))
    decreases |picks|
  {
    if picks == [] {
      assert [] + [i] == [i] && [i][1..] == [];
    } else {
      PickedAppend(SwapRemove(s, picks[0]), picks[1..], r, i);
      assert (picks + [i])[1..] == picks[1..] + [i];
    }
  }
}
