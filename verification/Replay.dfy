/** Generated traces are legal for the access-point list. */
module Replay {
  import opened Arithmetic
  import opened Ring
  import opened AplModel
  import opened AplOrder
  import opened AplInit
  import opened Permutations
  import opened Traces
  import opened Requests
  import opened RequestsGenerator

  /** A trace of allocations that asks for no more blocks than are free never
      takes from an empty list. */
  lemma {:induction false} BatchReplay(nb: nat, v: View, trace: seq<Request>)
    requires Good(v) && AllocOnly(trace) && Operations(trace) <= Size(v)
    ensures Trace(nb, v, trace)
    ensures Size(Run(nb, v, trace)) == Size(v) - Operations(trace)
    decreases |trace|
  {
    if trace != [] {
      var r := trace[0];
      assert r in trace;
      var w := Serve(nb, v, r);
      assert |Stack(w)| == Size(v) - r.count;
      assert forall q :: q in trace[1..] ==> q in trace;
      BatchReplay(nb, w, trace[1..]);
    }
  }

  /** A targeted trace generated from an allocation map is legal for the list
      started from the same map, and afterwards both agree on the free blocks. */
  lemma TargetedReplay(nb: nat, rows: seq<int>, n: nat, trace: seq<Request>)
    requires 0 < n && |rows| % n == 0 && Distinct(rows)
    requires TargetedTrace(nb, Elems(rows), trace)
    ensures Good(InitialView(rows, n)) && Trace(nb, InitialView(rows, n), trace)
    ensures forall r :: r in trace ==> Requests.Targeted(r)
    ensures FreeSet(Run(nb, InitialView(rows, n), trace)) == ServeSetAll(Elems(rows), trace)
  {
    InitialGood(rows, n);
    TargetedTraceTargets(nb, Elems(rows), trace);
    TargetedRun(nb, InitialView(rows, n), trace);
  }

  // ----- batch traces with frees -----

  /** What a caller can check before a batch run: it allocates nothing, frees nothing,
      or never has two free blocks while a free is still to come. */
  predicate NoMixUp(nb: nat, size: nat, nAlloc: int, nFree: int) {
    nAlloc <= 0 || nFree <= 0 || size + nFree - 1 < 2 || nb < 2
  }

  lemma FreeSetSize(v: View)
    requires Good(v)
    ensures |FreeSet(v)| == Size(v)
  {
    ElemsSize(Stack(v));
  }

  /** The list and the generator have the same number of free blocks, and the same
      blocks while frees are still to come. */
  ghost predicate Agree(v: View, s: GenState, nFree: int)
    requires Good(v)
  {
    Size(v) == |s.free| && (s.freedBlocks < nFree ==> FreeSet(v) == s.free)
  }

  /** An allocation that empties both keeps them equal; later only sizes matter. */
  lemma AgreeAlloc(nb: nat, v: View, s: GenState, c: int, t: GenState, nAlloc: int, nFree: int)
    requires Good(v) && Agree(v, s, nFree) && MayStep(Batch, nb, nAlloc, nFree, s, Alloc(c), t)
    requires s.allocedBlocks < nAlloc && s.freedBlocks < nFree ==> |s.free| <= 1
    ensures Ok(nb, v, Alloc(c)) && Agree(Serve(nb, v, Alloc(c)), t, nFree)
  {
    var w := Serve(nb, v, Alloc(c));
    assert Stack(w) == Stack(v)[c..];
    if t.freedBlocks < nFree {
      assert Stack(w) == [];
      assert t.free == {};
    }
  }

  lemma AgreeFree(nb: nat, v: View, s: GenState, b: int, t: GenState, nAlloc: int, nFree: int)
    requires Good(v) && Agree(v, s, nFree) && MayStep(Batch, nb, nAlloc, nFree, s, Free(b), t)
    ensures Ok(nb, v, Free(b)) && Agree(Serve(nb, v, Free(b)), t, nFree)
    ensures FreeSet(Serve(nb, v, Free(b))) == t.free
  {
    StackMembers(v, b);
    assert b !in FreeSet(v);
    PushGood(v, b);
  }

  lemma AgreeStep(nb: nat, v: View, before: seq<Request>, s: GenState, r: Request, t: GenState, nAlloc: int, nFree: int)
    requires Good(v) && Trace(nb, v, before) && Agree(Run(nb, v, before), s, nFree)
    requires MayStep(Batch, nb, nAlloc, nFree, s, r, t)
    requires s.allocedBlocks < nAlloc && s.freedBlocks < nFree ==> |s.free| <= 1
    ensures Trace(nb, v, before + [r]) && Agree(Run(nb, v, before + [r]), t, nFree)
  {
    var w := Run(nb, v, before);
    if r.Alloc? {
      AgreeAlloc(nb, w, s, r.count, t, nAlloc, nFree);
    } else {
      AgreeFree(nb, w, s, r.block, t, nAlloc, nFree);
    }
    TraceAppend(nb, v, before, r);
  }

  /** Under the condition every batch trace is legal. */
  lemma {:induction false} BatchLegal(nb: nat, nAlloc: int, nFree: int, v: View, s: GenState,
                                      trace: seq<Request>, t: GenState)
    requires Good(v) && FreeSet(v) == s.free && s.allocedBlocks == s.freedBlocks == 0
    requires forall x :: x in s.free ==> 0 <= x < nb
    requires NoMixUp(nb, |s.free|, nAlloc, nFree) && MayWrite(Batch, nb, nAlloc, nFree, s, trace, t)
    ensures Trace(nb, v, trace) && Agree(Run(nb, v, trace), t, nFree)
    decreases |trace|
  {
    FreeSetSize(v);
    if trace != [] {
      var last := |trace| - 1;
      var r := trace[last];
      assert trace == trace[..last] + [r];
      var m :| MayWrite(Batch, nb, nAlloc, nFree, s, trace[..last], m) && MayStep(Batch, nb, nAlloc, nFree, m, r, t);
      BatchLegal(nb, nAlloc, nFree, v, s, trace[..last], m);
      FewFree(nb, nAlloc, nFree, s, trace[..last], m);
      AgreeStep(nb, v, trace[..last], m, r, t, nAlloc, nFree);
    }
  }

  lemma FewFree(nb: nat, nAlloc: int, nFree: int, s: GenState, trace: seq<Request>, m: GenState)
    requires s.allocedBlocks == s.freedBlocks == 0 && forall x :: x in s.free ==> 0 <= x < nb
    requires NoMixUp(nb, |s.free|, nAlloc, nFree) && MayWrite(Batch, nb, nAlloc, nFree, s, trace, m)
    ensures m.allocedBlocks < nAlloc && m.freedBlocks < nFree ==> |m.free| <= 1
  {
    MayWriteCounts(Batch, nb, nAlloc, nFree, s, trace, m);
    SetFits(m.free, nb);
  }

  /** The generator may free `k` blocks first; then the list still has the same ones. */
  lemma {:induction false} FreeFirst(nb: nat, nAlloc: int, nFree: int, v: View, s: GenState, k: nat)
    returns (trace: seq<Request>, t: GenState)
    requires Good(v) && FreeSet(v) == s.free && forall x :: x in s.free ==> 0 <= x < nb
    requires |s.free| + k <= nb && s.freedBlocks + k <= nFree
    ensures MayWrite(Batch, nb, nAlloc, nFree, s, trace, t) && Trace(nb, v, trace)
    ensures FreeSet(Run(nb, v, trace)) == t.free && forall x :: x in t.free ==> 0 <= x < nb
    ensures |t.free| == |s.free| + k && t.allocedBlocks == s.allocedBlocks && t.freedBlocks == s.freedBlocks + k
  {
    if k == 0 {
      trace, t := [], s;
    } else {
      var before, m := FreeFirst(nb, nAlloc, nFree, v, s, k - 1);
      trace, t := FreeOne(nb, nAlloc, nFree, v, s, before, m);
    }
  }

  lemma FreeOne(nb: nat, nAlloc: int, nFree: int, v: View, s: GenState, before: seq<Request>, m: GenState)
    returns (trace: seq<Request>, t: GenState)
    requires Good(v) && MayWrite(Batch, nb, nAlloc, nFree, s, before, m) && Trace(nb, v, before)
    requires FreeSet(Run(nb, v, before)) == m.free && forall x :: x in m.free ==> 0 <= x < nb
    requires |m.free| < nb && m.freedBlocks < nFree
    ensures MayWrite(Batch, nb, nAlloc, nFree, s, trace, t) && Trace(nb, v, trace)
    ensures FreeSet(Run(nb, v, trace)) == t.free && forall x :: x in t.free ==> 0 <= x < nb
    ensures |t.free| == |m.free| + 1 && t.allocedBlocks == m.allocedBlocks && t.freedBlocks == m.freedBlocks + 1
  {
    SetFits(m.free, nb);
    var b :| 0 <= b < nb && b !in m.free;
    t := GenState(m.free + {b}, m.allocedBlocks, m.freedBlocks + 1);
    var w := Run(nb, v, before);
    FreeSetSize(w);
    AgreeFree(nb, w, m, b, t, nAlloc, nFree);
    TraceAppend(nb, v, before, Free(b));
    MayWriteAppend(Batch, nb, nAlloc, nFree, s, before, m, Free(b), t);
    trace := before + [Free(b)];
  }

  /** With two free blocks and a free to come, the generator may take the second one,
      while the list hands out the first, and free it: it is still free in the list. */
  lemma MixUp(nb: nat, nAlloc: int, nFree: int, v: View, s: GenState) returns (x: int, m: GenState, t: GenState)
    requires Good(v) && FreeSet(v) == s.free && forall x :: x in s.free ==> 0 <= x < nb
    requires |s.free| >= 2 && s.allocedBlocks < nAlloc && s.freedBlocks < nFree
    ensures MayStep(Batch, nb, nAlloc, nFree, s, Alloc(1), m) && MayStep(Batch, nb, nAlloc, nFree, m, Free(x), t)
    ensures Ok(nb, v, Alloc(1)) && !Ok(nb, Serve(nb, v, Alloc(1)), Free(x))
  {
    FreeSetSize(v);
    x := Stack(v)[1];
    m := GenState(s.free - {x}, s.allocedBlocks + 1, s.freedBlocks);
    t := GenState(m.free + {x}, m.allocedBlocks, m.freedBlocks + 1);
    var w := Serve(nb, v, Alloc(1));
    assert Stack(w)[0] == x;
    StackMembers(w, x);
  }

  /** Without the condition some batch trace is not legal. */
  lemma BatchIllegal(nb: nat, nAlloc: int, nFree: int, v: View, s: GenState) returns (trace: seq<Request>, t: GenState)
    requires Good(v) && FreeSet(v) == s.free && s.allocedBlocks == s.freedBlocks == 0
    requires (forall x :: x in s.free ==> 0 <= x < nb) && !NoMixUp(nb, |s.free|, nAlloc, nFree)
    ensures MayWrite(Batch, nb, nAlloc, nFree, s, trace, t) && !Trace(nb, v, trace)
  {
    SetFits(s.free, nb);
    var before, m := FreeFirst(nb, nAlloc, nFree, v, s, if |s.free| < 2 then 2 - |s.free| else 0);
    var w := Run(nb, v, before);
    var x, p, q := MixUp(nb, nAlloc, nFree, w, m);
    MayWriteAppend(Batch, nb, nAlloc, nFree, s, before, m, Alloc(1), p);
    TraceAppend(nb, v, before, Alloc(1));
    MayWriteAppend(Batch, nb, nAlloc, nFree, s, before + [Alloc(1)], p, Free(x), q);
    TraceAppend(nb, v, before + [Alloc(1)], Free(x));
    trace, t := before + [Alloc(1)] + [Free(x)], q;
  }

  /** Every batch trace that the generator may write from a map is legal for the list
      started from that map exactly when the run allocates nothing, frees nothing, or
      never has two free blocks while a free is still to come. */
  lemma BatchLegalIff(nb: nat, rows: seq<int>, n: nat, nAlloc: int, nFree: int)
    requires 0 < n && |rows| % n == 0 && Distinct(rows) && forall k :: 0 <= k < |rows| ==> 0 <= rows[k] < nb
    ensures Good(InitialView(rows, n))
    ensures (forall trace, t :: MayWrite(Batch, nb, nAlloc, nFree, GenState(Elems(rows), 0, 0), trace, t) ==>
               Trace(nb, InitialView(rows, n), trace))
       <==> NoMixUp(nb, |rows|, nAlloc, nFree)
  {
    InitialGood(rows, n);
    ElemsSize(rows);
    var v, s := InitialView(rows, n), GenState(Elems(rows), 0, 0);
    if NoMixUp(nb, |rows|, nAlloc, nFree) {
      forall trace, t | MayWrite(Batch, nb, nAlloc, nFree, s, trace, t)
        ensures Trace(nb, v, trace)
      {
        BatchLegal(nb, nAlloc, nFree, v, s, trace, t);
      }
    } else {
      var trace, t := BatchIllegal(nb, nAlloc, nFree, v, s);
      assert MayWrite(Batch, nb, nAlloc, nFree, s, trace, t) && !Trace(nb, v, trace);
    }
  }

  /** A batch trace with frees need not be legal: the generator may free a block it
      took itself while the list handed out another one. Here it takes block 1 of
      the free blocks 0 and 1, the list hands out block 0, and block 1 is freed
      while it is still free. */
  lemma BatchFreeExample()
    ensures var v := View([[0, 1]], 0);
            && Good(v)
            && MayWrite(Batch, 2, 1, 1, GenState({0, 1}, 0, 0), [Alloc(1), Free(1)], GenState({0, 1}, 1, 1))
            && !Trace(2, v, [Alloc(1), Free(1)])
  {
    var v := View([[0, 1]], 0);
    assert Balanced(v) && Size(v) == 2;
    StackSlot(v, 0);
    StackSlot(v, 1);
    DivModUnique(0, 1, 0, 0);
    DivModUnique(1, 1, 1, 0);
    var trace := [Alloc(1), Free(1)];
    assert trace[1..] == [Free(1)];
    var w := Serve(2, v, Alloc(1));
    assert Stack(w) == Stack(v)[1..];
    assert Stack(v)[1] == 1 && Stack(w)[0] == 1;
    StackMembers(w, 1);
    var s, m := GenState({0, 1}, 0, 0), GenState({0}, 1, 0);
    assert {0} + {1} == {0, 1};
    MayWriteAppend(Batch, 2, 1, 1, s, [], s, Alloc(1), m);
    MayWriteAppend(Batch, 2, 1, 1, s, [Alloc(1)], m, Free(1), GenState({0, 1}, 1, 1));
    assert [] + [Alloc(1)] == [Alloc(1)] && [Alloc(1)] + [Free(1)] == trace;
  }
}
