/** The interleaved batch allocator of `apl.c`, built when AMAC is set. */
module Amac {
  import opened Arithmetic
  import opened Ring
  import opened AplModel
  import opened AplOrder
  import opened AplHeap
  import opened Traces
  import opened Requests
  import opened AmacModel
  import opened Apl

  class Workers {
    const apl: FreeList
    const node: array<int>
    const stage: array<int>
    var workerPtr: int

    ghost predicate Valid()
      reads this, apl, apl.next, apl.prev, apl.tag, apl.counts, node, stage
    {
      && apl.Valid()
      && node.Length == stage.Length == apl.n
      && node != stage
      && {node, stage} !! {apl.next, apl.prev, apl.value, apl.tag, apl.counts}
      && -1 <= workerPtr < apl.n
    }

    /** Between batches every worker is back in stage 0. */
    ghost predicate Idle()
      reads stage
    {
      forall w :: 0 <= w < stage.Length ==> stage[w] == 0
    }

    ghost function Now(): Pool
      reads this, node, stage
    {
      Pool(stage[..], node[..], workerPtr)
    }

    constructor (apl: FreeList)
      requires apl.Valid()
      ensures Valid() && Idle() && this.apl == apl && workerPtr == -1
      ensures fresh(node) && fresh(stage)
    {
      this.apl := apl;
      node := new int[apl.n](_ => NULL);
      stage := new int[apl.n](_ => 0);
      workerPtr := -1;
    }

    /** One 'a' line with AMAC. It deletes the same blocks in the same order as the
        plain loop, in exactly `2 * n + count` visits, none of them to a worker in
        its exit stage. Started in step with the cursor, every cached block is the
        block the visit unlinks; started out of step, none is. */
    method AllocBatch(count: int) returns (taken: seq<int>, ghost log: seq<Visit>)
      requires Valid() && Idle() && count <= Size(apl.view)
      modifies this, node, stage, apl, apl.next, apl.prev, apl.counts
      ensures Valid() && Idle()
      ensures apl.view == PopMany(old(apl.view), Clip(count))
      ensures taken == Tops(old(apl.view), Clip(count)) && |taken| == if count < 0 then 0 else count
      ensures workerPtr == PtrAfter(old(workerPtr), apl.n, count)
      ensures var n, start := apl.n, Next(old(workerPtr), apl.n);
              Logged(log, start, if count <= 0 then 0 else 2 * n + count, n, taken, start == old(apl.view).pos)
    {
      ghost var v0, start, ptr0 := apl.view, Next(workerPtr, apl.n), workerPtr;
      taken, log := [], [];
      var numFinished := 0;
      if count > 0 {
        BatchStart(Now(), apl.nb, v0, start, count);
      }
      while numFinished < count
        invariant Valid() && numFinished == Finished(|log|, apl.n)
        invariant count > 0 ==> Batch(Now(), apl.nb, apl.view, v0, start, count, taken, log)
        invariant count <= 0 ==> log == [] && taken == [] && apl.view == v0 && workerPtr == ptr0
        decreases count - numFinished, 2 * apl.n - |log|
      {
        numFinished, taken, log := VisitNext(count, numFinished, v0, start, taken, log);
      }
      if count > 0 {
        BatchEnd(Now(), apl.nb, apl.view, v0, start, count, taken, log, ptr0);
      }
      assert Logged(log, start, if count <= 0 then 0 else 2 * apl.n + count, apl.n, taken, start == v0.pos);
      ResetStages();
    }

    /** The loop behind a batch. */
    method ResetStages()
      requires Valid()
      modifies stage
      ensures Valid() && Idle()
    {
      var i := 0;
      while i < apl.n
        invariant 0 <= i <= apl.n && Valid()
        invariant forall w :: 0 <= w < i ==> stage[w] == 0
      {
        stage[i] := 0;
        i := i + 1;
      }
    }

    /** Stage 2: `left` deletes of the batch were still to do. */
    method DeleteAsWorker(left: int) returns (block: int)
      requires Valid() && 0 <= workerPtr && CanPop(apl.view)
      modifies node, stage, apl, apl.next, apl.prev, apl.counts
      ensures Valid() && apl.view == Pop(old(apl.view))
      ensures block == old(apl.view).segs[old(apl.view).pos][0]
      ensures Now() == PoolAfterDelete(old(Now()), apl.nb, apl.view, workerPtr, left)
      ensures node[workerPtr] == if left >= apl.n then apl.next[apl.nb + workerPtr] else old(node[workerPtr])
      ensures stage[workerPtr] == if left >= apl.n then old(stage[workerPtr]) else 3
    {
      block := apl.DeleteSingle();
      if left >= apl.n {
        FrontIsNext(apl.State(), apl.view, workerPtr);
        node[workerPtr] := apl.next[apl.nb + workerPtr];
      } else {
        stage[workerPtr] := 3;
      }
    }

    method VisitInStart(count: int, ghost p: Pool, ghost v0: View, ghost start: nat,
                        ghost taken: seq<int>, ghost log0: seq<Visit>)
      returns (ghost log: seq<Visit>)
      requires Valid() && 0 < count
      requires Batch(p, apl.nb, apl.view, v0, start, count, taken, log0) && |log0| < apl.n
      requires Now() == Pool(p.stage, p.node, Next(p.ptr, apl.n))
      modifies stage
      ensures Valid() && |log| == |log0| + 1
      ensures Batch(Now(), apl.nb, apl.view, v0, start, count, taken, log)
    {
      VisitStart(p, apl.nb, apl.view, v0, start, count, taken, log0);
      stage[workerPtr] := 1;
      log := log0 + [Visit(workerPtr, 0, NULL, NULL)];
      assert Now() == Pool(p.stage[workerPtr := 1], p.node, workerPtr);
    }

    method VisitInCache(count: int, ghost p: Pool, ghost v0: View, ghost start: nat,
                        ghost taken: seq<int>, ghost log0: seq<Visit>)
      returns (ghost log: seq<Visit>)
      requires Valid() && 0 < count
      requires Batch(p, apl.nb, apl.view, v0, start, count, taken, log0) && apl.n <= |log0| < 2 * apl.n
      requires Now() == Pool(p.stage, p.node, Next(p.ptr, apl.n))
      modifies node, stage
      ensures Valid() && |log| == |log0| + 1
      ensures Batch(Now(), apl.nb, apl.view, v0, start, count, taken, log)
    {
      VisitCache(p, apl.nb, apl.view, v0, start, count, taken, log0);
      FrontIsNext(apl.State(), apl.view, workerPtr);
      node[workerPtr] := apl.next[apl.nb + workerPtr];
      stage[workerPtr] := 2;
      log := log0 + [Visit(workerPtr, 1, node[workerPtr], NULL)];
      assert Now() == Pool(p.stage[workerPtr := 2], p.node[workerPtr := Front(apl.nb, apl.view, workerPtr)], workerPtr);
    }

    method VisitInDelete(count: int, finished: nat, ghost p: Pool, ghost v0: View, ghost start: nat,
                         taken0: seq<int>, ghost log0: seq<Visit>)
      returns (taken: seq<int>, ghost log: seq<Visit>)
      requires Valid() && finished == Finished(|log0|, apl.n) < count
      requires Batch(p, apl.nb, apl.view, v0, start, count, taken0, log0) && 2 * apl.n <= |log0|
      requires Now() == Pool(p.stage, p.node, Next(p.ptr, apl.n))
      modifies node, stage, apl, apl.next, apl.prev, apl.counts
      ensures Valid() && |log| == |log0| + 1
      ensures Batch(Now(), apl.nb, apl.view, v0, start, count, taken, log)
    {
      ReadyToDelete(apl.State(), apl.view, v0, finished, count, taken0);
      ghost var q, after := VisitDelete(p, apl.nb, apl.view, v0, start, count, taken0, log0);
      ghost var cached := node[workerPtr];
      var block := DeleteAsWorker(count - finished);
      taken := taken0 + [block];
      log := log0 + [Visit(workerPtr, 2, cached, block)];
      assert Now() == q && log == after;
      assert Batch(Now(), apl.nb, apl.view, v0, start, count, taken, log);
    }

    method StepPointer()
      requires Valid()
      modifies this`workerPtr
      ensures Valid() && Now() == Pool(old(stage[..]), old(node[..]), Next(old(workerPtr), apl.n))
    {
      NextIsMod(workerPtr, apl.n);
      workerPtr := (workerPtr + 1) % apl.n;
    }

    /** One pass through the loop. */
    method VisitNext(count: int, finished: nat, ghost v0: View, ghost start: nat, taken0: seq<int>, ghost log0: seq<Visit>)
      returns (numFinished: nat, taken: seq<int>, ghost log: seq<Visit>)
      requires Valid() && finished == Finished(|log0|, apl.n) < count
      requires Batch(Now(), apl.nb, apl.view, v0, start, count, taken0, log0)
      modifies this, node, stage, apl, apl.next, apl.prev, apl.counts
      ensures Valid() && |log| == |log0| + 1 && numFinished == Finished(|log|, apl.n)
      ensures Batch(Now(), apl.nb, apl.view, v0, start, count, taken, log)
    {
      ghost var p, v := Now(), apl.view;
      numFinished, taken, log := finished, taken0, log0;
      StageNow(p, apl.nb, v, v0, start, count, taken0, log0);
      StepPointer();
      if stage[workerPtr] == 0 {
        log := VisitInStart(count, p, v0, start, taken0, log0);
      } else if stage[workerPtr] == 1 {
        log := VisitInCache(count, p, v0, start, taken0, log0);
      } else if stage[workerPtr] == 2 {
        numFinished := numFinished + 1;
        taken, log := VisitInDelete(count, finished, p, v0, start, taken0, log0);
      }
    }

    /** One line of the request file with AMAC. */
    method ServeLine(r: Request) returns (taken: seq<int>, nRequests: nat)
      requires Valid() && Idle() && Ok(apl.nb, apl.view, r)
      modifies this, node, stage, apl, apl.next, apl.prev, apl.tag, apl.counts
      ensures Valid() && Idle()
      ensures apl.view == Traces.Serve(apl.nb, old(apl.view), r)
      ensures taken == TakenBy(old(apl.view), apl.nb, r)
      ensures nRequests == Cost(r)
      ensures workerPtr == PtrServed(old(workerPtr), apl.n, r)
    {
      taken, nRequests := [], 0;
      match r
      case Alloc(count) =>
        ghost var log;
        taken, log := AllocBatch(count);
        nRequests := Clip(count);
      case Free(block) =>
        apl.InsertSingle(block);
        nRequests := 1;
      case Delete(block) =>
        apl.DeleteByReference(block);
        nRequests := 1;
      case Other =>
    }

    /** The request loop of `main` with AMAC serves every trace as the plain build
        does: the same blocks, the same list. */
    method Serve(trace: seq<Request>) returns (taken: seq<int>, nRequests: nat)
      requires Valid() && Idle() && Trace(apl.nb, apl.view, trace)
      modifies this, node, stage, apl, apl.next, apl.prev, apl.tag, apl.counts
      ensures Valid() && Idle()
      ensures apl.view == Run(apl.nb, old(apl.view), trace)
      ensures taken == Taken(apl.nb, old(apl.view), trace)
      ensures nRequests == Operations(trace)
      ensures nRequests == |taken| + |FreeLines(trace)| + |DeleteLines(trace)| && |taken| == Allocated(trace)
      ensures workerPtr == PtrRun(old(workerPtr), apl.n, trace)
    {
      taken, nRequests := [], 0;
      ServingStart(apl.nb, apl.view, trace);
      var i := 0;
      while i < |trace|
        invariant 0 <= i <= |trace| && Valid() && Idle()
        invariant Serving(apl.nb, old(apl.view), trace, i, apl.view, taken, nRequests)
        invariant PtrRun(old(workerPtr), apl.n, trace) == PtrRun(workerPtr, apl.n, trace[i..])
      {
        assert trace[i..][0] == trace[i] && trace[i..][1..] == trace[i + 1..];
        ServingStep(apl.nb, old(apl.view), trace, i, apl.view, taken, nRequests);
        var blocks, done := ServeLine(trace[i]);
        taken := taken + blocks;
        nRequests := nRequests + done;
        i := i + 1;
      }
      assert trace[i..] == [];
      TakenSize(apl.nb, old(apl.view), trace);
      OperationsCounted(trace);
    }
  }
}
