/** What the AMAC workers of `apl.c` have done after a given number of visits.

    The loop visits the workers round robin, starting behind the last one of the
    previous batch. In the first lap every worker is only started, in the second
    it caches the block its access point offers, and from then on every visit
    deletes one block.
 */
module AmacModel {
  import opened Arithmetic
  import opened Ring
  import opened AplModel
  import opened AplOrder
  import opened AplHeap
  import opened Traces
  import opened Requests

  /** One pass through the loop: who was visited, in which stage, the block the
      worker had cached and the block that was unlinked (only in stage 2). */
  datatype Visit = Visit(worker: int, stage: int, cached: int, unlinked: int)

  /** The node behind access point `w`. */
  function Front(nb: nat, v: View, w: nat): int
    requires w < |v.segs|
  {
    if v.segs[w] != [] then v.segs[w][0]
    else if w + 1 < |v.segs| then nb + w + 1
    else nb + |v.segs|
  }

  lemma FrontIsNext(h: Heap, v: View, w: nat)
    requires Linked(h, v) && w < |v.segs|
    ensures h.links.next[h.nb + w] == Front(h.nb, v, w)
  {
    var ring, n, k := RingOf(h.nb, v.segs), |v.segs|, |Before(h.nb, v.segs, w)|;
    RingUpdate(h.nb, v.segs, w, v.segs[w]);
    assert ring[k - 1] == h.nb + w;
    Neighbours(h.links, ring, k - 1);
    if v.segs[w] == [] && w + 1 < n {
      assert ring[k] == h.nb + w + 1;
    }
  }

  /** Different access points never offer the same node. */
  lemma FrontsDiffer(h: Heap, v: View, w: nat)
    requires Linked(h, v) && CanPop(v) && w < |v.segs| && w != v.pos
    ensures Front(h.nb, v, w) != v.segs[v.pos][0]
  {
    assert InSeg(v.segs, v.pos, v.segs[v.pos][0]);
    if v.segs[w] != [] {
      assert Body(v.segs, h.nb) == RingOf(h.nb, v.segs)[1..];
      if w < v.pos {
        BodyApart(v.segs, h.nb, w, 0, v.pos, 0);
      } else {
        BodyApart(v.segs, h.nb, v.pos, 0, w, 0);
      }
    }
  }

  // ----- the workers after `t` visits -----

  /** The number of blocks deleted in the first `t` visits. */
  function Finished(t: nat, n: nat): nat {
    if t <= 2 * n then 0 else t - 2 * n
  }

  function StageOf(t: nat, n: nat): int {
    if t < n then 0 else if t < 2 * n then 1 else 2
  }

  /** `(p + 1) % n` for a position or, at first, -1. */
  function Next(p: int, n: nat): nat
    requires 0 < n && -1 <= p < n
  {
    if p + 1 == n then 0 else p + 1
  }

  lemma NextIsMod(p: int, n: nat)
    requires 0 < n && -1 <= p < n
    ensures Next(p, n) == (p + 1) % n
  {
    DivModUnique(p + 1, n, if p + 1 == n then 1 else 0, Next(p, n));
  }

  /** The worker visited in visit `t`. */
  function WorkerOf(start: nat, t: nat, n: nat): (w: nat)
    requires start < n
    ensures w < n
  {
    if t == 0 then start else Next(WorkerOf(start, t - 1, n), n)
  }

  lemma {:induction false} WorkerIsMod(start: nat, t: nat, n: nat)
    requires start < n
    ensures WorkerOf(start, t, n) == (start + t) % n
  {
    if t == 0 {
      OffUnique(start, 0, n);
    } else {
      WorkerIsMod(start, t - 1, n);
      NextIsMod(WorkerOf(start, t - 1, n), n);
      ModAdd(start + (t - 1), 1, n);
    }
  }

  /** The stage of every worker that the batch still needs. */
  ghost predicate Stages(stage: seq<int>, start: nat, t: nat, n: nat, count: int)
    requires start < n
  {
    && |stage| == n
    && (t <= n ==> forall w :: 0 <= w < n ==> stage[w] == if Off(w, start, n) < t then 1 else 0)
    && (n <= t <= 2 * n ==> forall w :: 0 <= w < n ==> stage[w] == if Off(w, start, n) < t - n then 2 else 1)
    && (2 * n <= t ==> forall w :: 0 <= w < n && t - 2 * n + Off(w, WorkerOf(start, t, n), n) < count ==> stage[w] == 2)
  }

  /** Every cached node is still the one its access point offers; after the first
      two laps this needs the workers to run in step with the cursor. */
  ghost predicate Caches(node: seq<int>, nb: nat, v: View, start: nat, t: nat, n: nat, count: int)
    requires start < n == |v.segs|
  {
    && |node| == n
    && (n <= t <= 2 * n ==> forall w :: 0 <= w < n && Off(w, start, n) < t - n ==> node[w] == Front(nb, v, w))
    && (2 * n <= t && WorkerOf(start, t, n) == v.pos ==>
          forall w :: 0 <= w < n && t - 2 * n + Off(w, v.pos, n) < count ==> node[w] == Front(nb, v, w))
  }

  /** Offsets of the workers visited in the first two laps. */
  lemma NextWorker(start: nat, t: nat, n: nat)
    requires start < n
    ensures WorkerOf(start, t + 1, n) == Next(WorkerOf(start, t, n), n)
    ensures t < n ==> Off(WorkerOf(start, t, n), start, n) == t
    ensures n <= t < 2 * n ==> Off(WorkerOf(start, t, n), start, n) == t - n
    ensures t == n || t == 2 * n ==> WorkerOf(start, t, n) == start
    ensures t + 1 == n || t + 1 == 2 * n ==> WorkerOf(start, t + 1, n) == start
  {
    WorkerIsMod(start, t, n);
    if t + 1 == n || t + 1 == 2 * n {
      WorkerIsMod(start, t + 1, n);
      ModShift(start, n, if t + 1 == n then 1 else 2);
      OffUnique(start, 0, n);
    }
    if t < n { OffUnique(start, t, n); }
    if n <= t < 2 * n { ModShift(start + t - n, n, 1); OffUnique(start, t - n, n); }
    if t == n { ModShift(start, n, 1); OffUnique(start, 0, n); }
    if t == 2 * n { ModShift(start, n, 2); OffUnique(start, 0, n); }
  }

  /** The visited worker is in the stage that the visit number says. */
  lemma StageAtVisit(stage: seq<int>, start: nat, t: nat, n: nat, count: int)
    requires start < n && Stages(stage, start, t, n, count) && Finished(t, n) < count
    ensures stage[WorkerOf(start, t, n)] == StageOf(t, n)
  {
    NextWorker(start, t, n);
    var w := WorkerOf(start, t, n);
    assert Off(w, w, n) == 0;
  }

  /** The stage a visit leaves its worker in. */
  function StageAfter(t: nat, n: nat, count: int): int {
    if t < n then 1 else if t < 2 * n then 2
    else if count - Finished(t, n) >= n then 2 else 3
  }

  lemma StagesStep(stage: seq<int>, start: nat, t: nat, n: nat, count: int)
    requires start < n && Stages(stage, start, t, n, count) && Finished(t, n) < count
    ensures Stages(stage[WorkerOf(start, t, n) := StageAfter(t, n, count)], start, t + 1, n, count)
  {
    NextWorker(start, t, n);
    var x := WorkerOf(start, t, n);
    var s := stage[x := StageAfter(t, n, count)];
    forall w | 0 <= w < n && w != x && t < n
      ensures Off(w, start, n) < t + 1 <==> Off(w, start, n) < t
    {
    }
    forall w | 0 <= w < n && w != x && n <= t < 2 * n
      ensures Off(w, start, n) < t + 1 - n <==> Off(w, start, n) < t - n
    {
    }
  }

  /** Caching in the second lap, when nothing has been deleted yet. */
  lemma CachesFill(node: seq<int>, nb: nat, v: View, start: nat, t: nat, n: nat, count: int)
    requires start < n == |v.segs| && n <= t < 2 * n && Caches(node, nb, v, start, t, n, count)
    ensures Caches(node[WorkerOf(start, t, n) := Front(nb, v, WorkerOf(start, t, n))], nb, v, start, t + 1, n, count)
  {
    NextWorker(start, t, n);
    var x := WorkerOf(start, t, n);
    forall w | 0 <= w < n && w != x
      ensures Off(w, start, n) < t + 1 - n <==> Off(w, start, n) < t - n
    {
    }
  }

  /** A delete in step with the cursor: only the visited worker's access point has
      a new block to offer, and the worker caches it while it may be needed again. */
  lemma CachesStep(node: seq<int>, nb: nat, v: View, start: nat, t: nat, n: nat, count: int)
    requires start < n == |v.segs| && 2 * n <= t && Finished(t, n) < count && CanPop(v)
    requires Caches(node, nb, v, start, t, n, count)
    ensures var x := WorkerOf(start, t, n);
            var kept := if count - Finished(t, n) >= n then node[x := Front(nb, Pop(v), x)] else node;
            Caches(kept, nb, Pop(v), start, t + 1, n, count)
  {
    NextWorker(start, t, n);
    ModNext(v.pos, n);
    OffUnique(v.pos, 0, n);
    var x := WorkerOf(start, t, n);
    var y := WorkerOf(start, t + 1, n);
    if y == Pop(v).pos {
      assert x == v.pos;
      forall w | 0 <= w < n && t + 1 - 2 * n + Off(w, y, n) < count && w != x
        ensures node[w] == Front(nb, Pop(v), w)
      {
        assert Off(w, x, n) == Off(w, y, n) + 1;
        assert node[w] == Front(nb, v, w);
      }
    }
  }

  /** What the log of a batch must say after `t` visits. */
  ghost predicate Logged(log: seq<Visit>, start: nat, t: nat, n: nat, taken: seq<int>, inStep: bool)
    requires start < n
  {
    && |log| == t && |taken| == Finished(t, n)
    && (forall u :: 0 <= u < t ==> log[u].worker == WorkerOf(start, u, n) && log[u].stage == StageOf(u, n))
    && (forall u :: 2 * n <= u < t ==> log[u].unlinked == taken[u - 2 * n])
    && (inStep ==> forall u :: 2 * n <= u < t ==> log[u].cached == log[u].unlinked)
    && (!inStep ==> forall u :: 2 * n <= u < t ==> log[u].cached != log[u].unlinked)
  }

  // ----- out of step -----

  /** A node that worker `w` can have cached in a batch that started from `v0`: a
      block that was then in its own segment, or a sentinel. */
  predicate OwnedBy(nb: nat, v0: View, w: nat, x: int)
    requires w < |v0.segs|
  {
    x >= nb || x in v0.segs[w]
  }

  ghost predicate Owned(node: seq<int>, nb: nat, v0: View, start: nat, t: nat) {
    var n := |v0.segs|;
    && start < n && |node| == n
    && forall w :: 0 <= w < n && (2 * n <= t || (n <= t && Off(w, start, n) < t - n)) ==> OwnedBy(nb, v0, w, node[w])
  }

  /** Deletes only take blocks away from the front of segments. */
  lemma {:induction false} PopManyWithin(v: View, k: nat, w: nat, x: int)
    requires Good(v) && k <= Size(v) && w < |v.segs| && x in PopMany(v, k).segs[w]
    ensures x in v.segs[w]
  {
    if k > 0 {
      SizeIsTotal(PopMany(v, k - 1));
      PopManyWithin(v, k - 1, w, x);
    }
  }

  lemma FrontOwned(nb: nat, v0: View, f: nat, w: nat)
    requires Good(v0) && f <= Size(v0) && w < |v0.segs|
    ensures OwnedBy(nb, v0, w, Front(nb, PopMany(v0, f), w))
  {
    var v := PopMany(v0, f);
    if v.segs[w] != [] { PopManyWithin(v0, f, w, v.segs[w][0]); }
  }

  /** No block is in two segments. */
  lemma SegmentsDisjoint(v: View, i: nat, j: nat, x: int)
    requires Good(v) && i < |v.segs| && j < |v.segs| && x in v.segs[i] && x in v.segs[j]
    ensures i == j
  {
    var k :| 0 <= k < |v.segs[i]| && v.segs[i][k] == x;
    var l :| 0 <= l < |v.segs[j]| && v.segs[j][l] == x;
    StackIndexInverse(v, i, k);
    StackIndexInverse(v, j, l);
  }

  /** A worker at another segment than the cursor never holds the block to unlink. */
  lemma OwnedIsNotTop(nb: nat, v0: View, f: nat, w: nat, x: int)
    requires Good(v0) && f <= Size(v0) && w < |v0.segs| && OwnedBy(nb, v0, w, x)
    requires CanPop(PopMany(v0, f)) && PopMany(v0, f).segs[PopMany(v0, f).pos][0] < nb
    requires w != PopMany(v0, f).pos
    ensures x != PopMany(v0, f).segs[PopMany(v0, f).pos][0]
  {
    var v := PopMany(v0, f);
    var b := v.segs[v.pos][0];
    PopManyWithin(v0, f, v.pos, b);
    if x == b { SegmentsDisjoint(v0, w, v.pos, x); }
  }

  // ----- one batch -----

  datatype Pool = Pool(stage: seq<int>, node: seq<int>, ptr: int)

  /** Where the worker machine stands after `t` visits. */
  ghost predicate Running(p: Pool, nb: nat, v: View, start: nat, t: nat, n: nat, count: nat) {
    && start < n == |v.segs|
    && Stages(p.stage, start, t, n, count)
    && Caches(p.node, nb, v, start, t, n, count)
    && -1 <= p.ptr < n && Next(p.ptr, n) == WorkerOf(start, t, n)
    && (t > 0 ==> p.ptr == WorkerOf(start, t - 1, n))
  }

  /** `f` of the `count` deletes are done. */
  ghost predicate Deleted(v: View, v0: View, f: nat, count: nat, taken: seq<int>) {
    && Good(v0) && f <= count <= Size(v0)
    && v == PopMany(v0, f) && taken == Tops(v0, f)
  }

  lemma DeletedStep(v: View, v0: View, f: nat, count: nat, taken: seq<int>)
    requires Deleted(v, v0, f, count, taken) && f < count
    ensures CanPop(v) && |v.segs| == |v0.segs|
    ensures Deleted(Pop(v), v0, f + 1, count, taken + [v.segs[v.pos][0]])
  {
    SizeIsTotal(v);
  }

  /** Workers and list after the first `t` visits of a batch of `count` deletes that
      started from view `v0`. */
  ghost predicate Going(p: Pool, nb: nat, v: View, v0: View, start: nat, count: nat, taken: seq<int>, t: nat) {
    var n := |v0.segs|;
    && 0 < count && start < n
    && Deleted(v, v0, Finished(t, n), count, taken)
    && Running(p, nb, v, start, t, n, count)
    && Owned(p.node, nb, v0, start, t)
    && (2 * n <= t ==> (WorkerOf(start, t, n) == v.pos <==> start == v0.pos))
  }

  /** Everything that holds after the visits in `log`. */
  ghost predicate Batch(p: Pool, nb: nat, v: View, v0: View, start: nat, count: nat, taken: seq<int>, log: seq<Visit>) {
    && Going(p, nb, v, v0, start, count, taken, |log|)
    && Logged(log, start, |log|, |v0.segs|, taken, start == v0.pos)
  }

  lemma BatchStart(p: Pool, nb: nat, v: View, start: nat, count: nat)
    requires Good(v) && 0 < count <= Size(v) && start < |v.segs| == |p.stage| == |p.node|
    requires forall w :: 0 <= w < |p.stage| ==> p.stage[w] == 0
    requires -1 <= p.ptr < |v.segs| && start == Next(p.ptr, |v.segs|)
    ensures Batch(p, nb, v, v, start, count, [], [])
  {
  }

  lemma OwnedFill(node: seq<int>, nb: nat, v0: View, start: nat, t: nat, x: int)
    requires Owned(node, nb, v0, start, t) && |v0.segs| <= t < 2 * |v0.segs|
    requires OwnedBy(nb, v0, WorkerOf(start, t, |v0.segs|), x)
    ensures Owned(node[WorkerOf(start, t, |v0.segs|) := x], nb, v0, start, t + 1)
  {
    var n := |v0.segs|;
    NextWorker(start, t, n);
    var y := WorkerOf(start, t, n);
    forall w | 0 <= w < n && w != y && Off(w, start, n) < t + 1 - n
      ensures Off(w, start, n) < t - n
    {
    }
  }

  /** A visit that deletes nothing. */
  lemma LogQuiet(log: seq<Visit>, start: nat, t: nat, n: nat, taken: seq<int>, inStep: bool, e: Visit)
    requires start < n && Logged(log, start, t, n, taken, inStep) && t < 2 * n
    requires e.worker == WorkerOf(start, t, n) && e.stage == StageOf(t, n)
    ensures Logged(log + [e], start, t + 1, n, taken, inStep)
  {
  }

  /** The stage found at the next visit. */
  lemma StageNow(p: Pool, nb: nat, v: View, v0: View, start: nat, count: nat, taken: seq<int>, log: seq<Visit>)
    requires Batch(p, nb, v, v0, start, count, taken, log) && Finished(|log|, |v0.segs|) < count
    ensures var x := Next(p.ptr, |v0.segs|);
            x < |p.stage| && p.stage[x] == StageOf(|log|, |v0.segs|)
  {
    StageAtVisit(p.stage, start, |log|, |v0.segs|, count);
    NextWorker(start, |log|, |v0.segs|);
  }

  /** Stage 0: the worker is started. */
  lemma VisitStart(p: Pool, nb: nat, v: View, v0: View, start: nat, count: nat, taken: seq<int>, log: seq<Visit>)
    requires Batch(p, nb, v, v0, start, count, taken, log) && |log| < |v0.segs|
    ensures var x := Next(p.ptr, |v0.segs|);
            && x < |p.stage| && x < |p.node| && p.stage[x] == 0
            && Batch(Pool(p.stage[x := 1], p.node, x), nb, v, v0, start, count, taken, log + [Visit(x, 0, NULL, NULL)])
  {
    var n, t := |v0.segs|, |log|;
    NextWorker(start, t, n);
    StageAtVisit(p.stage, start, t, n, count);
    StagesStep(p.stage, start, t, n, count);
    LogQuiet(log, start, t, n, taken, start == v0.pos, Visit(WorkerOf(start, t, n), 0, NULL, NULL));
  }

  /** Stage 1: the worker caches the block its access point offers. */
  lemma VisitCache(p: Pool, nb: nat, v: View, v0: View, start: nat, count: nat, taken: seq<int>, log: seq<Visit>)
    requires Batch(p, nb, v, v0, start, count, taken, log) && |v0.segs| <= |log| < 2 * |v0.segs|
    ensures var x := Next(p.ptr, |v0.segs|);
            && x < |p.stage| && x < |p.node| && x < |v.segs| && p.stage[x] == 1
            && var f := Front(nb, v, x);
               Batch(Pool(p.stage[x := 2], p.node[x := f], x), nb, v, v0, start, count, taken, log + [Visit(x, 1, f, NULL)])
  {
    var n, t := |v0.segs|, |log|;
    NextWorker(start, t, n);
    StageAtVisit(p.stage, start, t, n, count);
    StagesStep(p.stage, start, t, n, count);
    CachesFill(p.node, nb, v, start, t, n, count);
    var x := WorkerOf(start, t, n);
    FrontOwned(nb, v0, 0, x);
    OwnedFill(p.node, nb, v0, start, t, Front(nb, v, x));
    LogQuiet(log, start, t, n, taken, start == v0.pos, Visit(x, 1, Front(nb, v, x), NULL));
  }

  /** The pool after worker `x` deleted a block with `left` deletes to go before it. */
  function PoolAfterDelete(p: Pool, nb: nat, w: View, x: nat, left: int): Pool
    requires x < |p.stage| && x < |p.node| && x < |w.segs|
  {
    if left >= |w.segs| then Pool(p.stage, p.node[x := Front(nb, w, x)], x)
    else Pool(p.stage[x := 3], p.node, x)
  }

  lemma RunningDelete(p: Pool, nb: nat, v: View, start: nat, t: nat, n: nat, count: nat)
    requires Running(p, nb, v, start, t, n, count) && 2 * n <= t && Finished(t, n) < count && CanPop(v)
    ensures var x := WorkerOf(start, t, n);
            && x < |p.stage| == |p.node| == n && p.stage[x] == 2
            && Running(PoolAfterDelete(p, nb, Pop(v), x, count - Finished(t, n)), nb, Pop(v), start, t + 1, n, count)
  {
    NextWorker(start, t, n);
    StageAtVisit(p.stage, start, t, n, count);
    StagesStep(p.stage, start, t, n, count);
    CachesStep(p.node, nb, v, start, t, n, count);
    var x := WorkerOf(start, t, n);
    assert p.stage[x := 2] == p.stage;
  }

  lemma LogDelete(log: seq<Visit>, start: nat, t: nat, n: nat, taken: seq<int>, inStep: bool, e: Visit)
    requires start < n && Logged(log, start, t, n, taken, inStep) && 2 * n <= t
    requires e.worker == WorkerOf(start, t, n) && e.stage == 2
    requires inStep ==> e.cached == e.unlinked
    requires !inStep ==> e.cached != e.unlinked
    ensures Logged(log + [e], start, t + 1, n, taken + [e.unlinked], inStep)
  {
  }

  /** At a delete a block is free. */
  lemma ReadyToDelete(h: Heap, v: View, v0: View, f: nat, count: nat, taken: seq<int>)
    requires Linked(h, v) && Deleted(v, v0, f, count, taken) && f < count
    ensures CanPop(v) && |v.segs| == |v0.segs| && v.segs[v.pos][0] < h.nb
  {
    DeletedStep(v, v0, f, count, taken);
    OfferedIsTop(h, v);
  }

  /** Stage 2: one block is deleted. The worker caches again, and stays in stage 2,
      when at least as many deletes as workers were left. */
  lemma VisitDelete(p: Pool, nb: nat, v: View, v0: View, start: nat, count: nat, taken: seq<int>, log: seq<Visit>)
    returns (q: Pool, after: seq<Visit>)
    requires Batch(p, nb, v, v0, start, count, taken, log) && 2 * |v0.segs| <= |log|
    requires Finished(|log|, |v0.segs|) < count
    requires CanPop(v) && |v.segs| == |v0.segs| && v.segs[v.pos][0] < nb
    ensures var x := Next(p.ptr, |v0.segs|);
            && x < |p.stage| && x < |p.node| && x < |v.segs| && p.stage[x] == 2
            && q == PoolAfterDelete(p, nb, Pop(v), x, count - Finished(|log|, |v0.segs|))
            && after == log + [Visit(x, 2, p.node[x], v.segs[v.pos][0])]
    ensures Batch(q, nb, Pop(v), v0, start, count, taken + [v.segs[v.pos][0]], after)
  {
    var t := |log|;
    NextWorker(start, t, |v0.segs|);
    q := GoingDelete(p, nb, v, v0, start, count, taken, t);
    after := DeleteLogged(p, nb, v, v0, start, t, Finished(t, |v0.segs|), count, taken, log);
    IsBatch(q, nb, Pop(v), v0, start, count, taken + [v.segs[v.pos][0]], after, t + 1);
  }

  lemma IsBatch(p: Pool, nb: nat, v: View, v0: View, start: nat, count: nat, taken: seq<int>, log: seq<Visit>, t: nat)
    requires Going(p, nb, v, v0, start, count, taken, t)
    requires Logged(log, start, t, |v0.segs|, taken, start == v0.pos)
    ensures Batch(p, nb, v, v0, start, count, taken, log)
  {
  }

  lemma GoingDelete(p: Pool, nb: nat, v: View, v0: View, start: nat, count: nat, taken: seq<int>, t: nat)
    returns (q: Pool)
    requires Going(p, nb, v, v0, start, count, taken, t) && 2 * |v0.segs| <= t
    requires Finished(t, |v0.segs|) < count && CanPop(v) && |v.segs| == |v0.segs|
    ensures var x := Next(p.ptr, |v0.segs|);
            && x < |p.stage| && x < |p.node| && x < |v.segs| && p.stage[x] == 2
            && q == PoolAfterDelete(p, nb, Pop(v), x, count - Finished(t, |v0.segs|))
    ensures Going(q, nb, Pop(v), v0, start, count, taken + [v.segs[v.pos][0]], t + 1)
  {
    var n := |v0.segs|;
    var f := Finished(t, n);
    q := PoolAfterDelete(p, nb, Pop(v), WorkerOf(start, t, n), count - f);
    DeletedStep(v, v0, f, count, taken);
    RunningDelete(p, nb, v, start, t, n, count);
    OwnedDelete(p, nb, v0, start, t, f, count, taken, v);
    KeepsStep(v, start, t, n);
  }

  lemma DeleteLogged(p: Pool, nb: nat, v: View, v0: View, start: nat, t: nat, f: nat, count: nat,
                     taken: seq<int>, log: seq<Visit>)
    returns (after: seq<Visit>)
    requires Deleted(v, v0, f, count, taken) && f == Finished(t, |v0.segs|) < count && CanPop(v) && v.segs[v.pos][0] < nb
    requires Running(p, nb, v, start, t, |v0.segs|, count) && 2 * |v0.segs| <= t && Owned(p.node, nb, v0, start, t)
    requires WorkerOf(start, t, |v0.segs|) == v.pos <==> start == v0.pos
    requires Logged(log, start, t, |v0.segs|, taken, start == v0.pos)
    ensures var x := WorkerOf(start, t, |v0.segs|);
            after == log + [Visit(x, 2, p.node[x], v.segs[v.pos][0])]
    ensures Logged(after, start, t + 1, |v0.segs|, taken + [v.segs[v.pos][0]], start == v0.pos)
  {
    var x, b := WorkerOf(start, t, |v0.segs|), v.segs[v.pos][0];
    DeleteCached(p, nb, v, v0, start, t, f, count, taken);
    LogDelete(log, start, t, |v0.segs|, taken, start == v0.pos, Visit(x, 2, p.node[x], b));
    after := log + [Visit(x, 2, p.node[x], b)];
  }

  /** In step the deleting worker had cached the block, out of step another one. */
  lemma DeleteCached(p: Pool, nb: nat, v: View, v0: View, start: nat, t: nat, f: nat, count: nat, taken: seq<int>)
    requires Deleted(v, v0, f, count, taken) && f == Finished(t, |v0.segs|) < count && CanPop(v) && v.segs[v.pos][0] < nb
    requires Running(p, nb, v, start, t, |v0.segs|, count) && 2 * |v0.segs| <= t && Owned(p.node, nb, v0, start, t)
    ensures p.node[WorkerOf(start, t, |v0.segs|)] == v.segs[v.pos][0] <==> WorkerOf(start, t, |v0.segs|) == v.pos
  {
    var x := WorkerOf(start, t, |v0.segs|);
    NextWorker(start, t, |v0.segs|);
    assert Off(v.pos, v.pos, |v0.segs|) == 0;
    if x != v.pos {
      assert OwnedBy(nb, v0, x, p.node[x]);
      OwnedIsNotTop(nb, v0, f, x, p.node[x]);
    }
  }

  lemma OwnedDelete(p: Pool, nb: nat, v0: View, start: nat, t: nat, f: nat, count: nat, taken: seq<int>, v: View)
    requires Deleted(v, v0, f, count, taken) && f < count && CanPop(v)
    requires |p.stage| == |v0.segs| && Owned(p.node, nb, v0, start, t) && 2 * |v0.segs| <= t
    ensures |Pop(v).segs| == |v0.segs|
    ensures Owned(PoolAfterDelete(p, nb, Pop(v), WorkerOf(start, t, |v0.segs|), count - f).node, nb, v0, start, t + 1)
  {
    DeletedStep(v, v0, f, count, taken);
    FrontOwned(nb, v0, f + 1, WorkerOf(start, t, |v0.segs|));
  }

  /** Worker and cursor move on together. */
  lemma KeepsStep(v: View, start: nat, t: nat, n: nat)
    requires start < n == |v.segs| && CanPop(v)
    ensures WorkerOf(start, t + 1, n) == Pop(v).pos <==> WorkerOf(start, t, n) == v.pos
  {
    NextIsMod(v.pos, n);
  }

  /** The batch comes back to the worker of delete visit `t` exactly when more
      deletes than workers were left. With exactly as many, the worker is kept in
      stage 2 and caches a node that nobody uses. */
  lemma ComesBack(start: nat, t: nat, n: nat, count: nat)
    requires start < n && 2 * n <= t && Finished(t, n) < count
    ensures (exists u :: t < u < 2 * n + count && WorkerOf(start, u, n) == WorkerOf(start, t, n))
       <==> count - Finished(t, n) > n
    ensures StageAfter(t, n, count) == 2 <==> count - Finished(t, n) >= n
  {
    WorkerIsMod(start, t, n);
    forall u | t < u < t + n
      ensures WorkerOf(start, u, n) != WorkerOf(start, t, n)
    {
      WorkerIsMod(start, u, n);
      if (start + u) % n == (start + t) % n { SameRemainder(start + t, start + u, n); }
    }
    WorkerIsMod(start, t + n, n);
    ModShift(start + t, n, 1);
  }

  /** The last visited worker after a batch. */
  function PtrAfter(ptr: int, n: nat, count: int): int
    requires 0 < n
  {
    if count <= 0 then ptr else (ptr + 2 * n + count) % n
  }

  lemma BatchEnd(p: Pool, nb: nat, v: View, v0: View, start: nat, count: nat, taken: seq<int>, log: seq<Visit>, ptr0: int)
    requires Batch(p, nb, v, v0, start, count, taken, log) && Finished(|log|, |v0.segs|) == count
    requires -1 <= ptr0 < |v0.segs| && start == Next(ptr0, |v0.segs|)
    ensures |log| == 2 * |v0.segs| + count && p.ptr == PtrAfter(ptr0, |v0.segs|, count)
  {
    NextIsMod(ptr0, |v0.segs|);
    WorkerIsMod(start, |log| - 1, |v0.segs|);
    ModAdd(ptr0 + 1, |log| - 1, |v0.segs|);
  }

  // ----- whole runs -----

  function PtrRun(ptr: int, n: nat, trace: seq<Request>): int
    requires 0 < n
    decreases |trace|
  {
    if trace == [] then ptr
    else PtrRun(PtrServed(ptr, n, trace[0]), n, trace[1..])
  }

  /** How far the next worker is ahead of the cursor; 0 is in step. */
  function Drift(ptr: int, pos: int, n: nat): int
    requires 0 < n
  {
    (ptr + 1 - pos) % n
  }

  /** One more free than delete puts the workers one position further ahead. */
  function Pull(trace: seq<Request>): int {
    if trace == [] then 0
    else PullOf(trace[0]) + Pull(trace[1..])
  }

  lemma {:induction false} PopManyPos(v: View, k: nat)
    requires Good(v) && k <= Size(v)
    ensures PopMany(v, k).pos == (v.pos + k) % |v.segs|
  {
    if k == 0 {
      OffUnique(v.pos, 0, |v.segs|);
    } else {
      PopManyPos(v, k - 1);
      ModAdd(v.pos + (k - 1), 1, |v.segs|);
    }
  }

  lemma DriftAlloc(ptr: int, p: nat, n: nat, c: nat)
    requires 0 < n
    ensures Drift((ptr + 2 * n + c) % n, (p + c) % n, n) == Drift(ptr, p, n)
  {
    var a, b, d := ptr + 2 * n + c, p + c, ptr + 1 - p;
    ModDiff(a, b, 1, n);
    assert a + 1 - b == d + 2 * n;
    ModShift(d, n, 2);
  }

  lemma DriftMove(ptr: int, p: int, n: nat)
    requires 0 < n
    ensures Drift(ptr, p % n, n) == Drift(ptr, p, n)
  {
    ModDiff(0, p, ptr + 1, n);
    DivModUnique(0, n, 0, 0);
  }

  function PtrServed(ptr: int, n: nat, r: Request): int
    requires 0 < n
  {
    if r.Alloc? then PtrAfter(ptr, n, r.count) else ptr
  }

  function PullOf(r: Request): int {
    match r
    case Free(_) => 1
    case Delete(_) => -1
    case _ => 0
  }

  lemma DriftStep(nb: nat, v: View, ptr: int, r: Request)
    requires Good(v) && Ok(nb, v, r)
    ensures Drift(PtrServed(ptr, |v.segs|, r), Serve(nb, v, r).pos, |v.segs|)
         == (ptr + 1 - v.pos + PullOf(r)) % |v.segs|
  {
    var n := |v.segs|;
    match r
    case Alloc(c) =>
      PopManyPos(v, Clip(c));
      OffUnique(v.pos, 0, n);
      if c > 0 { DriftAlloc(ptr, v.pos, n, c); }
    case Free(b) =>
      assert Push(v, b).pos == (v.pos - 1 + n) % n;
      DriftMove(ptr, v.pos - 1 + n, n);
      ModShift(ptr + 1 - v.pos + 1, n, -1);
    case Delete(b) =>
      RemovePos(v, b);
      DriftMove(ptr, v.pos + 1, n);
    case Other =>
  }

  lemma RemovePos(v: View, x: int)
    requires Good(v) && IsBlock(v.segs, x)
    ensures Remove(v, x).pos == (v.pos + 1) % |v.segs|
  {
  }

  lemma DriftLater(ptr: int, pos: int, drift: int, pull: int, n: nat)
    requires 0 < n && Drift(ptr, pos, n) == drift % n
    ensures (ptr + 1 - pos + pull) % n == (drift + pull) % n
  {
    ModAdd(ptr + 1 - pos, pull, n);
    ModAdd(drift, pull, n);
  }

  /** Over any valid run the workers' lead over the cursor changes by the number of
      frees minus the number of deletes; allocations keep it. */
  lemma {:induction false} DriftRun(nb: nat, v: View, ptr: int, trace: seq<Request>)
    requires Good(v) && Trace(nb, v, trace)
    ensures Drift(PtrRun(ptr, |v.segs|, trace), Run(nb, v, trace).pos, |v.segs|)
         == (ptr + 1 - v.pos + Pull(trace)) % |v.segs|
    decreases |trace|
  {
    if trace != [] {
      var n, r := |v.segs|, trace[0];
      var w, ptr' := Serve(nb, v, r), PtrServed(ptr, n, r);
      DriftStep(nb, v, ptr, r);
      DriftRun(nb, w, ptr', trace[1..]);
      var drift, later := ptr + 1 - v.pos + PullOf(r), Pull(trace[1..]);
      assert drift + later == ptr + 1 - v.pos + Pull(trace);
      DriftLater(ptr', w.pos, drift, later, n);
    }
  }

  lemma {:induction false} PullLast(trace: seq<Request>, r: Request)
    ensures Pull(trace + [r]) == Pull(trace) + PullOf(r)
  {
    var all := trace + [r];
    if trace == [] {
      assert all[0] == r && all[1..] == [];
    } else {
      PullLast(trace[1..], r);
      assert all[0] == trace[0] && all[1..] == trace[1..] + [r];
    }
  }

  lemma {:induction false} PullCounts(trace: seq<Request>)
    ensures Pull(trace) == |FreeLines(trace)| - |DeleteLines(trace)|
  {
    if trace == [] {
      assert FreeLines(trace) == {} && DeleteLines(trace) == {};
    } else {
      var init, r := trace[..|trace| - 1], trace[|trace| - 1];
      assert trace == init + [r];
      PullCounts(init);
      PullLast(init, r);
      LastLineCounted(init, r);
    }
  }

  lemma InStepIsNoDrift(ptr: int, pos: nat, n: nat)
    requires pos < n
    ensures (ptr + 1) % n == pos <==> Drift(ptr, pos, n) == 0
  {
    var q := (ptr + 1) % n;
    ModDiff(ptr + 1, pos, 0, n);
    DivModUnique(pos, n, 0, pos);
    DivModUnique(q - pos, n, if q < pos then -1 else 0, if q < pos then q - pos + n else q - pos);
  }

  /** From start-up on, the workers are in step with the cursor exactly when frees
      and deletes differ by a multiple of the number of access points. */
  lemma InStepIff(nb: nat, v: View, trace: seq<Request>)
    requires Good(v) && Trace(nb, v, trace) && v.pos == 0
    ensures var n := |v.segs|;
            (PtrRun(-1, n, trace) + 1) % n == Run(nb, v, trace).pos <==> (|FreeLines(trace)| - |DeleteLines(trace)|) % n == 0
  {
    PullCounts(trace);
    DriftRun(nb, v, -1, trace);
    InStepIsNoDrift(PtrRun(-1, |v.segs|, trace), Run(nb, v, trace).pos, |v.segs|);
  }
}
