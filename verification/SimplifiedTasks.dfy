/** The probe loop of `coro/coro_simplified.c`, which never tests for the end of a
    chain and marks a finished task with the key -1. */
module SimplifiedTasks {
  import opened HashTable

  const DONE := -1

  datatype Task = Task(current: Chain, key: int)

  /** The variables of the loop. */
  datatype Pool = Pool(tasks: seq<Task>, keyIndex: nat, cr: int, totalOps: nat)

  function Fresh(t: Table, key: int): Task {
    Task(Bucket(t, key), key)
  }

  /** The body of the inner loop for task `i`; the read of `current->key` needs a node. */
  function Visit(p: Pool, keys: seq<int>, t: Table, i: nat): Pool
    requires i < |p.tasks| && (p.tasks[i].key != DONE ==> p.tasks[i].current.Cons?)
  {
    var k := p.tasks[i];
    if k.key == DONE then p
    else if k.key == k.current.key then
      if p.keyIndex < |keys| then
        p.(tasks := p.tasks[i := Fresh(t, keys[p.keyIndex])], keyIndex := p.keyIndex + 1, totalOps := p.totalOps + 1)
      else
        p.(tasks := p.tasks[i := k.(key := DONE)], cr := p.cr - 1, totalOps := p.totalOps + 1)
    else p.(tasks := p.tasks[i := k.(current := k.current.next)])
  }

  predicate Active(p: Pool, i: nat) {
    i < |p.tasks| && p.tasks[i].key != DONE
  }

  // ----- no null dereference -----

  /** The chain an active task still has to walk contains its key. */
  predicate Reaches(k: Task) {
    k.key == DONE || Contains(k.current, k.key)
  }

  /** Every active task will find its key, because the table was built from the keys. */
  ghost predicate Safe(p: Pool, keys: seq<int>, t: Table) {
    && (forall k :: 0 <= k < |keys| ==> Found(t, keys[k]))
    && forall i :: 0 <= i < |p.tasks| ==> Reaches(p.tasks[i])
  }

  lemma VisitSafe(p: Pool, keys: seq<int>, t: Table, i: nat)
    requires Safe(p, keys, t) && i < |p.tasks|
    ensures p.tasks[i].key != DONE ==> p.tasks[i].current.Cons?
    ensures Safe(Visit(p, keys, t, i), keys, t)
    ensures |Visit(p, keys, t, i).tasks| == |p.tasks|
  {
    var r := Visit(p, keys, t, i);
    assert Reaches(p.tasks[i]);
    forall j | 0 <= j < |r.tasks| ensures Reaches(r.tasks[j]) {
      if j != i { assert r.tasks[j] == p.tasks[j]; }
    }
  }

  // ----- what is still to do -----

  /** Visits that one key costs: the nodes stepped past and the hit. */
  function KeyCost(t: Table): int -> nat {
    key => if key == DONE then 0 else SteppedPast(Bucket(t, key), key) + 1
  }

  function Work(k: Task): nat {
    if k.key == DONE then 0 else SteppedPast(k.current, k.key) + 1
  }

  function Busy(k: Task): nat {
    if k.key == DONE then 0 else 1
  }

  function Idle(k: Task): nat {
    if k.key == DONE then 1 else 0
  }

  function Poison(key: int): nat {
    if key == DONE then 1 else 0
  }

  function WorkLeft(p: Pool, keys: seq<int>, t: Table): nat {
    Sum(Work, p.tasks) + Sum(KeyCost(t), Rest(keys, p.keyIndex))
  }

  /** Tasks that count as running although they hold the key -1 of the input, and
      the keys -1 still to be handed out. */
  function Stuck(p: Pool, keys: seq<int>): int {
    p.cr - Sum(Busy, p.tasks) + Sum(Poison, Rest(keys, p.keyIndex))
  }

  /** The hits that are still to come, one for every key but -1. */
  function HitsLeft(p: Pool, keys: seq<int>): int {
    Sum(Busy, p.tasks) + |Rest(keys, p.keyIndex)| - Sum(Poison, Rest(keys, p.keyIndex))
  }

  lemma RestStep(keys: seq<int>, keyIndex: nat, t: Table)
    requires keyIndex < |keys|
    ensures |Rest(keys, keyIndex)| == 1 + |Rest(keys, keyIndex + 1)|
    ensures Sum(KeyCost(t), Rest(keys, keyIndex)) == KeyCost(t)(keys[keyIndex]) + Sum(KeyCost(t), Rest(keys, keyIndex + 1))
    ensures Sum(Poison, Rest(keys, keyIndex)) == Poison(keys[keyIndex]) + Sum(Poison, Rest(keys, keyIndex + 1))
  {
    assert keys[keyIndex..][1..] == Rest(keys, keyIndex + 1);
  }

  /** A visit to an active task does one unit of the work left, keeps the sum of
      counted and coming hits, and never frees a stuck task. */
  lemma VisitConserves(p: Pool, keys: seq<int>, t: Table, i: nat)
    requires Safe(p, keys, t) && i < |p.tasks|
    ensures p.tasks[i].key != DONE ==> p.tasks[i].current.Cons?
    ensures var r := Visit(p, keys, t, i);
            && WorkLeft(r, keys, t) == WorkLeft(p, keys, t) - (if Active(p, i) then 1 else 0)
            && Stuck(r, keys) == Stuck(p, keys)
            && r.totalOps + HitsLeft(r, keys) == p.totalOps + HitsLeft(p, keys)
            && (!Active(p, i) ==> r == p)
            && (r.cr < p.cr ==> p.keyIndex >= |keys|) && r.keyIndex >= p.keyIndex
            && p.cr - 1 <= r.cr <= p.cr
  {
    VisitSafe(p, keys, t, i);
    var r := Visit(p, keys, t, i);
    if Active(p, i) {
      assert Reaches(p.tasks[i]);
      var d := r.tasks[i];
      assert r.tasks == p.tasks[i := d];
      SumUpdate(Work, p.tasks, i, d);
      SumUpdate(Busy, p.tasks, i, d);
      if p.tasks[i].key == p.tasks[i].current.key && p.keyIndex < |keys| {
        RestStep(keys, p.keyIndex, t);
      }
    }
  }

  // ----- the start -----

  function Started(keys: seq<int>, t: Table, n: nat): Pool
    requires keys != []
  {
    Pool(seq(n, (i: nat) => Fresh(t, keys[i % |keys|])), n, n, 0)
  }

  lemma {:induction false} BusyPlusIdle(s: seq<Task>)
    ensures Sum(Busy, s) + Sum(Idle, s) == |s|
  {
    if s != [] {
      BusyPlusIdle(s[1..]);
    }
  }

  /** At the start there is one stuck task for every -1 among the assigned keys. */
  lemma StartedLeft(keys: seq<int>, t: Table, n: nat)
    requires keys != []
    ensures var p, all := Started(keys, t, n), Assigned(keys, n);
            && WorkLeft(p, keys, t) == Sum(KeyCost(t), all)
            && Stuck(p, keys) == Sum(Poison, all)
            && HitsLeft(p, keys) == |all| - Sum(Poison, all)
  {
    var p, all := Started(keys, t, n), Assigned(keys, n);
    AssignedSuffix(keys, n);
    assert all == all[..n] + all[n..];
    SumConcat(KeyCost(t), all[..n], all[n..]);
    SumConcat(Poison, all[..n], all[n..]);
    SumPointwise(Work, p.tasks, KeyCost(t), all[..n]);
    SumPointwise(Idle, p.tasks, Poison, all[..n]);
    BusyPlusIdle(p.tasks);
  }

  lemma StartedSafe(keys: seq<int>, t: Table, n: nat)
    requires keys != [] && forall k :: 0 <= k < |keys| ==> Found(t, keys[k])
    ensures Safe(Started(keys, t, n), keys, t)
  {
    var p := Started(keys, t, n);
    forall i | 0 <= i < |p.tasks| ensures Reaches(p.tasks[i]) {
      assert Found(t, keys[i % |keys|]);
    }
  }

  /** The key -1 occurs among the assigned keys exactly when it is in the input. */
  lemma PoisonAssigned(keys: seq<int>, n: nat)
    requires keys != []
    ensures Sum(Poison, Assigned(keys, n)) == 0 <==> DONE !in keys
  {
    var all := Assigned(keys, n);
    SumZero(Poison, all);
    if DONE in keys {
      var k :| 0 <= k < |keys| && keys[k] == DONE;
      SmallMod(k, |keys|);
      assert all[k] == DONE && Poison(all[k]) == 1;
    } else {
      forall j | 0 <= j < |all| ensures Poison(all[j]) == 0 {
        assert all[j] == keys[j % |keys|];
      }
    }
  }

  lemma NoPoison(keys: seq<int>, t: Table, n: nat)
    requires keys != [] && -1 !in keys
    ensures Sum(KeyCost(t), Assigned(keys, n)) == Sum(Steps(t), Assigned(keys, n)) + |Assigned(keys, n)|
  {
    var all := Assigned(keys, n);
    forall i | 0 <= i < |all|
      ensures KeyCost(t)(all[i]) == SteppedPast(Bucket(t, all[i]), all[i]) + 1
    {
      assert all[i] == keys[i % |keys|];
    }
    StepsPlus(t, KeyCost(t), 1, all);
  }

  // ----- any schedule -----

  /** `p` can be reached from `start` by visiting tasks in some order. */
  ghost predicate Reachable(start: Pool, keys: seq<int>, t: Table, order: seq<nat>, p: Pool)
    requires Safe(start, keys, t)
    decreases |order|
  {
    if order == [] then p == start
    else
      order[0] < |start.tasks| &&
      (VisitSafe(start, keys, t, order[0]); Reachable(Visit(start, keys, t, order[0]), keys, t, order[1..], p))
  }

  lemma {:induction false} ReachableKeeps(start: Pool, keys: seq<int>, t: Table, order: seq<nat>, p: Pool)
    requires Safe(start, keys, t) && Reachable(start, keys, t, order, p)
    ensures Safe(p, keys, t) && |p.tasks| == |start.tasks|
    ensures Stuck(p, keys) == Stuck(start, keys)
    ensures p.keyIndex >= start.keyIndex
    ensures p.cr < start.cr ==> p.keyIndex >= |keys|
    ensures p.totalOps + HitsLeft(p, keys) == start.totalOps + HitsLeft(start, keys)
    decreases |order|
  {
    if order != [] {
      var s := Visit(start, keys, t, order[0]);
      VisitSafe(start, keys, t, order[0]);
      VisitConserves(start, keys, t, order[0]);
      ReachableKeeps(s, keys, t, order[1..], p);
    }
  }

  /** With the key -1 in the input the loop never ends, in whatever order the tasks
      are visited: the task that is given -1 is never counted as finished. */
  lemma PoisonNeverEnds(keys: seq<int>, t: Table, n: nat, order: seq<nat>, p: Pool)
    requires keys != [] && 0 < n && -1 in keys
    requires forall k :: 0 <= k < |keys| ==> Found(t, keys[k])
    requires Safe(Started(keys, t, n), keys, t) && Reachable(Started(keys, t, n), keys, t, order, p)
    ensures p.cr != 0
  {
    var s := Started(keys, t, n);
    StartedLeft(keys, t, n);
    PoisonAssigned(keys, n);
    ReachableKeeps(s, keys, t, order, p);
    assert p.cr < n ==> Rest(keys, p.keyIndex) == [];
  }

  // ----- the program -----

  /** One task's turn in the loop. */
  method Turn(tasks: array<Task>, n: nat, i: nat, keys: seq<int>, t: Table, keyIndex0: nat, cr0: int, ops0: nat)
    returns (keyIndex: nat, cr: int, totalOps: nat)
    requires i < n <= tasks.Length && keys != []
    requires Safe(Pool(tasks[..n], keyIndex0, cr0, ops0), keys, t)
    modifies tasks
    ensures old(tasks[i].key != DONE ==> tasks[i].current.Cons?)
    ensures Pool(tasks[..n], keyIndex, cr, totalOps) == Visit(old(Pool(tasks[..n], keyIndex0, cr0, ops0)), keys, t, i)
    ensures tasks[n..] == old(tasks[n..])
  {
    ghost var p := Pool(tasks[..n], keyIndex0, cr0, ops0);
    VisitSafe(p, keys, t, i);
    keyIndex, cr, totalOps := keyIndex0, cr0, ops0;
    if tasks[i].key != DONE {
      assert p.tasks[i] == tasks[i];
      if tasks[i].key == tasks[i].current.key {
        totalOps := totalOps + 1;
        if keyIndex < |keys| {
          SmallMod(keyIndex, |keys|);
          tasks[i] := tasks[i].(key := keys[keyIndex % |keys|]);
          var bucketIndex := BucketIndex(tasks[i].key, |t|);
          tasks[i] := tasks[i].(current := t[bucketIndex]);
          keyIndex := keyIndex + 1;
        } else {
          cr := cr - 1;
          tasks[i] := tasks[i].(key := DONE);
        }
      } else {
        tasks[i] := tasks[i].(current := tasks[i].current.next);
      }
    }
    assert tasks[..n] == Visit(p, keys, t, i).tasks;
    assert tasks[n..] == old(tasks[n..]);
  }

  /** The loop of `main` on a table built from the keys. Without the key -1 it ends,
      never reads through a null pointer, and counts one operation for each
      assigned key: the larger of the number of tasks and of keys. */
  method RunTasks(tasks: array<Task>, n: nat, keys: seq<int>, t: Table) returns (totalOps: nat, ghost turns: nat)
    requires 0 < n <= tasks.Length && keys != [] && -1 !in keys
    requires forall k :: 0 <= k < |keys| ==> Found(t, keys[k])
    modifies tasks
    ensures totalOps == if n < |keys| then |keys| else n
    ensures turns == Sum(Steps(t), Assigned(keys, n)) + |Assigned(keys, n)|
    ensures tasks[n..] == old(tasks[n..]) && forall i :: 0 <= i < n ==> tasks[i].key == -1
  {
    totalOps, turns := 0, 0;
    var keyIndex: nat := 0;
    while keyIndex < n
      invariant 0 <= keyIndex <= n
      invariant forall i :: 0 <= i < keyIndex ==> tasks[i] == Fresh(t, keys[i % |keys|])
      invariant tasks[n..] == old(tasks[n..])
    {
      var key := keys[keyIndex % |keys|];
      tasks[keyIndex] := Task(t[BucketIndex(key, |t|)], key);
      keyIndex := keyIndex + 1;
    }
    var cr := n;
    StartedLeft(keys, t, n);
    StartedSafe(keys, t, n);
    PoisonAssigned(keys, n);
    assert Pool(tasks[..n], keyIndex, cr, totalOps) == Started(keys, t, n);
    while cr != 0
      invariant Standing(Pool(tasks[..n], keyIndex, cr, totalOps), keys, t, n, turns)
      invariant tasks[n..] == old(tasks[n..])
      decreases WorkLeft(Pool(tasks[..n], keyIndex, cr, totalOps), keys, t)
    {
      keyIndex, cr, totalOps, turns := Sweep(tasks, n, keys, t, keyIndex, cr, totalOps, turns);
    }
    AllFinished(Pool(tasks[..n], keyIndex, cr, totalOps), keys, t, n, turns);
    assert forall i :: 0 <= i < n ==> tasks[i] == tasks[..n][i];
    NoPoison(keys, t, n);
  }

  /** What holds whenever the outer loop is tested. */
  ghost predicate Standing(p: Pool, keys: seq<int>, t: Table, n: nat, turns: nat) {
    && keys != [] && 0 < n == |p.tasks| && Safe(p, keys, t)
    && Stuck(p, keys) == 0
    && p.totalOps + HitsLeft(p, keys) == |Assigned(keys, n)|
    && turns + WorkLeft(p, keys, t) == Sum(KeyCost(t), Assigned(keys, n))
    && 0 <= p.cr <= n && (p.cr < n ==> p.keyIndex >= |keys|)
  }

  lemma {:induction false} NoBusyNoWork(s: seq<Task>)
    requires Sum(Busy, s) == 0
    ensures Sum(Work, s) == 0
  {
    if s != [] {
      NoBusyNoWork(s[1..]);
    }
  }

  lemma AllFinished(p: Pool, keys: seq<int>, t: Table, n: nat, turns: nat)
    requires Standing(p, keys, t, n, turns) && p.cr == 0
    ensures p.totalOps == |Assigned(keys, n)| && turns == Sum(KeyCost(t), Assigned(keys, n))
    ensures forall i :: 0 <= i < n ==> p.tasks[i].key == -1
  {
    assert Rest(keys, p.keyIndex) == [];
    NoBusyNoWork(p.tasks);
    SumZero(Busy, p.tasks);
    forall i | 0 <= i < n
      ensures p.tasks[i].key == -1
    {
      assert Busy(p.tasks[i]) == 0;
    }
  }

  lemma StandingStep(p: Pool, keys: seq<int>, t: Table, n: nat, turns: nat, i: nat)
    requires Standing(p, keys, t, n, turns) && i < n
    ensures p.tasks[i].key != DONE ==> p.tasks[i].current.Cons?
    ensures Standing(Visit(p, keys, t, i), keys, t, n, turns + if Active(p, i) then 1 else 0)
    ensures !Active(p, i) ==> Visit(p, keys, t, i) == p
  {
    VisitSafe(p, keys, t, i);
    VisitConserves(p, keys, t, i);
    var r := Visit(p, keys, t, i);
    assert r.cr >= 0 by {
      if r.cr < p.cr { SumUpdate(Busy, p.tasks, i, r.tasks[i]); }
    }
  }

  /** A pass that began at `s` and visited the first `i` tasks. */
  ghost predicate Sweeping(s: Pool, p: Pool, keys: seq<int>, t: Table, n: nat, turns0: nat, turns: nat, i: nat) {
    && turns0 <= turns && Standing(p, keys, t, n, turns)
    && (turns == turns0 ==> p == s && i <= n && forall j :: 0 <= j < i ==> !Active(s, j))
  }

  lemma SweepingStep(s: Pool, p: Pool, keys: seq<int>, t: Table, n: nat, turns0: nat, turns: nat, i: nat)
    requires Sweeping(s, p, keys, t, n, turns0, turns, i) && i < n
    ensures Safe(p, keys, t) && keys != []
    ensures Sweeping(s, Visit(p, keys, t, i), keys, t, n, turns0, turns + if Active(p, i) then 1 else 0, i + 1)
  {
    StandingStep(p, keys, t, n, turns, i);
  }

  /** One pass of the inner loop; it does some work while a task is running. */
  method Sweep(tasks: array<Task>, n: nat, keys: seq<int>, t: Table, keyIndex0: nat, cr0: int, ops0: nat, ghost turns0: nat)
    returns (keyIndex: nat, cr: int, totalOps: nat, ghost turns: nat)
    requires n <= tasks.Length && cr0 != 0
    requires Standing(Pool(tasks[..n], keyIndex0, cr0, ops0), keys, t, n, turns0)
    modifies tasks
    ensures Standing(Pool(tasks[..n], keyIndex, cr, totalOps), keys, t, n, turns)
    ensures turns0 < turns && tasks[n..] == old(tasks[n..])
  {
    ghost var s := Pool(tasks[..n], keyIndex0, cr0, ops0);
    keyIndex, cr, totalOps, turns := keyIndex0, cr0, ops0, turns0;
    var i := 0;
    while i < n
      invariant 0 <= i <= n
      invariant Sweeping(s, Pool(tasks[..n], keyIndex, cr, totalOps), keys, t, n, turns0, turns, i)
      invariant tasks[n..] == old(tasks[n..])
    {
      ghost var r := Pool(tasks[..n], keyIndex, cr, totalOps);
      SweepingStep(s, r, keys, t, n, turns0, turns, i);
      turns := turns + if Active(r, i) then 1 else 0;
      keyIndex, cr, totalOps := Turn(tasks, n, i, keys, t, keyIndex, cr, totalOps);
      i := i + 1;
    }
    if turns == turns0 {
      SomeActive(s, keys, t, n, turns0);
    }
  }

  /** While a task is counted as running and none is stuck, some task is active. */
  lemma SomeActive(p: Pool, keys: seq<int>, t: Table, n: nat, turns: nat)
    requires Standing(p, keys, t, n, turns) && p.cr != 0
    ensures exists j :: 0 <= j < n && Active(p, j)
  {
    SumZero(Busy, p.tasks);
    if forall j :: 0 <= j < n ==> !Active(p, j) {
      forall j | 0 <= j < n ensures Busy(p.tasks[j]) == 0 {
        assert !Active(p, j);
      }
    }
  }
}
