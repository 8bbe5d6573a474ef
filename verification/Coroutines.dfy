/** The interleaved hash probes of `coro/coro.c`: resumable searches that a round
    robin scheduler steps, with a shared cursor into the key list. */
module Coroutines {
  import opened Arithmetic
  import opened HashTable

  datatype State = START | BODY1 | END | DESTROYED

  datatype Context = Context(state: State, current: Chain, key: int, table: Table)

  /** What one call of `coroutine` makes of a context. */
  function Resume(c: Context): Context {
    match c.state
    case START => c.(current := Bucket(c.table, c.key), state := BODY1)
    case BODY1 =>
      if c.current.Cons? && c.current.key == c.key then c.(state := END)
      else if c.current.Cons? then c.(current := c.current.next)
      else c.(state := END)
    case _ => c
  }

  /** How many operations that call counts. */
  function ResumeOps(c: Context): nat {
    if c.state.BODY1? && c.current.Cons? && c.current.key == c.key then 1 else 0
  }

  /** The scheduler's variables. */
  datatype Sched = Sched(ctxs: seq<Context>, keyIndex: nat, notDone: int, totalOps: nat)

  /** What the body of the scheduling loop makes of them for coroutine `i`. */
  function Visit(s: Sched, keys: seq<int>, i: nat): Sched
    requires i < |s.ctxs|
  {
    var c := s.ctxs[i];
    match c.state
    case DESTROYED => s
    case END =>
      if s.keyIndex < |keys| then
        s.(ctxs := s.ctxs[i := c.(state := START, current := Nil, key := keys[s.keyIndex])], keyIndex := s.keyIndex + 1)
      else
        s.(ctxs := s.ctxs[i := c.(state := DESTROYED)], notDone := s.notDone - 1)
    case _ => s.(ctxs := s.ctxs[i := Resume(c)], totalOps := s.totalOps + ResumeOps(c))
  }

  predicate Live(s: Sched, i: nat) {
    i < |s.ctxs| && !s.ctxs[i].state.DESTROYED?
  }

  // ----- what is still to do -----

  /** Visits that one key costs: START, the nodes stepped past, the node or the end
      of the chain that stops the search, and the visit in END. */
  function KeyCost(t: Table): int -> nat {
    key => SteppedPast(Bucket(t, key), key) + 3
  }

  /** Visits a context still needs. */
  function Work(c: Context): nat {
    match c.state
    case START => SteppedPast(Bucket(c.table, c.key), c.key) + 3
    case BODY1 => SteppedPast(c.current, c.key) + 2
    case END => 1
    case DESTROYED => 0
  }

  /** Operations a context will still count. */
  function Coming(c: Context): nat {
    match c.state
    case START => if Found(c.table, c.key) then 1 else 0
    case BODY1 => if Contains(c.current, c.key) then 1 else 0
    case _ => 0
  }

  function Alive(c: Context): nat {
    if c.state.DESTROYED? then 0 else 1
  }

  function WorkLeft(s: Sched, keys: seq<int>, t: Table): nat {
    Sum(Work, s.ctxs) + Sum(KeyCost(t), Rest(keys, s.keyIndex))
  }

  function OpsLeft(s: Sched, keys: seq<int>, t: Table): nat {
    Sum(Coming, s.ctxs) + HitCount(t, Rest(keys, s.keyIndex))
  }

  ghost predicate Consistent(s: Sched, keys: seq<int>, t: Table) {
    && (forall i :: 0 <= i < |s.ctxs| ==> s.ctxs[i].table == t)
    && s.notDone == Sum(Alive, s.ctxs)
    && (s.keyIndex < |keys| ==> forall i :: 0 <= i < |s.ctxs| ==> !s.ctxs[i].state.DESTROYED?)
  }

  lemma ResumeProgress(c: Context)
    requires c.state.START? || c.state.BODY1?
    ensures Work(Resume(c)) == Work(c) - 1
    ensures ResumeOps(c) + Coming(Resume(c)) == Coming(c)
    ensures Resume(c).table == c.table && !Resume(c).state.DESTROYED?
  {
  }

  lemma RestStep(keys: seq<int>, keyIndex: nat, t: Table)
    requires keyIndex < |keys|
    ensures Sum(KeyCost(t), Rest(keys, keyIndex)) == KeyCost(t)(keys[keyIndex]) + Sum(KeyCost(t), Rest(keys, keyIndex + 1))
    ensures HitCount(t, Rest(keys, keyIndex)) == Hit(t)(keys[keyIndex]) + HitCount(t, Rest(keys, keyIndex + 1))
  {
    assert keys[keyIndex..][1..] == Rest(keys, keyIndex + 1);
  }

  /** A visit to a live coroutine does exactly one unit of the work that is left and
      moves operations from "coming" to "counted"; other visits change nothing. */
  lemma VisitConserves(s: Sched, keys: seq<int>, t: Table, i: nat)
    requires Consistent(s, keys, t) && i < |s.ctxs|
    ensures var r := Visit(s, keys, i);
            && Consistent(r, keys, t) && |r.ctxs| == |s.ctxs|
            && r.totalOps + OpsLeft(r, keys, t) == s.totalOps + OpsLeft(s, keys, t)
            && WorkLeft(r, keys, t) == WorkLeft(s, keys, t) - (if Live(s, i) then 1 else 0)
            && (!Live(s, i) ==> r == s)
            && (forall j :: 0 <= j < |s.ctxs| && j != i ==> r.ctxs[j] == s.ctxs[j])
  {
    var c, r := s.ctxs[i], Visit(s, keys, i);
    if Live(s, i) {
      var d := r.ctxs[i];
      assert r.ctxs == s.ctxs[i := d];
      SumUpdate(Work, s.ctxs, i, d);
      SumUpdate(Coming, s.ctxs, i, d);
      SumUpdate(Alive, s.ctxs, i, d);
      if c.state.END? {
        if s.keyIndex < |keys| {
          RestStep(keys, s.keyIndex, t);
        }
      } else {
        ResumeProgress(c);
      }
    }
  }

  // ----- any schedule -----

  /** The scheduler's variables after visiting the coroutines of `order` in turn. */
  function RunOrder(s: Sched, keys: seq<int>, order: seq<nat>): Sched
    requires forall k :: 0 <= k < |order| ==> order[k] < |s.ctxs|
    decreases |order|
  {
    if order == [] then s else RunOrder(Visit(s, keys, order[0]), keys, order[1..])
  }

  /** How many of those visits find a live coroutine. */
  function LiveVisits(s: Sched, keys: seq<int>, order: seq<nat>): nat
    requires forall k :: 0 <= k < |order| ==> order[k] < |s.ctxs|
    decreases |order|
  {
    if order == [] then 0
    else (if Live(s, order[0]) then 1 else 0) + LiveVisits(Visit(s, keys, order[0]), keys, order[1..])
  }

  lemma {:induction false} OrderConserves(s: Sched, keys: seq<int>, t: Table, order: seq<nat>)
    requires Consistent(s, keys, t) && forall k :: 0 <= k < |order| ==> order[k] < |s.ctxs|
    ensures var r := RunOrder(s, keys, order);
            && Consistent(r, keys, t) && |r.ctxs| == |s.ctxs|
            && r.totalOps + OpsLeft(r, keys, t) == s.totalOps + OpsLeft(s, keys, t)
            && WorkLeft(r, keys, t) + LiveVisits(s, keys, order) == WorkLeft(s, keys, t)
    decreases |order|
  {
    if order != [] {
      VisitConserves(s, keys, t, order[0]);
      OrderConserves(Visit(s, keys, order[0]), keys, t, order[1..]);
    }
  }

  /** When every coroutine is destroyed, no work and no operation is left. */
  lemma DoneMeansNothingLeft(s: Sched, keys: seq<int>, t: Table)
    requires Consistent(s, keys, t) && s.notDone == 0 && s.ctxs != []
    ensures WorkLeft(s, keys, t) == 0 && OpsLeft(s, keys, t) == 0
    ensures forall i :: 0 <= i < |s.ctxs| ==> s.ctxs[i].state.DESTROYED?
  {
    SumZero(Alive, s.ctxs);
    forall i | 0 <= i < |s.ctxs|
      ensures s.ctxs[i].state.DESTROYED?
    {
      assert Alive(s.ctxs[i]) == 0;
    }
    assert s.ctxs[0].state.DESTROYED?;
    SumZero(Work, s.ctxs);
    SumZero(Coming, s.ctxs);
  }

  /** The variables when scheduling starts: coroutine `i` holds `keys[i % |keys|]`. */
  function Started(keys: seq<int>, t: Table, n: nat): Sched
    requires keys != []
  {
    Sched(seq(n, (i: nat) => Context(START, Nil, keys[i % |keys|], t)), n, n, 0)
  }

  lemma {:induction false} AllAlive(s: seq<Context>)
    requires forall i :: 0 <= i < |s| ==> !s[i].state.DESTROYED?
    ensures Sum(Alive, s) == |s|
  {
    if s != [] {
      forall i | 0 <= i < |s[1..]| ensures !s[1..][i].state.DESTROYED? {
        assert s[1..][i] == s[i + 1];
      }
      AllAlive(s[1..]);
    }
  }

  lemma StartedConsistent(keys: seq<int>, t: Table, n: nat)
    requires keys != []
    ensures Consistent(Started(keys, t, n), keys, t)
  {
    AllAlive(Started(keys, t, n).ctxs);
  }

  lemma StartedWork(keys: seq<int>, t: Table, n: nat)
    requires keys != []
    ensures WorkLeft(Started(keys, t, n), keys, t) == Sum(KeyCost(t), Assigned(keys, n))
  {
    var s, all := Started(keys, t, n), Assigned(keys, n);
    AssignedSuffix(keys, n);
    assert all == all[..n] + all[n..];
    SumConcat(KeyCost(t), all[..n], all[n..]);
    SumPointwise(Work, s.ctxs, KeyCost(t), all[..n]);
  }

  lemma StartedOps(keys: seq<int>, t: Table, n: nat)
    requires keys != []
    ensures OpsLeft(Started(keys, t, n), keys, t) == HitCount(t, Assigned(keys, n))
  {
    var s, all := Started(keys, t, n), Assigned(keys, n);
    AssignedSuffix(keys, n);
    assert all == all[..n] + all[n..];
    SumConcat(Hit(t), all[..n], all[n..]);
    SumPointwise(Coming, s.ctxs, Hit(t), all[..n]);
  }

  /** At the start the work and the operations left are those of the assigned keys. */
  lemma StartedLeft(keys: seq<int>, t: Table, n: nat)
    requires keys != []
    ensures Consistent(Started(keys, t, n), keys, t)
    ensures WorkLeft(Started(keys, t, n), keys, t) == Sum(KeyCost(t), Assigned(keys, n))
    ensures OpsLeft(Started(keys, t, n), keys, t) == HitCount(t, Assigned(keys, n))
  {
    StartedConsistent(keys, t, n);
    StartedWork(keys, t, n);
    StartedOps(keys, t, n);
  }

  /** Whatever the interleaving: once all coroutines are destroyed, the operations
      counted are those sequential search finds among the assigned keys, and the
      live visits are the cost of those keys. */
  lemma AnyInterleaving(keys: seq<int>, t: Table, n: nat, order: seq<nat>)
    requires keys != [] && 0 < n && forall k :: 0 <= k < |order| ==> order[k] < n
    requires RunOrder(Started(keys, t, n), keys, order).notDone == 0
    ensures RunOrder(Started(keys, t, n), keys, order).totalOps == HitCount(t, Assigned(keys, n))
    ensures LiveVisits(Started(keys, t, n), keys, order) == Sum(Steps(t), Assigned(keys, n)) + 3 * |Assigned(keys, n)|
  {
    StepsPlus(t, KeyCost(t), 3, Assigned(keys, n));
    var s := Started(keys, t, n);
    StartedLeft(keys, t, n);
    OrderConserves(s, keys, t, order);
    DoneMeansNothingLeft(RunOrder(s, keys, order), keys, t);
  }

  // ----- the program -----

  /** coroutine */
  method Coroutine(ctxs: array<Context>, i: nat, ops: nat) returns (totalOps: nat)
    requires i < ctxs.Length
    modifies ctxs
    ensures ctxs[..] == old(ctxs[..])[i := Resume(old(ctxs[i]))]
    ensures totalOps == ops + ResumeOps(old(ctxs[i]))
  {
    totalOps := ops;
    match ctxs[i].state
    case START =>
      ctxs[i] := ctxs[i].(current := ctxs[i].table[BucketIndex(ctxs[i].key, |ctxs[i].table|)]);
      ctxs[i] := ctxs[i].(state := BODY1);
    case BODY1 =>
      if ctxs[i].current.Cons? && ctxs[i].current.key == ctxs[i].key {
        totalOps := totalOps + 1;
        ctxs[i] := ctxs[i].(state := END);
      } else if ctxs[i].current.Cons? {
        ctxs[i] := ctxs[i].(current := ctxs[i].current.next);
      } else {
        ctxs[i] := ctxs[i].(state := END);
      }
    case END =>
    case DESTROYED =>
  }

  /** One coroutine's turn in the scheduling loop. */
  method Turn(ctxs: array<Context>, n: nat, i: nat, keys: seq<int>, keyIndex0: nat, notDone0: int, ops0: nat)
    returns (keyIndex: nat, notDone: int, totalOps: nat)
    requires i < n <= ctxs.Length
    modifies ctxs
    ensures Sched(ctxs[..n], keyIndex, notDone, totalOps)
         == Visit(old(Sched(ctxs[..n], keyIndex0, notDone0, ops0)), keys, i)
    ensures ctxs[n..] == old(ctxs[n..])
  {
    ghost var s := Sched(ctxs[..n], keyIndex0, notDone0, ops0);
    keyIndex, notDone, totalOps := keyIndex0, notDone0, ops0;
    if ctxs[i].state != DESTROYED {
      if ctxs[i].state != END {
        totalOps := Coroutine(ctxs, i, totalOps);
      } else {
        if keyIndex < |keys| {
          ctxs[i] := ctxs[i].(state := START);
          ctxs[i] := ctxs[i].(current := Nil);
          ctxs[i] := ctxs[i].(key := keys[keyIndex]);
          keyIndex := keyIndex + 1;
        } else {
          ctxs[i] := ctxs[i].(state := DESTROYED);
          notDone := notDone - 1;
        }
      }
    }
    assert ctxs[..n] == Visit(s, keys, i).ctxs;
    assert ctxs[n..] == old(ctxs[n..]);
  }

  /** The scheduler of `main`. It always ends; it counts the operations that
      sequential search would, and its live turns are the cost of the keys. */
  method RunCoroutines(ctxs: array<Context>, n: nat, keys: seq<int>, t: Table) returns (totalOps: nat, ghost turns: nat)
    requires 0 < n <= ctxs.Length && keys != []
    modifies ctxs
    ensures totalOps == HitCount(t, Assigned(keys, n))
    ensures turns == Sum(Steps(t), Assigned(keys, n)) + 3 * |Assigned(keys, n)|
    ensures ctxs[n..] == old(ctxs[n..]) && forall i :: 0 <= i < n ==> ctxs[i].state.DESTROYED? && ctxs[i].table == t
  {
    totalOps, turns := 0, 0;
    var keyIndex: nat := 0;
    while keyIndex < n
      invariant 0 <= keyIndex <= n
      invariant forall i :: 0 <= i < keyIndex ==> ctxs[i] == Context(START, Nil, keys[i % |keys|], t)
      invariant ctxs[n..] == old(ctxs[n..])
    {
      ctxs[keyIndex] := Context(START, Nil, keys[keyIndex % |keys|], t);
      keyIndex := keyIndex + 1;
    }
    var notDone := n;
    ghost var work := WorkLeft(Started(keys, t, n), keys, t);
    StartedLeft(keys, t, n);
    assert Sched(ctxs[..n], keyIndex, notDone, totalOps) == Started(keys, t, n);
    while notDone > 0
      invariant Consistent(Sched(ctxs[..n], keyIndex, notDone, totalOps), keys, t)
      invariant totalOps + OpsLeft(Sched(ctxs[..n], keyIndex, notDone, totalOps), keys, t) == HitCount(t, Assigned(keys, n))
      invariant turns + WorkLeft(Sched(ctxs[..n], keyIndex, notDone, totalOps), keys, t) == work
      invariant ctxs[n..] == old(ctxs[n..])
      decreases WorkLeft(Sched(ctxs[..n], keyIndex, notDone, totalOps), keys, t)
    {
      keyIndex, notDone, totalOps, turns := Sweep(ctxs, n, keys, t, keyIndex, notDone, totalOps, turns);
    }
    assert notDone == 0;
    DoneMeansNothingLeft(Sched(ctxs[..n], keyIndex, notDone, totalOps), keys, t);
    assert forall i :: 0 <= i < n ==> ctxs[i] == ctxs[..n][i];
    StepsPlus(t, KeyCost(t), 3, Assigned(keys, n));
  }

  /** One pass of the inner loop; it does some work while a coroutine is live. */
  method Sweep(ctxs: array<Context>, n: nat, keys: seq<int>, ghost t: Table,
               keyIndex0: nat, notDone0: int, ops0: nat, ghost turns0: nat)
    returns (keyIndex: nat, notDone: int, totalOps: nat, ghost turns: nat)
    requires 0 < n <= ctxs.Length
    requires Consistent(Sched(ctxs[..n], keyIndex0, notDone0, ops0), keys, t)
    modifies ctxs
    ensures var s, r := old(Sched(ctxs[..n], keyIndex0, notDone0, ops0)), Sched(ctxs[..n], keyIndex, notDone, totalOps);
            && Consistent(r, keys, t)
            && totalOps + OpsLeft(r, keys, t) == ops0 + OpsLeft(s, keys, t)
            && turns + WorkLeft(r, keys, t) == turns0 + WorkLeft(s, keys, t)
            && (notDone0 > 0 ==> WorkLeft(r, keys, t) < WorkLeft(s, keys, t))
    ensures ctxs[n..] == old(ctxs[n..])
  {
    ghost var s := Sched(ctxs[..n], keyIndex0, notDone0, ops0);
    keyIndex, notDone, totalOps, turns := keyIndex0, notDone0, ops0, turns0;
    var i := 0;
    while i < n
      invariant 0 <= i <= n && turns0 <= turns
      invariant var r := Sched(ctxs[..n], keyIndex, notDone, totalOps);
            && Consistent(r, keys, t)
            && totalOps + OpsLeft(r, keys, t) == ops0 + OpsLeft(s, keys, t)
            && turns + WorkLeft(r, keys, t) == turns0 + WorkLeft(s, keys, t)
            && (turns == turns0 ==> r == s && forall j :: 0 <= j < i ==> s.ctxs[j].state.DESTROYED?)
      invariant ctxs[n..] == old(ctxs[n..])
    {
      ghost var r := Sched(ctxs[..n], keyIndex, notDone, totalOps);
      VisitConserves(r, keys, t, i);
      turns := turns + if Live(r, i) then 1 else 0;
      keyIndex, notDone, totalOps := Turn(ctxs, n, i, keys, keyIndex, notDone, totalOps);
      i := i + 1;
    }
    if turns == turns0 {
      SumZero(Alive, s.ctxs);
    }
  }

  /** The comparison the program prints, for a table built from the same keys:
      with no more coroutines than keys the interleaved and the sequential search
      count the same operations, and every key is found. */
  lemma SameAsNaive(keys: seq<int>, t: Table, n: nat)
    requires keys != [] && n <= |keys|
    ensures HitCount(t, Assigned(keys, n)) == HitCount(t, keys)
  {
    AssignedSuffix(keys, n);
  }

  /** With more coroutines than keys the first keys are searched again: whole rounds of
      the key list, and one more time the keys of the last, partial round. */
  lemma SurplusOps(keys: seq<int>, t: Table, n: nat)
    requires keys != [] && n >= |keys|
    ensures HitCount(t, Assigned(keys, n)) == n / |keys| * HitCount(t, keys) + HitCount(t, keys[..n % |keys|])
  {
    var q, r := n / |keys|, n % |keys|;
    assert n == q * |keys| + r;
    Rounds(keys, t, q, r, n);
  }

  lemma {:induction false} Rounds(keys: seq<int>, t: Table, q: nat, r: nat, n: nat)
    requires 0 < q && r < |keys| && n == q * |keys| + r
    ensures HitCount(t, Assigned(keys, n)) == q * HitCount(t, keys) + HitCount(t, keys[..r])
    decreases q
  {
    OneRoundLess(q, |keys|, r);
    OneRoundLess(q, HitCount(t, keys), 0);
    if q == 1 {
      LastRound(keys, n);
      SumConcat(Hit(t), keys, keys[..r]);
    } else {
      MoreRounds(keys, n);
      SumConcat(Hit(t), keys, Assigned(keys, n - |keys|));
      Rounds(keys, t, q - 1, r, n - |keys|);
    }
  }

  lemma AssignedAt(keys: seq<int>, n: nat, j: nat)
    requires |keys| <= n && j < n && keys != []
    ensures Assigned(keys, n)[j] == if j < |keys| then keys[j] else keys[(j - |keys|) % |keys|]
  {
    if j < |keys| { SmallMod(j, |keys|); } else { ModShift(j, |keys|, -1); }
  }

  lemma MoreRounds(keys: seq<int>, n: nat)
    requires keys != [] && n >= 2 * |keys|
    ensures Assigned(keys, n) == keys + Assigned(keys, n - |keys|)
  {
    forall j | 0 <= j < n
      ensures Assigned(keys, n)[j] == (keys + Assigned(keys, n - |keys|))[j]
    {
      AssignedAt(keys, n, j);
    }
  }

  lemma LastRound(keys: seq<int>, n: nat)
    requires keys != [] && |keys| <= n < 2 * |keys|
    ensures Assigned(keys, n) == keys + keys[..n - |keys|]
  {
    forall j | 0 <= j < n
      ensures Assigned(keys, n)[j] == (keys + keys[..n - |keys|])[j]
    {
      AssignedAt(keys, n, j);
      if j >= |keys| { SmallMod(j - |keys|, |keys|); }
    }
  }

  lemma {:induction false} AllHits(t: Table, keys: seq<int>)
    requires forall k :: 0 <= k < |keys| ==> Found(t, keys[k])
    ensures HitCount(t, keys) == |keys|
  {
    if keys != [] {
      forall k | 0 <= k < |keys[1..]| ensures Found(t, keys[1..][k]) {
        assert keys[1..][k] == keys[k + 1];
      }
      AllHits(t, keys[1..]);
    }
  }

  /** On the table that `main` builds from the keys themselves the two counts agree
      exactly when there are no more coroutines than keys: surplus coroutines search
      the first keys again. */
  lemma OwnTableOps(keys: seq<int>, t: Table, n: nat)
    requires keys != [] && forall key :: Found(t, key) <==> key in keys
    ensures HitCount(t, Assigned(keys, n)) == if n < |keys| then |keys| else n
    ensures HitCount(t, Assigned(keys, n)) == HitCount(t, keys) <==> n <= |keys|
  {
    var all := Assigned(keys, n);
    forall j | 0 <= j < |all| ensures Found(t, all[j]) {
      assert all[j] == keys[j % |keys|];
    }
    AllHits(t, all);
    AllHits(t, keys);
  }
}
