/** Whole runs of the access-point list and of the plain list of `ll.c`. */
module Traces {
  import opened Arithmetic
  import opened Ring
  import opened AplModel
  import opened AplOrder
  import opened Permutations
  import opened Requests

  // ----- the plain list -----

  /** A position of `x` in `s`. */
  ghost function IndexOf(s: seq<int>, x: int): (k: nat)
    requires x in s
    ensures k < |s| && s[k] == x
  {
    var k :| 0 <= k < |s| && s[k] == x;
    k
  }

  predicate LlOk(nb: nat, s: seq<int>, r: Request) {
    match r
    case Alloc(c) => c <= |s|
    case Free(b) => 0 <= b < nb && b !in s
    case Delete(b) => b in s
    case Other => true
  }

  /** The blocks of the plain list after one request. */
  ghost function LlServe(nb: nat, s: seq<int>, r: Request): seq<int>
    requires LlOk(nb, s, r)
  {
    match r
    case Alloc(c) => s[Clip(c)..]
    case Free(b) => [b] + s
    case Delete(b) => Without(s, IndexOf(s, b))
    case Other => s
  }

  ghost predicate LlTrace(nb: nat, s: seq<int>, trace: seq<Request>)
    decreases |trace|
  {
    trace == [] || (LlOk(nb, s, trace[0]) && LlTrace(nb, LlServe(nb, s, trace[0]), trace[1..]))
  }

  ghost function LlRun(nb: nat, s: seq<int>, trace: seq<Request>): seq<int>
    requires LlTrace(nb, s, trace)
    decreases |trace|
  {
    if trace == [] then s else LlRun(nb, LlServe(nb, s, trace[0]), trace[1..])
  }

  ghost function LlTakenBy(s: seq<int>, r: Request): seq<int>
    requires r.Alloc? ==> r.count <= |s|
  {
    if r.Alloc? then s[..Clip(r.count)] else []
  }

  /** The blocks that allocation requests take, in order. */
  ghost function LlTaken(nb: nat, s: seq<int>, trace: seq<Request>): seq<int>
    requires LlTrace(nb, s, trace)
    decreases |trace|
  {
    if trace == [] then []
    else LlTakenBy(s, trace[0]) + LlTaken(nb, LlServe(nb, s, trace[0]), trace[1..])
  }

  /** A request loop over the plain list that served the first `i` lines. */
  ghost predicate LlServing(nb: nat, s0: seq<int>, trace: seq<Request>, i: nat, s: seq<int>, taken: seq<int>, done: nat) {
    && i <= |trace| && LlTrace(nb, s0, trace) && LlTrace(nb, s, trace[i..])
    && LlRun(nb, s0, trace) == LlRun(nb, s, trace[i..])
    && LlTaken(nb, s0, trace) == taken + LlTaken(nb, s, trace[i..])
    && Operations(trace) == done + Operations(trace[i..])
  }

  lemma LlServingStep(nb: nat, s0: seq<int>, trace: seq<Request>, i: nat, s: seq<int>, taken: seq<int>, done: nat)
    requires LlServing(nb, s0, trace, i, s, taken, done) && i < |trace|
    ensures LlOk(nb, s, trace[i])
    ensures LlServing(nb, s0, trace, i + 1, LlServe(nb, s, trace[i]), taken + LlTakenBy(s, trace[i]), done + Cost(trace[i]))
  {
    var r := trace[i];
    assert trace[i..] == [r] + trace[i + 1..];
    LlFirstLine(nb, s, r, trace[i + 1..]);
    Associative(taken, LlTakenBy(s, r), LlTaken(nb, LlServe(nb, s, r), trace[i + 1..]));
  }

  lemma LlFirstLine(nb: nat, s: seq<int>, r: Request, rest: seq<Request>)
    requires LlTrace(nb, s, [r] + rest)
    ensures LlOk(nb, s, r) && LlTrace(nb, LlServe(nb, s, r), rest)
    ensures LlRun(nb, s, [r] + rest) == LlRun(nb, LlServe(nb, s, r), rest)
    ensures LlTaken(nb, s, [r] + rest) == LlTakenBy(s, r) + LlTaken(nb, LlServe(nb, s, r), rest)
    ensures Operations([r] + rest) == Cost(r) + Operations(rest)
  {
    var all := [r] + rest;
    assert all[0] == r && all[1..] == rest;
  }

  lemma LlServingStart(nb: nat, s: seq<int>, trace: seq<Request>)
    requires LlTrace(nb, s, trace)
    ensures LlServing(nb, s, trace, 0, s, [], 0)
  {
    assert trace[0..] == trace;
  }

  /** Allocation lines take as many blocks as they ask for. */
  lemma {:induction false} LlTakenSize(nb: nat, s: seq<int>, trace: seq<Request>)
    requires LlTrace(nb, s, trace)
    ensures |LlTaken(nb, s, trace)| == Allocated(trace)
    decreases |trace|
  {
    if trace != [] {
      LlTakenSize(nb, LlServe(nb, s, trace[0]), trace[1..]);
    }
  }

  // ----- the access-point list -----

  /** Balanced, and no block is in it twice. */
  ghost predicate Good(v: View) {
    Balanced(v) && Distinct(Stack(v))
  }

  ghost function FreeSet(v: View): set<int>
    requires Balanced(v)
  {
    Elems(Stack(v))
  }

  ghost predicate Ok(nb: nat, v: View, r: Request)
    requires Good(v)
  {
    match r
    case Alloc(c) => c <= Size(v)
    case Free(b) => 0 <= b < nb && !IsBlock(v.segs, b)
    case Delete(b) => IsBlock(v.segs, b)
    case Other => true
  }

  ghost function PopMany(v: View, k: nat): (w: View)
    requires Good(v) && k <= Size(v)
    ensures Good(w) && |w.segs| == |v.segs|
    ensures Stack(w) == Stack(v)[k..]
  {
    if k == 0 then v
    else
      var w := PopMany(v, k - 1);
      SizeIsTotal(w);
      PopIsTail(w);
      Pop(w)
  }

  /** The blocks that the first `k` single deletes unlink. */
  ghost function Tops(v: View, k: nat): (s: seq<int>)
    requires Good(v) && k <= Size(v)
    ensures |s| == k
  {
    if k == 0 then []
    else
      var w := PopMany(v, k - 1);
      SizeIsTotal(w);
      Tops(v, k - 1) + [w.segs[w.pos][0]]
  }

  ghost function Remove(v: View, x: int): (w: View)
    requires Good(v) && IsBlock(v.segs, x)
    ensures Good(w) && |w.segs| == |v.segs|
    ensures FreeSet(w) == FreeSet(v) - {x}
  {
    StackMembers(v, x);
    var m := IndexOf(Stack(v), x);
    SizeIsTotal(v);
    StackSlot(v, m);
    DropRemoves(v, m);
    assert forall y :: y in FreeSet(Drop(v, m)) <==> y in FreeSet(v) && y != x;
    Drop(v, m)
  }

  ghost function Serve(nb: nat, v: View, r: Request): (w: View)
    requires Good(v) && Ok(nb, v, r)
    ensures Good(w) && |w.segs| == |v.segs|
  {
    match r
    case Alloc(c) => PopMany(v, Clip(c))
    case Free(b) => PushGood(v, b); Push(v, b)
    case Delete(b) => Remove(v, b)
    case Other => v
  }

  ghost predicate Trace(nb: nat, v: View, trace: seq<Request>)
    requires Good(v)
    decreases |trace|
  {
    trace == [] || (Ok(nb, v, trace[0]) && Trace(nb, Serve(nb, v, trace[0]), trace[1..]))
  }

  /** Every valid run, whatever its mix of requests, ends in a good view. */
  ghost function Run(nb: nat, v: View, trace: seq<Request>): (w: View)
    requires Good(v) && Trace(nb, v, trace)
    ensures Good(w) && |w.segs| == |v.segs|
    decreases |trace|
  {
    if trace == [] then v else Run(nb, Serve(nb, v, trace[0]), trace[1..])
  }

  /** The blocks that one request takes without naming them. */
  ghost function TakenBy(v: View, nb: nat, r: Request): seq<int>
    requires Good(v) && Ok(nb, v, r)
  {
    if r.Alloc? then Tops(v, Clip(r.count)) else []
  }

  ghost function Taken(nb: nat, v: View, trace: seq<Request>): seq<int>
    requires Good(v) && Trace(nb, v, trace)
    decreases |trace|
  {
    if trace == [] then []
    else TakenBy(v, nb, trace[0]) + Taken(nb, Serve(nb, v, trace[0]), trace[1..])
  }

  /** A request loop that served the first `i` lines of `trace` and stands at `v`. */
  ghost predicate Serving(nb: nat, v0: View, trace: seq<Request>, i: nat, v: View, taken: seq<int>, done: nat) {
    && Good(v0) && Trace(nb, v0, trace) && i <= |trace|
    && Good(v) && Trace(nb, v, trace[i..])
    && Run(nb, v0, trace) == Run(nb, v, trace[i..])
    && Taken(nb, v0, trace) == taken + Taken(nb, v, trace[i..])
    && Operations(trace) == done + Operations(trace[i..])
  }

  lemma ServingStart(nb: nat, v: View, trace: seq<Request>)
    requires Good(v) && Trace(nb, v, trace)
    ensures Serving(nb, v, trace, 0, v, [], 0)
  {
    assert trace[0..] == trace;
  }

  lemma ServingStep(nb: nat, v0: View, trace: seq<Request>, i: nat, v: View, taken: seq<int>, done: nat)
    requires Serving(nb, v0, trace, i, v, taken, done) && i < |trace|
    ensures Ok(nb, v, trace[i])
    ensures Serving(nb, v0, trace, i + 1, Serve(nb, v, trace[i]), taken + TakenBy(v, nb, trace[i]), done + Cost(trace[i]))
  {
    var r := trace[i];
    assert trace[i..] == [r] + trace[i + 1..];
    FirstLine(nb, v, r, trace[i + 1..]);
    Associative(taken, TakenBy(v, nb, r), Taken(nb, Serve(nb, v, r), trace[i + 1..]));
  }

  lemma FirstLine(nb: nat, v: View, r: Request, rest: seq<Request>)
    requires Good(v) && Trace(nb, v, [r] + rest)
    ensures Ok(nb, v, r) && Trace(nb, Serve(nb, v, r), rest)
    ensures Run(nb, v, [r] + rest) == Run(nb, Serve(nb, v, r), rest)
    ensures Taken(nb, v, [r] + rest) == TakenBy(v, nb, r) + Taken(nb, Serve(nb, v, r), rest)
    ensures Operations([r] + rest) == Cost(r) + Operations(rest)
  {
    var all := [r] + rest;
    assert all[0] == r && all[1..] == rest;
  }

  /** One more single delete. */
  lemma OneMore(v: View, k: nat)
    requires Good(v) && k < Size(v)
    ensures var w := PopMany(v, k);
            CanPop(w) && Pop(w) == PopMany(v, k + 1) && Tops(v, k + 1) == Tops(v, k) + [w.segs[w.pos][0]]
  {
    SizeIsTotal(PopMany(v, k));
  }

  lemma {:induction false} TakenSize(nb: nat, v: View, trace: seq<Request>)
    requires Good(v) && Trace(nb, v, trace)
    ensures |Taken(nb, v, trace)| == Allocated(trace)
    decreases |trace|
  {
    if trace != [] {
      TakenSize(nb, Serve(nb, v, trace[0]), trace[1..]);
    }
  }

  /** A valid run goes on with exactly the requests that its last view accepts. */
  lemma {:induction false} TraceAppend(nb: nat, v: View, trace: seq<Request>, r: Request)
    requires Good(v) && Trace(nb, v, trace)
    ensures Trace(nb, v, trace + [r]) <==> Ok(nb, Run(nb, v, trace), r)
    ensures Trace(nb, v, trace + [r]) ==> Run(nb, v, trace + [r]) == Serve(nb, Run(nb, v, trace), r)
    decreases |trace|
  {
    var all := trace + [r];
    if trace == [] {
      assert all[0] == r && all[1..] == [];
    } else {
      assert all[0] == trace[0] && all[1..] == trace[1..] + [r];
      TraceAppend(nb, Serve(nb, v, trace[0]), trace[1..], r);
    }
  }

  // ----- one step -----

  lemma PushGood(v: View, x: int)
    requires Good(v) && !IsBlock(v.segs, x)
    ensures Good(Push(v, x)) && Stack(Push(v, x)) == [x] + Stack(v)
  {
    PushIsCons(v, x);
    StackMembers(v, x);
  }

  lemma TopIntoRemoves(s: seq<int>, m: nat)
    requires Distinct(s) && m < |s|
    ensures Distinct(TopInto(s, m))
    ensures forall y :: y in TopInto(s, m) <==> y in s && y != s[m]
  {
    var r := TopInto(s, m);
    forall y | y in s && y != s[m]
      ensures y in r
    {
      var k :| 0 <= k < |s| && s[k] == y;
      if k == 0 {
        assert r[m - 1] == y;
      } else {
        assert r[k - 1] == y;
      }
    }
    forall y | y in r
      ensures y in s && y != s[m]
    {
      var k :| 0 <= k < |r| && r[k] == y;
      assert y == if k + 1 == m then s[0] else s[k + 1];
    }
  }

  /** Where position `p` of the old stack goes; `SunkFrom` undone. */
  lemma SunkTo(m: nat, n: nat, size: nat, p: nat) returns (k: nat)
    requires 0 < n && m % n == 0 && p != m && p < size && m < size
    ensures k < size - 1 && SunkFrom(m, n, k) == p
  {
    assert 0 % n == 0;
    if p % n == 0 && p <= m {
      NextRow(p, m, n);
      k := p + n - 1;
    } else {
      k := p - 1;
    }
  }

  lemma SunkInjective(m: nat, n: nat, k: nat, l: nat)
    requires 0 < n && m % n == 0 && SunkFrom(m, n, k) == SunkFrom(m, n, l)
    ensures k == l
  {
    if (k + 1) % n == 0 && k + 1 <= m {
      ModShift(k + 1, n, -1);
    }
    if (l + 1) % n == 0 && l + 1 <= m {
      ModShift(l + 1, n, -1);
    }
  }

  /** A delete by reference removes exactly the named block. */
  lemma DropRemoves(v: View, m: nat)
    requires Good(v) && m < Size(v)
    ensures CanPop(v) && m / |v.segs| < |v.segs[(v.pos + m) % |v.segs|]|
    ensures Good(Drop(v, m))
    ensures forall y :: y in Stack(Drop(v, m)) <==> y in Stack(v) && y != Stack(v)[m]
  {
    var n, s := |v.segs|, Stack(v);
    if (v.pos + m) % n != v.pos {
      DropOutside(v, m);
      TopIntoRemoves(s, m);
    } else {
      DropInside(v, m);
      var r := Stack(Drop(v, m));
      forall y | y in s && y != s[m]
        ensures y in r
      {
        var p :| 0 <= p < |s| && s[p] == y;
        var k := SunkTo(m, n, |s|, p);
        assert r[k] == y;
      }
      forall k | 0 <= k < |r|
        ensures r[k] in s && r[k] != s[m]
      {
        assert SunkFrom(m, n, k) != m;
      }
      forall k, l | 0 <= k < l < |r|
        ensures r[k] != r[l]
      {
        if SunkFrom(m, n, k) == SunkFrom(m, n, l) {
          SunkInjective(m, n, k, l);
        }
      }
    }
  }

  lemma TopIntoAgrees(s: seq<int>, m: nat)
    requires Distinct(s) && m < |s|
    ensures TopInto(s, m) == Without(s, m) <==> m <= 1
  {
    if m > 1 {
      assert TopInto(s, m)[0] == s[1] && Without(s, m)[0] == s[0];
    } else {
      assert TopInto(s, m) == Without(s, m);
    }
  }

  /** A delete by reference leaves the same order as on the plain list exactly when
      there is one access point or the block is one of the next two to go. */
  lemma DeleteAgrees(v: View, m: nat)
    requires Good(v) && m < Size(v)
    ensures CanPop(v) && m / |v.segs| < |v.segs[(v.pos + m) % |v.segs|]|
    ensures Balanced(Drop(v, m))
    ensures Stack(Drop(v, m)) == Without(Stack(v), m) <==> |v.segs| == 1 || m <= 1
  {
    var n, s := |v.segs|, Stack(v);
    assert (v.pos + m) % 1 == 0;
    if (v.pos + m) % n != v.pos {
      DropOutside(v, m);
      TopIntoAgrees(s, m);
    } else {
      DropInside(v, m);
      var r := Stack(Drop(v, m));
      if n == 1 {
        assert r == Without(s, m) by {
          forall k | 0 <= k < |r| ensures r[k] == Without(s, m)[k] { assert (k + 1) % 1 == 0; }
        }
      } else if m >= 1 {
        NextRow(0, m, n);
        DivModUnique(1, n, 0, 1);
        assert SunkFrom(m, n, 0) == 1 && r[0] == s[1] && Without(s, m)[0] == s[0];
      } else {
        assert r == Without(s, m) by {
          forall k | 0 <= k < |r| ensures r[k] == s[k + 1] { }
        }
      }
    }
  }

  lemma {:induction false} TopsArePrefix(v: View, k: nat)
    requires Good(v) && k <= Size(v)
    ensures Tops(v, k) == Stack(v)[..k]
  {
    if k > 0 {
      TopsArePrefix(v, k - 1);
      var w := PopMany(v, k - 1);
      SizeIsTotal(w);
      PopIsTail(w);
      assert Stack(w)[0] == Stack(v)[k - 1];
      assert Stack(v)[..k] == Stack(v)[..k - 1] + [Stack(v)[k - 1]];
    }
  }

  // ----- runs -----

  /** Requests that do not name the block they take. */
  predicate StackOnly(trace: seq<Request>) {
    forall r :: r in trace ==> !r.Delete?
  }

  lemma LockstepOne(nb: nat, v: View, r: Request)
    requires Good(v) && !r.Delete?
    ensures Ok(nb, v, r) <==> LlOk(nb, Stack(v), r)
    ensures Ok(nb, v, r) ==> Stack(Serve(nb, v, r)) == LlServe(nb, Stack(v), r)
  {
    if r.Free? {
      StackMembers(v, r.block);
      if Ok(nb, v, r) { PushGood(v, r.block); }
    }
  }

  /** On every trace of allocations and frees the access-point list and a plain
      list started from its stack accept the same requests, allocate the same
      blocks in the same order, and end with the same stack. */
  lemma {:induction false} Lockstep(nb: nat, v: View, trace: seq<Request>)
    requires Good(v) && StackOnly(trace)
    ensures Trace(nb, v, trace) <==> LlTrace(nb, Stack(v), trace)
    ensures Trace(nb, v, trace) ==>
              && Stack(Run(nb, v, trace)) == LlRun(nb, Stack(v), trace)
              && Taken(nb, v, trace) == LlTaken(nb, Stack(v), trace)
    decreases |trace|
  {
    if trace != [] {
      var r := trace[0];
      assert r in trace;
      LockstepOne(nb, v, r);
      if Ok(nb, v, r) {
        Lockstep(nb, Serve(nb, v, r), trace[1..]);
        if r.Alloc? {
          TopsArePrefix(v, Clip(r.count));
        }
      }
    }
  }

  lemma ServeTargeted(nb: nat, v: View, r: Request)
    requires Good(v) && Targeted(r)
    ensures Ok(nb, v, r) <==> TargetedOk(nb, FreeSet(v), r)
    ensures Ok(nb, v, r) ==> FreeSet(Serve(nb, v, r)) == ServeSet(FreeSet(v), r)
  {
    match r
    case Free(b) =>
      StackMembers(v, b);
      if Ok(nb, v, r) { PushGood(v, b); }
    case Delete(b) =>
      StackMembers(v, b);
    case Other =>
  }

  /** On every trace that names its blocks, the access-point list accepts exactly
      the traces that are legal for its free set, and its free set after each of
      them is the one the requests describe. */
  lemma {:induction false} TargetedRun(nb: nat, v: View, trace: seq<Request>)
    requires Good(v) && forall r :: r in trace ==> Targeted(r)
    ensures Trace(nb, v, trace) <==> TargetedTrace(nb, FreeSet(v), trace)
    ensures Trace(nb, v, trace) ==> FreeSet(Run(nb, v, trace)) == ServeSetAll(FreeSet(v), trace)
    decreases |trace|
  {
    if trace != [] {
      assert trace[0] in trace;
      ServeTargeted(nb, v, trace[0]);
      if Ok(nb, v, trace[0]) {
        TargetedRun(nb, Serve(nb, v, trace[0]), trace[1..]);
      }
    }
  }

  /** The same for the plain list. */
  lemma {:induction false} LlTargetedRun(nb: nat, s: seq<int>, trace: seq<Request>)
    requires Distinct(s) && forall r :: r in trace ==> Targeted(r)
    ensures LlTrace(nb, s, trace) <==> TargetedTrace(nb, Elems(s), trace)
    ensures LlTrace(nb, s, trace) ==>
              && Distinct(LlRun(nb, s, trace))
              && Elems(LlRun(nb, s, trace)) == ServeSetAll(Elems(s), trace)
    decreases |trace|
  {
    if trace != [] {
      var r := trace[0];
      assert r in trace;
      if LlOk(nb, s, r) {
        var t := LlServe(nb, s, r);
        if r.Delete? {
          WithoutMembers(s, IndexOf(s, r.block));
        }
        assert Distinct(t);
        assert Elems(t) == ServeSet(Elems(s), r);
        LlTargetedRun(nb, t, trace[1..]);
      }
    }
  }

  lemma WithoutMembers(s: seq<int>, k: nat)
    requires Distinct(s) && k < |s|
    ensures Distinct(Without(s, k))
    ensures forall y :: y in Without(s, k) <==> y in s && y != s[k]
  {
    var r := Without(s, k);
    forall y | y in s && y != s[k]
      ensures y in r
    {
      var i :| 0 <= i < |s| && s[i] == y;
      assert r[if i < k then i else i - 1] == y;
    }
  }
}
