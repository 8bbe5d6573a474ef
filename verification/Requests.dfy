/** The lines of a request file, and what they ask of a free list seen as a set. */
module Requests {

  datatype Request =
    | Alloc(count: int)   // "a count": allocate that many blocks
    | Free(block: int)    // "f block": give one block back
    | Delete(block: int)  // "d block": take exactly this block
    | Other               // any other line is ignored

  function Clip(c: int): nat {
    if c < 0 then 0 else c
  }

  /** How many operations one line asks for. */
  function Cost(r: Request): nat {
    match r
    case Alloc(c) => Clip(c)
    case Other => 0
    case _ => 1
  }

  /** The value of `n_requests` after a trace. */
  function Operations(trace: seq<Request>): nat {
    if trace == [] then 0 else Cost(trace[0]) + Operations(trace[1..])
  }

  /** The lines of a trace that free or delete, counted by what they are. */
  function FreeLines(trace: seq<Request>): set<nat> {
    set i: nat | i < |trace| && trace[i].Free?
  }

  function DeleteLines(trace: seq<Request>): set<nat> {
    set i: nat | i < |trace| && trace[i].Delete?
  }

  /** How many blocks the allocation lines take. */
  function Allocated(trace: seq<Request>): nat {
    if trace == [] then 0
    else (match trace[0] case Alloc(c) => if c < 0 then 0 else c case _ => 0) + Allocated(trace[1..])
  }

  lemma {:induction false} LastLine(trace: seq<Request>, r: Request)
    ensures Operations(trace + [r]) == Operations(trace) + Cost(r)
    ensures Allocated(trace + [r]) == Allocated(trace) + match r case Alloc(c) => (if c < 0 then 0 else c) case _ => 0
  {
    var all := trace + [r];
    if trace == [] {
      assert all[0] == r && all[1..] == [];
    } else {
      LastLine(trace[1..], r);
      assert all[0] == trace[0] && all[1..] == trace[1..] + [r];
    }
  }

  lemma LastLineCounted(trace: seq<Request>, r: Request)
    ensures |FreeLines(trace + [r])| == |FreeLines(trace)| + if r.Free? then 1 else 0
    ensures |DeleteLines(trace + [r])| == |DeleteLines(trace)| + if r.Delete? then 1 else 0
  {
    var all, last := trace + [r], {|trace|};
    assert FreeLines(all) == if r.Free? then FreeLines(trace) + last else FreeLines(trace);
    assert DeleteLines(all) == if r.Delete? then DeleteLines(trace) + last else DeleteLines(trace);
  }

  /** A trace counts one operation for every block allocated and for every line that
      frees or deletes one. */
  lemma {:induction false} OperationsCounted(trace: seq<Request>)
    ensures Operations(trace) == Allocated(trace) + |FreeLines(trace)| + |DeleteLines(trace)|
  {
    if trace == [] {
      assert FreeLines(trace) == {} && DeleteLines(trace) == {};
    } else {
      var last := |trace| - 1;
      var init, r := trace[..last], trace[last];
      assert trace == init + [r];
      OperationsCounted(init);
      LastLine(init, r);
      LastLineCounted(init, r);
    }
  }

  /** Requests that name every block they touch. */
  predicate Targeted(r: Request) {
    !r.Alloc?
  }

  predicate TargetedOk(nb: nat, free: set<int>, r: Request)
    requires Targeted(r)
  {
    match r
    case Free(b) => 0 <= b < nb && b !in free
    case Delete(b) => b in free
    case Other => true
  }

  function ServeSet(free: set<int>, r: Request): set<int>
    requires Targeted(r)
  {
    match r
    case Free(b) => free + {b}
    case Delete(b) => free - {b}
    case Other => free
  }

  /** A trace of targeted requests, each one legal when it is served: a deleted
      block is free, a freed block is not. */
  predicate TargetedTrace(nb: nat, free: set<int>, trace: seq<Request>)
    decreases |trace|
  {
    trace == [] ||
    (Targeted(trace[0]) && TargetedOk(nb, free, trace[0]) &&
     TargetedTrace(nb, ServeSet(free, trace[0]), trace[1..]))
  }

  function ServeSetAll(free: set<int>, trace: seq<Request>): set<int>
    requires forall r :: r in trace ==> Targeted(r)
    decreases |trace|
  {
    if trace == [] then free else ServeSetAll(ServeSet(free, trace[0]), trace[1..])
  }

  lemma {:induction false} TargetedTraceTargets(nb: nat, free: set<int>, trace: seq<Request>)
    requires TargetedTrace(nb, free, trace)
    ensures forall r :: r in trace ==> Targeted(r)
    decreases |trace|
  {
    if trace != [] {
      TargetedTraceTargets(nb, ServeSet(free, trace[0]), trace[1..]);
      assert trace == [trace[0]] + trace[1..];
    }
  }

  /** Appending one legal request to a legal trace. */
  lemma {:induction false} TargetedTraceAppend(nb: nat, free: set<int>, trace: seq<Request>, r: Request)
    requires TargetedTrace(nb, free, trace)
    requires forall q :: q in trace ==> Targeted(q)
    requires Targeted(r) && TargetedOk(nb, ServeSetAll(free, trace), r)
    ensures TargetedTrace(nb, free, trace + [r])
    ensures forall q :: q in trace + [r] ==> Targeted(q)
    ensures ServeSetAll(free, trace + [r]) == ServeSet(ServeSetAll(free, trace), r)
    decreases |trace|
  {
    if trace == [] {
      assert trace + [r] == [r];
      assert [r][1..] == [];
    } else {
      TargetedTraceAppend(nb, ServeSet(free, trace[0]), trace[1..], r);
      assert (trace + [r])[1..] == trace[1..] + [r];
      assert (trace + [r])[0] == trace[0];
    }
  }
}
