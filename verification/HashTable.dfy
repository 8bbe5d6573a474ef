/** The chained hash table of `coro/coro.c` and `coro/coro_simplified.c`, and its
    sequential search. */
module HashTable {
  import opened Arithmetic

  /** A bucket's linked list; its nodes never change once they are created. */
  datatype Chain = Nil | Cons(key: int, next: Chain)

  type Table = t: seq<Chain> | |t| > 0 witness [Nil]

  const SIZE_T := 0x1_0000_0000_0000_0000

  /** `key % num_buckets`: the signed key is converted to `size_t` first. */
  function BucketIndex(key: int, numBuckets: nat): (i: nat)
    requires 0 < numBuckets
    ensures i < numBuckets
  {
    (key % SIZE_T) % numBuckets
  }

  /** For a C int the conversion is the identity, or adds 2 to the power of 64. */
  lemma BucketOf(key: int, numBuckets: nat)
    requires 0 < numBuckets && -0x8000_0000 <= key < 0x8000_0000
    ensures BucketIndex(key, numBuckets) == (if 0 <= key then key else key + 0x1_0000_0000_0000_0000) % numBuckets
  {
    assert key % SIZE_T == if 0 <= key then key else key + SIZE_T;
  }

  function Bucket(t: Table, key: int): Chain {
    t[BucketIndex(key, |t|)]
  }

  predicate Contains(c: Chain, key: int) {
    c.Cons? && (c.key == key || Contains(c.next, key))
  }

  predicate Found(t: Table, key: int) {
    Contains(Bucket(t, key), key)
  }

  /** Chain nodes a search steps past before it stops. */
  function SteppedPast(c: Chain, key: int): nat {
    if c.Nil? || c.key == key then 0 else 1 + SteppedPast(c.next, key)
  }

  /** The chain of bucket `b`: its keys, the latest insertion first. */
  function ChainOf(keys: seq<int>, b: nat, numBuckets: nat): Chain
    requires 0 < numBuckets
  {
    if keys == [] then Nil
    else
      var last, rest := keys[|keys| - 1], ChainOf(keys[..|keys| - 1], b, numBuckets);
      if BucketIndex(last, numBuckets) == b then Cons(last, rest) else rest
  }

  lemma {:induction false} ChainContains(keys: seq<int>, b: nat, numBuckets: nat, key: int)
    requires 0 < numBuckets
    ensures Contains(ChainOf(keys, b, numBuckets), key) <==> key in keys && BucketIndex(key, numBuckets) == b
  {
    if keys != [] {
      ChainContains(keys[..|keys| - 1], b, numBuckets, key);
      assert keys == keys[..|keys| - 1] + [keys[|keys| - 1]];
    }
  }

  /** The keys of a chain, from its first node on. */
  function Nodes(c: Chain): seq<int> {
    if c.Nil? then [] else [c.key] + Nodes(c.next)
  }

  /** A search steps past the nodes in front of the first one with the key, or past all. */
  lemma {:induction false} SearchStops(c: Chain, key: int)
    ensures Contains(c, key) <==> key in Nodes(c)
    ensures SteppedPast(c, key) <= |Nodes(c)| && forall m :: 0 <= m < SteppedPast(c, key) ==> Nodes(c)[m] != key
    ensures if key in Nodes(c) then SteppedPast(c, key) < |Nodes(c)| && Nodes(c)[SteppedPast(c, key)] == key
            else SteppedPast(c, key) == |Nodes(c)|
  {
    if c.Cons? && c.key != key {
      SearchStops(c.next, key);
      assert Nodes(c)[1..] == Nodes(c.next);
    }
  }

  /** Chain `c` holds the keys at the input positions `at`, each one a later position
      than the next. */
  ghost predicate ChainedFrom(c: Chain, keys: seq<int>, at: seq<nat>) {
    && |Nodes(c)| == |at|
    && (forall m :: 0 <= m < |at| ==> at[m] < |keys| && Nodes(c)[m] == keys[at[m]])
    && (forall l, m :: 0 <= l < m < |at| ==> at[m] < at[l])
  }

  /** `at` has exactly the positions of the keys of bucket `b`. */
  ghost predicate AllOfBucket(keys: seq<int>, b: nat, numBuckets: nat, at: seq<nat>)
    requires 0 < numBuckets
  {
    forall i :: 0 <= i < |keys| ==>
      (i in at <==> b == (if 0 <= keys[i] then keys[i] else keys[i] + 0x1_0000_0000_0000_0000) % numBuckets)
  }

  /** The chain of bucket `b` has its keys as often as they occur, the latest first. */
  ghost predicate HoldsBucket(c: Chain, keys: seq<int>, b: nat, numBuckets: nat)
    requires 0 < numBuckets
  {
    exists at :: ChainedFrom(c, keys, at) && AllOfBucket(keys, b, numBuckets, at)
  }

  predicate CInts(keys: seq<int>) {
    forall i :: 0 <= i < |keys| ==> -0x8000_0000 <= keys[i] < 0x8000_0000
  }

  lemma ChainedMore(c: Chain, keys: seq<int>, at: seq<nat>)
    requires keys != [] && ChainedFrom(c, keys[..|keys| - 1], at)
    ensures ChainedFrom(Cons(keys[|keys| - 1], c), keys, [|keys| - 1] + at)
  {
    var nodes, all := Nodes(Cons(keys[|keys| - 1], c)), [|keys| - 1] + at;
    assert nodes == [keys[|keys| - 1]] + Nodes(c);
    forall m | 0 <= m < |all|
      ensures all[m] < |keys| && nodes[m] == keys[all[m]]
    {
      if m > 0 { assert nodes[m] == Nodes(c)[m - 1]; }
    }
  }

  /** The input positions behind a chain. */
  lemma {:induction false} ChainPositions(keys: seq<int>, b: nat, numBuckets: nat) returns (at: seq<nat>)
    requires 0 < numBuckets
    ensures ChainedFrom(ChainOf(keys, b, numBuckets), keys, at)
    ensures forall i :: 0 <= i < |keys| ==> (i in at <==> BucketIndex(keys[i], numBuckets) == b)
  {
    at := [];
    if keys != [] {
      var last := |keys| - 1;
      var rest := ChainPositions(keys[..last], b, numBuckets);
      if BucketIndex(keys[last], numBuckets) == b {
        at := [last] + rest;
        ChainedMore(ChainOf(keys[..last], b, numBuckets), keys, rest);
      } else {
        at := rest;
      }
      forall i | 0 <= i < last
        ensures i in at <==> BucketIndex(keys[i], numBuckets) == b
      {
        assert keys[..last][i] == keys[i];
      }
      assert last !in rest;
    }
  }

  /** The table in terms of remainders alone. */
  lemma TableOf(t: Table, keys: seq<int>, numBuckets: nat)
    requires 0 < numBuckets == |t| && forall b :: 0 <= b < numBuckets ==> t[b] == ChainOf(keys, b, numBuckets)
    ensures forall key :: Found(t, key) <==> key in keys
    ensures forall b, key :: 0 <= b < numBuckets && -0x8000_0000 <= key < 0x8000_0000 ==>
              (Contains(t[b], key) <==>
               key in keys && b == (if 0 <= key then key else key + 0x1_0000_0000_0000_0000) % numBuckets)
    ensures CInts(keys) ==> forall b :: 0 <= b < numBuckets ==> HoldsBucket(t[b], keys, b, numBuckets)
  {
    forall key
      ensures Found(t, key) <==> key in keys
    {
      ChainContains(keys, BucketIndex(key, numBuckets), numBuckets, key);
    }
    forall b, key | 0 <= b < numBuckets && -0x8000_0000 <= key < 0x8000_0000
      ensures Contains(t[b], key) <==>
              key in keys && b == (if 0 <= key then key else key + 0x1_0000_0000_0000_0000) % numBuckets
    {
      ChainOfInt(keys, b, numBuckets, key);
    }
    if CInts(keys) {
      forall b | 0 <= b < numBuckets
        ensures HoldsBucket(t[b], keys, b, numBuckets)
      {
        BucketHeld(keys, b, numBuckets);
      }
    }
  }

  lemma ChainOfInt(keys: seq<int>, b: nat, numBuckets: nat, key: int)
    requires 0 < numBuckets && -0x8000_0000 <= key < 0x8000_0000
    ensures Contains(ChainOf(keys, b, numBuckets), key) <==>
            key in keys && b == (if 0 <= key then key else key + 0x1_0000_0000_0000_0000) % numBuckets
  {
    ChainContains(keys, b, numBuckets, key);
    BucketOf(key, numBuckets);
  }

  lemma BucketHeld(keys: seq<int>, b: nat, numBuckets: nat)
    requires 0 < numBuckets && CInts(keys)
    ensures HoldsBucket(ChainOf(keys, b, numBuckets), keys, b, numBuckets)
  {
    var at := ChainPositions(keys, b, numBuckets);
    forall i | 0 <= i < |keys|
      ensures i in at <==> b == (if 0 <= keys[i] then keys[i] else keys[i] + 0x1_0000_0000_0000_0000) % numBuckets
    {
      BucketOf(keys[i], numBuckets);
    }
    assert AllOfBucket(keys, b, numBuckets, at);
  }

  /** build_hash_table: the table finds exactly the keys it was built from, and each
      bucket holds its keys as often as they occur, the latest first. */
  method BuildHashTable(keys: seq<int>, numBuckets: nat) returns (t: Table)
    requires 0 < numBuckets
    ensures |t| == numBuckets && forall b :: 0 <= b < numBuckets ==> t[b] == ChainOf(keys, b, numBuckets)
    ensures forall key :: Found(t, key) <==> key in keys
    ensures forall b, key :: 0 <= b < numBuckets && -0x8000_0000 <= key < 0x8000_0000 ==>
              (Contains(t[b], key) <==>
               key in keys && b == (if 0 <= key then key else key + 0x1_0000_0000_0000_0000) % numBuckets)
    ensures CInts(keys) ==> forall b :: 0 <= b < numBuckets ==> HoldsBucket(t[b], keys, b, numBuckets)
  {
    var buckets := new Chain[numBuckets](_ => Nil);
    var i := 0;
    while i < |keys|
      invariant 0 <= i <= |keys|
      invariant forall b :: 0 <= b < numBuckets ==> buckets[b] == ChainOf(keys[..i], b, numBuckets)
    {
      var key := keys[i];
      assert keys[..i + 1][..i] == keys[..i];
      var bucketIndex := BucketIndex(key, numBuckets);
      buckets[bucketIndex] := Cons(key, buckets[bucketIndex]);
      i := i + 1;
    }
    assert keys[..i] == keys;
    t := buckets[..];
    TableOf(t, keys, numBuckets);
  }

  /** naive_hash_table_search */
  method NaiveSearch(t: Table, key: int) returns (found: bool)
    ensures found == Found(t, key)
  {
    var node := t[BucketIndex(key, |t|)];
    while node.Cons?
      invariant Contains(node, key) == Found(t, key)
      decreases node
    {
      if node.key == key {
        return true;
      }
      node := node.next;
    }
    return false;
  }

  // ----- sums -----

  function Sum<T>(f: T -> nat, s: seq<T>): nat {
    if s == [] then 0 else f(s[0]) + Sum(f, s[1..])
  }

  lemma {:induction false} SumUpdate<T>(f: T -> nat, s: seq<T>, i: nat, x: T)
    requires i < |s|
    ensures Sum(f, s[i := x]) + f(s[i]) == Sum(f, s) + f(x)
  {
    if i == 0 {
      assert s[i := x][1..] == s[1..];
    } else {
      SumUpdate(f, s[1..], i - 1, x);
      assert s[i := x][1..] == s[1..][i - 1 := x];
    }
  }

  lemma {:induction false} SumConcat<T>(f: T -> nat, s: seq<T>, t: seq<T>)
    ensures Sum(f, s + t) == Sum(f, s) + Sum(f, t)
  {
    if s == [] {
      assert s + t == t;
    } else {
      SumConcat(f, s[1..], t);
      assert (s + t)[1..] == s[1..] + t;
    }
  }

  lemma {:induction false} SumZero<T>(f: T -> nat, s: seq<T>)
    ensures Sum(f, s) == 0 <==> forall i :: 0 <= i < |s| ==> f(s[i]) == 0
  {
    if s != [] {
      SumZero(f, s[1..]);
      assert forall i :: 0 <= i < |s[1..]| ==> s[1..][i] == s[i + 1];
      if Sum(f, s) == 0 {
        forall i | 0 <= i < |s| ensures f(s[i]) == 0 {
          if i > 0 { assert s[i] == s[1..][i - 1]; }
        }
      }
    }
  }

  /** Equal terms give equal sums, whatever they are the terms of. */
  lemma {:induction false} SumPointwise<T, U>(f: T -> nat, s: seq<T>, g: U -> nat, t: seq<U>)
    requires |s| == |t| && forall i :: 0 <= i < |s| ==> f(s[i]) == g(t[i])
    ensures Sum(f, s) == Sum(g, t)
  {
    if s != [] {
      assert f(s[0]) == g(t[0]);
      forall i | 0 <= i < |s[1..]| ensures f(s[1..][i]) == g(t[1..][i]) {
        assert s[1..][i] == s[i + 1] && t[1..][i] == t[i + 1];
      }
      SumPointwise(f, s[1..], g, t[1..]);
    }
  }

  /** Chain nodes that a search for a key steps past. */
  function Steps(t: Table): int -> nat {
    key => SteppedPast(Bucket(t, key), key)
  }

  /** A cost of `k` more than the steps, for every key. */
  lemma {:induction false} StepsPlus(t: Table, cost: int -> nat, k: nat, keys: seq<int>)
    requires forall i :: 0 <= i < |keys| ==> cost(keys[i]) == SteppedPast(Bucket(t, keys[i]), keys[i]) + k
    ensures Sum(cost, keys) == Sum(Steps(t), keys) + k * |keys|
  {
    if keys != [] {
      assert cost(keys[0]) == SteppedPast(Bucket(t, keys[0]), keys[0]) + k;
      forall i | 0 <= i < |keys[1..]|
        ensures cost(keys[1..][i]) == SteppedPast(Bucket(t, keys[1..][i]), keys[1..][i]) + k
      {
        assert keys[1..][i] == keys[i + 1];
      }
      StepsPlus(t, cost, k, keys[1..]);
      OneRoundLess(|keys|, k, 0);
    }
  }

  function Hit(t: Table): int -> nat {
    key => if Found(t, key) then 1 else 0
  }

  /** How many of `keys` are in the table. */
  function HitCount(t: Table, keys: seq<int>): nat {
    Sum(Hit(t), keys)
  }

  /** The naive loop of `main`. */
  method NaiveOps(t: Table, keys: seq<int>) returns (naiveOps: nat)
    ensures naiveOps == HitCount(t, keys)
  {
    naiveOps := 0;
    var i := 0;
    while i < |keys|
      invariant 0 <= i <= |keys| && naiveOps == HitCount(t, keys[..i])
    {
      SumConcat(Hit(t), keys[..i], [keys[i]]);
      assert keys[..i + 1] == keys[..i] + [keys[i]];
      assert [keys[i]][1..] == [];
      var found := NaiveSearch(t, keys[i]);
      if found {
        naiveOps := naiveOps + 1;
      }
      i := i + 1;
    }
    assert keys[..i] == keys;
  }

  /** The keys that `n` workers with a shared cursor are given, in order: each of
      the first `n` starts on `keys[i % |keys|]`, the rest is handed out once. */
  function Assigned(keys: seq<int>, n: nat): (s: seq<int>)
    requires keys != []
    ensures |s| == if n < |keys| then |keys| else n
  {
    seq(if n < |keys| then |keys| else n, (j: nat) => keys[j % |keys|])
  }

  /** The keys nobody has been given yet. */
  function Rest(keys: seq<int>, keyIndex: nat): seq<int> {
    if keyIndex < |keys| then keys[keyIndex..] else []
  }

  lemma AssignedSuffix(keys: seq<int>, n: nat)
    requires keys != []
    ensures Assigned(keys, n)[n..] == if n < |keys| then keys[n..] else []
    ensures n <= |keys| ==> Assigned(keys, n) == keys
  {
    forall j: nat | j < |keys|
      ensures j % |keys| == j
    {
      SmallMod(j, |keys|);
    }
  }

  lemma SmallMod(a: nat, n: nat)
    requires a < n
    ensures a % n == a
  {
  }
}
