/** A run of the program after which its balance check misses a real imbalance. */
module MissedAlarm {
  import opened Arithmetic
  import opened Ring
  import opened AplModel
  import opened AplInit
  import opened CountCheck
  import opened Apl

  /** The segments after a map with the one free block 0 and `k` requests that free
      the blocks 1 to `k`: they go to the last segments, from the end. */
  function LateSegment(n: nat, k: nat, i: nat): seq<int>
    requires i < n
  {
    (if i + k >= n then [n - i] else []) + (if i == n - 1 then [0] else [])
  }

  function LateView(n: nat, k: nat): (v: View)
    requires 0 < n && k < n
    ensures |v.segs| == n && v.pos < n
  {
    View(seq(n, (i: nat) requires i < n => LateSegment(n, k, i)), if k == 0 then 0 else n - k)
  }

  lemma {:induction false} CutOne(n: nat, i: nat)
    requires 0 < n && i < n
    ensures Cut([0], 0, n)[i] == if i == n - 1 then [0] else []
    decreases n
  {
    if n > 1 {
      assert [0][0..] == [0] && [0][..0] == [];
      if i > 0 { CutOne(n - 1, i - 1); }
    }
  }

  lemma LateStart(n: nat)
    requires 1 < n
    ensures InitialView([0], n) == LateView(n, 0)
  {
    DivModUnique(1, n, 0, 1);
    forall i | 0 <= i < n
      ensures InitialView([0], n).segs[i] == LateView(n, 0).segs[i]
    {
      CutOne(n, i);
    }
  }

  lemma LatePush(n: nat, k: nat)
    requires 1 < n && k + 1 < n
    ensures !IsBlock(LateView(n, k).segs, k + 1)
    ensures Push(LateView(n, k), k + 1) == LateView(n, k + 1)
  {
    var v, w := LateView(n, k), LateView(n, k + 1);
    if k == 0 {
      DivModUnique(n - 1, n, 0, n - 1);
    } else {
      DivModUnique(n - k - 1 + n, n, 1, n - k - 1);
    }
    var p := Push(v, k + 1);
    assert p.pos == w.pos == n - (k + 1);
    forall i | 0 <= i < n
      ensures p.segs[i] == w.segs[i]
    {
    }
    assert p.segs == w.segs;
  }

  /** One access point has no block and the last one two: the lengths are
      0, 1, .., 1, 2. */
  lemma LateMissed(n: nat, lengths: seq<int>)
    requires 1 < n <= 0x7fff_ffff && |lengths| == n
    requires forall i :: 0 <= i < n ==> lengths[i] == |LateView(n, n - 1).segs[i]|
    ensures Imbalanced(lengths) && !Reported(lengths)
  {
    assert forall i :: 0 <= i < n ==> lengths[i] == if i == 0 then 0 else if i == n - 1 then 2 else 1;
    assert lengths[n - 1] - lengths[0] > 1;
    assert Lags(lengths, 0);
    assert RisingStart(lengths, 1);
    MissedImbalance(lengths);
  }

  /** With two or more access points: start from a map with one free block, free one
      block less than there are access points, and count. The list is imbalanced and
      the check says nothing. */
  method MissAlarm(n: nat) returns (lengths: seq<int>, imbalance: bool)
    requires 1 < n <= 0x7fff_ffff
    ensures |lengths| == n && Imbalanced(lengths) && !imbalance
  {
    var list := new FreeList(n, n);
    var ok := list.Load([0], 1);
    assert ok;
    LateStart(n);
    var k := 0;
    while k < n - 1
      invariant 0 <= k <= n - 1 && list.n == list.nb == n
      invariant list.Formed() && list.view == LateView(n, k)
      invariant fresh(list) && fresh(list.next) && fresh(list.prev) && fresh(list.tag) && fresh(list.counts)
    {
      LatePush(n, k);
      list.InsertSingle(k + 1);
      k := k + 1;
    }
    lengths, imbalance := list.CountNodes();
    LateMissed(n, lengths);
  }
}
