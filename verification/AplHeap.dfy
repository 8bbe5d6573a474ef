/** Facts about the memory of the access-point list over runs of operations. */
module AplHeap {
  import opened Arithmetic
  import opened Ring
  import opened AplModel
  import opened AplOrder
  import opened Permutations
  import opened Traces

  // ----- no block is in the list twice -----

  lemma {:induction false} BodyApart(segs: seq<seq<int>>, ap: nat, i: nat, j: nat, k: nat, l: nat)
    requires Distinct(Body(segs, ap))
    requires i < |segs| && j < |segs[i]| && k < |segs| && l < |segs[k]|
    requires i < k || (i == k && j < l)
    ensures segs[i][j] != segs[k][l]
  {
    var body := Body(segs, ap);
    if i > 0 {
      assert Body(segs[1..], ap + 1) == body[1 + |segs[0]|..];
      BodyApart(segs[1..], ap + 1, i - 1, j, k - 1, l);
    } else {
      assert body[1 + j] == segs[0][j];
      if k == 0 {
        assert body[1 + l] == segs[0][l];
      } else {
        var rest := Body(segs[1..], ap + 1);
        assert InSeg(segs[1..], k - 1, segs[k][l]);
        BodyMembers(segs[1..], ap + 1, segs[k][l]);
        var m :| 0 <= m < |rest| && rest[m] == segs[k][l];
        assert body[1 + |segs[0]| + m] == rest[m];
      }
    }
  }

  /** A balanced list in memory holds every block at most once. */
  lemma LinkedIsGood(h: Heap, v: View)
    requires Linked(h, v) && Balanced(v)
    ensures Good(v)
  {
    var n, s := |v.segs|, Stack(v);
    assert Body(v.segs, h.nb) == RingOf(h.nb, v.segs)[1..];
    forall k, l | 0 <= k < l < |s|
      ensures s[k] != s[l]
    {
      StackSlot(v, k);
      StackSlot(v, l);
      var i, j, i', j' := (v.pos + k) % n, k / n, (v.pos + l) % n, l / n;
      if i == i' && j == j' {
        SameSlot(v.pos, k, l, n);
      } else if i < i' || (i == i' && j < j') {
        BodyApart(v.segs, h.nb, i, j, i', j');
      } else {
        BodyApart(v.segs, h.nb, i', j', i, j);
      }
    }
  }

  lemma SizeFits(h: Heap, v: View)
    requires Linked(h, v) && Balanced(v)
    ensures Size(v) <= h.nb
  {
    LinkedIsGood(h, v);
    forall k | 0 <= k < |Stack(v)|
      ensures 0 <= Stack(v)[k] < h.nb
    {
      StackMembers(v, Stack(v)[k]);
    }
    FitsIn(Stack(v), h.nb);
  }

  /** Whenever a block is free, the active access point offers one: no operation
      of a valid run unlinks a sentinel. */
  lemma OfferIffFree(h: Heap, v: View)
    requires Linked(h, v) && Balanced(v)
    ensures IsNode(h.links, h.nb + h.pos)
    ensures 0 <= Offered(h) < h.nb <==> FreeSet(v) != {}
  {
    OfferedIsBlock(h, v);
    SizeIsTotal(v);
    if Size(v) > 0 {
      assert Stack(v)[0] in FreeSet(v);
    }
  }

  /** A walk along `next` from the head visits the access points in order, each
      followed by its blocks, and is back at the head after one round; it meets
      exactly the sentinels and the free blocks. */
  lemma WalkFromHead(h: Heap, v: View, m: nat)
    requires Linked(h, v)
    ensures var ring := RingOf(h.nb, v.segs);
            && (m < |ring| ==> Hop(h.links, h.nb + |v.segs|, m) == ring[m])
            && Hop(h.links, h.nb + |v.segs|, |ring|) == h.nb + |v.segs|
    ensures forall x :: x in RingOf(h.nb, v.segs) <==> h.nb <= x <= h.nb + |v.segs| || IsBlock(v.segs, x)
  {
    var ring := RingOf(h.nb, v.segs);
    if m < |ring| { WalkVisits(h.links, ring, m); }
    WalkVisits(h.links, ring, |ring|);
    forall x
      ensures x in ring <==> h.nb <= x <= h.nb + |v.segs| || IsBlock(v.segs, x)
    {
      BodyMembers(v.segs, h.nb, x);
    }
  }

  // ----- deletes undone by inserts -----

  lemma DeleteThenInsert(h: Heap, v: View)
    requires Rep(h, v) && CanPop(v)
    ensures CanDeleteSingle(h) && CanInsert(DeleteSingle(h), Offered(h))
    ensures InsertSingle(DeleteSingle(h), Offered(h)) == h
  {
    var n, x := |v.segs|, v.segs[v.pos][0];
    OfferedIsTop(h, v);
    UnlinkBlock(h, v, v.pos, 0);
    assert InSeg(v.segs, v.pos, x);
    var d := DeleteSingle(h);
    assert DecrementPos(d) == h.pos by { BackAndForth(h.pos, n); }
    var ring, k := RingOf(h.nb, v.segs), |Before(h.nb, v.segs, v.pos)|;
    RingUpdate(h.nb, v.segs, v.pos, v.segs[v.pos]);
    assert ring[k - 1] == h.nb + v.pos && ring[k] == x;
    UnlinkThenInsertBefore(h.links, ring, k);
  }

  lemma UnlinkThenInsertBefore(l: Links, ring: seq<int>, k: nat)
    requires Threads(l, ring) && 1 <= k < |ring|
    ensures Hooked(l, ring[k])
    ensures IsNode(Unlink(l, ring[k]), ring[k - 1]) && IsNode(Unlink(l, ring[k]), ring[k])
    ensures var m := Unlink(l, ring[k]);
            Hooked(m, m.next[ring[k - 1]]) && InsertBefore(m, m.next[ring[k - 1]], ring[k]) == l
  {
    UnlinkThenInsert(l, ring, k);
    UnlinkDrops(l, ring, k);
    var m, r := Unlink(l, ring[k]), Without(ring, k);
    InsertBeforeIsAfter(m, r, k - 1, ring[k]);
    Neighbours(m, r, k - 1);
  }

  lemma PopThenPush(v: View)
    requires CanPop(v)
    ensures Push(Pop(v), v.segs[v.pos][0]) == v
  {
    BackAndForth(v.pos, |v.segs|);
    var w := Push(Pop(v), v.segs[v.pos][0]);
    assert w.pos == v.pos;
    assert [v.segs[v.pos][0]] + v.segs[v.pos][1..] == v.segs[v.pos];
    assert w.segs == v.segs;
  }

  /** The memory after `k` single deletes. */
  ghost function DeleteMany(h: Heap, v: View, k: nat): (r: Heap)
    requires Rep(h, v) && Good(v) && k <= Size(v)
    ensures Rep(r, PopMany(v, k)) && r.nb == h.nb
  {
    if k == 0 then h
    else
      var w := PopMany(v, k - 1);
      SizeIsTotal(w);
      DeleteSingleRefines(DeleteMany(h, v, k - 1), w);
      DeleteSingle(DeleteMany(h, v, k - 1))
  }

  /** The memory after inserting the blocks of `xs`, first one first. */
  ghost function InsertMany(h: Heap, v: View, xs: seq<int>): (r: Heap)
    requires Rep(h, v) && Distinct(xs)
    requires forall x :: x in xs ==> 0 <= x < h.nb && !IsBlock(v.segs, x)
    decreases |xs|
  {
    if xs == [] then h
    else
      assert xs[0] in xs;
      InsertSingleRefines(h, v, xs[0]);
      PushMembers(v, xs[0]);
      assert forall x :: x in xs[1..] ==> x in xs && x != xs[0];
      InsertMany(InsertSingle(h, xs[0]), Push(v, xs[0]), xs[1..])
  }

  lemma PushMembers(v: View, x: int)
    requires v.pos < |v.segs|
    ensures forall y :: IsBlock(Push(v, x).segs, y) ==> y == x || IsBlock(v.segs, y)
  {
    forall y | IsBlock(Push(v, x).segs, y)
      ensures y == x || IsBlock(v.segs, y)
    {
      var i :| InSeg(Push(v, x).segs, i, y);
      if y != x { assert InSeg(v.segs, i, y); }
    }
  }

  function Reverse(s: seq<int>): (r: seq<int>)
    ensures |r| == |s|
    ensures forall k :: 0 <= k < |s| ==> r[k] == s[|s| - 1 - k]
    ensures Distinct(s) ==> Distinct(r)
  {
    if s == [] then [] else [s[|s| - 1]] + Reverse(s[..|s| - 1])
  }

  lemma ReverseMember(s: seq<int>, x: int) returns (i: nat)
    requires x in Reverse(s)
    ensures i < |s| && s[i] == x
  {
    var k :| 0 <= k < |Reverse(s)| && Reverse(s)[k] == x;
    i := |s| - 1 - k;
  }

  /** The blocks that were popped are distinct, are blocks, and are no longer free. */
  lemma TopsAreGone(h: Heap, v: View, k: nat)
    requires Rep(h, v) && Good(v) && k <= Size(v)
    ensures Distinct(Reverse(Tops(v, k)))
    ensures forall x :: x in Reverse(Tops(v, k)) ==> 0 <= x < h.nb && !IsBlock(PopMany(v, k).segs, x)
  {
    TopsArePrefix(v, k);
    var t := Tops(v, k);
    forall x | x in Reverse(t)
      ensures 0 <= x < h.nb && !IsBlock(PopMany(v, k).segs, x)
    {
      var i := ReverseMember(t, x);
      PoppedIsGone(h, v, k, i);
    }
  }

  lemma PoppedIsGone(h: Heap, v: View, k: nat, i: nat)
    requires Rep(h, v) && Good(v) && i < k <= Size(v)
    ensures 0 <= Stack(v)[i] < h.nb && !IsBlock(PopMany(v, k).segs, Stack(v)[i])
  {
    var x := Stack(v)[i];
    StackMembers(v, x);
    var j :| InSeg(v.segs, j, x);
    assert x !in Stack(v)[k..];
    StackMembers(PopMany(v, k), x);
  }

  /** For any `k` up to the free count, `k` single deletes followed by inserting
      the same blocks in the opposite order restore the whole memory: the links
      of every node, the tags, the counters and the cursor. */
  lemma {:induction false} RoundTrip(h: Heap, v: View, k: nat)
    requires Rep(h, v) && Good(v) && k <= Size(v)
    ensures Distinct(Reverse(Tops(v, k)))
    ensures forall x :: x in Reverse(Tops(v, k)) ==> 0 <= x < h.nb && !IsBlock(PopMany(v, k).segs, x)
    ensures InsertMany(DeleteMany(h, v, k), PopMany(v, k), Reverse(Tops(v, k))) == h
  {
    TopsAreGone(h, v, k);
    if k > 0 {
      var w, g := PopMany(v, k - 1), DeleteMany(h, v, k - 1);
      SizeIsTotal(w);
      DeleteThenInsert(g, w);
      OfferedIsTop(g, w);
      PopThenPush(w);
      var t := w.segs[w.pos][0];
      assert Tops(v, k)[..k - 1] == Tops(v, k - 1);
      assert Reverse(Tops(v, k)) == [t] + Reverse(Tops(v, k - 1));
      assert ([t] + Reverse(Tops(v, k - 1)))[1..] == Reverse(Tops(v, k - 1));
      RoundTrip(h, v, k - 1);
    }
  }
}
