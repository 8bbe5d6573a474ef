/** The access-point free list of `apl.c` on values.

    `Heap` is the program's memory: the link fields, the tags
    (`access_point_index`), the debug counters and the cursor `pos`. Blocks are
    the nodes `0..nb`, access point `i` is node `nb + i`, and the head sentinel is
    the last node. `View` is what that memory means: the blocks of every segment,
    in list order, and the active segment. `Rep(h, v)` ties the two together.
 */
module AplModel {
  import opened Arithmetic
  import opened Ring

  datatype Heap = Heap(nb: nat, links: Links, tag: seq<int>, counts: seq<int>, pos: nat)

  datatype View = View(segs: seq<seq<int>>, pos: nat)

  // ----- the operations on memory -----

  /** The node that the active access point offers. */
  function Offered(h: Heap): int
    requires IsNode(h.links, h.nb + h.pos)
  {
    h.links.next[h.nb + h.pos]
  }

  function IncrementPos(h: Heap): nat
    requires h.counts != []
  {
    (h.pos + 1) % |h.counts|
  }

  function DecrementPos(h: Heap): nat
    requires h.counts != []
  {
    (h.pos - 1 + |h.counts|) % |h.counts|
  }

  predicate CanDeleteSingle(h: Heap) {
    h.pos < |h.counts| && IsNode(h.links, h.nb + h.pos) && Hooked(h.links, Offered(h))
  }

  function DeleteSingle(h: Heap): Heap
    requires CanDeleteSingle(h)
  {
    h.(links := Unlink(h.links, Offered(h)),
       counts := h.counts[h.pos := h.counts[h.pos] - 1],
       pos := IncrementPos(h))
  }

  predicate CanInsert(h: Heap, x: int) {
    && h.pos < |h.counts|
    && IsNode(h.links, x) && x < |h.tag|
    && IsNode(h.links, h.nb + DecrementPos(h))
    && Hooked(h.links, h.links.next[h.nb + DecrementPos(h)])
  }

  function InsertSingle(h: Heap, x: int): Heap
    requires CanInsert(h, x)
  {
    var p := DecrementPos(h);
    h.(links := InsertBefore(h.links, h.links.next[h.nb + p], x),
       tag := h.tag[x := p],
       counts := h.counts[p := h.counts[p] + 1],
       pos := p)
  }

  predicate CanDelete(h: Heap, x: int) {
    && h.pos < |h.counts|
    && Hooked(h.links, x) && x < |h.tag|
    && (h.tag[x] != h.pos ==>
          && IsNode(h.links, h.nb + h.pos)
          && Hooked(h.links, Offered(h)) && Offered(h) < |h.tag|
          && Hooked(Unlink(h.links, Offered(h)), x))
  }

  function Poison(l: Links, x: int): Links
    requires IsNode(l, x)
  {
    Links(l.next[x := NULL], l.prev[x := NULL])
  }

  function DeleteByReference(h: Heap, x: int): Heap
    requires CanDelete(h, x)
  {
    var counts := h.counts[h.pos := h.counts[h.pos] - 1];
    if h.tag[x] == h.pos then
      h.(links := Unlink(h.links, x), counts := counts, pos := IncrementPos(h))
    else
      var y := Offered(h);
      h.(links := Poison(Replace(Unlink(h.links, y), x, y), x),
         tag := h.tag[y := h.tag[x]],
         counts := counts,
         pos := IncrementPos(h))
  }

  // ----- what the memory means -----

  /** The access points from node `ap` on, each followed by its segment. */
  function Body(segs: seq<seq<int>>, ap: nat): seq<int> {
    if segs == [] then [] else [ap] + segs[0] + Body(segs[1..], ap + 1)
  }

  /** The whole list: the head, then every access point with its blocks. */
  function RingOf(nb: nat, segs: seq<seq<int>>): seq<int> {
    [nb + |segs|] + Body(segs, nb)
  }

  /** Segment `i` holds block `x`. */
  predicate InSeg(segs: seq<seq<int>>, i: int, x: int) {
    0 <= i < |segs| && x in segs[i]
  }

  ghost predicate IsBlock(segs: seq<seq<int>>, x: int) {
    exists i :: InSeg(segs, i, x)
  }

  ghost predicate Counted(counts: seq<int>, segs: seq<seq<int>>) {
    |counts| == |segs| && forall i :: 0 <= i < |segs| ==> counts[i] == |segs[i]|
  }

  ghost predicate InRange(nb: nat, segs: seq<seq<int>>) {
    forall i, x :: InSeg(segs, i, x) ==> 0 <= x < nb
  }

  /** The links form the one ring of `v`. */
  ghost predicate Linked(h: Heap, v: View) {
    && v.pos == h.pos < |v.segs| == |h.counts|
    && |h.links.next| == |h.links.prev| == |h.tag| == h.nb + |v.segs| + 1
    && Threads(h.links, RingOf(h.nb, v.segs))
    && InRange(h.nb, v.segs)
  }

  /** Every free block carries the number of the segment that contains it. */
  ghost predicate Tagged(h: Heap, v: View)
    requires Linked(h, v)
  {
    forall i, x :: InSeg(v.segs, i, x) ==> h.tag[x] == i
  }

  ghost predicate Rep(h: Heap, v: View) {
    Linked(h, v) && Tagged(h, v) && Counted(h.counts, v.segs)
  }

  // ----- the operations on views -----

  predicate CanPop(v: View) {
    v.pos < |v.segs| && v.segs[v.pos] != []
  }

  function Pop(v: View): View
    requires CanPop(v)
  {
    View(v.segs[v.pos := v.segs[v.pos][1..]], (v.pos + 1) % |v.segs|)
  }

  function Push(v: View, x: int): (w: View)
    requires v.pos < |v.segs|
    ensures |w.segs| == |v.segs| && w.pos < |w.segs|
  {
    var p := (v.pos - 1 + |v.segs|) % |v.segs|;
    View(v.segs[p := [x] + v.segs[p]], p)
  }

  /** Remove the block at place `j` of segment `s`. */
  function DropAt(v: View, s: nat, j: nat): View
    requires CanPop(v) && s < |v.segs| && j < |v.segs[s]|
  {
    if s == v.pos then
      View(v.segs[s := Without(v.segs[s], j)], (v.pos + 1) % |v.segs|)
    else
      var top := v.segs[v.pos][0];
      Pop(v.(segs := v.segs[s := v.segs[s][j := top]]))
  }

  // ----- splitting the ring at a segment -----

  function Before(nb: nat, segs: seq<seq<int>>, i: nat): seq<int>
    requires i < |segs|
  {
    [nb + |segs|] + Body(segs[..i], nb) + [nb + i]
  }

  function After(nb: nat, segs: seq<seq<int>>, i: nat): seq<int>
    requires i < |segs|
  {
    Body(segs[i + 1..], nb + i + 1)
  }

  lemma {:induction false} BodySplit(segs: seq<seq<int>>, ap: nat, i: nat)
    requires i < |segs|
    ensures Body(segs, ap) == Body(segs[..i], ap) + ([ap + i] + segs[i] + Body(segs[i + 1..], ap + i + 1))
  {
    if i == 0 {
      assert segs[..0] == [];
    } else {
      BodySplit(segs[1..], ap + 1, i - 1);
      assert segs[1..][..i - 1] == segs[..i][1..];
      assert segs[1..][i..] == segs[i + 1..];
      var front, first := [ap] + segs[0], Body(segs[1..][..i - 1], ap + 1);
      assert Body(segs[..i], ap) == front + first;
      var rest := [ap + i] + segs[i] + Body(segs[i + 1..], ap + i + 1);
      assert front + (first + rest) == (front + first) + rest;
    }
  }

  lemma Regroup(a: seq<int>, b: seq<int>, c: seq<int>, d: seq<int>, e: seq<int>)
    ensures a + (b + (c + d + e)) == (a + b + c) + d + e
  {
  }

  /** Rewriting one segment rewrites one stretch of the ring. */
  lemma RingUpdate(nb: nat, segs: seq<seq<int>>, i: nat, s: seq<int>)
    requires i < |segs|
    ensures RingOf(nb, segs[i := s]) == Before(nb, segs, i) + s + After(nb, segs, i)
    ensures RingOf(nb, segs) == Before(nb, segs, i) + segs[i] + After(nb, segs, i)
  {
    var t := segs[i := s];
    BodySplit(segs, nb, i);
    BodySplit(t, nb, i);
    assert t[..i] == segs[..i] && t[i + 1..] == segs[i + 1..];
    Regroup([nb + |segs|], Body(segs[..i], nb), [nb + i], segs[i], After(nb, segs, i));
    Regroup([nb + |segs|], Body(segs[..i], nb), [nb + i], s, After(nb, segs, i));
  }

  lemma {:induction false} BodyMembers(segs: seq<seq<int>>, ap: nat, x: int)
    ensures x in Body(segs, ap) <==> ap <= x < ap + |segs| || IsBlock(segs, x)
  {
    if segs != [] {
      BodyMembers(segs[1..], ap + 1, x);
      assert IsBlock(segs, x) <==> x in segs[0] || IsBlock(segs[1..], x) by {
        if IsBlock(segs, x) && x !in segs[0] {
          var i :| InSeg(segs, i, x);
          assert InSeg(segs[1..], i - 1, x);
        }
        if IsBlock(segs[1..], x) {
          var i :| InSeg(segs[1..], i, x);
          assert InSeg(segs, i + 1, x);
        }
        if x in segs[0] {
          assert InSeg(segs, 0, x);
        }
      }
    }
  }

  // ----- the operations on memory carry out the operations on views -----

  /** The active access point offers the first block of the active segment. */
  lemma OfferedIsTop(h: Heap, v: View)
    requires Linked(h, v) && CanPop(v)
    ensures IsNode(h.links, h.nb + h.pos) && Hooked(h.links, Offered(h))
    ensures Offered(h) == v.segs[v.pos][0] < h.nb
  {
    var ring := RingOf(h.nb, v.segs);
    var k := |Before(h.nb, v.segs, v.pos)|;
    RingUpdate(h.nb, v.segs, v.pos, v.segs[v.pos]);
    assert ring[k - 1] == h.nb + v.pos && ring[k] == v.segs[v.pos][0];
    Neighbours(h.links, ring, k - 1);
    Neighbours(h.links, ring, k);
    assert InSeg(v.segs, v.pos, v.segs[v.pos][0]);
  }

  /** ... and a sentinel when the active segment is empty. */
  lemma OfferedIsBlock(h: Heap, v: View)
    requires Linked(h, v)
    ensures IsNode(h.links, h.nb + h.pos)
    ensures 0 <= Offered(h) < h.nb <==> CanPop(v)
  {
    var ring, n := RingOf(h.nb, v.segs), |v.segs|;
    var k := |Before(h.nb, v.segs, v.pos)|;
    RingUpdate(h.nb, v.segs, v.pos, v.segs[v.pos]);
    assert ring[k - 1] == h.nb + v.pos;
    Neighbours(h.links, ring, k - 1);
    if CanPop(v) {
      OfferedIsTop(h, v);
    } else if v.pos + 1 < n {
      assert ring[k] == h.nb + v.pos + 1;
    } else {
      assert |ring| == k && ring[0] == h.nb + n;
    }
  }

  lemma UnlinkBlock(h: Heap, v: View, s: nat, j: nat)
    requires Linked(h, v) && s < |v.segs| && j < |v.segs[s]|
    ensures Hooked(h.links, v.segs[s][j]) && v.segs[s][j] < h.nb
    ensures Threads(Unlink(h.links, v.segs[s][j]), RingOf(h.nb, v.segs[s := Without(v.segs[s], j)]))
    ensures v.segs[s][j] !in RingOf(h.nb, v.segs[s := Without(v.segs[s], j)])
  {
    var ring := RingOf(h.nb, v.segs);
    var k := |Before(h.nb, v.segs, s)| + j;
    RingUpdate(h.nb, v.segs, s, Without(v.segs[s], j));
    assert ring[k] == v.segs[s][j];
    assert Without(ring, k) == RingOf(h.nb, v.segs[s := Without(v.segs[s], j)]);
    UnlinkDrops(h.links, ring, k);
    assert InSeg(v.segs, s, v.segs[s][j]);
  }

  lemma DeleteSingleRefines(h: Heap, v: View)
    requires Linked(h, v) && CanPop(v)
    ensures CanDeleteSingle(h)
    ensures Linked(DeleteSingle(h), Pop(v))
    ensures Rep(h, v) ==> Rep(DeleteSingle(h), Pop(v))
  {
    OfferedIsTop(h, v);
    UnlinkBlock(h, v, v.pos, 0);
    assert Without(v.segs[v.pos], 0) == v.segs[v.pos][1..];
    forall i, x | InSeg(Pop(v).segs, i, x)
      ensures InSeg(v.segs, i, x)
    {
    }
  }

  /** Inserting before the node behind access point `p` puts `x` first in segment `p`. */
  lemma InsertAtAccessPoint(nb: nat, l: Links, segs: seq<seq<int>>, p: nat, x: int)
    requires Threads(l, RingOf(nb, segs)) && p < |segs|
    requires IsNode(l, x) && x !in RingOf(nb, segs)
    ensures IsNode(l, nb + p) && Hooked(l, l.next[nb + p])
    ensures Threads(InsertBefore(l, l.next[nb + p], x), RingOf(nb, segs[p := [x] + segs[p]]))
  {
    var ring, before, after := RingOf(nb, segs), Before(nb, segs, p), After(nb, segs, p);
    var k := |before| - 1;
    RingUpdate(nb, segs, p, [x] + segs[p]);
    assert ring[k] == nb + p;
    assert With(ring, k, x) == before + ([x] + segs[p]) + after;
    Neighbours(l, ring, k);
    InsertBeforeIsAfter(l, ring, k, x);
    InsertAfterAdds(l, ring, k, x);
  }

  lemma InsertSingleRefines(h: Heap, v: View, x: int)
    requires Linked(h, v) && 0 <= x < h.nb && !IsBlock(v.segs, x)
    ensures CanInsert(h, x)
    ensures Linked(InsertSingle(h, x), Push(v, x))
    ensures Rep(h, v) ==> Rep(InsertSingle(h, x), Push(v, x))
  {
    var p := DecrementPos(h);
    BodyMembers(v.segs, h.nb, x);
    InsertAtAccessPoint(h.nb, h.links, v.segs, p, x);
    forall i, y | InSeg(Push(v, x).segs, i, y)
      ensures 0 <= y < h.nb && (if y == x then i == p else InSeg(v.segs, i, y))
    {
      if y != x || i != p { assert InSeg(v.segs, i, y); }
    }
  }

  lemma DeleteInsideRefines(h: Heap, v: View, j: nat)
    requires Rep(h, v) && CanPop(v) && j < |v.segs[v.pos]|
    ensures CanDelete(h, v.segs[v.pos][j])
    ensures Rep(DeleteByReference(h, v.segs[v.pos][j]), DropAt(v, v.pos, j))
  {
    UnlinkBlock(h, v, v.pos, j);
    assert InSeg(v.segs, v.pos, v.segs[v.pos][j]);
    forall i, x | InSeg(DropAt(v, v.pos, j).segs, i, x)
      ensures InSeg(v.segs, i, x)
    {
    }
  }

  /** Fields of a node outside the ring do not matter. */
  lemma PoisonKeeps(l: Links, ring: seq<int>, x: int)
    requires Threads(l, ring) && IsNode(l, x) && x !in ring
    ensures Threads(Poison(l, x), ring)
  {
    forall k | 0 <= k < |ring| ensures LinkedAt(Poison(l, x), ring, k) {
      assert LinkedAt(l, ring, k);
    }
  }

  /** Where in the ring without the top block the deleted one is. */
  lemma SplicePlace(nb: nat, v: View, s: nat, j: nat, k: nat)
    requires CanPop(v) && s < |v.segs| && s != v.pos && j < |v.segs[s]|
    requires k == |Before(nb, v.segs[v.pos := Without(v.segs[v.pos], 0)], s)| + j
    ensures var ring := RingOf(nb, v.segs[v.pos := Without(v.segs[v.pos], 0)]);
            && 1 <= k < |ring| && ring[k] == v.segs[s][j]
            && ring[k := v.segs[v.pos][0]] == RingOf(nb, DropAt(v, s, j).segs)
  {
    assert Without(v.segs[v.pos], 0) == v.segs[v.pos][1..];
    var segs := v.segs[v.pos := Without(v.segs[v.pos], 0)];
    assert segs[s] == v.segs[s];
    var ring, t := RingOf(nb, segs), segs[s][j := v.segs[v.pos][0]];
    RingUpdate(nb, segs, s, t);
    assert ring[k := v.segs[v.pos][0]] == RingOf(nb, segs[s := t]);
    assert segs[s := t] == DropAt(v, s, j).segs;
  }

  /** The two splices: `y` leaves the front of the active segment and takes the
      place of `x` in another one. */
  lemma SpliceLinks(h: Heap, v: View, s: nat, j: nat)
    requires Linked(h, v) && CanPop(v) && s < |v.segs| && s != v.pos && j < |v.segs[s]|
    ensures Hooked(h.links, v.segs[v.pos][0]) && v.segs[s][j] != v.segs[v.pos][0]
    ensures 0 <= v.segs[v.pos][0] < h.nb && 0 <= v.segs[s][j] < h.nb
    ensures var l := Unlink(h.links, v.segs[v.pos][0]);
            && Hooked(h.links, v.segs[s][j])
            && Hooked(l, v.segs[s][j])
            && Threads(Poison(Replace(l, v.segs[s][j], v.segs[v.pos][0]), v.segs[s][j]), RingOf(h.nb, DropAt(v, s, j).segs))
  {
    var x, y := v.segs[s][j], v.segs[v.pos][0];
    UnlinkBlock(h, v, s, j);
    UnlinkBlock(h, v, v.pos, 0);
    var segs := v.segs[v.pos := Without(v.segs[v.pos], 0)];
    var l, ring, k := Unlink(h.links, y), RingOf(h.nb, segs), |Before(h.nb, segs, s)| + j;
    SplicePlace(h.nb, v, s, j, k);
    ReplaceSwaps(l, ring, k, y);
    assert x !in ring[k := y];
    PoisonKeeps(Replace(l, x, y), ring[k := y], x);
  }

  lemma DeleteOutsideRefines(h: Heap, v: View, s: nat, j: nat)
    requires Rep(h, v) && CanPop(v) && s < |v.segs| && s != v.pos && j < |v.segs[s]|
    ensures CanDelete(h, v.segs[s][j])
    ensures Rep(DeleteByReference(h, v.segs[s][j]), DropAt(v, s, j))
  {
    SpliceLinks(h, v, s, j);
    OfferedIsTop(h, v);
    UnlinkBlock(h, v, v.pos, 0);
    var x, y := v.segs[s][j], v.segs[v.pos][0];
    assert InSeg(v.segs, s, x);
    var segs := v.segs[v.pos := Without(v.segs[v.pos], 0)];
    BodyMembers(segs, h.nb, y);
    var w := DropAt(v, s, j);
    forall i, z | InSeg(w.segs, i, z)
      ensures if z == y then i == s else InSeg(v.segs, i, z)
    {
      if z == y && i != s { assert InSeg(segs, i, y); }
    }
  }
}
