/** What the operations of the access-point list leave alone: the link fields of the
    nodes outside the ring. */
module AplElsewhere {
  import opened Ring
  import opened AplModel

  /** The link fields of node `x` have not changed. */
  predicate SameFields(l: Links, m: Links, x: int) {
    IsNode(l, x) && IsNode(m, x) && m.next[x] == l.next[x] && m.prev[x] == l.prev[x]
  }

  lemma UnlinkBlockElsewhere(h: Heap, v: View, s: nat, j: nat, y: int)
    requires Linked(h, v) && s < |v.segs| && j < |v.segs[s]|
    requires 0 <= y < h.nb && !IsBlock(v.segs[s := Without(v.segs[s], j)], y)
    ensures Hooked(h.links, v.segs[s][j]) && SameFields(h.links, Unlink(h.links, v.segs[s][j]), y)
  {
    var segs := v.segs[s := Without(v.segs[s], j)];
    var ring, k := RingOf(h.nb, v.segs), |Before(h.nb, v.segs, s)| + j;
    RingUpdate(h.nb, v.segs, s, Without(v.segs[s], j));
    assert ring[k] == v.segs[s][j] && Without(ring, k) == RingOf(h.nb, segs);
    BodyMembers(segs, h.nb, y);
    UnlinkElsewhere(h.links, ring, k, y);
  }

  /** A single delete leaves the unlinked block its stale fields, and changes no other
      node outside the ring. */
  lemma DeleteSingleElsewhere(h: Heap, v: View, y: int)
    requires Linked(h, v) && CanPop(v) && 0 <= y < h.nb && !IsBlock(Pop(v).segs, y)
    ensures CanDeleteSingle(h) && SameFields(h.links, DeleteSingle(h).links, y)
  {
    OfferedIsTop(h, v);
    assert Without(v.segs[v.pos], 0) == v.segs[v.pos][1..];
    UnlinkBlockElsewhere(h, v, v.pos, 0, y);
  }

  lemma InsertSingleElsewhere(h: Heap, v: View, x: int, y: int)
    requires Linked(h, v) && 0 <= x < h.nb && !IsBlock(v.segs, x)
    requires 0 <= y < h.nb && !IsBlock(Push(v, x).segs, y)
    ensures CanInsert(h, x) && SameFields(h.links, InsertSingle(h, x).links, y)
  {
    var p := DecrementPos(h);
    InsertSingleRefines(h, v, x);
    BodyMembers(v.segs, h.nb, x);
    BodyMembers(Push(v, x).segs, h.nb, y);
    InsertAtElsewhere(h.nb, h.links, v.segs, p, x, y);
  }

  lemma InsertAtElsewhere(nb: nat, l: Links, segs: seq<seq<int>>, p: nat, x: int, y: int)
    requires Threads(l, RingOf(nb, segs)) && p < |segs|
    requires IsNode(l, x) && x !in RingOf(nb, segs)
    requires IsNode(l, y) && y !in RingOf(nb, segs[p := [x] + segs[p]])
    ensures IsNode(l, nb + p) && Hooked(l, l.next[nb + p])
    ensures SameFields(l, InsertBefore(l, l.next[nb + p], x), y)
  {
    var ring, before, after := RingOf(nb, segs), Before(nb, segs, p), After(nb, segs, p);
    var k := |before| - 1;
    RingUpdate(nb, segs, p, [x] + segs[p]);
    assert ring[k] == nb + p;
    assert With(ring, k, x) == before + ([x] + segs[p]) + after;
    Neighbours(l, ring, k);
    InsertBeforeIsAfter(l, ring, k, x);
    InsertAfterElsewhere(l, ring, k, x, y);
  }

  /** Inside the active segment a delete by reference leaves the block its stale fields. */
  lemma DeleteInsideElsewhere(h: Heap, v: View, j: nat, y: int)
    requires Rep(h, v) && CanPop(v) && j < |v.segs[v.pos]|
    requires 0 <= y < h.nb && !IsBlock(DropAt(v, v.pos, j).segs, y)
    ensures CanDelete(h, v.segs[v.pos][j])
    ensures SameFields(h.links, DeleteByReference(h, v.segs[v.pos][j]).links, y)
  {
    DeleteInsideRefines(h, v, j);
    assert InSeg(v.segs, v.pos, v.segs[v.pos][j]);
    UnlinkBlockElsewhere(h, v, v.pos, j, y);
  }

  /** Elsewhere the block gets NULL in both, and no other node outside the ring changes. */
  lemma DeleteOutsideElsewhere(h: Heap, v: View, s: nat, j: nat, y: int)
    requires Rep(h, v) && CanPop(v) && s < |v.segs| && s != v.pos && j < |v.segs[s]|
    requires 0 <= y < h.nb && !IsBlock(DropAt(v, s, j).segs, y)
    ensures CanDelete(h, v.segs[s][j])
    ensures var x, l := v.segs[s][j], DeleteByReference(h, v.segs[s][j]).links;
            if y == x then IsNode(l, y) && l.next[y] == l.prev[y] == NULL else SameFields(h.links, l, y)
  {
    DeleteOutsideRefines(h, v, s, j);
    OfferedIsTop(h, v);
    var x := v.segs[s][j];
    assert InSeg(v.segs, s, x);
    assert DeleteByReference(h, x).links == Poison(Replace(Unlink(h.links, Offered(h)), x, Offered(h)), x);
    if y != x { SpliceElsewhere(h, v, s, j, y); }
  }

  lemma SpliceElsewhere(h: Heap, v: View, s: nat, j: nat, z: int)
    requires Linked(h, v) && CanPop(v) && s < |v.segs| && s != v.pos && j < |v.segs[s]|
    requires 0 <= z < h.nb && !IsBlock(DropAt(v, s, j).segs, z) && z != v.segs[s][j]
    ensures Hooked(h.links, v.segs[v.pos][0]) && 0 <= v.segs[v.pos][0] < h.nb && 0 <= v.segs[s][j] < h.nb
    ensures var l := Unlink(h.links, v.segs[v.pos][0]);
            Hooked(l, v.segs[s][j]) && SameFields(h.links, Replace(l, v.segs[s][j], v.segs[v.pos][0]), z)
  {
    var x, y := v.segs[s][j], v.segs[v.pos][0];
    SpliceLinks(h, v, s, j);
    UnlinkBlock(h, v, v.pos, 0);
    var segs := v.segs[v.pos := Without(v.segs[v.pos], 0)];
    var l, ring, k := Unlink(h.links, y), RingOf(h.nb, segs), |Before(h.nb, segs, s)| + j;
    SplicePlace(h.nb, v, s, j, k);
    BodyMembers(DropAt(v, s, j).segs, h.nb, z);
    ReplaceElsewhere(l, ring, k, y, z);
    if IsBlock(segs, z) { StaysBlock(v, s, j, z); }
    UnlinkBlockElsewhere(h, v, v.pos, 0, z);
  }

  lemma StaysBlock(v: View, s: nat, j: nat, z: int)
    requires CanPop(v) && s < |v.segs| && s != v.pos && j < |v.segs[s]|
    requires IsBlock(v.segs[v.pos := Without(v.segs[v.pos], 0)], z) && z != v.segs[s][j]
    ensures IsBlock(DropAt(v, s, j).segs, z)
  {
    var segs, after := v.segs[v.pos := Without(v.segs[v.pos], 0)], DropAt(v, s, j).segs;
    var i :| InSeg(segs, i, z);
    var m :| 0 <= m < |segs[i]| && segs[i][m] == z;
    assert after[i][m] == z;
    assert InSeg(after, i, z);
  }
}
