/** The plain free list of `ll.c`: one ring behind a head, used as a stack. */
module Ll {
  import opened Ring
  import opened Requests
  import opened Startup
  import opened Traces

  class PlainList {
    const nb: nat  // N_BLOCKS; the head is node `nb`
    const next: array<int>
    const prev: array<int>
    const value: array<int>
    ghost var blocks: seq<int>

    ghost predicate Laid()
      reads this
    {
      && next.Length == prev.Length == value.Length == nb + 1
      && next != prev && next != value && prev != value
    }

    function LinkFields(): Links
      reads next, prev
    {
      Links(next[..], prev[..])
    }

    /** The ring is the head followed by `blocks`. */
    ghost predicate Valid()
      reads this, next, prev
    {
      && Laid()
      && Threads(LinkFields(), [nb] + blocks)
      && forall k :: 0 <= k < |blocks| ==> 0 <= blocks[k] < nb
    }

    constructor (nb: nat)
      ensures Laid() && this.nb == nb
      ensures fresh(next) && fresh(prev) && fresh(value)
    {
      this.nb := nb;
      next := new int[nb + 1];
      prev := new int[nb + 1];
      value := new int[nb + 1];
    }

    /** Start-up: a map that names a block twice is refused. */
    method Load(rows: seq<int>) returns (ok: bool)
      requires Laid() && forall k :: 0 <= k < |rows| ==> 0 <= rows[k] < nb
      modifies this, next, prev, value
      ensures Laid() && (ok <==> Distinct(rows))
      ensures ok ==> Valid() && blocks == rows && forall k :: 0 <= k < |rows| ==> value[rows[k]] == k
    {
      Startup.LinkRows(next, prev, value, nb, rows);
      ok := Startup.CheckRows(next, value, nb, rows);
      blocks := rows;
    }

    /** ll_delete_after_head; the result is the block it unlinks. */
    method DeleteAfterHead() returns (block: int)
      requires Valid() && blocks != []
      modifies this, next, prev
      ensures Valid() && old(blocks) == [block] + blocks
      ensures forall x :: 0 <= x < nb && x !in blocks ==> next[x] == old(next[x]) && prev[x] == old(prev[x])
    {
      ghost var ring := [nb] + blocks;
      DropElsewhere(LinkFields(), nb, blocks, 0);
      Neighbours(LinkFields(), ring, 0);
      UnlinkDrops(LinkFields(), ring, 1);
      assert Without(ring, 1) == [nb] + blocks[1..];
      block := next[nb];
      Ring.DeleteNode(next, prev, block);
      blocks := blocks[1..];
    }

    /** ll_insert_after_head */
    method InsertAfterHead(node: int)
      requires Valid() && 0 <= node < nb && node !in blocks
      modifies this, next, prev
      ensures Valid() && blocks == [node] + old(blocks)
      ensures forall x :: 0 <= x < nb && x !in blocks ==> next[x] == old(next[x]) && prev[x] == old(prev[x])
    {
      ghost var ring := [nb] + blocks;
      PutElsewhere(LinkFields(), nb, blocks, node);
      InsertAfterAdds(LinkFields(), ring, 0, node);
      assert With(ring, 0, node) == [nb] + ([node] + blocks);
      Ring.InsertNodeAfter(next, prev, nb, node);
      blocks := [node] + blocks;
    }

    /** ll_delete_by_reference */
    method DeleteByReference(node: int)
      requires Valid() && node in blocks
      modifies this, next, prev
      ensures Valid() && blocks == Without(old(blocks), IndexOf(old(blocks), node))
      ensures forall x :: 0 <= x < nb && x !in blocks ==> next[x] == old(next[x]) && prev[x] == old(prev[x])
    {
      DropElsewhere(LinkFields(), nb, blocks, IndexOf(blocks, node));
      ghost var ring, k := [nb] + blocks, IndexOf(blocks, node);
      assert ring[k + 1] == node;
      UnlinkDrops(LinkFields(), ring, k + 1);
      assert Without(ring, k + 1) == [nb] + Without(blocks, k);
      Ring.DeleteNode(next, prev, node);
      blocks := Without(blocks, k);
    }

    /** One 'a' line. */
    method AllocBatch(count: int) returns (taken: seq<int>)
      requires Valid() && count <= |blocks|
      modifies this, next, prev
      ensures Valid() && blocks == old(blocks)[Clip(count)..]
      ensures taken == old(blocks)[..Clip(count)] && |taken| == if count < 0 then 0 else count
    {
      taken := [];
      var i := 0;
      while i < count
        invariant 0 <= i <= Clip(count) && Valid()
        invariant |taken| == i && taken + blocks == old(blocks)
      {
        var block := DeleteAfterHead();
        taken := taken + [block];
        i := i + 1;
      }
    }

    method ServeLine(r: Request) returns (taken: seq<int>, nRequests: nat)
      requires Valid() && LlOk(nb, blocks, r)
      modifies this, next, prev
      ensures Valid() && blocks == LlServe(nb, old(blocks), r)
      ensures taken == LlTakenBy(old(blocks), r)
      ensures nRequests == Cost(r)
    {
      taken, nRequests := [], 0;
      match r
      case Alloc(count) =>
        taken := AllocBatch(count);
        nRequests := Clip(count);
      case Free(block) =>
        InsertAfterHead(block);
        nRequests := 1;
      case Delete(block) =>
        DeleteByReference(block);
        nRequests := 1;
      case Other =>
    }

    /** The request loop of `main`. */
    method Serve(trace: seq<Request>) returns (taken: seq<int>, nRequests: nat)
      requires Valid() && LlTrace(nb, blocks, trace)
      modifies this, next, prev
      ensures Valid() && blocks == LlRun(nb, old(blocks), trace)
      ensures taken == LlTaken(nb, old(blocks), trace)
      ensures nRequests == Operations(trace)
      ensures nRequests == |taken| + |FreeLines(trace)| + |DeleteLines(trace)| && |taken| == Allocated(trace)
    {
      taken, nRequests := [], 0;
      LlServingStart(nb, blocks, trace);
      var i := 0;
      while i < |trace|
        invariant 0 <= i <= |trace| && Valid()
        invariant LlServing(nb, old(blocks), trace, i, blocks, taken, nRequests)
      {
        LlServingStep(nb, old(blocks), trace, i, blocks, taken, nRequests);
        var got, done := ServeLine(trace[i]);
        taken := taken + got;
        nRequests := nRequests + done;
        i := i + 1;
      }
      assert trace[i..] == [];
      LlTakenSize(nb, old(blocks), trace);
      OperationsCounted(trace);
    }
  }

  /** An unlinked block keeps its stale fields, and no block outside the list changes. */
  lemma DropElsewhere(l: Links, nb: nat, blocks: seq<int>, k: nat)
    requires Threads(l, [nb] + blocks) && |l.next| == nb + 1 && k < |blocks|
    ensures Hooked(l, blocks[k])
    ensures forall x :: 0 <= x < nb && x !in Without(blocks, k) ==>
              Unlink(l, blocks[k]).next[x] == l.next[x] && Unlink(l, blocks[k]).prev[x] == l.prev[x]
  {
    var ring := [nb] + blocks;
    assert Without(ring, k + 1) == [nb] + Without(blocks, k);
    Neighbours(l, ring, k + 1);
    forall x | 0 <= x < nb && x !in Without(blocks, k)
      ensures Unlink(l, blocks[k]).next[x] == l.next[x] && Unlink(l, blocks[k]).prev[x] == l.prev[x]
    {
      UnlinkElsewhere(l, ring, k + 1, x);
    }
  }

  lemma PutElsewhere(l: Links, nb: nat, blocks: seq<int>, node: int)
    requires Threads(l, [nb] + blocks) && |l.next| == nb + 1 && IsNode(l, node)
    ensures Hooked(l, nb)
    ensures forall x :: 0 <= x < nb && x !in [node] + blocks ==>
              InsertAfter(l, nb, node).next[x] == l.next[x] && InsertAfter(l, nb, node).prev[x] == l.prev[x]
  {
    var ring := [nb] + blocks;
    assert With(ring, 0, node) == [nb] + ([node] + blocks);
    Neighbours(l, ring, 0);
    forall x | 0 <= x < nb && x !in [node] + blocks
      ensures InsertAfter(l, nb, node).next[x] == l.next[x] && InsertAfter(l, nb, node).prev[x] == l.prev[x]
    {
      InsertAfterElsewhere(l, ring, 0, node, x);
    }
  }
}
