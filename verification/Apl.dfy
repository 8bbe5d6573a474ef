/** The access-point free list of `apl.c` as the program runs it: node fields in
    fixed arrays, updated in place. */
module Apl {
  import opened Arithmetic
  import opened Ring
  import opened AplModel
  import opened AplElsewhere
  import opened AplOrder
  import opened AplHeap
  import opened AplInit
  import opened CountCheck
  import opened Requests
  import opened Startup
  import opened Traces

  class FreeList {
    const n: nat  // N_ACCESS_POINTS
    const nb: nat  // N_BLOCKS
    const next: array<int>
    const prev: array<int>
    const value: array<int>
    const tag: array<int>  // access_point_index
    const counts: array<int>  // access_point_counts
    var pos: nat
    ghost var view: View

    ghost predicate Laid()
      reads this
    {
      && 0 < n
      && next.Length == prev.Length == value.Length == tag.Length == nb + n + 1
      && counts.Length == n
      && next != prev && next != value && next != tag && next != counts
      && prev != value && prev != tag && prev != counts
      && value != tag && value != counts && tag != counts
    }

    function LinkFields(): Links
      reads next, prev
    {
      Links(next[..], prev[..])
    }

    function State(): Heap
      reads this, next, prev, tag, counts
    {
      Heap(nb, LinkFields(), tag[..], counts[..], pos)
    }

    ghost predicate Valid()
      reads this, next, prev, tag, counts
    {
      Laid() && |view.segs| == n && Rep(State(), view) && Good(view)
    }

    /** The ring is well formed; tags, counters and balance may not be. */
    ghost predicate Formed()
      reads this, next, prev, tag, counts
    {
      Laid() && |view.segs| == n && Linked(State(), view)
    }

    /** Fresh memory: link fields, values and tags hold arbitrary values, the
        static counters are zero. */
    constructor (n: nat, nb: nat)
      requires 0 < n
      ensures Laid() && this.n == n && this.nb == nb && pos == 0
      ensures forall i :: 0 <= i < n ==> counts[i] == 0
      ensures fresh(next) && fresh(prev) && fresh(value) && fresh(tag) && fresh(counts)
    {
      this.n := n;
      this.nb := nb;
      next := new int[nb + n + 1];
      prev := new int[nb + n + 1];
      value := new int[nb + n + 1];
      tag := new int[nb + n + 1];
      counts := new int[n](_ => 0);
      pos := 0;
    }

    // ----- start-up -----

    /** Start-up: reads the map, checks it and places the access points. A map that
        names a block twice is refused. */
    method Load(rows: seq<int>, nFree: nat) returns (ok: bool)
      requires Laid() && pos == 0 && forall i :: 0 <= i < n ==> counts[i] == 0
      requires nFree == |rows| && forall k :: 0 <= k < |rows| ==> 0 <= rows[k] < nb
      modifies this, next, prev, value, tag, counts
      ensures Laid()
      ensures ok <==> Distinct(rows)
      ensures ok ==> view == InitialView(rows, n) && Formed()
      ensures ok && |rows| % n == 0 ==> Valid()
      ensures ok ==> forall i :: 0 <= i < n ==> counts[i] == |rows| / n
      ensures ok ==> TaggedFirst(tag[..], view.segs, |rows| / n)
      ensures ok ==> Signed(nb, tag[..], value[..], rows, view.segs, nb + n)
    {
      ghost var cut, rest;
      ok, cut, rest := LinkAndPlace(rows, nFree);
      if ok {
        Settle(rows, cut, rest, |rows| / n);
      }
    }

    method LinkAndPlace(rows: seq<int>, nFree: nat)
      returns (ok: bool, ghost cut: seq<seq<int>>, ghost rest: seq<int>)
      requires Laid() && pos == 0 && forall i :: 0 <= i < n ==> counts[i] == 0
      requires nFree == |rows| && forall k :: 0 <= k < |rows| ==> 0 <= rows[k] < nb
      modifies next, prev, value, tag, counts
      ensures ok <==> Distinct(rows)
      ensures ok ==> |cut| == n && (|rows| / n == 0 ==> rest == rows)
      ensures ok ==> Cutting(rows, cut, rest, |rows| / n, n) && Placing(State(), cut, rest, |rows| / n)
      ensures ok ==> Signed(nb, tag[..], value[..], rows, cut, nb + n)
    {
      cut, rest := [], [];
      ok := LinkAndCheck(rows);
      if ok {
        cut, rest := PlaceAccessPoints(nFree / n, rows);
      }
    }

    method LinkAndCheck(rows: seq<int>) returns (ok: bool)
      requires Laid() && forall k :: 0 <= k < |rows| ==> 0 <= rows[k] < nb
      modifies next, prev, value
      ensures ok <==> Distinct(rows)
      ensures ok ==> Threads(LinkFields(), [nb + n] + rows)
      ensures ok ==> forall k :: 0 <= k < |rows| ==> value[rows[k]] == k
    {
      Startup.LinkRows(next, prev, value, nb + n, rows);
      ok := Startup.CheckRows(next, value, nb + n, rows);
    }

    ghost method Settle(rows: seq<int>, cut: seq<seq<int>>, rest: seq<int>, len: nat)
      requires Laid() && |cut| == n && len == |rows| / n && (len == 0 ==> rest == rows)
      requires Cutting(rows, cut, rest, len, n) && Placing(State(), cut, rest, len)
      requires Signed(nb, tag[..], value[..], rows, cut, nb + n)
      modifies this`view
      ensures view == InitialView(rows, n) && Formed()
      ensures |rows| % n == 0 ==> Valid()
      ensures forall i :: 0 <= i < n ==> counts[i] == len
      ensures TaggedFirst(tag[..], view.segs, len)
      ensures Signed(nb, tag[..], value[..], rows, view.segs, nb + n)
    {
      ghost var h, values := State(), value[..];
      StartedUp(h, values, rows, cut, rest, n, len);
      SetView(rows, cut, rest);
    }

    /** What the placed ring means. */
    ghost method SetView(rows: seq<int>, cut: seq<seq<int>>, rest: seq<int>)
      requires Laid() && |cut| == n
      requires Cutting(rows, cut, rest, |rows| / n, n) && Placing(State(), cut, rest, |rows| / n)
      modifies this`view
      ensures State() == old(State()) && tag[..] == old(tag[..]) && value[..] == old(value[..])
      ensures view == InitialView(rows, n) && Formed()
      ensures |rows| % n == 0 ==> Valid()
    {
      PlacingDone(State(), rows, cut, rest, n);
      view := InitialView(rows, n);
    }

    /** The loop over the access points. */
    method PlaceAccessPoints(len: nat, ghost rows: seq<int>) returns (ghost cut: seq<seq<int>>, ghost rest: seq<int>)
      requires Laid() && pos == 0 && forall i :: 0 <= i < n ==> counts[i] == 0
      requires len == |rows| / n && Distinct(rows)
      requires forall k :: 0 <= k < |rows| ==> 0 <= rows[k] < nb
      requires Threads(LinkFields(), [nb + n] + rows)
      requires forall k :: 0 <= k < |rows| ==> value[rows[k]] == k
      modifies next, prev, value, tag, counts
      ensures |cut| == n && (len == 0 ==> rest == rows)
      ensures Cutting(rows, cut, rest, len, n) && Placing(State(), cut, rest, len)
      ensures Signed(nb, tag[..], value[..], rows, cut, nb + n)
    {
      cut, rest := [], rows;
      assert PartialRing(nb, n, [], rows) == [nb + n] + rows;
      CutStart(rows, n);
      Neighbours(LinkFields(), [nb + n] + rows, 0);
      var current := next[nb + n];
      var i := 0;
      while i < n
        invariant 0 <= i <= n && |cut| == i
        invariant Cutting(rows, cut, rest, len, n)
        invariant Placing(State(), cut, rest, len)
        invariant current == if rest == [] then nb + n else rest[0]
        invariant len == 0 ==> rest == rows
        invariant Signed(nb, tag[..], value[..], rows, cut, nb + n)
      {
        CutStep(rows, cut, rest, len, n);
        current := PlaceAccessPoint(i, len, current, rows, cut, rest);
        cut, rest := cut + [rest[..len]], rest[len..];
        i := i + 1;
      }
    }

    /** One round of the loop: access point `i` goes in front of the rest. */
    method PlaceAccessPoint(i: nat, len: nat, first: int,
                            ghost rows: seq<int>, ghost cut: seq<seq<int>>, ghost rest: seq<int>)
      returns (current: int)
      requires len == 0 ==> rest == rows
      requires Laid() && |cut| == i < n && len <= |rest|
      requires Placing(State(), cut, rest, len) && Signed(nb, tag[..], value[..], rows, cut, nb + n)
      requires first == if rest == [] then nb + n else rest[0]
      modifies next, prev, value, tag, counts
      ensures Placing(State(), cut + [rest[..len]], rest[len..], len)
      ensures current == if len == |rest| then nb + n else rest[len]
      ensures Signed(nb, tag[..], value[..], rows, cut + [rest[..len]], nb + n)
    {
      ghost var g, tag0, value0 := State(), tag[..], value[..];
      current := LinkAndTag(i, len, first, cut, rest);
      SignedStep(nb, tag0, value0, tag[..], value[..], rows, cut, rest, len, nb + n);
      PlacingStep(g, State(), cut, rest, len);
    }

    method LinkAndTag(i: nat, len: nat, first: int, ghost cut: seq<seq<int>>, ghost rest: seq<int>)
      returns (current: int)
      requires Laid() && |cut| == i < n && len <= |rest| && AplModel.InRange(nb, cut)
      requires Threads(LinkFields(), PartialRing(nb, n, cut, rest))
      requires forall k :: 0 <= k < |rest| ==> 0 <= rest[k] < nb
      requires first == if rest == [] then nb + n else rest[0]
      modifies next, prev, value, tag, counts
      ensures Threads(LinkFields(), PartialRing(nb, n, cut + [rest[..len]], rest[len..]))
      ensures current == if len == |rest| then nb + n else rest[len]
      ensures forall k :: 0 <= k < len ==> tag[rest[k]] == i
      ensures forall x :: 0 <= x < nb && x !in rest[..len] ==> tag[x] == old(tag[x])
      ensures forall s :: 0 <= s < n ==> counts[s] == old(counts[s]) + if s == i then len else 0
      ensures tag[nb + i] == -(i as int) && value[nb + i] == -old(value[first])
      ensures forall x :: nb <= x < tag.Length && x != nb + i ==> tag[x] == old(tag[x])
      ensures forall x :: 0 <= x < value.Length && x != nb + i ==> value[x] == old(value[x])
    {
      PartialStep(nb, n, cut, rest, len);
      LinkAccessPoint(i, first, cut, rest);
      current := TagSegment(i, len, first, With(PartialRing(nb, n, cut, rest), |Body(cut, nb)|, nb + i), rest);
    }

    method LinkAccessPoint(i: nat, first: int, ghost cut: seq<seq<int>>, ghost rest: seq<int>)
      requires Laid() && |cut| == i < n && InRange(nb, cut)
      requires Threads(LinkFields(), PartialRing(nb, n, cut, rest))
      requires forall k :: 0 <= k < |rest| ==> 0 <= rest[k] < nb
      requires first == if rest == [] then nb + n else rest[0]
      modifies next, prev, value, tag
      ensures |Body(cut, nb)| < |PartialRing(nb, n, cut, rest)|
      ensures Threads(LinkFields(), With(PartialRing(nb, n, cut, rest), |Body(cut, nb)|, nb + i))
      ensures forall x :: 0 <= x < tag.Length && x != nb + i ==> tag[x] == old(tag[x])
      ensures tag[nb + i] == -(i as int) && value[nb + i] == -old(value[first])
      ensures forall x :: 0 <= x < value.Length && x != nb + i ==> value[x] == old(value[x])
    {
      ghost var ring, k := PartialRing(nb, n, cut, rest), |Body(cut, nb)|;
      NotYetIn(nb, n, cut, rest);
      assert k + 1 < |ring| ==> ring[k + 1] == rest[0];
      InsertBeforeIsAfter(LinkFields(), ring, k, nb + i);
      InsertAfterAdds(LinkFields(), ring, k, nb + i);
      Ring.InsertNodeBefore(next, prev, first, nb + i);
      value[nb + i] := -value[first];
      var index: int := i;
      tag[nb + i] := -index;
    }

    /** The inner loop: tags and counts the next `len` blocks. */
    method TagSegment(i: nat, len: nat, first: int, ghost ring: seq<int>, ghost rest: seq<int>) returns (current: int)
      requires Laid() && i < n && Threads(LinkFields(), ring)
      requires len <= |rest| < |ring| && ring[|ring| - |rest|..] == rest
      requires forall k :: 0 <= k < |rest| ==> 0 <= rest[k] < nb
      requires first == if rest == [] then ring[0] else rest[0]
      modifies tag, counts
      ensures current == if len == |rest| then ring[0] else rest[len]
      ensures forall k :: 0 <= k < len ==> tag[rest[k]] == i
      ensures forall x :: 0 <= x < tag.Length && x !in rest[..len] ==> tag[x] == old(tag[x])
      ensures forall x :: nb <= x < tag.Length ==> tag[x] == old(tag[x])
      ensures forall s :: 0 <= s < n ==> counts[s] == old(counts[s]) + if s == i then len else 0
    {
      current := first;
      var j := 0;
      while j < len
        invariant 0 <= j <= len
        invariant current == if j == |rest| then ring[0] else rest[j]
        invariant forall k :: 0 <= k < j ==> tag[rest[k]] == i
        invariant forall x :: 0 <= x < tag.Length && x !in rest[..j] ==> tag[x] == old(tag[x])
        invariant forall x :: nb <= x < tag.Length ==> tag[x] == old(tag[x])
        invariant forall s :: 0 <= s < n ==> counts[s] == old(counts[s]) + if s == i then j else 0
      {
        ghost var at := |ring| - |rest| + j;
        assert rest[j] == ring[at];
        Neighbours(LinkFields(), ring, at);
        assert at + 1 < |ring| ==> ring[at + 1] == ring[|ring| - |rest|..][j + 1];
        assert rest[..j + 1] == rest[..j] + [rest[j]];
        tag[current] := i;
        current := next[current];
        counts[i] := counts[i] + 1;
        j := j + 1;
      }
    }

    // ----- operations -----

    /** apl_delete_single; the result is the block it unlinks. */
    method DeleteSingle() returns (block: int)
      requires Formed() && CanPop(view)
      modifies this, next, prev, counts
      ensures Formed() && (old(Valid()) ==> Valid())
      ensures CanDeleteSingle(old(State())) && State() == AplModel.DeleteSingle(old(State()))
      ensures view == Pop(old(view)) && block == old(view).segs[old(view).pos][0]
      ensures old(Valid()) ==> Stack(old(view)) == [block] + Stack(view)
      ensures forall x :: 0 <= x < nb && !IsBlock(view.segs, x) ==> next[x] == old(next[x]) && prev[x] == old(prev[x])
    {
      ghost var h := State();
      SingleElsewhere(h, view);
      DeleteSingleRefines(h, view);
      OfferedIsTop(h, view);
      if Valid() { PopIsTail(view); }
      var node := next[nb + pos];
      Ring.DeleteNode(next, prev, node);
      counts[pos] := counts[pos] - 1;
      pos := (pos + 1) % n;
      view := Pop(view);
      block := node;
      assert State() == AplModel.DeleteSingle(h);
    }

    /** apl_insert_single */
    method InsertSingle(node: int)
      requires Formed() && 0 <= node < nb && !IsBlock(view.segs, node)
      modifies this, next, prev, tag, counts
      ensures Formed() && (old(Valid()) ==> Valid())
      ensures CanInsert(old(State()), node) && State() == AplModel.InsertSingle(old(State()), node)
      ensures view == Push(old(view), node)
      ensures old(Valid()) ==> Stack(view) == [node] + Stack(old(view))
      ensures forall x :: 0 <= x < nb && !IsBlock(view.segs, x) ==> next[x] == old(next[x]) && prev[x] == old(prev[x])
      ensures forall x :: 0 <= x < tag.Length && x != node ==> tag[x] == old(tag[x])
    {
      ghost var h := State();
      InsertElsewhere(h, view, node);
      InsertSingleRefines(h, view, node);
      if Valid() { PushGood(view, node); }
      pos := (pos - 1 + n) % n;
      var insertBefore := next[nb + pos];
      Ring.InsertNodeBefore(next, prev, insertBefore, node);
      tag[node] := pos;
      counts[pos] := counts[pos] + 1;
      view := Push(view, node);
      assert State() == AplModel.InsertSingle(h, node);
    }

    /** The rebalancing move: the first block of the active segment takes the place
        and the tag of `node`. */
    method MoveRebalancingNode(node: int)
      requires Laid() && CanDelete(State(), node) && tag[node] != pos
      requires 0 <= Offered(State()) < nb && Offered(State()) != node
      modifies next, prev, tag
      ensures LinkFields() == Replace(Unlink(old(LinkFields()), old(Offered(State()))), node, old(Offered(State())))
      ensures tag[..] == old(tag[..])[old(Offered(State())) := old(tag[node])]
    {
      var rebalancing := next[nb + pos];
      Ring.DeleteNode(next, prev, rebalancing);
      Ring.ReplaceNode(next, prev, node, rebalancing);
      tag[rebalancing] := tag[node];
    }

    /** apl_delete_by_reference */
    method DeleteByReference(node: int)
      requires Valid() && IsBlock(view.segs, node)
      modifies this, next, prev, tag, counts
      ensures Valid()
      ensures CanDelete(old(State()), node)
      ensures State() == AplModel.DeleteByReference(old(State()), node)
      ensures view == Remove(old(view), node)
      ensures FreeSet(view) == FreeSet(old(view)) - {node}
      ensures old(node in view.segs[view.pos]) ==> next[node] == old(next[node]) && prev[node] == old(prev[node])
      ensures old(node !in view.segs[view.pos]) ==> next[node] == prev[node] == NULL && !IsNode(LinkFields(), NULL)
      ensures forall x :: 0 <= x < nb && x != node && !IsBlock(view.segs, x) ==>
                next[x] == old(next[x]) && prev[x] == old(prev[x])
      ensures forall x :: 0 <= x < tag.Length && x != old(next[nb + pos]) ==> tag[x] == old(tag[x])
      ensures old(node in view.segs[view.pos]) ==> tag[..] == old(tag[..])
    {
      RemoveRefines(State(), view, node);
      RemoveElsewhere(State(), view, node);
      RunDelete(node);
      view := Remove(view, node);
    }

    /** Its body, as far as it changes memory. */
    method RunDelete(node: int)
      requires Laid() && pos < n && CanDelete(State(), node)
      requires tag[node] != pos ==> 0 <= Offered(State()) < nb && Offered(State()) != node
      modifies this`pos, next, prev, tag, counts
      ensures State() == AplModel.DeleteByReference(old(State()), node)
    {
      ghost var h := State();
      counts[pos] := counts[pos] - 1;
      if tag[node] == pos {
        Ring.DeleteNode(next, prev, node);
        pos := (pos + 1) % n;
      } else {
        MoveRebalancingNode(node);
        pos := (pos + 1) % n;
        next[node] := NULL;
        prev[node] := NULL;
        assert LinkFields() == AplModel.DeleteByReference(h, node).links;
      }
      assert counts[..] == h.counts[h.pos := h.counts[h.pos] - 1];
    }

    /** One 'a' line without AMAC: a plain loop of single deletes. */
    method AllocBatch(count: int) returns (taken: seq<int>)
      requires Valid() && count <= Size(view)
      modifies this, next, prev, counts
      ensures Valid() && view == PopMany(old(view), Clip(count))
      ensures taken == Tops(old(view), Clip(count)) && |taken| == if count < 0 then 0 else count
    {
      ghost var v := view;
      taken := [];
      var i := 0;
      while i < count
        invariant 0 <= i <= Clip(count) && Valid()
        invariant view == PopMany(v, i) && taken == Tops(v, i)
      {
        OneMore(v, i);
        var block := DeleteSingle();
        taken := taken + [block];
        i := i + 1;
      }
      assert i == Clip(count);
    }

    /** One line of the request file. */
    method ServeLine(r: Request) returns (taken: seq<int>, nRequests: nat)
      requires Valid() && Ok(nb, view, r)
      modifies this, next, prev, tag, counts
      ensures Valid() && view == Traces.Serve(nb, old(view), r)
      ensures taken == TakenBy(old(view), nb, r)
      ensures nRequests == Cost(r)
    {
      taken, nRequests := [], 0;
      match r
      case Alloc(count) =>
        taken := AllocBatch(count);
        nRequests := Clip(count);
      case Free(block) =>
        InsertSingle(block);
        nRequests := 1;
      case Delete(block) =>
        DeleteByReference(block);
        nRequests := 1;
      case Other =>
    }

    /** The request loop of `main`. */
    method Serve(trace: seq<Request>) returns (taken: seq<int>, nRequests: nat)
      requires Valid() && Trace(nb, view, trace)
      modifies this, next, prev, tag, counts
      ensures Valid() && view == Run(nb, old(view), trace)
      ensures taken == Taken(nb, old(view), trace)
      ensures nRequests == Operations(trace)
      ensures nRequests == |taken| + |FreeLines(trace)| + |DeleteLines(trace)| && |taken| == Allocated(trace)
    {
      taken, nRequests := [], 0;
      ServingStart(nb, view, trace);
      var i := 0;
      while i < |trace|
        invariant 0 <= i <= |trace| && Valid()
        invariant Serving(nb, old(view), trace, i, view, taken, nRequests)
      {
        ServingStep(nb, old(view), trace, i, view, taken, nRequests);
        var blocks, done := ServeLine(trace[i]);
        taken := taken + blocks;
        nRequests := nRequests + done;
        i := i + 1;
      }
      assert trace[i..] == [];
      TakenSize(nb, old(view), trace);
      OperationsCounted(trace);
    }

    /** apl_count_nodes: walks every segment from its access point to the next. */
    method CountNodes() returns (lengths: seq<int>, imbalance: bool)
      requires Formed()
      ensures |lengths| == n && forall i :: 0 <= i < n ==> lengths[i] == |view.segs[i]|
      ensures imbalance == Reported(lengths)
      ensures Balanced(view) && nb <= 0x7fff_ffff ==> !imbalance
    {
      ghost var ring := RingOf(nb, view.segs);
      var max, min := INT_MIN, INT_MAX;
      lengths := [];
      var i := 0;
      while i < n
        invariant 0 <= i <= n && |lengths| == i
        invariant forall k :: 0 <= k < i ==> lengths[k] == |view.segs[k]|
        invariant ScanOf(lengths) == Scan(max, min)
      {
        var count := CountSegment(i, ring);
        if count > max {
          max := count;
        } else if count < min {
          min := count;
        }
        assert (lengths + [count])[..i] == lengths;
        lengths := lengths + [count];
        i := i + 1;
      }
      imbalance := max - min > 1;
      if Balanced(view) && nb <= 0x7fff_ffff {
        SizeFits(State(), view);
        BalancedNotReported(view, lengths);
      }
    }

    /** The inner loop of apl_count_nodes. */
    method CountSegment(i: nat, ghost ring: seq<int>) returns (count: nat)
      requires Formed()
      requires i < n && ring == RingOf(nb, view.segs)
      ensures count == |view.segs[i]|
    {
      ghost var l, len, at := LinkFields(), |view.segs[i]|, |Before(nb, view.segs, i)|;
      Spots(nb, view.segs, i);
      assert l.next[nb + i] == Spot(ring, at) by { SpotStep(l, ring, at - 1); }
      var current := next[nb + i];
      var target := nb + (i + 1) % n;
      count := 0;
      ghost var t := 0;
      while current != target
        invariant 0 <= t <= len + 1 && (t == len + 1 ==> i == n - 1)
        invariant count == if t <= len then t else len
        invariant current == Spot(ring, at + t)
        decreases len + 1 - t
      {
        SpotStep(l, ring, at + t);
        SpotKind(nb, view.segs, i, t);
        if current != nb + n {
          count := count + 1;
        }
        current := next[current];
        t := t + 1;
      }
      if t < len { SpotKind(nb, view.segs, i, t); }
    }
  }

  /** Position `k` of the ring, going round once more behind its end. */
  function Spot(ring: seq<int>, k: nat): int
    requires k < 2 * |ring|
  {
    if k < |ring| then ring[k] else ring[k - |ring|]
  }

  lemma SpotStep(l: Links, ring: seq<int>, k: nat)
    requires Threads(l, ring) && k + 1 < 2 * |ring|
    ensures IsNode(l, Spot(ring, k)) && l.next[Spot(ring, k)] == Spot(ring, k + 1)
  {
    Neighbours(l, ring, if k < |ring| then k else k - |ring|);
  }

  /** Segment `i` lies behind its access point, and the next access point behind
      the segment; behind the last segment the head comes first. */
  lemma Spots(nb: nat, segs: seq<seq<int>>, i: nat)
    requires i < |segs|
    ensures var ring, at := RingOf(nb, segs), |Before(nb, segs, i)|;
            && 2 <= at && at + |segs[i]| <= |ring|
            && ring[at - 1] == nb + i && ring[at..at + |segs[i]|] == segs[i]
            && ring[0] == nb + |segs| && ring[1] == nb
  {
    RingUpdate(nb, segs, i, segs[i]);
  }

  lemma SpotKind(nb: nat, segs: seq<seq<int>>, i: nat, t: nat)
    requires i < |segs| && InRange(nb, segs) && t <= |segs[i]| + 1 && (t == |segs[i]| + 1 ==> i == |segs| - 1)
    ensures var ring, at, target := RingOf(nb, segs), |Before(nb, segs, i)|, nb + (i + 1) % |segs|;
            && at + t < 2 * |ring|
            && (t < |segs[i]| ==> Spot(ring, at + t) < nb)
            && (t == |segs[i]| ==> Spot(ring, at + t) == if i + 1 < |segs| then target else nb + |segs|)
            && (t == |segs[i]| + 1 ==> Spot(ring, at + t) == target)
  {
    Spots(nb, segs, i);
    NextAccessPoint(nb, segs, i);
    if t < |segs[i]| {
      var ring, at := RingOf(nb, segs), |Before(nb, segs, i)|;
      assert ring[at..at + |segs[i]|][t] == ring[at + t];
      assert InSeg(segs, i, ring[at + t]);
    }
  }

  /** Behind segment `i` comes the next access point; behind the last one the ring
      ends, and the first access point follows the head. */
  lemma NextAccessPoint(nb: nat, segs: seq<seq<int>>, i: nat)
    requires i < |segs|
    ensures var ring, end := RingOf(nb, segs), |Before(nb, segs, i)| + |segs[i]|;
            if i + 1 < |segs| then end < |ring| && ring[end] == nb + (i + 1) % |segs|
            else end == |ring| && nb + (i + 1) % |segs| == nb
  {
    RingUpdate(nb, segs, i, segs[i]);
    if i + 1 < |segs| {
      DivModUnique(i + 1, |segs|, 0, i + 1);
      assert After(nb, segs, i)[0] == nb + i + 1;
    } else {
      DivModUnique(i + 1, |segs|, 1, 0);
    }
  }

  lemma {:induction false} SegmentFits(segs: seq<seq<int>>, i: nat)
    requires i < |segs|
    ensures |segs[i]| <= Total(segs)
  {
    if i > 0 { SegmentFits(segs[1..], i - 1); }
  }

  /** A balanced list never raises the alarm. */
  lemma BalancedNotReported(v: View, lengths: seq<int>)
    requires Balanced(v) && |lengths| == |v.segs| && Size(v) <= 0x7fff_ffff
    requires forall i :: 0 <= i < |lengths| ==> lengths[i] == |v.segs[i]|
    ensures !Reported(lengths)
  {
    SizeIsTotal(v);
    forall i | 0 <= i < |lengths|
      ensures 0 <= lengths[i] <= 0x7fff_ffff
    {
      SegmentFits(v.segs, i);
    }
    ReportExact(lengths);
  }

  lemma NotYetIn(nb: nat, n: nat, cut: seq<seq<int>>, rest: seq<int>)
    requires |cut| < n && InRange(nb, cut) && forall k :: 0 <= k < |rest| ==> 0 <= rest[k] < nb
    ensures nb + |cut| !in PartialRing(nb, n, cut, rest)
  {
    BodyMembers(cut, nb, nb + |cut|);
  }

  /** A delete by reference in memory removes the block from the view. */
  lemma RemoveRefines(h: Heap, v: View, x: int)
    requires Rep(h, v) && Good(v) && IsBlock(v.segs, x)
    ensures CanDelete(h, x) && 0 <= x < h.nb
    ensures h.tag[x] != h.pos ==> 0 <= Offered(h) < h.nb && Offered(h) != x
    ensures Rep(AplModel.DeleteByReference(h, x), Remove(v, x))
  {
    var s, j := RemoveIsDrop(v, x);
    DropRefines(h, v, s, j);
  }

  lemma RemoveIsDrop(v: View, x: int) returns (s: nat, j: nat)
    requires Good(v) && IsBlock(v.segs, x)
    ensures CanPop(v) && s < |v.segs| && j < |v.segs[s]| && v.segs[s][j] == x
    ensures Remove(v, x) == DropAt(v, s, j)
  {
    StackMembers(v, x);
    var m := IndexOf(Stack(v), x);
    SizeIsTotal(v);
    StackSlot(v, m);
    s, j := (v.pos + m) % |v.segs|, m / |v.segs|;
  }

  lemma DropRefines(h: Heap, v: View, s: nat, j: nat)
    requires Rep(h, v) && CanPop(v) && s < |v.segs| && j < |v.segs[s]|
    ensures CanDelete(h, v.segs[s][j]) && 0 <= v.segs[s][j] < h.nb
    ensures h.tag[v.segs[s][j]] != h.pos ==> 0 <= Offered(h) < h.nb && Offered(h) != v.segs[s][j]
    ensures Rep(AplModel.DeleteByReference(h, v.segs[s][j]), DropAt(v, s, j))
  {
    assert InSeg(v.segs, s, v.segs[s][j]);
    OfferedIsTop(h, v);
    assert InSeg(v.segs, v.pos, v.segs[v.pos][0]);
    if s == v.pos {
      DeleteInsideRefines(h, v, j);
    } else {
      DeleteOutsideRefines(h, v, s, j);
    }
  }

  // ----- what the operations leave alone -----

  lemma SingleElsewhere(h: Heap, v: View)
    requires Linked(h, v) && CanPop(v)
    ensures CanDeleteSingle(h)
    ensures forall x :: 0 <= x < h.nb && !IsBlock(Pop(v).segs, x) ==>
              SameFields(h.links, AplModel.DeleteSingle(h).links, x)
  {
    DeleteSingleRefines(h, v);
    forall x | 0 <= x < h.nb && !IsBlock(Pop(v).segs, x)
      ensures SameFields(h.links, AplModel.DeleteSingle(h).links, x)
    {
      DeleteSingleElsewhere(h, v, x);
    }
  }

  lemma InsertElsewhere(h: Heap, v: View, node: int)
    requires Linked(h, v) && 0 <= node < h.nb && !IsBlock(v.segs, node)
    ensures CanInsert(h, node)
    ensures forall x :: 0 <= x < h.nb && !IsBlock(Push(v, node).segs, x) ==>
              SameFields(h.links, AplModel.InsertSingle(h, node).links, x)
  {
    InsertSingleRefines(h, v, node);
    forall x | 0 <= x < h.nb && !IsBlock(Push(v, node).segs, x)
      ensures SameFields(h.links, AplModel.InsertSingle(h, node).links, x)
    {
      InsertSingleElsewhere(h, v, node, x);
    }
  }

  /** Which fields a delete by reference leaves alone: those of every node outside
      the ring, except of a block deleted outside the active segment. */
  lemma RemoveElsewhere(h: Heap, v: View, node: int)
    requires Rep(h, v) && Good(v) && IsBlock(v.segs, node)
    ensures CanDelete(h, node) && v.pos < |v.segs| && IsNode(h.links, node)
    ensures node in v.segs[v.pos] <==> h.tag[node] == h.pos
    ensures node in v.segs[v.pos] ==> SameFields(h.links, AplModel.DeleteByReference(h, node).links, node)
    ensures forall x :: 0 <= x < h.nb && x != node && !IsBlock(Remove(v, node).segs, x) ==>
              SameFields(h.links, AplModel.DeleteByReference(h, node).links, x)
  {
    RemoveRefines(h, v, node);
    var s, j := RemoveIsDrop(v, node);
    assert InSeg(v.segs, s, node);
    assert node in v.segs[v.pos] ==> InSeg(v.segs, v.pos, node);
    if s == v.pos {
      StackMembers(Remove(v, node), node);
      assert node !in FreeSet(Remove(v, node));
      DeleteInsideElsewhere(h, v, j, node);
    }
    forall x | 0 <= x < h.nb && x != node && !IsBlock(Remove(v, node).segs, x)
      ensures SameFields(h.links, AplModel.DeleteByReference(h, node).links, x)
    {
      if s == v.pos {
        DeleteInsideElsewhere(h, v, j, x);
      } else {
        DeleteOutsideElsewhere(h, v, s, j, x);
      }
    }
  }
}
