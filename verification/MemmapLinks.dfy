/** What the memory map sweep links every page to, in terms of ranges and zones. */
module MemmapLinks {
  import opened Arithmetic
  import opened MemmapInit
  import opened MemmapCoverage

  // ----- pieces and pages -----

  lemma {:induction false} PieceAt(pieces: seq<Piece>, p: nat) returns (q: Piece)
    requires InPiece(pieces, p)
    ensures q in pieces && q.start <= p < q.end
  {
    if pieces[0].start <= p < pieces[0].end {
      q := pieces[0];
    } else {
      q := PieceAt(pieces[1..], p);
    }
  }

  lemma {:induction false} OwnerOfPiece(hole: nat, pieces: seq<Piece>, zone: int, node: int, q: Piece, p: nat)
    requires Ascending(hole, pieces) && q in pieces && q.start <= p < q.end
    ensures InPiece(pieces, p) && Owner(pieces, zone, node, p) == (q.zone, q.node)
    decreases |pieces|
  {
    if q != pieces[0] {
      assert q in pieces[1..];
      OwnerOfPiece(pieces[0].end, pieces[1..], zone, node, q, p);
      AscendingBounds(pieces[0].end, pieces[1..], p);
    }
  }

  lemma {:induction false} LastInPiece(hole: nat, pieces: seq<Piece>)
    requires Ascending(hole, pieces) && pieces != []
    ensures 0 < HoleAfter(hole, pieces) && InPiece(pieces, HoleAfter(hole, pieces) - 1)
    decreases |pieces|
  {
    if |pieces| > 1 {
      LastInPiece(pieces[0].end, pieces[1..]);
      assert HoleAfter(hole, pieces) == HoleAfter(pieces[0].end, pieces[1..]);
    }
  }

  /** A page of a hole belongs to the owner of the next page above that is in a piece. */
  lemma {:induction false} OwnerInHole(hole: nat, pieces: seq<Piece>, zone: int, node: int, p: nat, q: nat)
    requires Ascending(hole, pieces) && InPiece(pieces, q) && p < q
    requires forall m: nat :: p <= m < q ==> !InPiece(pieces, m)
    ensures Owner(pieces, zone, node, p) == Owner(pieces, zone, node, q)
    decreases |pieces|
  {
    var first := pieces[0];
    AscendingBounds(first.end, pieces[1..], q);
    if p < first.end {
      assert !InPiece(pieces, p);
      if first.end <= q { assert InPiece(pieces, first.start); }
    } else {
      forall m: nat | p <= m < q
        ensures !InPiece(pieces[1..], m)
      {
        assert !InPiece(pieces, m);
      }
      OwnerInHole(first.end, pieces[1..], zone, node, p, q);
    }
  }

  // ----- pieces, ranges and zones -----

  lemma {:induction false} ZonePiecesHave(zones: seq<Zone>, r: MemRange, k: nat, j: nat, p: nat) returns (q: Piece)
    requires k <= j < |zones| && InZone(zones[j], p) && r.start <= p < r.end
    ensures q in ZonePieces(zones, r, k) && q.start <= p < q.end && q.zone == j && q.node == r.nid
    decreases |zones| - k
  {
    if k == j {
      q := ZonePiece(zones[j], r, j)[0];
    } else {
      q := ZonePiecesHave(zones, r, k + 1, j, p);
    }
  }

  lemma {:induction false} PiecesHave(c: Config, ranges: seq<MemRange>, r: MemRange, j: nat, p: nat) returns (q: Piece)
    requires (forall s :: s in ranges ==> c.Describes(s)) && r in ranges && c.Describes(r)
    requires j < |c.nodes[r.nid]| && InZone(c.nodes[r.nid][j], p) && r.start <= p < r.end
    ensures q in Pieces(c, ranges) && q.start <= p < q.end && q.zone == j && q.node == r.nid
  {
    assert c.Describes(ranges[0]);
    if r == ranges[0] {
      q := ZonePiecesHave(c.nodes[r.nid], r, 0, j, p);
    } else {
      assert r in ranges[1..];
      q := PiecesHave(c, ranges[1..], r, j, p);
    }
  }

  /** A page of a range in a populated zone of that range's node belongs to them. */
  lemma OwnerOfMemory(c: Config, ranges: seq<MemRange>, zone: int, node: int, r: MemRange, j: nat, p: nat)
    requires c.Ok() && Layout(c, ranges) && r in ranges && c.Describes(r)
    requires j < |c.nodes[r.nid]| && InZone(c.nodes[r.nid][j], p) && r.start <= p < r.end
    ensures InPiece(Pieces(c, ranges), p) && Owner(Pieces(c, ranges), zone, node, p) == (j, r.nid)
  {
    PiecesAscend(c, ranges, 0);
    var q := PiecesHave(c, ranges, r, j, p);
    OwnerOfPiece(0, Pieces(c, ranges), zone, node, q, p);
  }

  // ----- the links -----

  /** A memory page is linked to its zone and node and not reserved. */
  lemma MemoryLinked(c: Config, ranges: seq<MemRange>, r: MemRange, j: nat, x: Init)
    requires c.Ok() && ranges != [] && Layout(c, ranges) && x in FullSweep(c, ranges)
    requires r in ranges && c.Describes(r) && j < |c.nodes[r.nid]|
    requires InZone(c.nodes[r.nid][j], x.pfn) && r.start <= x.pfn < r.end
    ensures x == Init(x.pfn, j, r.nid, false)
  {
    SweepAssigns(c, ranges, x);
    OwnerOfMemory(c, ranges, LastZone(c, ranges), ranges[|ranges| - 1].nid, r, j, x.pfn);
  }

  /** A page of a hole is linked to the zone and node of the nearest memory page `q`
      above it, and reserved. */
  lemma HoleLinked(c: Config, ranges: seq<MemRange>, r: MemRange, j: nat, q: nat, x: Init)
    requires c.Ok() && ranges != [] && Layout(c, ranges) && x in FullSweep(c, ranges)
    requires r in ranges && c.Describes(r) && j < |c.nodes[r.nid]|
    requires InZone(c.nodes[r.nid][j], q) && r.start <= q < r.end
    requires x.pfn < q && forall m: nat :: x.pfn <= m < q ==> !InMemory(c, ranges, m)
    ensures x == Init(x.pfn, j, r.nid, true)
  {
    var pieces, zone, node := Pieces(c, ranges), LastZone(c, ranges), ranges[|ranges| - 1].nid;
    SweepAssigns(c, ranges, x);
    PiecesAscend(c, ranges, 0);
    OwnerOfMemory(c, ranges, zone, node, r, j, q);
    forall m: nat | x.pfn <= m < q
      ensures !InPiece(pieces, m)
    {
      PiecesMembers(c, ranges, m);
      assert !InMemory(c, ranges, m);
    }
    OwnerInHole(0, pieces, zone, node, x.pfn, q);
  }

  predicate HasZone(c: Config, r: MemRange)
    requires c.Describes(r)
  {
    exists j :: 0 <= j < |c.nodes[r.nid]| && c.nodes[r.nid][j].populated
  }

  predicate TopZone(zones: seq<Zone>, j: int) {
    0 <= j < |zones| && zones[j].populated && forall k :: j < k < |zones| ==> !zones[k].populated
  }

  lemma {:induction false} LastPopulatedIs(zones: seq<Zone>, zone0: int)
    ensures if exists j :: 0 <= j < |zones| && zones[j].populated then TopZone(zones, LastPopulated(zones, zone0))
            else LastPopulated(zones, zone0) == zone0
  {
    if zones != [] {
      LastPopulatedIs(zones[..|zones| - 1], zone0);
      assert zones == zones[..|zones| - 1] + [zones[|zones| - 1]];
    }
  }

  /** Behind the last memory page, pages are linked to the highest populated zone of
      the last node that has one (zone 0 when none has), and to the last range's node. */
  lemma {:induction false} LastZoneIs(c: Config, ranges: seq<MemRange>)
    requires forall r :: r in ranges ==> c.Describes(r)
    ensures (forall r :: r in ranges ==> !HasZone(c, r)) ==> LastZone(c, ranges) == 0
    ensures forall i :: 0 <= i < |ranges| && HasZone(c, ranges[i]) &&
                        (forall k :: i < k < |ranges| ==> !HasZone(c, ranges[k])) ==>
              TopZone(c.nodes[ranges[i].nid], LastZone(c, ranges))
  {
    if ranges != [] {
      var last := |ranges| - 1;
      var init := ranges[..last];
      assert ranges == init + [ranges[last]];
      assert c.Describes(ranges[last]);
      LastZoneIs(c, init);
      LastPopulatedIs(c.nodes[ranges[last].nid], LastZone(c, init));
      if forall r :: r in ranges ==> !HasZone(c, r) {
        assert !HasZone(c, ranges[last]);
        assert forall r :: r in init ==> r in ranges;
      }
      assert forall i :: 0 <= i < |ranges| ==> ranges[i] in ranges;
      forall i | 0 <= i < |ranges| && HasZone(c, ranges[i]) && forall k :: i < k < |ranges| ==> !HasZone(c, ranges[k])
        ensures TopZone(c.nodes[ranges[i].nid], LastZone(c, ranges))
      {
        if i < last {
          assert init[i] == ranges[i] && !HasZone(c, ranges[last]);
          assert forall k :: i < k < |init| ==> init[k] == ranges[k];
        }
      }
    }
  }

  lemma TailLinked(c: Config, ranges: seq<MemRange>, x: Init)
    requires c.Ok() && ranges != [] && Layout(c, ranges) && x in FullSweep(c, ranges)
    requires forall m: nat :: x.pfn <= m ==> !InMemory(c, ranges, m)
    ensures x == Init(x.pfn, LastZone(c, ranges), ranges[|ranges| - 1].nid, true)
  {
    var pieces, zone, node := Pieces(c, ranges), LastZone(c, ranges), ranges[|ranges| - 1].nid;
    SweepAssigns(c, ranges, x);
    PiecesAscend(c, ranges, 0);
    HighestBelow(c, ranges, x.pfn);
    assert !InMemory(c, ranges, x.pfn);
    OwnerBehind(0, pieces, zone, node, x.pfn);
  }

  /** With no memory from `p` on, the last hole starts at `p` or below, and conversely. */
  lemma HighestBelow(c: Config, ranges: seq<MemRange>, p: nat)
    requires Layout(c, ranges)
    ensures HoleAfter(0, Pieces(c, ranges)) <= p <==> forall m: nat :: p <= m ==> !InMemory(c, ranges, m)
  {
    var pieces := Pieces(c, ranges);
    var hole := HoleAfter(0, pieces);
    PiecesAscend(c, ranges, 0);
    if hole <= p {
      forall m: nat | p <= m
        ensures !InMemory(c, ranges, m)
      {
        PiecesMembers(c, ranges, m);
        AscendingBounds(0, pieces, m);
      }
    } else {
      LastInPiece(0, pieces);
      PiecesMembers(c, ranges, hole - 1);
      assert InMemory(c, ranges, hole - 1);
    }
  }

  // ----- the last hole -----

  lemma RoundUpLeast(c: Config, x: nat)
    requires c.Ok()
    ensures c.RoundUp(x) % c.section == 0 && x <= c.RoundUp(x) < x + c.section
  {
    var y := x + c.section - 1;
    RoundUpAbove(c, x);
    assert y == y / c.section * c.section + y % c.section;
    DivModUnique(y / c.section * c.section, c.section, y / c.section, 0);
  }

  /** The sweep ends at the end of the last range, rounded up to a whole section
      with CONFIG_SPARSEMEM. */
  lemma EndIs(c: Config, ranges: seq<MemRange>, end: nat)
    requires c.Ok() && ranges != []
    requires var e := ranges[|ranges| - 1].end;
             if c.sparse then e <= end < e + c.section && end % c.section == 0 else end == e
    ensures EndOf(c, ranges) == end
  {
    var e := ranges[|ranges| - 1].end;
    RoundUpLeast(c, e);
    if c.sparse {
      if end < c.RoundUp(e) { SameRemainder(end, c.RoundUp(e), c.section); }
      if c.RoundUp(e) < end { SameRemainder(c.RoundUp(e), end, c.section); }
    }
  }

  /** Every page below `end` is initialised exactly once when it is memory or the first
      page of its pageblock, `first`, has a memory map, and no other page is. */
  lemma EveryPageOnce(c: Config, ranges: seq<MemRange>, end: nat, p: nat, first: nat)
    requires c.Ok() && ranges != [] && Layout(c, ranges) && first == p - p % c.pageblock
    requires var e := ranges[|ranges| - 1].end;
             if c.sparse then e <= end < e + c.section && end % c.section == 0 else end == e
    ensures InMemory(c, ranges, p) ==> p < end
    ensures Count(FullSweep(c, ranges), p)
         == if p < end && (InMemory(c, ranges, p) || c.valid(first)) then 1 else 0
  {
    EndIs(c, ranges, end);
    SweepCovers(c, ranges, p);
  }

  /** Without CONFIG_SPARSEMEM the last call does nothing exactly when no mapped page
      below the end has all memory below it. */
  lemma FlatmemNopIff(c: Config, ranges: seq<MemRange>)
    requires c.Ok() && !c.sparse && ranges != [] && Layout(c, ranges)
    ensures FullSweep(c, ranges) == Sweep(c, 0, Pieces(c, ranges))
       <==> forall p: nat :: p < ranges[|ranges| - 1].end ==> !MappedBehind(c, ranges, p)
  {
    FlatmemNop(c, ranges);
    var hole, end := HoleAfter(0, Pieces(c, ranges)), ranges[|ranges| - 1].end;
    forall p: nat
      ensures (hole <= p < end ==> !c.Mapped(p)) <==> (p < end ==> !MappedBehind(c, ranges, p))
    {
      MappedInHole(c, ranges, p);
    }
  }

  lemma MappedInHole(c: Config, ranges: seq<MemRange>, p: nat)
    requires c.Ok() && Layout(c, ranges)
    ensures MappedBehind(c, ranges, p) <==> HoleAfter(0, Pieces(c, ranges)) <= p && c.Mapped(p)
  {
    HighestBelow(c, ranges, p);
  }

  /** The pageblock of `p` has a memory map, and no memory lies at `p` or above. */
  ghost predicate MappedBehind(c: Config, ranges: seq<MemRange>, p: nat)
    requires c.Ok() && forall r :: r in ranges ==> c.Describes(r)
  {
    c.valid(p - p % c.pageblock) && forall m: nat :: p <= m ==> !InMemory(c, ranges, m)
  }

  // ----- highest_memmap_pfn -----

  lemma {:induction false} HighestPiece(hole: nat, h: nat, pieces: seq<Piece>)
    requires forall q :: q in pieces ==> q.start < q.end
    ensures h <= Highest(h, pieces) && forall q :: q in pieces ==> q.end - 1 <= Highest(h, pieces)
    ensures Highest(h, pieces) == h || exists q :: q in pieces && q.end - 1 == Highest(h, pieces)
  {
    if pieces != [] {
      var init, last := pieces[..|pieces| - 1], pieces[|pieces| - 1];
      assert pieces == init + [last];
      HighestPiece(hole, h, init);
    }
  }

  lemma {:induction false} PiecesNonEmpty(hole: nat, pieces: seq<Piece>)
    requires Ascending(hole, pieces)
    ensures forall q :: q in pieces ==> q.start < q.end
    decreases |pieces|
  {
    if pieces != [] {
      PiecesNonEmpty(pieces[0].end, pieces[1..]);
      assert pieces == [pieces[0]] + pieces[1..];
    }
  }

  /** After the sweep `highest_memmap_pfn` is what it was or the highest memory page,
      whichever is higher. */
  lemma HighestIsMemory(c: Config, ranges: seq<MemRange>, h: nat)
    requires c.Ok() && Layout(c, ranges)
    ensures var highest := Highest(h, Pieces(c, ranges));
            && h <= highest && (highest == h || InMemory(c, ranges, highest))
            && forall p: nat :: InMemory(c, ranges, p) ==> p <= highest
  {
    var pieces := Pieces(c, ranges);
    var highest := Highest(h, pieces);
    PiecesAscend(c, ranges, 0);
    PiecesNonEmpty(0, pieces);
    HighestPiece(0, h, pieces);
    if highest != h {
      var q :| q in pieces && q.end - 1 == highest;
      OwnerOfPiece(0, pieces, 0, 0, q, highest);
      PiecesMembers(c, ranges, highest);
    }
    forall p: nat | InMemory(c, ranges, p)
      ensures p <= highest
    {
      PiecesMembers(c, ranges, p);
      var q := PieceAt(pieces, p);
    }
  }

  // ----- the order of initialisation -----

  /** A later entry is about a higher page, unless it fills a hole behind memory. */
  ghost predicate InOrder(log: seq<Init>) {
    forall k, l :: 0 <= k < l < |log| ==> log[k].pfn < log[l].pfn || (!log[k].reserved && log[l].reserved)
  }

  lemma InOrderConcat(a: seq<Init>, b: seq<Init>)
    requires InOrder(a) && InOrder(b)
    requires forall x, y :: x in a && y in b ==> x.pfn < y.pfn || (!x.reserved && y.reserved)
    ensures InOrder(a + b)
  {
  }

  lemma {:induction false} RangeInOrder(s: nat, e: nat, zone: int, node: int)
    ensures InOrder(RangeInits(s, e, zone, node))
    decreases e - s
  {
    if s < e {
      var rest := RangeInits(s + 1, e, zone, node);
      RangeInOrder(s + 1, e, zone, node);
      forall y | y in rest
        ensures s < y.pfn
      {
        RangeEntries(s + 1, e, zone, node, y);
      }
      InOrderConcat([Init(s, zone, node, false)], rest);
    }
  }

  lemma {:induction false} HoleInOrder(c: Config, s: nat, e: nat, zone: int, node: int)
    requires c.Ok()
    ensures InOrder(HoleInits(c, s, e, zone, node))
    decreases e - s
  {
    if s < e {
      var rest := HoleInits(c, s + 1, e, zone, node);
      HoleInOrder(c, s + 1, e, zone, node);
      forall y | y in rest
        ensures s < y.pfn
      {
        HoleEntries(c, s + 1, e, zone, node, y);
      }
      InOrderConcat(if c.Mapped(s) then [Init(s, zone, node, true)] else [], rest);
    }
  }

  lemma PieceInOrder(c: Config, hole: nat, q: Piece)
    requires c.Ok() && hole <= q.start < q.end
    ensures InOrder(PieceInits(c, hole, q)) && forall x :: x in PieceInits(c, hole, q) ==> hole <= x.pfn < q.end
  {
    var a, b := RangeInits(q.start, q.end, q.zone, q.node), HoleInits(c, hole, q.start, q.zone, q.node);
    RangeInOrder(q.start, q.end, q.zone, q.node);
    HoleInOrder(c, hole, q.start, q.zone, q.node);
    forall x | x in a
      ensures q.start <= x.pfn < q.end && !x.reserved
    {
      RangeEntries(q.start, q.end, q.zone, q.node, x);
    }
    forall y | y in b
      ensures hole <= y.pfn < q.start && y.reserved
    {
      HoleEntries(c, hole, q.start, q.zone, q.node, y);
    }
    InOrderConcat(a, b);
  }

  lemma {:induction false} SweepInOrder(c: Config, hole: nat, pieces: seq<Piece>)
    requires c.Ok() && Ascending(hole, pieces)
    ensures InOrder(Sweep(c, hole, pieces))
    decreases |pieces|
  {
    if pieces != [] {
      var q := pieces[0];
      var rest := Sweep(c, q.end, pieces[1..]);
      PieceInOrder(c, hole, q);
      SweepInOrder(c, q.end, pieces[1..]);
      forall y | y in rest
        ensures q.end <= y.pfn
      {
        SweepEntries(c, q.end, pieces[1..], 0, 0, y);
      }
      InOrderConcat(PieceInits(c, hole, q), rest);
    }
  }

  /** A page of a hole below memory is preceded by a memory page above it. */
  lemma {:induction false} HoleFollows(c: Config, hole: nat, pieces: seq<Piece>, k: nat)
    requires c.Ok() && Ascending(hole, pieces) && k < |Sweep(c, hole, pieces)| && Sweep(c, hole, pieces)[k].reserved
    ensures exists l :: 0 <= l < k && !Sweep(c, hole, pieces)[l].reserved
                     && Sweep(c, hole, pieces)[k].pfn < Sweep(c, hole, pieces)[l].pfn
    decreases |pieces|
  {
    var q, log := pieces[0], Sweep(c, hole, pieces);
    var first, rest := PieceInits(c, hole, q), Sweep(c, q.end, pieces[1..]);
    var a, b := RangeInits(q.start, q.end, q.zone, q.node), HoleInits(c, hole, q.start, q.zone, q.node);
    if k < |first| {
      assert log[0] == a[0] == Init(q.start, q.zone, q.node, false);
      assert log[k] == first[k];
      if k < |a| {
        assert a[k] in a;
        RangeEntries(q.start, q.end, q.zone, q.node, a[k]);
      } else {
        assert first[k] == b[k - |a|];
        HoleEntries(c, hole, q.start, q.zone, q.node, b[k - |a|]);
      }
    } else {
      assert log[k] == rest[k - |first|];
      HoleFollows(c, q.end, pieces[1..], k - |first|);
      var l :| 0 <= l < k - |first| && !rest[l].reserved && rest[k - |first|].pfn < rest[l].pfn;
      assert log[l + |first|] == rest[l];
    }
  }

  /** `x` fills a hole with memory above it. */
  ghost predicate BelowMemory(c: Config, ranges: seq<MemRange>, x: Init)
    requires forall r :: r in ranges ==> c.Describes(r)
  {
    x.reserved && exists m: nat :: x.pfn <= m && InMemory(c, ranges, m)
  }

  /** Pages are initialised in ascending order, except that every hole below memory
      comes after memory above it. */
  lemma SweepOrder(c: Config, ranges: seq<MemRange>)
    requires c.Ok() && ranges != [] && Layout(c, ranges)
    ensures InOrder(FullSweep(c, ranges))
    ensures forall k :: 0 <= k < |FullSweep(c, ranges)| && BelowMemory(c, ranges, FullSweep(c, ranges)[k]) ==>
              exists l :: 0 <= l < k && !FullSweep(c, ranges)[l].reserved
                       && FullSweep(c, ranges)[k].pfn < FullSweep(c, ranges)[l].pfn
  {
    var pieces, zone, node := Pieces(c, ranges), LastZone(c, ranges), ranges[|ranges| - 1].nid;
    var hole, end := HoleAfter(0, pieces), EndOf(c, ranges);
    var a, b := Sweep(c, 0, pieces), HoleInits(c, hole, end, zone, node);
    PiecesAscend(c, ranges, 0);
    SweepInOrder(c, 0, pieces);
    HoleInOrder(c, hole, end, zone, node);
    forall x | x in a
      ensures x.pfn < hole
    {
      SweepEntries(c, 0, pieces, zone, node, x);
    }
    forall y | y in b
      ensures hole <= y.pfn
    {
      HoleEntries(c, hole, end, zone, node, y);
    }
    InOrderConcat(a, b);
    forall k | 0 <= k < |a + b| && BelowMemory(c, ranges, (a + b)[k])
      ensures exists l :: 0 <= l < k && !(a + b)[l].reserved && (a + b)[k].pfn < (a + b)[l].pfn
    {
      assert k >= |a| ==> (a + b)[k] in b;
      HighestBelow(c, ranges, (a + b)[k].pfn);
      HoleFollows(c, 0, pieces, k);
      var l :| 0 <= l < k && !a[l].reserved && a[k].pfn < a[l].pfn;
      assert (a + b)[l] == a[l];
    }
  }
}
