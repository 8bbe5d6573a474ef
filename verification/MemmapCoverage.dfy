/** The memory map sweep touches every page structure exactly once. */
module MemmapCoverage {
  import opened MemmapInit

  /** How many entries of `log` are about page frame `p`. */
  function Count(log: seq<Init>, p: nat): nat {
    if log == [] then 0 else (if log[0].pfn == p then 1 else 0) + Count(log[1..], p)
  }

  lemma {:induction false} CountConcat(a: seq<Init>, b: seq<Init>, p: nat)
    ensures Count(a + b, p) == Count(a, p) + Count(b, p)
  {
    if a == [] {
      assert a + b == b;
    } else {
      CountConcat(a[1..], b, p);
      assert (a + b)[1..] == a[1..] + b;
    }
  }

  lemma {:induction false} CountRange(s: nat, e: nat, zone: int, node: int, p: nat)
    ensures Count(RangeInits(s, e, zone, node), p) == if s <= p < e then 1 else 0
    decreases e - s
  {
    if s < e {
      CountRange(s + 1, e, zone, node, p);
      assert RangeInits(s, e, zone, node)[1..] == RangeInits(s + 1, e, zone, node);
    }
  }

  lemma {:induction false} CountHole(c: Config, s: nat, e: nat, zone: int, node: int, p: nat)
    requires c.Ok()
    ensures Count(HoleInits(c, s, e, zone, node), p) == if s <= p < e && c.Mapped(p) then 1 else 0
    decreases e - s
  {
    if s < e {
      CountHole(c, s + 1, e, zone, node, p);
      CountConcat(if c.Mapped(s) then [Init(s, zone, node, true)] else [], HoleInits(c, s + 1, e, zone, node), p);
      assert [Init(s, zone, node, true)][1..] == [];
    }
  }

  lemma {:induction false} RangeEntries(s: nat, e: nat, zone: int, node: int, x: Init)
    requires x in RangeInits(s, e, zone, node)
    ensures s <= x.pfn < e && x == Init(x.pfn, zone, node, false)
    decreases e - s
  {
    if x in RangeInits(s + 1, e, zone, node) {
      RangeEntries(s + 1, e, zone, node, x);
    }
  }

  lemma {:induction false} HoleEntries(c: Config, s: nat, e: nat, zone: int, node: int, x: Init)
    requires c.Ok() && x in HoleInits(c, s, e, zone, node)
    ensures s <= x.pfn < e && x == Init(x.pfn, zone, node, true)
    decreases e - s
  {
    if x in HoleInits(c, s + 1, e, zone, node) {
      HoleEntries(c, s + 1, e, zone, node, x);
    }
  }

  // ----- pieces in ascending order -----

  predicate Ascending(hole: nat, pieces: seq<Piece>)
    decreases |pieces|
  {
    pieces == [] ||
    (hole <= pieces[0].start < pieces[0].end && Ascending(pieces[0].end, pieces[1..]))
  }

  predicate InPiece(pieces: seq<Piece>, p: nat) {
    pieces != [] && (pieces[0].start <= p < pieces[0].end || InPiece(pieces[1..], p))
  }

  /** The zone and node that page `p` is linked to: the piece that contains it or,
      in a hole, the next piece above; `zone` and `node` behind the last piece. */
  function Owner(pieces: seq<Piece>, zone: int, node: int, p: nat): (int, int) {
    if pieces == [] then (zone, node)
    else if p < pieces[0].end then (pieces[0].zone, pieces[0].node)
    else Owner(pieces[1..], zone, node, p)
  }

  function Expected(pieces: seq<Piece>, zone: int, node: int, p: nat): Init {
    var o := Owner(pieces, zone, node, p);
    Init(p, o.0, o.1, !InPiece(pieces, p))
  }

  lemma {:induction false} AscendingBounds(hole: nat, pieces: seq<Piece>, p: nat)
    requires Ascending(hole, pieces)
    ensures hole <= HoleAfter(hole, pieces)
    ensures InPiece(pieces, p) ==> hole <= p < HoleAfter(hole, pieces)
    decreases |pieces|
  {
    if pieces != [] {
      AscendingBounds(pieces[0].end, pieces[1..], p);
    }
  }

  /** Every page below the final hole is initialised once if it lies in a piece or
      its pageblock is mapped, and not at all otherwise. */
  lemma {:induction false} SweepCounts(c: Config, hole: nat, pieces: seq<Piece>, p: nat)
    requires c.Ok() && Ascending(hole, pieces)
    ensures Count(Sweep(c, hole, pieces), p)
         == if hole <= p < HoleAfter(hole, pieces) && (InPiece(pieces, p) || c.Mapped(p)) then 1 else 0
    decreases |pieces|
  {
    if pieces != [] {
      var q := pieces[0];
      var a, b := RangeInits(q.start, q.end, q.zone, q.node), HoleInits(c, hole, q.start, q.zone, q.node);
      var d := Sweep(c, q.end, pieces[1..]);
      CountRange(q.start, q.end, q.zone, q.node, p);
      CountHole(c, hole, q.start, q.zone, q.node, p);
      SweepCounts(c, q.end, pieces[1..], p);
      CountConcat(a, b, p);
      CountConcat(a + b, d, p);
      assert PieceInits(c, hole, q) == a + b;
      AscendingBounds(q.end, pieces[1..], p);
    }
  }

  lemma {:induction false} SweepEntries(c: Config, hole: nat, pieces: seq<Piece>, zone: int, node: int, x: Init)
    requires c.Ok() && Ascending(hole, pieces) && x in Sweep(c, hole, pieces)
    ensures hole <= x.pfn < HoleAfter(hole, pieces) && x == Expected(pieces, zone, node, x.pfn)
    decreases |pieces|
  {
    var q := pieces[0];
    AscendingBounds(q.end, pieces[1..], x.pfn);
    if x in RangeInits(q.start, q.end, q.zone, q.node) {
      RangeEntries(q.start, q.end, q.zone, q.node, x);
    } else if x in HoleInits(c, hole, q.start, q.zone, q.node) {
      HoleEntries(c, hole, q.start, q.zone, q.node, x);
    } else {
      SweepEntries(c, q.end, pieces[1..], zone, node, x);
    }
  }

  // ----- the layout of memory -----

  ghost predicate ZonesAscend(zones: seq<Zone>) {
    forall j, k :: 0 <= j < k < |zones| && zones[j].populated && zones[k].populated ==>
      zones[j].start + zones[j].spanned <= zones[k].start
  }

  /** Ranges in ascending order, no two overlapping; the same for the populated
      zones of each node. */
  ghost predicate Layout(c: Config, ranges: seq<MemRange>) {
    && (forall r :: r in ranges ==> c.Describes(r))
    && (forall i :: 0 <= i < |ranges| ==> ranges[i].start < ranges[i].end)
    && (forall i, j :: 0 <= i < j < |ranges| ==> ranges[i].end <= ranges[j].start)
    && (forall n :: 0 <= n < |c.nodes| ==> ZonesAscend(c.nodes[n]))
  }

  predicate InZone(z: Zone, p: nat) {
    z.populated && z.start <= p < z.start + z.spanned
  }

  predicate InRange(c: Config, r: MemRange, p: nat)
    requires c.Describes(r)
  {
    r.start <= p < r.end && exists j :: 0 <= j < |c.nodes[r.nid]| && InZone(c.nodes[r.nid][j], p)
  }

  /** `p` is memory: it lies in a range and in a populated zone of that range's node. */
  predicate InMemory(c: Config, ranges: seq<MemRange>, p: nat)
    requires forall r :: r in ranges ==> c.Describes(r)
  {
    exists r :: r in ranges && InRange(c, r, p)
  }

  lemma InMemoryFirst(c: Config, ranges: seq<MemRange>, p: nat)
    requires ranges != [] && forall r :: r in ranges ==> c.Describes(r)
    ensures c.Describes(ranges[0])
    ensures InMemory(c, ranges, p) <==> InRange(c, ranges[0], p) || InMemory(c, ranges[1..], p)
  {
    assert ranges[0] in ranges;
    assert forall r :: r in ranges <==> r == ranges[0] || r in ranges[1..];
  }

  lemma {:induction false} InPieceConcat(a: seq<Piece>, b: seq<Piece>, p: nat)
    ensures InPiece(a + b, p) <==> InPiece(a, p) || InPiece(b, p)
  {
    if a == [] {
      assert a + b == b;
    } else {
      InPieceConcat(a[1..], b, p);
      assert (a + b)[1..] == a[1..] + b;
    }
  }

  lemma {:induction false} AscendingConcat(hole: nat, a: seq<Piece>, b: seq<Piece>)
    requires Ascending(hole, a) && Ascending(HoleAfter(hole, a), b)
    ensures Ascending(hole, a + b)
    ensures HoleAfter(hole, a + b) == HoleAfter(HoleAfter(hole, a), b)
    decreases |a|
  {
    if a == [] {
      assert a + b == b;
    } else {
      AscendingConcat(a[0].end, a[1..], b);
      assert (a + b)[1..] == a[1..] + b;
    }
  }

  lemma ZonePieceMembers(z: Zone, r: MemRange, j: nat, p: nat)
    ensures InPiece(ZonePiece(z, r, j), p) <==> InZone(z, p) && r.start <= p < r.end
  {
    var piece := ZonePiece(z, r, j);
    assert piece != [] ==> piece[1..] == [];
  }

  lemma {:induction false} ZonePiecesMembers(zones: seq<Zone>, r: MemRange, j: nat, p: nat)
    requires j <= |zones|
    ensures InPiece(ZonePieces(zones, r, j), p)
       <==> r.start <= p < r.end && exists k :: j <= k < |zones| && InZone(zones[k], p)
    decreases |zones| - j
  {
    if j < |zones| {
      ZonePieceMembers(zones[j], r, j, p);
      ZonePiecesMembers(zones, r, j + 1, p);
      InPieceConcat(ZonePiece(zones[j], r, j), ZonePieces(zones, r, j + 1), p);
    }
  }

  lemma {:induction false} PiecesMembers(c: Config, ranges: seq<MemRange>, p: nat)
    requires forall r :: r in ranges ==> c.Describes(r)
    ensures InPiece(Pieces(c, ranges), p) <==> InMemory(c, ranges, p)
  {
    if ranges != [] {
      var r := ranges[0];
      assert r in ranges;
      PiecesMembers(c, ranges[1..], p);
      InPieceConcat(ZonePieces(c.nodes[r.nid], r, 0), Pieces(c, ranges[1..]), p);
      assert InPiece(ZonePieces(c.nodes[r.nid], r, 0), p) <==> InRange(c, r, p) by {
        ZonePiecesMembers(c.nodes[r.nid], r, 0, p);
      }
      InMemoryFirst(c, ranges, p);
    }
  }

  lemma {:induction false} ZonePiecesAscend(zones: seq<Zone>, r: MemRange, j: nat, hole: nat)
    requires j <= |zones| && ZonesAscend(zones)
    requires hole <= r.start ||
             (hole <= r.end && forall k :: j <= k < |zones| && zones[k].populated ==> hole <= zones[k].start)
    requires r.start < r.end
    ensures Ascending(hole, ZonePieces(zones, r, j))
    ensures HoleAfter(hole, ZonePieces(zones, r, j)) <= r.end
    decreases |zones| - j
  {
    if j < |zones| {
      var piece := ZonePiece(zones[j], r, j);
      if piece == [] {
        ZonePiecesAscend(zones, r, j + 1, hole);
        assert piece + ZonePieces(zones, r, j + 1) == ZonePieces(zones, r, j + 1);
      } else {
        assert piece == [piece[0]] && piece[1..] == [];
        ZonePiecesAscend(zones, r, j + 1, piece[0].end);
        AscendingConcat(hole, piece, ZonePieces(zones, r, j + 1));
      }
    }
  }

  lemma {:induction false} PiecesAscend(c: Config, ranges: seq<MemRange>, hole: nat)
    requires Layout(c, ranges) && (ranges != [] ==> hole <= ranges[0].start)
    ensures Ascending(hole, Pieces(c, ranges))
    ensures ranges != [] ==> HoleAfter(hole, Pieces(c, ranges)) <= ranges[|ranges| - 1].end
  {
    if ranges != [] {
      var r := ranges[0];
      assert c.Describes(r);
      var first := ZonePieces(c.nodes[r.nid], r, 0);
      ZonePiecesAscend(c.nodes[r.nid], r, 0, hole);
      PiecesAscend(c, ranges[1..], HoleAfter(hole, first));
      AscendingConcat(hole, first, Pieces(c, ranges[1..]));
      if |ranges| > 1 {
        assert ranges[1..][|ranges| - 2] == ranges[|ranges| - 1];
      } else {
        assert Pieces(c, ranges[1..]) == [];
      }
    }
  }

  lemma RoundUpAbove(c: Config, x: nat)
    requires c.Ok()
    ensures x <= c.RoundUp(x)
  {
    var y := x + c.section - 1;
    assert y == y / c.section * c.section + y % c.section;
  }

  /** The sweep initialises every page below the rounded end exactly once when it is
      memory or lies in a mapped pageblock, and no other page: memory unreserved,
      holes reserved, each page linked to the zone and node that own it. */
  lemma SweepCovers(c: Config, ranges: seq<MemRange>, p: nat)
    requires c.Ok() && ranges != [] && Layout(c, ranges)
    ensures InMemory(c, ranges, p) ==> p < EndOf(c, ranges)
    ensures Count(FullSweep(c, ranges), p)
         == if p < EndOf(c, ranges) && (InMemory(c, ranges, p) || c.Mapped(p)) then 1 else 0
  {
    var pieces, end := Pieces(c, ranges), EndOf(c, ranges);
    var hole := HoleAfter(0, pieces);
    PiecesAscend(c, ranges, 0);
    PiecesMembers(c, ranges, p);
    RoundUpAbove(c, ranges[|ranges| - 1].end);
    AscendingBounds(0, pieces, p);
    SweepCounts(c, 0, pieces, p);
    CountHole(c, hole, end, LastZone(c, ranges), ranges[|ranges| - 1].nid, p);
    CountConcat(Sweep(c, 0, pieces), HoleInits(c, hole, end, LastZone(c, ranges), ranges[|ranges| - 1].nid), p);
  }

  lemma SweepAssigns(c: Config, ranges: seq<MemRange>, x: Init)
    requires c.Ok() && ranges != [] && Layout(c, ranges) && x in FullSweep(c, ranges)
    ensures x.reserved <==> !InMemory(c, ranges, x.pfn)
    ensures x == Expected(Pieces(c, ranges), LastZone(c, ranges), ranges[|ranges| - 1].nid, x.pfn)
  {
    var pieces, zone, node := Pieces(c, ranges), LastZone(c, ranges), ranges[|ranges| - 1].nid;
    PiecesAscend(c, ranges, 0);
    PiecesMembers(c, ranges, x.pfn);
    AscendingBounds(0, pieces, x.pfn);
    if x in Sweep(c, 0, pieces) {
      SweepEntries(c, 0, pieces, zone, node, x);
    } else {
      HoleEntries(c, HoleAfter(0, pieces), EndOf(c, ranges), zone, node, x);
      OwnerBehind(0, pieces, zone, node, x.pfn);
    }
  }

  lemma {:induction false} OwnerBehind(hole: nat, pieces: seq<Piece>, zone: int, node: int, p: nat)
    requires Ascending(hole, pieces) && HoleAfter(hole, pieces) <= p
    ensures Owner(pieces, zone, node, p) == (zone, node)
    decreases |pieces|
  {
    if pieces != [] {
      AscendingBounds(pieces[0].end, pieces[1..], p);
      OwnerBehind(pieces[0].end, pieces[1..], zone, node, p);
    }
  }

  // ----- the last hole -----

  lemma {:induction false} HoleEmpty(c: Config, s: nat, e: nat, zone: int, node: int)
    requires c.Ok()
    ensures HoleInits(c, s, e, zone, node) == [] <==> forall p: nat :: s <= p < e ==> !c.Mapped(p)
    decreases e - s
  {
    if s < e {
      HoleEmpty(c, s + 1, e, zone, node);
    }
  }

  /** Without CONFIG_SPARSEMEM the last call of the sweep is expected to do nothing.
      It does nothing exactly when no page between the last piece and the end of the
      last range lies in a mapped pageblock. */
  lemma FlatmemNop(c: Config, ranges: seq<MemRange>)
    requires c.Ok() && !c.sparse && ranges != [] && forall r :: r in ranges ==> c.Describes(r)
    ensures FullSweep(c, ranges) == Sweep(c, 0, Pieces(c, ranges))
       <==> forall p: nat :: HoleAfter(0, Pieces(c, ranges)) <= p < ranges[|ranges| - 1].end ==> !c.Mapped(p)
  {
    var last := ranges[|ranges| - 1];
    var a := Sweep(c, 0, Pieces(c, ranges));
    var b := HoleInits(c, HoleAfter(0, Pieces(c, ranges)), last.end, LastZone(c, ranges), last.nid);
    HoleEmpty(c, HoleAfter(0, Pieces(c, ranges)), last.end, LastZone(c, ranges), last.nid);
    assert |a + b| == |a| + |b|;
    if b == [] { assert a + b == a; }
  }

  /** A range that ends above its zone: the last call reserves the page behind it. */
  lemma FlatmemExample()
    ensures var c := Config(_ => true, 1, 1, [[Zone(0, 1, true)]], false);
            var ranges := [MemRange(0, 2, 0)];
            && c.Ok() && Layout(c, ranges)
            && FullSweep(c, ranges) != Sweep(c, 0, Pieces(c, ranges))
  {
    var c := Config(_ => true, 1, 1, [[Zone(0, 1, true)]], false);
    var ranges, r := [MemRange(0, 2, 0)], MemRange(0, 2, 0);
    var zones := c.nodes[0];
    assert ranges[1..] == [];
    assert ZonePieces(zones, r, 1) == [];
    assert ZonePieces(zones, r, 0) == [Piece(0, 1, 0, 0)];
    assert Pieces(c, ranges) == [Piece(0, 1, 0, 0)];
    FlatmemNop(c, ranges);
    assert HoleAfter(0, Pieces(c, ranges)) <= 1 < ranges[|ranges| - 1].end && c.Mapped(1);
  }
}
