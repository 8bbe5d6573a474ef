/** The boot-time memory map sweep of `kernel_code/mm_init.c`: page structures of
    memory ranges are initialised zone by zone, and the holes between them are
    initialised as reserved pages. */
module MemmapInit {
  import opened Arithmetic
  import opened Permutations

  /** One call of `__init_single_page`, and whether the page was then reserved. */
  datatype Init = Init(pfn: nat, zone: int, node: int, reserved: bool)

  datatype Zone = Zone(start: nat, spanned: nat, populated: bool)

  datatype MemRange = MemRange(start: nat, end: nat, nid: nat)

  /** What the sweep finds outside: which pageblocks have a memory map, the sizes of
      pageblocks and sections, the zones of every node, and CONFIG_SPARSEMEM. */
  datatype Config = Config(valid: nat -> bool, pageblock: nat, section: nat, nodes: seq<seq<Zone>>, sparse: bool)
  {
    predicate Ok() {
      0 < pageblock && 0 < section
    }

    function BlockStart(pfn: nat): nat
      requires Ok()
    {
      pfn - pfn % pageblock
    }

    function BlockEnd(pfn: nat): (e: nat)
      requires Ok()
      ensures pfn < e
    {
      BlockStart(pfn) + pageblock
    }

    /** The pageblock of `pfn` has a memory map. */
    predicate Mapped(pfn: nat)
      requires Ok()
    {
      valid(BlockStart(pfn))
    }

    function RoundUp(pfn: nat): nat
      requires Ok()
    {
      (pfn + section - 1) / section * section
    }

    predicate Describes(r: MemRange) {
      r.nid < |nodes|
    }
  }

  // ----- what is written -----

  /** The pages of a memory range. */
  function RangeInits(s: nat, e: nat, zone: int, node: int): seq<Init>
    decreases e - s
  {
    if s >= e then [] else [Init(s, zone, node, false)] + RangeInits(s + 1, e, zone, node)
  }

  /** The pages of a hole whose pageblocks have a memory map: a plain filter. */
  function HoleInits(c: Config, s: nat, e: nat, zone: int, node: int): seq<Init>
    requires c.Ok()
    decreases e - s
  {
    if s >= e then []
    else (if c.Mapped(s) then [Init(s, zone, node, true)] else []) + HoleInits(c, s + 1, e, zone, node)
  }

  /** A memory range clamped to a zone. */
  datatype Piece = Piece(start: nat, end: nat, zone: int, node: int)

  function Clamp(x: nat, lo: nat, hi: nat): nat {
    if x < lo then lo else if x > hi then hi else x
  }

  /** The part of the range `start..end` that lies in zone `z`, if any. */
  function PieceOf(z: Zone, start: nat, end: nat, zone: int, node: int): seq<Piece> {
    var s, e := Clamp(start, z.start, z.start + z.spanned), Clamp(end, z.start, z.start + z.spanned);
    if s < e then [Piece(s, e, zone, node)] else []
  }

  function ZonePiece(z: Zone, r: MemRange, j: nat): seq<Piece> {
    if z.populated then PieceOf(z, r.start, r.end, j, r.nid) else []
  }

  /** The pieces of one range, from zone `j` of its node on. */
  function ZonePieces(zones: seq<Zone>, r: MemRange, j: nat): seq<Piece>
    requires j <= |zones|
    decreases |zones| - j
  {
    if j == |zones| then [] else ZonePiece(zones[j], r, j) + ZonePieces(zones, r, j + 1)
  }

  function Pieces(c: Config, ranges: seq<MemRange>): seq<Piece>
    requires forall r :: r in ranges ==> c.Describes(r)
  {
    if ranges == [] then []
    else
      assert c.Describes(ranges[0]);
      ZonePieces(c.nodes[ranges[0].nid], ranges[0], 0) + Pieces(c, ranges[1..])
  }

  function HoleAfter(hole: nat, pieces: seq<Piece>): nat {
    if pieces == [] then hole else pieces[|pieces| - 1].end
  }

  /** What one piece writes: its own pages, then the hole in front of it. */
  function PieceInits(c: Config, hole: nat, p: Piece): seq<Init>
    requires c.Ok()
  {
    RangeInits(p.start, p.end, p.zone, p.node) + HoleInits(c, hole, p.start, p.zone, p.node)
  }

  /** The sweep over `pieces` when everything below `hole` is done. */
  function Sweep(c: Config, hole: nat, pieces: seq<Piece>): seq<Init>
    requires c.Ok()
    decreases |pieces|
  {
    if pieces == [] then [] else PieceInits(c, hole, pieces[0]) + Sweep(c, pieces[0].end, pieces[1..])
  }

  /** `highest_memmap_pfn` after initialising `pieces`, when it was `h` before. */
  function Highest(h: nat, pieces: seq<Piece>): nat {
    if pieces == [] then h
    else
      var before, last := Highest(h, pieces[..|pieces| - 1]), pieces[|pieces| - 1];
      if before < Before(last.end) then Before(last.end) else before
  }

  lemma {:induction false} HighestConcat(h: nat, a: seq<Piece>, b: seq<Piece>)
    ensures Highest(h, a + b) == Highest(Highest(h, a), b)
  {
    if b == [] {
      assert a + b == a;
    } else {
      HighestConcat(h, a, b[..|b| - 1]);
      assert (a + b)[..|a + b| - 1] == a + b[..|b| - 1];
    }
  }

  lemma {:induction false} SweepConcat(c: Config, hole: nat, a: seq<Piece>, b: seq<Piece>)
    requires c.Ok()
    ensures Sweep(c, hole, a + b) == Sweep(c, hole, a) + Sweep(c, HoleAfter(hole, a), b)
    ensures HoleAfter(hole, a + b) == HoleAfter(HoleAfter(hole, a), b)
    decreases |a|
  {
    if a == [] {
      assert a + b == b;
    } else {
      var p, ab := a[0], a + b;
      SweepConcat(c, p.end, a[1..], b);
      assert ab[0] == p && ab[1..] == a[1..] + b;
      assert HoleAfter(p.end, a[1..]) == HoleAfter(hole, a);
      Associative(PieceInits(c, hole, p), Sweep(c, p.end, a[1..]), Sweep(c, HoleAfter(hole, a), b));
    }
  }

  // ----- the program -----

  /** Skipping to the end of a pageblock without a memory map skips nothing. */
  lemma {:induction false} SkipUnmapped(c: Config, p: nat, q: nat, e: nat, zone: int, node: int)
    requires c.Ok() && p <= q <= c.BlockEnd(p) && !c.Mapped(p)
    ensures HoleInits(c, p, e, zone, node) == HoleInits(c, q, e, zone, node)
    decreases q - p
  {
    if p < q && p < e {
      if p + 1 < c.BlockEnd(p) {
        SameBlock(c, p);
        SkipUnmapped(c, p + 1, q, e, zone, node);
      }
    }
  }

  lemma SameBlock(c: Config, p: nat)
    requires c.Ok() && p + 1 < c.BlockEnd(p)
    ensures c.BlockStart(p + 1) == c.BlockStart(p)
  {
    ModNext(p, c.pageblock);
  }

  const ULONG_MAX := 0xffff_ffff_ffff_ffff

  /** `x - 1` on unsigned longs. */
  function Before(x: nat): nat {
    if x == 0 then ULONG_MAX else x - 1
  }

  class MemoryMap {
    const c: Config
    var log: seq<Init>
    var highestMemmapPfn: nat

    constructor (c: Config)
      ensures this.c == c && log == [] && highestMemmapPfn == 0
    {
      this.c := c;
      log := [];
      highestMemmapPfn := 0;
    }

    /** init_unavailable_range; the result is `pgcnt`. */
    method InitUnavailableRange(spfn: nat, epfn: nat, zone: int, node: int) returns (pgcnt: nat)
      requires c.Ok()
      modifies this`log
      ensures log == old(log) + HoleInits(c, spfn, epfn, zone, node)
      ensures pgcnt == |HoleInits(c, spfn, epfn, zone, node)|
    {
      pgcnt := 0;
      var pfn := spfn;
      while pfn < epfn
        invariant log + HoleInits(c, pfn, epfn, zone, node) == old(log) + HoleInits(c, spfn, epfn, zone, node)
        invariant pgcnt + |HoleInits(c, pfn, epfn, zone, node)| == |HoleInits(c, spfn, epfn, zone, node)|
        decreases epfn - pfn
      {
        if !c.valid(c.BlockStart(pfn)) {
          SkipUnmapped(c, pfn, c.BlockEnd(pfn), epfn, zone, node);
          pfn := c.BlockEnd(pfn) - 1;
          pfn := pfn + 1;
          continue;
        }
        log := log + [Init(pfn, zone, node, true)];
        pgcnt := pgcnt + 1;
        pfn := pfn + 1;
      }
    }

    /** memmap_init_range in the early boot context, without deferral. */
    method InitRange(size: nat, nid: int, zone: int, startPfn: nat)
      modifies this
      ensures log == old(log) + RangeInits(startPfn, startPfn + size, zone, nid)
      ensures highestMemmapPfn >= old(highestMemmapPfn) &&
              highestMemmapPfn >= (if startPfn + size == 0 then 0xffff_ffff_ffff_ffff else startPfn + size - 1)
      ensures highestMemmapPfn == old(highestMemmapPfn) ||
              highestMemmapPfn == if startPfn + size == 0 then 0xffff_ffff_ffff_ffff else startPfn + size - 1
    {
      var endPfn := startPfn + size;
      if highestMemmapPfn < Before(endPfn) {
        highestMemmapPfn := Before(endPfn);
      }
      var pfn := startPfn;
      while pfn < endPfn
        invariant startPfn <= pfn <= endPfn
        invariant log + RangeInits(pfn, endPfn, zone, nid) == old(log) + RangeInits(startPfn, endPfn, zone, nid)
        modifies this`log
      {
        ghost var rest := RangeInits(pfn + 1, endPfn, zone, nid);
        assert log + RangeInits(pfn, endPfn, zone, nid) == log + [Init(pfn, zone, nid, false)] + rest;
        log := log + [Init(pfn, zone, nid, false)];
        pfn := pfn + 1;
      }
    }

    /** memmap_init_zone_range; `hole_pfn` is passed in and out. */
    method InitZoneRange(z: Zone, zoneId: int, nid: int, startPfn: nat, endPfn: nat, hole: nat) returns (holePfn: nat)
      requires c.Ok()
      modifies this
      ensures log == old(log) + Sweep(c, hole, PieceOf(z, startPfn, endPfn, zoneId, nid))
      ensures holePfn == HoleAfter(hole, PieceOf(z, startPfn, endPfn, zoneId, nid))
      ensures highestMemmapPfn == Highest(old(highestMemmapPfn), PieceOf(z, startPfn, endPfn, zoneId, nid))
    {
      holePfn := hole;
      var zoneEnd := z.start + z.spanned;
      var s := Clamp(startPfn, z.start, zoneEnd);
      var e := Clamp(endPfn, z.start, zoneEnd);
      if s >= e {
        return;
      }
      InitRange(e - s, nid, zoneId, s);
      if holePfn < s {
        var _ := InitUnavailableRange(holePfn, s, zoneId, nid);
      }
      holePfn := e;
      assert [Piece(s, e, zoneId, nid)][1..] == [] && [Piece(s, e, zoneId, nid)][..0] == [];
    }

    /** The zone loop of memmap_init for one range. */
    method InitZones(r: MemRange, hole: nat, zone0: int) returns (holePfn: nat, zoneId: int)
      requires c.Ok() && c.Describes(r)
      modifies this
      ensures log == old(log) + Sweep(c, hole, ZonePieces(c.nodes[r.nid], r, 0))
      ensures holePfn == HoleAfter(hole, ZonePieces(c.nodes[r.nid], r, 0))
      ensures zoneId == LastPopulated(c.nodes[r.nid], zone0)
      ensures highestMemmapPfn == Highest(old(highestMemmapPfn), ZonePieces(c.nodes[r.nid], r, 0))
    {
      var zones := c.nodes[r.nid];
      ghost var done: seq<Piece>, log0 := [], log;
      holePfn, zoneId := hole, zone0;
      var j := 0;
      while j < |zones|
        invariant 0 <= j <= |zones|
        invariant done + ZonePieces(zones, r, j) == ZonePieces(zones, r, 0)
        invariant log == log0 + Sweep(c, hole, done) && holePfn == HoleAfter(hole, done)
        invariant zoneId == LastPopulated(zones[..j], zone0)
        invariant highestMemmapPfn == Highest(old(highestMemmapPfn), done)
      {
        NextZone(zones, r, j, done, zone0);
        ghost var next := ZonePiece(zones[j], r, j);
        SweepConcat(c, hole, done, next);
        HighestConcat(old(highestMemmapPfn), done, next);
        Associative(log0, Sweep(c, hole, done), Sweep(c, holePfn, next));
        holePfn, zoneId := InitOneZone(zones[j], j, r, holePfn, zoneId);
        done := done + next;
        j := j + 1;
      }
      assert zones[..j] == zones;
      assert done + [] == done;
    }

    method InitOneZone(z: Zone, j: nat, r: MemRange, hole: nat, zone0: int) returns (holePfn: nat, zoneId: int)
      requires c.Ok()
      modifies this
      ensures log == old(log) + Sweep(c, hole, ZonePiece(z, r, j)) && holePfn == HoleAfter(hole, ZonePiece(z, r, j))
      ensures zoneId == if z.populated then j else zone0
      ensures highestMemmapPfn == Highest(old(highestMemmapPfn), ZonePiece(z, r, j))
    {
      holePfn, zoneId := hole, zone0;
      if !z.populated {
        return;
      }
      holePfn := InitZoneRange(z, j, r.nid, r.start, r.end, holePfn);
      zoneId := j;
    }

    /** The loop of memmap_init over all ranges. */
    method InitRanges(ranges: seq<MemRange>) returns (holePfn: nat, zoneId: int)
      requires c.Ok() && forall r :: r in ranges ==> c.Describes(r)
      modifies this
      ensures log == old(log) + Sweep(c, 0, Pieces(c, ranges)) && holePfn == HoleAfter(0, Pieces(c, ranges))
      ensures zoneId == LastZone(c, ranges)
      ensures highestMemmapPfn == Highest(old(highestMemmapPfn), Pieces(c, ranges))
    {
      holePfn, zoneId := 0, 0;
      ghost var log0 := log;
      var i := 0;
      while i < |ranges|
        invariant 0 <= i <= |ranges| && Swept(c, ranges, i, log0, log, holePfn, zoneId)
        invariant highestMemmapPfn == Highest(old(highestMemmapPfn), Pieces(c, ranges[..i]))
      {
        ghost var log1, hole1, zone1 := log, holePfn, zoneId;
        assert c.Describes(ranges[i]);
        holePfn, zoneId := InitZones(ranges[i], holePfn, zoneId);
        NextRange(c, ranges, i, log0, log1, hole1, zone1);
        HighestConcat(old(highestMemmapPfn), Pieces(c, ranges[..i]), ZonePieces(c.nodes[ranges[i].nid], ranges[i], 0));
        i := i + 1;
      }
      assert ranges[..i] == ranges;
    }

    /** memmap_init */
    method Run(ranges: seq<MemRange>)
      requires c.Ok() && ranges != [] && forall r :: r in ranges ==> c.Describes(r)
      modifies this
      ensures log == old(log) + FullSweep(c, ranges)
      ensures highestMemmapPfn == Highest(old(highestMemmapPfn), Pieces(c, ranges))
    {
      var holePfn, zoneId := InitRanges(ranges);
      InitLastHole(ranges, holePfn, zoneId);
      var pieces, last := Pieces(c, ranges), ranges[|ranges| - 1];
      Associative(old(log), Sweep(c, 0, pieces), HoleInits(c, holePfn, EndOf(c, ranges), zoneId, last.nid));
    }

    /** What memmap_init does behind its loop. */
    method InitLastHole(ranges: seq<MemRange>, holePfn: nat, zoneId: int)
      requires c.Ok() && ranges != []
      modifies this`log
      ensures log == old(log) + HoleInits(c, holePfn, EndOf(c, ranges), zoneId, ranges[|ranges| - 1].nid)
    {
      var last := ranges[|ranges| - 1];
      var endPfn := last.end;
      if c.sparse {
        endPfn := c.RoundUp(endPfn);
        if holePfn < endPfn {
          var _ := InitUnavailableRange(holePfn, endPfn, zoneId, last.nid);
        }
      } else {
        var _ := InitUnavailableRange(holePfn, endPfn, zoneId, last.nid);
      }
    }
  }

  function LastPopulated(zones: seq<Zone>, zone0: int): int {
    if zones == [] then zone0
    else if zones[|zones| - 1].populated then |zones| - 1
    else LastPopulated(zones[..|zones| - 1], zone0)
  }

  /** `zone_id` after the loop: the highest populated zone of the last node that has one. */
  function LastZone(c: Config, ranges: seq<MemRange>): int
    requires forall r :: r in ranges ==> c.Describes(r)
  {
    if ranges == [] then 0
    else
      assert c.Describes(ranges[|ranges| - 1]);
      LastPopulated(c.nodes[ranges[|ranges| - 1].nid], LastZone(c, ranges[..|ranges| - 1]))
  }

  function EndOf(c: Config, ranges: seq<MemRange>): nat
    requires c.Ok() && ranges != []
  {
    var e := ranges[|ranges| - 1].end;
    if c.sparse then c.RoundUp(e) else e
  }

  /** Everything that the sweep writes. */
  function FullSweep(c: Config, ranges: seq<MemRange>): seq<Init>
    requires c.Ok() && ranges != [] && forall r :: r in ranges ==> c.Describes(r)
  {
    var pieces := Pieces(c, ranges);
    Sweep(c, 0, pieces) +
    HoleInits(c, HoleAfter(0, pieces), EndOf(c, ranges), LastZone(c, ranges), ranges[|ranges| - 1].nid)
  }

  lemma NextZone(zones: seq<Zone>, r: MemRange, j: nat, done: seq<Piece>, zone0: int)
    requires j < |zones|
    ensures (done + ZonePiece(zones[j], r, j)) + ZonePieces(zones, r, j + 1) == done + ZonePieces(zones, r, j)
    ensures LastPopulated(zones[..j + 1], zone0) == if zones[j].populated then j else LastPopulated(zones[..j], zone0)
  {
    assert zones[..j + 1][..j] == zones[..j];
  }

  lemma {:induction false} PiecesAppend(c: Config, ranges: seq<MemRange>, r: MemRange)
    requires (forall q :: q in ranges ==> c.Describes(q)) && c.Describes(r)
    ensures forall q :: q in ranges + [r] ==> c.Describes(q)
    ensures Pieces(c, ranges + [r]) == Pieces(c, ranges) + ZonePieces(c.nodes[r.nid], r, 0)
  {
    if ranges == [] {
      assert [] + [r] == [r] && [r][1..] == [];
    } else {
      assert ranges[0] in ranges;
      PiecesAppend(c, ranges[1..], r);
      var all := ranges + [r];
      assert all[0] == ranges[0] && all[1..] == ranges[1..] + [r];
      var first, rest := ZonePieces(c.nodes[ranges[0].nid], ranges[0], 0), Pieces(c, ranges[1..]);
      Associative(first, rest, ZonePieces(c.nodes[r.nid], r, 0));
    }
  }

  /** The state of memmap_init after the first `i` ranges. */
  ghost predicate Swept(c: Config, ranges: seq<MemRange>, i: nat, log0: seq<Init>, log: seq<Init>, hole: nat, zoneId: int) {
    && c.Ok() && i <= |ranges| && (forall r :: r in ranges ==> c.Describes(r))
    && log == log0 + Sweep(c, 0, Pieces(c, ranges[..i]))
    && hole == HoleAfter(0, Pieces(c, ranges[..i]))
    && zoneId == LastZone(c, ranges[..i])
  }

  lemma NextRange(c: Config, ranges: seq<MemRange>, i: nat, log0: seq<Init>, log: seq<Init>, hole: nat, zoneId: int)
    requires Swept(c, ranges, i, log0, log, hole, zoneId) && i < |ranges| && c.Describes(ranges[i])
    ensures var zones := c.nodes[ranges[i].nid];
            var next := ZonePieces(zones, ranges[i], 0);
            && Swept(c, ranges, i + 1, log0, log + Sweep(c, hole, next), HoleAfter(hole, next), LastPopulated(zones, zoneId))
            && Pieces(c, ranges[..i + 1]) == Pieces(c, ranges[..i]) + next
  {
    var done, next := Pieces(c, ranges[..i]), ZonePieces(c.nodes[ranges[i].nid], ranges[i], 0);
    assert ranges[..i + 1][..i] == ranges[..i];
    assert ranges[..i + 1] == ranges[..i] + [ranges[i]];
    PiecesAppend(c, ranges[..i], ranges[i]);
    SweepConcat(c, 0, done, next);
    Associative(log0, Sweep(c, 0, done), Sweep(c, hole, next));
  }
}
