/** The three ways `allocation_map_generator.py` lists free blocks. Every call to
    the random generator is an arbitrary choice within its bounds. */
module AllocationMap {
  import opened Ring
  import opened Permutations

  const STREAK_MIN := 1
  const STREAK_MAX := 50

  /** random.randint */
  method RandInt(lo: int, hi: int) returns (r: int)
    requires lo <= hi
    ensures lo <= r <= hi
  {
    r :| lo <= r <= hi;
  }

  function Sum(s: seq<nat>): nat {
    if s == [] then 0 else Sum(s[..|s| - 1]) + s[|s| - 1]
  }

  /** A size that may be drawn and, with `rest` blocks to cover, is cut down to them. */
  predicate Drawn(size: nat, rest: int) {
    size <= rest && size <= STREAK_MAX && (STREAK_MIN <= size || size == rest)
  }

  /** Sizes that may be drawn one after the other to cover `total` blocks. */
  predicate MayCover(sizes: seq<nat>, total: nat) {
    forall i :: 0 <= i < |sizes| ==> Drawn(sizes[i], total - Sum(sizes[..i]))
  }

  lemma CoverMore(sizes: seq<nat>, total: nat, size: nat)
    requires MayCover(sizes, total) && Drawn(size, total - Sum(sizes))
    ensures MayCover(sizes + [size], total) && Sum(sizes + [size]) == Sum(sizes) + size
  {
    var more := sizes + [size];
    assert more[..|sizes|] == sizes;
    forall i | 0 <= i < |more|
      ensures Drawn(more[i], total - Sum(more[..i]))
    {
      if i < |sizes| { assert more[..i] == sizes[..i]; }
    }
  }

  /** All sizes from 1 to 50 that sum to the total may be drawn. */
  lemma AnySizes(sizes: seq<nat>, total: nat)
    requires Sum(sizes) == total && forall i :: 0 <= i < |sizes| ==> 1 <= sizes[i] <= 50
    ensures MayCover(sizes, total)
  {
    forall i | 0 <= i < |sizes|
      ensures Drawn(sizes[i], total - Sum(sizes[..i]))
    {
      SumPrefix(sizes, i);
    }
  }

  /** generate_streak_sizes */
  method GenerateStreakSizes(totalBlocks: nat) returns (sizes: seq<nat>)
    ensures Sum(sizes) == totalBlocks && MayCover(sizes, totalBlocks)
    ensures forall i :: 0 <= i < |sizes| ==> 1 <= sizes[i] <= 50
  {
    sizes := [];
    var covered := 0;
    while covered < totalBlocks
      invariant covered == Sum(sizes) <= totalBlocks
      invariant MayCover(sizes, totalBlocks)
      invariant forall i :: 0 <= i < |sizes| ==> 1 <= sizes[i] <= STREAK_MAX
    {
      var size := RandInt(STREAK_MIN, STREAK_MAX);
      if covered + size > totalBlocks {
        size := totalBlocks - covered;
      }
      CoverMore(sizes, totalBlocks, size);
      sizes := sizes + [size];
      covered := covered + size;
    }
  }

  /** The blocks of a streak are consecutive. */
  predicate Consecutive(streak: seq<int>) {
    forall i :: 0 <= i < |streak| ==> streak[i] == streak[0] + i
  }

  lemma {:induction false} SumPrefix(s: seq<nat>, k: nat)
    requires k < |s|
    ensures Sum(s[..k]) + s[k] == Sum(s[..k + 1]) <= Sum(s)
    decreases |s| - k
  {
    assert s[..k + 1][..k] == s[..k];
    if k + 1 < |s| {
      SumPrefix(s, k + 1);
    } else {
      assert s[..k + 1] == s;
    }
  }

  /** Slices `0..total` into consecutive streaks of the given sizes. */
  method SliceStreaks(sizes: seq<nat>, total: nat) returns (streaks: seq<seq<int>>)
    requires Sum(sizes) == total
    ensures Flat(streaks) == Range(total) && |streaks| == |sizes|
    ensures forall i :: 0 <= i < |streaks| ==> |streaks[i]| == sizes[i] && Consecutive(streaks[i])
  {
    var blocks := Range(total);
    streaks := [];
    var start := 0;
    var i := 0;
    while i < |sizes|
      invariant 0 <= i <= |sizes| && |streaks| == i
      invariant start == Sum(sizes[..i]) <= total
      invariant Flat(streaks) == blocks[..start]
      invariant forall k :: 0 <= k < i ==> |streaks[k]| == sizes[k] && Consecutive(streaks[k])
    {
      SumPrefix(sizes, i);
      var streak := blocks[start..start + sizes[i]];
      assert Consecutive(streak) && |streak| == sizes[i];
      FlatAppend(streaks, streak);
      streaks := streaks + [streak];
      start := start + sizes[i];
      i := i + 1;
    }
    assert sizes[..i] == sizes;
  }

  function Swap(s: seq<seq<int>>, i: nat, j: nat): (r: seq<seq<int>>)
    requires i < |s| && j < |s|
    ensures |r| == |s| && multiset(r) == multiset(s)
  {
    s[i := s[j]][j := s[i]]
  }

  /** Step `k` of a shuffle exchanges the last place that is not yet settled with
      place `j`, drawn among those that are not. */
  predicate ShuffleStep(s: seq<seq<int>>, t: seq<seq<int>>, k: nat, j: nat) {
    k < |s| && j < |s| - k && t == Swap(s, |s| - 1 - k, j)
  }

  /** The states of a shuffle with these draws. */
  predicate Shuffling(states: seq<seq<seq<int>>>, draws: seq<nat>) {
    && |states| == |draws| + 1
    && (forall k :: 0 <= k < |states| ==> |states[k]| == |states[0]|)
    && forall k :: 0 <= k < |draws| ==> ShuffleStep(states[k], states[k + 1], k, draws[k])
  }

  lemma ShufflingMore(states: seq<seq<seq<int>>>, draws: seq<nat>, t: seq<seq<int>>, j: nat)
    requires Shuffling(states, draws) && ShuffleStep(states[|draws|], t, |draws|, j)
    ensures Shuffling(states + [t], draws + [j])
  {
  }

  lemma ShuffleNext(states: seq<seq<seq<int>>>, draws: seq<nat>, s: seq<seq<int>>, i: nat, j: nat)
    requires Shuffling(states, draws) && states[|draws|] == s && i == |s| - 1 - |draws| && j <= i
    ensures Shuffling(states + [Swap(s, i, j)], draws + [j])
    ensures multiset(Swap(s, i, j)) == multiset(s) && multiset(Flat(Swap(s, i, j))) == multiset(Flat(s))
  {
    FlatSwap(s, i, j);
    ShufflingMore(states, draws, Swap(s, i, j), j);
  }

  /** random.shuffle: whatever is drawn, the same streaks in some order. */
  method Shuffle(streaks: seq<seq<int>>)
    returns (shuffled: seq<seq<int>>, ghost states: seq<seq<seq<int>>>, ghost draws: seq<nat>)
    ensures multiset(shuffled) == multiset(streaks)
    ensures multiset(Flat(shuffled)) == multiset(Flat(streaks))
    ensures Shuffling(states, draws) && |draws| == (if streaks == [] then 0 else |streaks| - 1)
    ensures states[0] == streaks && states[|draws|] == shuffled
  {
    shuffled, states, draws := streaks, [streaks], [];
    var i := |shuffled| - 1;
    while i > 0
      invariant |shuffled| == |streaks| && i < |shuffled|
      invariant |draws| == (if streaks == [] then 0 else |streaks| - 1 - i) && (streaks != [] ==> i >= 0)
      invariant Shuffling(states, draws) && states[0] == streaks && states[|draws|] == shuffled
      invariant multiset(shuffled) == multiset(streaks)
      invariant multiset(Flat(shuffled)) == multiset(Flat(streaks))
    {
      var j := RandInt(0, i);
      ShuffleNext(states, draws, shuffled, i, j);
      shuffled := Swap(shuffled, i, j);
      states, draws := states + [shuffled], draws + [j];
      i := i - 1;
    }
  }

  /** Every order of the streaks can be drawn. */
  lemma AnyOrder(s: seq<seq<int>>, r: seq<seq<int>>) returns (states: seq<seq<seq<int>>>, draws: seq<nat>)
    requires multiset(s) == multiset(r)
    ensures Shuffling(states, draws) && |draws| == (if s == [] then 0 else |s| - 1)
    ensures states[0] == s && states[|draws|] == r
  {
    assert |s| == |multiset(s)| == |multiset(r)| == |r|;
    states, draws := SettleLast(s, r, if s == [] then 0 else |s| - 1);
    var t := states[|draws|];
    if s != [] {
      assert t[..1] == [t[0]] && r[..1] == [r[0]];
      assert t[0] in multiset(r[..1]);
      assert t == t[..1] + t[1..] && r == r[..1] + r[1..];
    }
  }

  /** Draws that put the last `k` places of `r` in order. */
  lemma {:induction false} SettleLast(s: seq<seq<int>>, r: seq<seq<int>>, k: nat)
    returns (states: seq<seq<seq<int>>>, draws: seq<nat>)
    requires multiset(s) == multiset(r) && |s| == |r| && k <= |s|
    ensures Shuffling(states, draws) && |draws| == k && states[0] == s && |states[k]| == |s|
    ensures states[k][|s| - k..] == r[|s| - k..]
    ensures multiset(states[k][..|s| - k]) == multiset(r[..|s| - k])
  {
    if k == 0 {
      states, draws := [s], [];
      assert s[..|s|] == s && r[..|s|] == r;
    } else {
      var before, drawn := SettleLast(s, r, k - 1);
      var t, i := before[k - 1], |s| - k;
      var j := PlaceOf(t, r, i);
      var u := Swap(t, i, j);
      ShuffleNext(before, drawn, t, i, j);
      SwapSettles(t, r, i, j);
      states, draws := before + [u], drawn + [j];
      assert states[k] == u && states[0] == before[0];
    }
  }

  lemma PlaceOf(t: seq<seq<int>>, r: seq<seq<int>>, i: nat) returns (j: nat)
    requires |t| == |r| && i < |t| && multiset(t[..i + 1]) == multiset(r[..i + 1])
    ensures j <= i && t[j] == r[i]
  {
    assert r[i] in r[..i + 1];
    assert r[i] in multiset(t[..i + 1]);
    j :| 0 <= j < i + 1 && t[..i + 1][j] == r[i];
  }

  lemma SwapParts(t: seq<seq<int>>, i: nat, j: nat)
    requires j <= i < |t|
    ensures Swap(t, i, j)[i + 1..] == t[i + 1..] && Swap(t, i, j)[i] == t[j]
    ensures Swap(t, i, j)[..i + 1] == Swap(t[..i + 1], i, j)
  {
  }

  lemma SwapSettles(t: seq<seq<int>>, r: seq<seq<int>>, i: nat, j: nat)
    requires |t| == |r| && j <= i < |t| && t[j] == r[i]
    requires t[i + 1..] == r[i + 1..] && multiset(t[..i + 1]) == multiset(r[..i + 1])
    ensures Swap(t, i, j)[i..] == r[i..] && multiset(Swap(t, i, j)[..i]) == multiset(r[..i])
  {
    SwapParts(t, i, j);
    SettledOneMore(Swap(t, i, j), r, i);
  }

  lemma SettledOneMore(u: seq<seq<int>>, r: seq<seq<int>>, i: nat)
    requires |u| == |r| && i < |u| && u[i] == r[i] && u[i + 1..] == r[i + 1..]
    requires multiset(u[..i + 1]) == multiset(r[..i + 1])
    ensures u[i..] == r[i..] && multiset(u[..i]) == multiset(r[..i])
  {
    assert u[i..] == [u[i]] + u[i + 1..] && r[i..] == [r[i]] + r[i + 1..];
    SameInit(u[..i + 1], r[..i + 1]);
    assert u[..i + 1][..i] == u[..i] && r[..i + 1][..i] == r[..i];
  }

  lemma SameInit(s: seq<seq<int>>, r: seq<seq<int>>)
    requires 0 < |s| == |r| && s[|s| - 1] == r[|r| - 1] && multiset(s) == multiset(r)
    ensures multiset(s[..|s| - 1]) == multiset(r[..|r| - 1])
  {
    var last := |s| - 1;
    assert s == s[..last] + [s[last]] && r == r[..last] + [s[last]];
    CancelSum(multiset(s[..last]), multiset(r[..last]), multiset([s[last]]));
  }

  /** The streaks in the order in which they are written. */
  method ShuffledStreaks(nFree: nat) returns (shuffled: seq<seq<int>>)
    ensures multiset(Flat(shuffled)) == multiset(Range(nFree))
    ensures forall s :: s in shuffled ==> 1 <= |s| <= 50 && Consecutive(s)
  {
    var sizes := GenerateStreakSizes(nFree);
    var sliced := SliceStreaks(sizes, nFree);
    ghost var states, draws;
    shuffled, states, draws := Shuffle(sliced);
    forall s | s in shuffled
      ensures 1 <= |s| <= 50 && Consecutive(s)
    {
      assert s in multiset(shuffled);
      assert s in multiset(sliced);
    }
  }

  /** Streak mode writes every block below `nFree` exactly once, in runs. */
  method StreakRows(nFree: nat) returns (rows: seq<int>, ghost streaks: seq<seq<int>>)
    ensures multiset(rows) == multiset(Range(nFree))
    ensures Distinct(rows) && |rows| == nFree && forall x :: x in rows <==> 0 <= x < nFree
    ensures rows == Flat(streaks)
    ensures forall s :: s in streaks ==> 1 <= |s| <= 50 && Consecutive(s)
  {
    var shuffled := ShuffledStreaks(nFree);
    rows, streaks := [], shuffled;
    var i := 0;
    while i < |shuffled|
      invariant 0 <= i <= |shuffled| && rows == Flat(shuffled[..i])
    {
      FlatAppend(shuffled[..i], shuffled[i]);
      assert shuffled[..i + 1] == shuffled[..i] + [shuffled[i]];
      rows := rows + shuffled[i];
      i := i + 1;
    }
    assert shuffled[..i] == shuffled;
    RearrangedDistinct(Range(nFree), rows);
    RangeMembers(nFree);
  }

  /** Shuffle mode draws `nFree` different blocks below `nBlocks`. */
  method ShuffleRows(nBlocks: nat, nFree: nat) returns (rows: seq<int>)
    requires nFree <= nBlocks
    ensures Distinct(rows) && |rows| == nFree
    ensures forall k :: 0 <= k < nFree ==> 0 <= rows[k] < nBlocks
  {
    var blockMap := new int[nBlocks](i => i);
    var blockMapPtr := nBlocks - 1;
    rows := [];
    var i := 0;
    while i < nFree
      invariant 0 <= i <= nFree && |rows| == i && blockMapPtr == nBlocks - 1 - i
      invariant Distinct(blockMap[..])
      invariant forall k :: 0 <= k < nBlocks ==> 0 <= blockMap[k] < nBlocks
      invariant forall k :: 0 <= k < i ==> rows[k] == blockMap[nBlocks - 1 - k]
    {
      var idx := RandInt(0, blockMapPtr);
      rows := rows + [blockMap[idx]];
      SwapDistinct(blockMap[..], idx, blockMapPtr);
      blockMap[idx], blockMap[blockMapPtr] := blockMap[blockMapPtr], blockMap[idx];
      blockMapPtr := blockMapPtr - 1;
      i := i + 1;
    }
    forall j, k | 0 <= j < k < |rows|
      ensures rows[j] != rows[k]
    {
      assert blockMap[..][nBlocks - 1 - j] != blockMap[..][nBlocks - 1 - k];
    }
  }

  lemma SwapDistinct(s: seq<int>, i: nat, j: nat)
    requires Distinct(s) && i < |s| && j < |s|
    ensures Distinct(s[i := s[j]][j := s[i]])
  {
  }

  /** Sequential mode */
  method SequentialRows(nFree: nat) returns (rows: seq<int>)
    ensures rows == Range(nFree)
  {
    rows := [];
    for i := 0 to nFree
      invariant |rows| == i && forall k :: 0 <= k < i ==> rows[k] == k
    {
      rows := rows + [i];
    }
  }
}
