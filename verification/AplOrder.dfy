/** The order hidden in the access-point list.

    Read round robin from the active segment on, the segments of a balanced view
    spell a stack: its `k`-th block is `segs[(pos + k) mod N][k div N]`. A single
    delete pops that stack, a single insert pushes it, and a delete by reference
    takes one block out of it.
 */
module AplOrder {
  import opened Arithmetic
  import opened Ring
  import opened AplModel

  /** Segments from `pos` on hold one block more than the segments before it. */
  ghost predicate Balanced(v: View) {
    && v.pos < |v.segs|
    && forall i :: 0 <= i < |v.segs| ==> |v.segs[i]| == Level(v) - (if i < v.pos then 1 else 0)
  }

  function Level(v: View): nat
    requires v.pos < |v.segs|
  {
    |v.segs[v.pos]|
  }

  /** The number of free blocks of a balanced view. */
  function Size(v: View): int
    requires v.pos < |v.segs|
  {
    |v.segs| * Level(v) - v.pos
  }

  /** The number of free blocks of any view. */
  function Total(segs: seq<seq<int>>): nat {
    if segs == [] then 0 else |segs[0]| + Total(segs[1..])
  }

  lemma {:induction false} TotalOfLevels(segs: seq<seq<int>>, c: nat, p: nat)
    requires p <= |segs|
    requires forall i :: 0 <= i < |segs| ==> |segs[i]| == c - (if i < p then 1 else 0)
    ensures Total(segs) == |segs| * c - p
  {
    if segs != [] {
      TotalOfLevels(segs[1..], c, if p == 0 then 0 else p - 1);
      assert |segs| * c == (|segs| - 1) * c + c;
    }
  }

  lemma SizeIsTotal(v: View)
    requires Balanced(v)
    ensures Size(v) == Total(v.segs)
    ensures CanPop(v) <==> Size(v) > 0
    ensures Size(v) == 0 ==> v.pos == 0
  {
    TotalOfLevels(v.segs, Level(v), v.pos);
    if Level(v) > 0 {
      assert |v.segs| * (Level(v) - 1) >= 0;
    } else {
      assert |v.segs| * Level(v) == 0;
      assert |v.segs[0]| >= 0;
    }
  }

  /** Where position `k` of the stack lies: a segment and a place in it. */
  lemma Slot(v: View, k: nat)
    requires Balanced(v) && k < Size(v)
    ensures 0 <= (v.pos + k) % |v.segs| < |v.segs|
    ensures 0 <= k / |v.segs| < |v.segs[(v.pos + k) % |v.segs|]|
  {
    DealBound(v.pos, k, |v.segs|, Level(v));
  }

  function StackAt(v: View, k: nat): int
    requires 0 < |v.segs|
    requires k / |v.segs| < |v.segs[(v.pos + k) % |v.segs|]|
  {
    v.segs[(v.pos + k) % |v.segs|][k / |v.segs|]
  }

  /** `s` has the block of its slot at position `k`. */
  ghost predicate Holds(v: View, s: seq<int>, k: nat) {
    && 0 < |v.segs| && k < |s|
    && k / |v.segs| < |v.segs[(v.pos + k) % |v.segs|]|
    && s[k] == StackAt(v, k)
  }

  ghost function Stack(v: View): (s: seq<int>)
    requires Balanced(v)
    ensures |s| == Size(v)
    ensures forall k {:trigger Holds(v, s, k)} :: 0 <= k < |s| ==> Holds(v, s, k)
  {
    StackExists(v);
    var s :| |s| == Size(v) && forall k {:trigger Holds(v, s, k)} :: 0 <= k < |s| ==> Holds(v, s, k);
    s
  }

  lemma StackExists(v: View)
    requires Balanced(v)
    ensures exists s :: |s| == Size(v) && forall k {:trigger Holds(v, s, k)} :: 0 <= k < |s| ==> Holds(v, s, k)
  {
    SizeIsTotal(v);
    forall k: nat | k < Size(v)
      ensures k / |v.segs| < |v.segs[(v.pos + k) % |v.segs|]|
    {
      Slot(v, k);
    }
    var s := seq(Size(v), (k: nat) requires k < Size(v) => StackAt(v, k));
    assert forall k {:trigger Holds(v, s, k)} :: 0 <= k < |s| ==> Holds(v, s, k);
  }

  /** The block at position `k` of the stack. */
  lemma StackSlot(v: View, k: nat)
    requires Balanced(v) && k < Size(v)
    ensures 0 <= (v.pos + k) % |v.segs| < |v.segs|
    ensures 0 <= k / |v.segs| < |v.segs[(v.pos + k) % |v.segs|]|
    ensures k < |Stack(v)| && Stack(v)[k] == v.segs[(v.pos + k) % |v.segs|][k / |v.segs|]
  {
    Slot(v, k);
    assert Holds(v, Stack(v), k);
  }

  /** Position of place `j` of segment `i`: the inverse of `Slot`. */
  function StackIndex(v: View, i: nat, j: nat): nat
    requires i < |v.segs| && v.pos < |v.segs|
  {
    j * |v.segs| + Off(i, v.pos, |v.segs|)
  }

  lemma StackIndexInverse(v: View, i: nat, j: nat)
    requires Balanced(v) && i < |v.segs| && j < |v.segs[i]|
    ensures StackIndex(v, i, j) < Size(v)
    ensures (v.pos + StackIndex(v, i, j)) % |v.segs| == i && StackIndex(v, i, j) / |v.segs| == j
    ensures Stack(v)[StackIndex(v, i, j)] == v.segs[i][j]
  {
    DealIndex(v.pos, i, j, |v.segs|, Level(v));
    StackSlot(v, StackIndex(v, i, j));
  }

  /** The stack holds exactly the blocks of the segments. */
  lemma StackMembers(v: View, x: int)
    requires Balanced(v)
    ensures x in Stack(v) <==> IsBlock(v.segs, x)
  {
    if x in Stack(v) {
      var k :| 0 <= k < |Stack(v)| && Stack(v)[k] == x;
      StackSlot(v, k);
      assert InSeg(v.segs, (v.pos + k) % |v.segs|, x);
    }
    if IsBlock(v.segs, x) {
      var i :| InSeg(v.segs, i, x);
      var j :| 0 <= j < |v.segs[i]| && v.segs[i][j] == x;
      StackIndexInverse(v, i, j);
    }
  }

  // ----- single operations -----

  /** One turn of the round robin: from the next segment on, position `k` is what
      was position `k + 1`, one row higher when it lies in the old active segment. */
  lemma Turn(p: nat, k: nat, n: nat)
    requires p < n
    ensures ((p + 1) % n + k) % n == (p + (k + 1)) % n
    ensures (p + (k + 1)) % n == p <==> (k + 1) % n == 0
    ensures (k + 1) / n == if (k + 1) % n == 0 then k / n + 1 else k / n
  {
    ModAdd(p + 1, k, n);
    ModNext(k, n);
    var q, r := (k + 1) / n, (k + 1) % n;
    assert p + (k + 1) == (p + r) + q * n;
    ModShift(p + r, n, q);
    OffUnique(p, r, n);
  }

  lemma PopBalanced(v: View)
    requires Balanced(v) && CanPop(v)
    ensures Balanced(Pop(v)) && Size(Pop(v)) == Size(v) - 1
  {
    var n, c := |v.segs|, Level(v);
    ModNext(v.pos, n);
    DivModUnique(v.pos, n, 0, v.pos);
    assert n * (c - 1) == n * c - n;
  }

  /** A single delete pops the stack. */
  lemma PopIsTail(v: View)
    requires Balanced(v) && CanPop(v)
    ensures Balanced(Pop(v)) && 0 < |Stack(v)|
    ensures v.segs[v.pos][0] == Stack(v)[0]
    ensures Stack(Pop(v)) == Stack(v)[1..]
  {
    SizeIsTotal(v);
    PopBalanced(v);
    StackIndexInverse(v, v.pos, 0);
    forall k | 0 <= k < |Stack(v)| - 1
      ensures Stack(Pop(v))[k] == Stack(v)[k + 1]
    {
      PopSlot(v, k);
    }
  }

  lemma PopSlot(v: View, k: nat)
    requires Balanced(v) && CanPop(v) && Balanced(Pop(v)) && Size(Pop(v)) == Size(v) - 1 && k < Size(v) - 1
    ensures Stack(Pop(v))[k] == Stack(v)[k + 1]
  {
    Turn(v.pos, k, |v.segs|);
    StackSlot(Pop(v), k);
    StackSlot(v, k + 1);
  }

  lemma PushThenPop(v: View, x: int)
    requires v.pos < |v.segs|
    ensures CanPop(Push(v, x)) && Push(v, x).segs[Push(v, x).pos][0] == x
    ensures Pop(Push(v, x)) == v
  {
    var p := (v.pos - 1 + |v.segs|) % |v.segs|;
    BackAndForth(v.pos, |v.segs|);
    assert ([x] + v.segs[p])[1..] == v.segs[p];
    assert v.segs[p := [x] + v.segs[p]][p := v.segs[p]] == v.segs;
  }

  /** A single insert pushes the stack. */
  lemma PushIsCons(v: View, x: int)
    requires Balanced(v)
    ensures Balanced(Push(v, x))
    ensures Stack(Push(v, x)) == [x] + Stack(v)
  {
    var w, n := Push(v, x), |v.segs|;
    PushThenPop(v, x);
    if v.pos == 0 {
      DivModUnique(v.pos - 1 + n, n, 0, n - 1);
    } else {
      DivModUnique(v.pos - 1 + n, n, 1, v.pos - 1);
    }
    assert Balanced(w);
    PopIsTail(w);
    assert Stack(w) == [Stack(w)[0]] + Stack(w)[1..];
  }

  // ----- delete by reference -----

  /** Remove the block at position `m` of the stack from its segment. */
  function Drop(v: View, m: nat): View
    requires CanPop(v)
    requires m / |v.segs| < |v.segs[(v.pos + m) % |v.segs|]|
  {
    DropAt(v, (v.pos + m) % |v.segs|, m / |v.segs|)
  }

  /** Position `m` of `s` removed by letting the top take its place. */
  function TopInto(s: seq<int>, m: nat): seq<int>
    requires m < |s|
  {
    s[m := s[0]][1..]
  }

  /** Which position of the old stack comes to lie at position `k` when the block
      at position `m` of the active segment goes: the active segment's blocks
      above `m` each sink by one row of `n`. */
  function SunkFrom(m: nat, n: nat, k: nat): int
    requires 0 < n
  {
    if (k + 1) % n == 0 && k + 1 <= m then k + 1 - n else k + 1
  }

  /** Rewriting one place of a segment rewrites one position of the stack. */
  lemma StackUpdate(v: View, m: nat, s: nat, j: nat, x: int)
    requires Balanced(v) && s < |v.segs| && j < |v.segs[s]|
    requires m < Size(v) && (v.pos + m) % |v.segs| == s && m / |v.segs| == j
    ensures var w := v.(segs := v.segs[s := v.segs[s][j := x]]);
            Balanced(w) && Stack(w) == Stack(v)[m := x]
  {
    var n, w := |v.segs|, v.(segs := v.segs[s := v.segs[s][j := x]]);
    assert Balanced(w) && Size(w) == Size(v);
    forall k | 0 <= k < Size(v)
      ensures Stack(w)[k] == Stack(v)[m := x][k]
    {
      StackSlot(v, k);
      StackSlot(w, k);
      if (v.pos + k) % n == s && k / n == j {
        SameSlot(v.pos, k, m, n);
      }
    }
  }

  /** Outside the active segment: exchange the block with the top, then pop. */
  lemma DropOutside(v: View, m: nat)
    requires Balanced(v) && m < Size(v) && (v.pos + m) % |v.segs| != v.pos
    ensures CanPop(v) && m / |v.segs| < |v.segs[(v.pos + m) % |v.segs|]|
    ensures Balanced(Drop(v, m))
    ensures Stack(Drop(v, m)) == TopInto(Stack(v), m)
  {
    SizeIsTotal(v);
    StackSlot(v, m);
    var s, j, top := (v.pos + m) % |v.segs|, m / |v.segs|, v.segs[v.pos][0];
    StackUpdate(v, m, s, j, top);
    ExchangeThenPop(v, m, s, j, v.(segs := v.segs[s := v.segs[s][j := top]]));
  }

  lemma ExchangeThenPop(v: View, m: nat, s: nat, j: nat, w: View)
    requires Balanced(v) && CanPop(v) && s < |v.segs| && s != v.pos && j < |v.segs[s]|
    requires w == v.(segs := v.segs[s := v.segs[s][j := v.segs[v.pos][0]]])
    requires Balanced(w) && m < Size(v) && Stack(w) == Stack(v)[m := v.segs[v.pos][0]]
    ensures Balanced(DropAt(v, s, j)) && Stack(DropAt(v, s, j)) == TopInto(Stack(v), m)
  {
    PopIsTail(v);
    PopIsTail(w);
  }

  /** Two stack positions in the same place of the same segment are equal. */
  lemma SameSlot(p: nat, k: nat, m: nat, n: nat)
    requires p < n && (p + k) % n == (p + m) % n && k / n == m / n
    ensures k == m
  {
    ModAdd(k, p, n);
    ModAdd(m, p, n);
    OffUnique(p, k % n, n);
    OffUnique(p, m % n, n);
  }

  /** Inside it: the other blocks keep their order within the segment. */
  lemma DropInside(v: View, m: nat)
    requires Balanced(v) && m < Size(v) && (v.pos + m) % |v.segs| == v.pos
    ensures CanPop(v) && m / |v.segs| < |v.segs[(v.pos + m) % |v.segs|]|
    ensures Balanced(Drop(v, m)) && Size(Drop(v, m)) == Size(v) - 1
    ensures m % |v.segs| == 0
    ensures forall k :: 0 <= k < Size(v) - 1 ==>
              && 0 <= SunkFrom(m, |v.segs|, k) < Size(v)
              && Stack(Drop(v, m))[k] == Stack(v)[SunkFrom(m, |v.segs|, k)]
  {
    SizeIsTotal(v);
    StackSlot(v, m);
    InActive(v.pos, m, |v.segs|);
    SinkFrom(v, m, m / |v.segs|);
  }

  lemma InActive(p: nat, m: nat, n: nat)
    requires p < n && (p + m) % n == p
    ensures m % n == 0
  {
    if m > 0 { Turn(p, m - 1, n); }
  }

  lemma SinkFrom(v: View, m: nat, j: nat)
    requires Balanced(v) && CanPop(v) && m < Size(v) && m % |v.segs| == 0 && j == m / |v.segs| < Level(v)
    ensures Balanced(DropAt(v, v.pos, j)) && Size(DropAt(v, v.pos, j)) == Size(v) - 1
    ensures forall k :: 0 <= k < Size(v) - 1 ==>
              && 0 <= SunkFrom(m, |v.segs|, k) < Size(v)
              && Stack(DropAt(v, v.pos, j))[k] == Stack(v)[SunkFrom(m, |v.segs|, k)]
  {
    var w := Lifted(v, j);
    PopLifted(v, j);
    PopIsTail(w);
    forall k | 0 <= k < Size(v) - 1
      ensures 0 <= SunkFrom(m, |v.segs|, k) < Size(v)
      ensures Stack(DropAt(v, v.pos, j))[k] == Stack(v)[SunkFrom(m, |v.segs|, k)]
    {
      SunkSlot(v, m, w, k);
    }
  }

  /** The active segment with its block at place `j` moved to the front. */
  function Lifted(v: View, j: nat): View
    requires v.pos < |v.segs| && j < |v.segs[v.pos]|
  {
    v.(segs := v.segs[v.pos := [v.segs[v.pos][j]] + Without(v.segs[v.pos], j)])
  }

  lemma PopLifted(v: View, j: nat)
    requires Balanced(v) && j < |v.segs[v.pos]|
    ensures Balanced(Lifted(v, j)) && Size(Lifted(v, j)) == Size(v)
    ensures Pop(Lifted(v, j)) == DropAt(v, v.pos, j)
  {
    var x, rest := v.segs[v.pos][j], Without(v.segs[v.pos], j);
    assert ([x] + rest)[1..] == rest;
    assert Lifted(v, j).segs[v.pos := rest] == v.segs[v.pos := rest];
  }

  lemma SunkSlot(v: View, m: nat, w: View, k: nat)
    requires Balanced(v) && m < Size(v) && m % |v.segs| == 0 && m / |v.segs| < Level(v)
    requires w == Lifted(v, m / |v.segs|)
    requires Balanced(w) && Size(w) == Size(v) && k < Size(v) - 1
    ensures 0 <= SunkFrom(m, |v.segs|, k) < Size(v)
    ensures Stack(w)[k + 1] == Stack(v)[SunkFrom(m, |v.segs|, k)]
  {
    var n, j := |v.segs|, m / |v.segs|;
    Turn(v.pos, k, n);
    StackSlot(w, k + 1);
    StackSlot(v, k + 1);
    if (k + 1) % n == 0 {
      RowOrder(k + 1, m, n);
      RowOrder(n, k + 1, n);
      if k + 1 <= m {
        RowAbove(v.pos, k + 1, n);
        StackSlot(v, k + 1 - n);
      }
    }
  }
}
