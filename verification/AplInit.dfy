/** The segments that start-up cuts the free list into, and when they can be
    allocated completely. */
module AplInit {
  import opened Arithmetic
  import opened Ring
  import opened AplModel
  import opened AplOrder
  import opened AplHeap
  import opened Permutations
  import opened Traces

  /** `n` segments of `len` blocks in file order; the last one keeps what is left. */
  function Cut(rows: seq<int>, len: nat, n: nat): (segs: seq<seq<int>>)
    requires 0 < n && n * len <= |rows|
    ensures |segs| == n
    decreases n
  {
    if n == 1 then [rows]
    else
      Shorter(|rows|, len, n);
      [rows[..len]] + Cut(rows[len..], len, n - 1)
  }

  lemma Shorter(size: nat, len: nat, n: nat)
    requires 1 < n && n * len <= size
    ensures len <= size && (n - 1) * len <= size - len
  {
    MulMonotone(1, n, len);
  }

  /** The segments after start-up. */
  function InitialView(rows: seq<int>, n: nat): (v: View)
    requires 0 < n
    ensures |v.segs| == n && v.pos == 0
  {
    assert n * (|rows| / n) <= |rows|;
    View(Cut(rows, |rows| / n, n), 0)
  }

  lemma {:induction false} CutLengths(rows: seq<int>, len: nat, n: nat)
    requires 0 < n && n * len <= |rows|
    ensures forall i :: 0 <= i < n - 1 ==> |Cut(rows, len, n)[i]| == len
    ensures |Cut(rows, len, n)[n - 1]| == |rows| - (n - 1) * len
    decreases n
  {
    if n > 1 {
      Shorter(|rows|, len, n);
      CutLengths(rows[len..], len, n - 1);
      assert (n - 1) * len == (n - 2) * len + len;
    }
  }

  lemma {:induction false} CutElems(rows: seq<int>, len: nat, n: nat, x: int)
    requires 0 < n && n * len <= |rows|
    ensures IsBlock(Cut(rows, len, n), x) <==> x in rows
    decreases n
  {
    var segs := Cut(rows, len, n);
    if n == 1 {
      assert x in rows ==> InSeg(segs, 0, x);
    } else {
      Shorter(|rows|, len, n);
      CutElems(rows[len..], len, n - 1, x);
      var rest := Cut(rows[len..], len, n - 1);
      assert rows == rows[..len] + rows[len..];
      if IsBlock(segs, x) && x !in rows[..len] {
        var i :| InSeg(segs, i, x);
        assert InSeg(rest, i - 1, x);
      }
      if IsBlock(rest, x) {
        var i :| InSeg(rest, i, x);
        assert InSeg(segs, i + 1, x);
      }
      if x in rows[..len] {
        assert InSeg(segs, 0, x);
      }
    }
  }

  /** The segments read one after the other are the file. */
  lemma {:induction false} CutKeepsFileOrder(rows: seq<int>, len: nat, n: nat)
    requires 0 < n && n * len <= |rows|
    ensures Flat(Cut(rows, len, n)) == rows
    decreases n
  {
    if n > 1 {
      Shorter(|rows|, len, n);
      CutKeepsFileOrder(rows[len..], len, n - 1);
    } else {
      assert Cut(rows, len, n)[1..] == [];
    }
  }

  lemma {:induction false} BodyAppend(segs: seq<seq<int>>, ap: nat, s: seq<int>)
    ensures Body(segs + [s], ap) == Body(segs, ap) + [ap + |segs|] + s
  {
    if segs == [] {
      assert [] + [s] == [s] && [s][1..] == [];
    } else {
      BodyAppend(segs[1..], ap + 1, s);
      assert (segs + [s])[1..] == segs[1..] + [s];
    }
  }

  /** The ring while start-up is under way: `cut` already has its access points,
      `rest` not yet. */
  function PartialRing(nb: nat, n: nat, cut: seq<seq<int>>, rest: seq<int>): seq<int> {
    [nb + n] + Body(cut, nb) + rest
  }

  lemma Interpose(a: seq<int>, b: seq<int>, c: seq<int>, d: seq<int>, e: seq<int>)
    ensures (a + b) + c + (d + e) == a + (b + c + d) + e
  {
  }

  /** Putting the next access point in front of `rest` cuts off one more segment. */
  lemma PartialStep(nb: nat, n: nat, cut: seq<seq<int>>, rest: seq<int>, len: nat)
    requires len <= |rest|
    ensures var k := |Body(cut, nb)|;
            k < |PartialRing(nb, n, cut, rest)| &&
            With(PartialRing(nb, n, cut, rest), k, nb + |cut|) == PartialRing(nb, n, cut + [rest[..len]], rest[len..])
  {
    BodyAppend(cut, nb, rest[..len]);
    var k := |Body(cut, nb)|;
    assert rest == rest[..len] + rest[len..];
    assert PartialRing(nb, n, cut, rest)[..k + 1] == [nb + n] + Body(cut, nb);
    assert PartialRing(nb, n, cut, rest)[k + 1..] == rest;
    assert With(PartialRing(nb, n, cut, rest), k, nb + |cut|) == ([nb + n] + Body(cut, nb)) + [nb + |cut|] + rest;
    Interpose([nb + n], Body(cut, nb), [nb + |cut|], rest[..len], rest[len..]);
  }

  /** What is left at the end belongs to the last segment. */
  function Extend(cut: seq<seq<int>>, rest: seq<int>): seq<seq<int>>
    requires cut != []
  {
    cut[|cut| - 1 := cut[|cut| - 1] + rest]
  }

  lemma PartialEnd(nb: nat, cut: seq<seq<int>>, rest: seq<int>)
    requires cut != []
    ensures PartialRing(nb, |cut|, cut, rest) == RingOf(nb, Extend(cut, rest))
  {
    var init, last := cut[..|cut| - 1], cut[|cut| - 1];
    assert cut == init + [last] && Extend(cut, rest) == init + [last + rest];
    BodyAppend(init, nb, last);
    BodyAppend(init, nb, last + rest);
  }

  /** `cut` and `rest` are `rows` after some rounds of cutting off `len` blocks. */
  ghost predicate Cutting(rows: seq<int>, cut: seq<seq<int>>, rest: seq<int>, len: nat, n: nat) {
    && 0 < n && n * len <= |rows|
    && |cut| <= n
    && |rest| == |rows| - |cut| * len
    && (|cut| < n ==> (n - |cut|) * len <= |rest| && cut + Cut(rest, len, n - |cut|) == Cut(rows, len, n))
    && (|cut| == n ==> Extend(cut, rest) == Cut(rows, len, n))
  }

  lemma CutStep(rows: seq<int>, cut: seq<seq<int>>, rest: seq<int>, len: nat, n: nat)
    requires Cutting(rows, cut, rest, len, n) && |cut| < n
    ensures len <= |rest| && Cutting(rows, cut + [rest[..len]], rest[len..], len, n)
  {
    var m := n - |cut|;
    assert (|cut| + 1) * len == |cut| * len + len;
    if m > 1 {
      Shorter(|rest|, len, m);
      assert Cut(rest, len, m) == [rest[..len]] + Cut(rest[len..], len, m - 1);
      assert cut + [rest[..len]] + Cut(rest[len..], len, m - 1) == cut + ([rest[..len]] + Cut(rest[len..], len, m - 1));
    } else {
      assert rest[..len] + rest[len..] == rest;
    }
  }

  lemma CutStart(rows: seq<int>, n: nat)
    requires 0 < n
    ensures Cutting(rows, [], rows, |rows| / n, n)
  {
    assert [] + Cut(rows, |rows| / n, n) == Cut(rows, |rows| / n, n);
  }

  lemma CutEnd(rows: seq<int>, cut: seq<seq<int>>, rest: seq<int>, n: nat)
    requires 0 < n == |cut| && Cutting(rows, cut, rest, |rows| / n, n)
    ensures InitialView(rows, n) == View(Extend(cut, rest), 0)
    ensures |rest| == |rows| % n
  {
  }

  /** What start-up has done when `cut` has its access points and `rest` not. */
  ghost predicate Placing(h: Heap, cut: seq<seq<int>>, rest: seq<int>, len: nat) {
    && |cut| <= |h.counts| && h.pos == 0
    && |h.links.next| == |h.links.prev| == |h.tag| == h.nb + |h.counts| + 1
    && Threads(h.links, PartialRing(h.nb, |h.counts|, cut, rest))
    && Distinct(rest)
    && (forall k :: 0 <= k < |rest| ==> 0 <= rest[k] < h.nb)
    && (forall s, x :: InSeg(cut, s, x) ==> 0 <= x < h.nb && h.tag[x] == s && x !in rest)
    && (forall s :: 0 <= s < |cut| ==> |cut[s]| == len)
    && (forall s :: 0 <= s < |h.counts| ==> h.counts[s] == if s < |cut| then len else 0)
  }

  lemma PlacedLinks(h: Heap, cut: seq<seq<int>>, rest: seq<int>, len: nat)
    requires Placing(h, cut, rest, len) && 0 < |cut| == |h.counts|
    ensures Linked(h, View(Extend(cut, rest), 0))
  {
    PartialEnd(h.nb, cut, rest);
    var segs := Extend(cut, rest);
    forall i, x | InSeg(segs, i, x)
      ensures 0 <= x < h.nb
    {
      assert InSeg(cut, i, x) || x in rest;
    }
  }

  /** With no block left over, memory is tagged and counted, and the view balanced. */
  lemma PlacedBalances(h: Heap, cut: seq<seq<int>>, len: nat)
    requires Placing(h, cut, [], len) && 0 < |cut| == |h.counts|
    ensures Extend(cut, []) == cut
    ensures Rep(h, View(cut, 0)) && Good(View(cut, 0))
  {
    PlacedLinks(h, cut, [], len);
    assert cut[|cut| - 1] + [] == cut[|cut| - 1];
    assert Extend(cut, []) == cut;
    LinkedIsGood(h, View(cut, 0));
  }

  /** The next segment, once its access point is linked and its blocks are tagged. */
  lemma PlacingStep(g: Heap, h: Heap, cut: seq<seq<int>>, rest: seq<int>, len: nat)
    requires Placing(g, cut, rest, len) && |cut| < |g.counts| && len <= |rest|
    requires h.nb == g.nb && h.pos == 0 && |h.counts| == |g.counts|
    requires |h.links.next| == |h.links.prev| == |h.tag| == |g.tag|
    requires Threads(h.links, PartialRing(h.nb, |h.counts|, cut + [rest[..len]], rest[len..]))
    requires forall k :: 0 <= k < len ==> h.tag[rest[k]] == |cut|
    requires forall x :: 0 <= x < h.nb && x !in rest[..len] ==> h.tag[x] == g.tag[x]
    requires forall s :: 0 <= s < |h.counts| ==> h.counts[s] == g.counts[s] + if s == |cut| then len else 0
    ensures Placing(h, cut + [rest[..len]], rest[len..], len)
  {
    var done, tail := cut + [rest[..len]], rest[len..];
    forall s, x | InSeg(done, s, x)
      ensures 0 <= x < h.nb && h.tag[x] == s && x !in tail
    {
      if s < |cut| {
        assert InSeg(cut, s, x);
        assert x !in rest;
      }
    }
  }

  /** The node behind an access point when it is linked: the first block of its
      segment, of the file, or the head. */
  function FirstNode(seg: seq<int>, rows: seq<int>, head: int): int {
    if seg != [] then seg[0] else if rows != [] then rows[0] else head
  }

  /** Access point `s` carries its negated number, and the negated number of the node
      behind it. */
  ghost predicate SignedAt(nb: nat, tag: seq<int>, value: seq<int>, rows: seq<int>, seg: seq<int>, head: int, s: nat) {
    var f := FirstNode(seg, rows, head);
    && (0 <= f < nb || f == head)
    && nb + s < head < |tag| == |value| && tag[nb + s] + s == 0 && value[nb + s] == -value[f]
  }

  ghost predicate Signed(nb: nat, tag: seq<int>, value: seq<int>, rows: seq<int>, segs: seq<seq<int>>, head: int) {
    && (forall s :: 0 <= s < |segs| ==> SignedAt(nb, tag, value, rows, segs[s], head, s))
    && (forall k :: 0 <= k < |rows| ==> 0 <= rows[k] < nb < |value| && value[rows[k]] == k)
  }

  lemma SignedStep(nb: nat, tag0: seq<int>, value0: seq<int>, tag: seq<int>, value: seq<int>,
                   rows: seq<int>, cut: seq<seq<int>>, rest: seq<int>, len: nat, head: int)
    requires Signed(nb, tag0, value0, rows, cut, head) && nb + |cut| < head < |tag|
    requires len <= |rest| && (len == 0 ==> rest == rows) && forall k :: 0 <= k < |rest| ==> 0 <= rest[k] < nb
    requires |tag| == |value| == |tag0| == |value0|
    requires tag[nb + |cut|] == -|cut| && value[nb + |cut|] == -value0[if rest == [] then head else rest[0]]
    requires forall x :: nb <= x < |tag| && x != nb + |cut| ==> tag[x] == tag0[x]
    requires forall x :: 0 <= x < |value| && x != nb + |cut| ==> value[x] == value0[x]
    ensures Signed(nb, tag, value, rows, cut + [rest[..len]], head)
  {
    var done := cut + [rest[..len]];
    forall s | 0 <= s < |done|
      ensures SignedAt(nb, tag, value, rows, done[s], head, s)
    {
      if s < |cut| { assert SignedAt(nb, tag0, value0, rows, cut[s], head, s); }
    }
  }

  /** What is left goes to the last segment, behind the blocks it has already. */
  lemma SignedEnd(nb: nat, tag: seq<int>, value: seq<int>, rows: seq<int>, cut: seq<seq<int>>, rest: seq<int>, head: int)
    requires Signed(nb, tag, value, rows, cut, head) && cut != []
    requires cut[|cut| - 1] == [] ==> rest == rows
    ensures Signed(nb, tag, value, rows, Extend(cut, rest), head)
  {
    var segs := Extend(cut, rest);
    forall s | 0 <= s < |segs|
      ensures SignedAt(nb, tag, value, rows, segs[s], head, s)
    {
      assert SignedAt(nb, tag, value, rows, cut[s], head, s);
    }
  }

  /** The first `len` blocks of every segment carry its number. */
  ghost predicate TaggedFirst(tag: seq<int>, segs: seq<seq<int>>, len: nat) {
    forall i, j :: 0 <= i < |segs| && 0 <= j < len && j < |segs[i]| ==> 0 <= segs[i][j] < |tag| && tag[segs[i][j]] == i
  }

  /** After the loop the first `len` blocks of every segment carry its number. */
  lemma PlacedTags(h: Heap, cut: seq<seq<int>>, rest: seq<int>, len: nat)
    requires cut != [] && Placing(h, cut, rest, len)
    ensures TaggedFirst(h.tag, Extend(cut, rest), len)
  {
    var segs := Extend(cut, rest);
    forall i, j | 0 <= i < |segs| && 0 <= j < len && j < |segs[i]|
      ensures 0 <= segs[i][j] < |h.tag| && h.tag[segs[i][j]] == i
    {
      assert InSeg(cut, i, cut[i][j]);
    }
  }

  /** The counters, tags and values that start-up leaves in memory. */
  lemma StartedUp(h: Heap, value: seq<int>, rows: seq<int>, cut: seq<seq<int>>, rest: seq<int>, n: nat, len: nat)
    requires 0 < n == |cut| == |h.counts| && len == |rows| / n && (len == 0 ==> rest == rows)
    requires Cutting(rows, cut, rest, len, n) && Placing(h, cut, rest, len)
    requires Signed(h.nb, h.tag, value, rows, cut, h.nb + n)
    ensures forall i :: 0 <= i < n ==> h.counts[i] == len
    ensures TaggedFirst(h.tag, InitialView(rows, n).segs, len)
    ensures Signed(h.nb, h.tag, value, rows, InitialView(rows, n).segs, h.nb + n)
  {
    PlacedTags(h, cut, rest, len);
    CutEnd(rows, cut, rest, n);
    SignedEnd(h.nb, h.tag, value, rows, cut, rest, h.nb + n);
  }

  lemma PlacingDone(h: Heap, rows: seq<int>, cut: seq<seq<int>>, rest: seq<int>, n: nat)
    requires 0 < n == |cut| == |h.counts|
    requires Cutting(rows, cut, rest, |rows| / n, n) && Placing(h, cut, rest, |rows| / n)
    ensures Linked(h, InitialView(rows, n))
    ensures |rows| % n == 0 ==> Rep(h, InitialView(rows, n)) && Good(InitialView(rows, n))
  {
    CutEnd(rows, cut, rest, n);
    PlacedLinks(h, cut, rest, |rows| / n);
    if |rest| == 0 {
      assert rest == [];
      PlacedBalances(h, cut, |rows| / n);
    }
  }

  /** Start-up makes a balanced list exactly when the number of free blocks is a
      multiple of the number of access points. */
  lemma InitialBalance(rows: seq<int>, n: nat)
    requires 0 < n
    ensures Balanced(InitialView(rows, n)) <==> |rows| % n == 0
  {
    var len, v := |rows| / n, InitialView(rows, n);
    CutLengths(rows, len, n);
    assert |rows| == n * len + |rows| % n;
    assert n * len == (n - 1) * len + len;
    assert |v.segs[n - 1]| == len + |rows| % n;
    assert n > 1 ==> |v.segs[0]| == len;
    if n == 1 { DivModUnique(|rows|, 1, |rows|, 0); }
  }

  lemma {:induction false} CutAt(rows: seq<int>, len: nat, n: nat, i: nat, j: nat)
    requires 0 < n && n * len <= |rows| && i < n && j < len
    ensures 0 <= i * len + j < |rows| && j < |Cut(rows, len, n)[i]|
    ensures Cut(rows, len, n)[i][j] == rows[i * len + j]
    decreases n
  {
    CutLengths(rows, len, n);
    MulMonotone(i + 1, n, len);
    assert (i + 1) * len == i * len + len;
    if n > 1 && i > 0 {
      Shorter(|rows|, len, n);
      CutAt(rows[len..], len, n - 1, i - 1, j);
      assert (i - 1) * len == i * len - len;
    }
  }

  /** The order in which a freshly started list hands out the file: the first rows
      of all segments, then the second rows, and so on. */
  lemma InitialOrder(rows: seq<int>, n: nat, k: nat)
    requires 0 < n && |rows| % n == 0 && k < |rows|
    ensures Balanced(InitialView(rows, n)) && Size(InitialView(rows, n)) == |rows|
    ensures 0 <= k % n * (|rows| / n) + k / n < |rows|
    ensures Stack(InitialView(rows, n))[k] == rows[k % n * (|rows| / n) + k / n]
  {
    InitialSlot(rows, n, k);
    CutAt(rows, |rows| / n, n, k % n, k / n);
  }

  lemma InitialSlot(rows: seq<int>, n: nat, k: nat)
    requires 0 < n && |rows| % n == 0 && k < |rows|
    ensures Balanced(InitialView(rows, n)) && Size(InitialView(rows, n)) == |rows| == n * (|rows| / n)
    ensures 0 <= k % n < n && 0 <= k / n < |rows| / n && k / n < |InitialView(rows, n).segs[k % n]|
    ensures Stack(InitialView(rows, n))[k] == InitialView(rows, n).segs[k % n][k / n]
  {
    InitialSize(rows, n);
    assert |rows| == n * (|rows| / n);
    StackSlot(InitialView(rows, n), k);
    DealBound(0, k, n, |rows| / n);
  }

  lemma SameDigits(a: nat, i: nat, b: nat, j: nat, len: nat)
    requires i < len && j < len && a * len + i == b * len + j
    ensures a == b && i == j
  {
    DivModUnique(a * len + i, len, a, i);
    DivModUnique(a * len + i, len, b, j);
  }

  lemma OrderInjective(n: nat, len: nat, k: nat, l: nat)
    requires 0 < n && k < n * len && l < n * len
    requires k % n * len + k / n == l % n * len + l / n
    ensures k == l
  {
    DealBound(0, k, n, len);
    DealBound(0, l, n, len);
    SameDigits(k % n, k / n, l % n, l / n, len);
    assert k == k / n * n + k % n && l == l / n * n + l % n;
  }

  lemma InitialDistinct(rows: seq<int>, n: nat)
    requires 0 < n && |rows| % n == 0 && Distinct(rows)
    ensures Good(InitialView(rows, n))
  {
    var len, v := |rows| / n, InitialView(rows, n);
    InitialSize(rows, n);
    assert n * len == |rows|;
    var s := Stack(v);
    forall k, l | 0 <= k < l < |s|
      ensures s[k] != s[l]
    {
      InitialOrder(rows, n, k);
      InitialOrder(rows, n, l);
      if k % n * len + k / n == l % n * len + l / n {
        OrderInjective(n, len, k, l);
      }
    }
  }

  /** From a map without repetitions the segments hold exactly its blocks, each once
      and in file order; a map of full rounds makes a good list of them. */
  lemma InitialGood(rows: seq<int>, n: nat)
    requires 0 < n && Distinct(rows)
    ensures Flat(InitialView(rows, n).segs) == rows && Distinct(Flat(InitialView(rows, n).segs))
    ensures forall x :: IsBlock(InitialView(rows, n).segs, x) <==> x in rows
    ensures |rows| % n == 0 ==> Good(InitialView(rows, n)) && FreeSet(InitialView(rows, n)) == Elems(rows)
  {
    var v := InitialView(rows, n);
    CutKeepsFileOrder(rows, |rows| / n, n);
    forall x
      ensures IsBlock(v.segs, x) <==> x in rows
    {
      CutElems(rows, |rows| / n, n, x);
    }
    if |rows| % n == 0 {
      InitialDistinct(rows, n);
      forall x
        ensures x in FreeSet(v) <==> x in Elems(rows)
      {
        StackMembers(v, x);
      }
    }
  }

  // ----- draining the list -----

  /** `k` single deletes in a row all find a block. */
  predicate CanPopMany(v: View, k: nat)
    decreases k
  {
    k == 0 || (CanPop(v) && CanPopMany(Pop(v), k - 1))
  }

  ghost function Popped(v: View, k: nat): View
    requires CanPopMany(v, k)
    decreases k
  {
    if k == 0 then v else Popped(Pop(v), k - 1)
  }

  lemma {:induction false} BalancedDrains(v: View, k: nat)
    requires Balanced(v) && k <= Size(v)
    ensures CanPopMany(v, k)
    ensures Balanced(Popped(v, k)) && Size(Popped(v, k)) == Size(v) - k
    ensures |Popped(v, k).segs| == |v.segs|
    decreases k
  {
    if k > 0 {
      SizeIsTotal(v);
      PopBalanced(v);
      BalancedDrains(Pop(v), k - 1);
    }
  }

  function WithTail(v: View, tail: seq<int>): View
    requires v.segs != []
  {
    var last := |v.segs| - 1;
    v.(segs := v.segs[last := v.segs[last] + tail])
  }

  lemma {:induction false} CutTail(rows: seq<int>, tail: seq<int>, len: nat, n: nat)
    requires 0 < n && n * len <= |rows|
    ensures Cut(rows + tail, len, n) == WithTail(View(Cut(rows, len, n), 0), tail).segs
    decreases n
  {
    if n > 1 {
      Shorter(|rows|, len, n);
      CutTail(rows[len..], tail, len, n - 1);
      assert (rows + tail)[len..] == rows[len..] + tail;
      assert (rows + tail)[..len] == rows[..len];
    }
  }

  lemma PopTail(v: View, tail: seq<int>)
    requires CanPop(v)
    ensures CanPop(WithTail(v, tail)) && Pop(WithTail(v, tail)) == WithTail(Pop(v), tail)
  {
    var a, b := Pop(WithTail(v, tail)), WithTail(Pop(v), tail);
    assert (v.segs[v.pos] + tail)[1..] == v.segs[v.pos][1..] + tail;
    assert a.segs == b.segs;
  }

  /** Blocks waiting at the end of the last segment do not disturb earlier pops. */
  lemma {:induction false} TailStays(v: View, tail: seq<int>, k: nat)
    requires CanPopMany(v, k) && v.segs != []
    ensures Popped(v, k).segs != []
    ensures CanPopMany(WithTail(v, tail), k)
    ensures Popped(WithTail(v, tail), k) == WithTail(Popped(v, k), tail)
    decreases k
  {
    if k > 0 {
      PopTail(v, tail);
      TailStays(Pop(v), tail, k - 1);
    }
  }

  lemma {:induction false} CanPopPrefix(v: View, k: nat, l: nat)
    requires CanPopMany(v, k + l)
    ensures CanPopMany(v, k) && CanPopMany(Popped(v, k), l)
    decreases k
  {
    if k > 0 {
      CanPopPrefix(Pop(v), k - 1, l);
    }
  }

  lemma InitialSize(rows: seq<int>, n: nat)
    requires 0 < n && |rows| % n == 0
    ensures Balanced(InitialView(rows, n)) && Size(InitialView(rows, n)) == |rows|
  {
    var len := |rows| / n;
    InitialBalance(rows, n);
    CutLengths(rows, len, n);
    assert (n - 1) * len + len == n * len == |rows|;
    var v := InitialView(rows, n);
    assert v.segs[n - 1] == v.segs[0] || n > 1;
    assert Level(v) == len;
  }

  lemma StuckStaysStuck(v: View, k: nat, l: nat)
    requires CanPopMany(v, k) && !CanPop(Popped(v, k)) && l > 0
    ensures !CanPopMany(v, k + l)
  {
    if CanPopMany(v, k + l) {
      CanPopPrefix(v, k, l);
    }
  }

  lemma DrainedBeforeTail(v: View, tail: seq<int>)
    requires Balanced(v) && |v.segs| > 1 && Size(v) >= 0
    ensures CanPopMany(WithTail(v, tail), Size(v))
    ensures var w := Popped(WithTail(v, tail), Size(v));
            |w.segs| == |v.segs| && !CanPop(w) && w.segs[|w.segs| - 1] == tail
  {
    BalancedDrains(v, Size(v));
    var w := Popped(v, Size(v));
    SizeIsTotal(w);
    TailStays(v, tail, Size(v));
    assert Level(w) == 0 && w.pos == 0;
    assert |w.segs[|w.segs| - 1]| == 0;
  }

  /** After all full rounds an unbalanced start leaves the remaining blocks in the
      last segment while the active segment is empty. */
  lemma RemainderStrands(rows: seq<int>, n: nat, full: nat)
    requires 0 < n && |rows| % n != 0 && full == |rows| - |rows| % n
    ensures CanPopMany(InitialView(rows, n), full)
    ensures var w := Popped(InitialView(rows, n), full);
            |w.segs| == n && !CanPop(w) && w.segs[n - 1] == rows[full..]
  {
    var len := |rows| / n;
    assert full == n * len;
    var v := InitialView(rows[..full], n);
    DivModUnique(full, n, len, 0);
    InitialSize(rows[..full], n);
    assert rows == rows[..full] + rows[full..];
    CutTail(rows[..full], rows[full..], len, n);
    if n == 1 { DivModUnique(|rows|, 1, |rows|, 0); }
    assert WithTail(v, rows[full..]) == InitialView(rows, n);
    DrainedBeforeTail(v, rows[full..]);
  }

  /** In that state blocks are free, but the access point offers a sentinel. */
  lemma RemainderOffersSentinel(h: Heap, rows: seq<int>, n: nat, full: nat)
    requires 0 < n && |rows| % n != 0 && full == |rows| - |rows| % n
    requires CanPopMany(InitialView(rows, n), full)
    requires Linked(h, Popped(InitialView(rows, n), full))
    ensures IsNode(h.links, h.nb + h.pos) && !(0 <= Offered(h) < h.nb)
    ensures full < |rows| && IsBlock(Popped(InitialView(rows, n), full).segs, rows[full])
  {
    RemainderStrands(rows, n, full);
    var w := Popped(InitialView(rows, n), full);
    OfferedIsBlock(h, w);
    assert full < |rows|;
    assert rows[full..][0] == rows[full];
    assert InSeg(w.segs, n - 1, rows[full]);
  }

  lemma FullRoundsDrain(rows: seq<int>, n: nat)
    requires 0 < n && |rows| % n == 0
    ensures CanPopMany(InitialView(rows, n), |rows|)
  {
    InitialSize(rows, n);
    BalancedDrains(InitialView(rows, n), |rows|);
  }

  lemma RemainderBlocks(rows: seq<int>, n: nat, r: nat)
    requires 0 < n && r == |rows| % n && r > 0
    ensures !CanPopMany(InitialView(rows, n), |rows|)
  {
    assert |rows| == n * (|rows| / n) + r;
    var v, full := InitialView(rows, n), |rows| - r;
    RemainderStrands(rows, n, full);
    StuckStaysStuck(v, full, r);
  }

  /** All free blocks can be allocated one by one exactly when their number is a
      multiple of the number of access points. */
  lemma DrainsCompletely(rows: seq<int>, n: nat)
    requires 0 < n
    ensures CanPopMany(InitialView(rows, n), |rows|) <==> |rows| % n == 0
  {
    if |rows| % n == 0 {
      FullRoundsDrain(rows, n);
    } else {
      RemainderBlocks(rows, n, |rows| % n);
    }
  }
}
