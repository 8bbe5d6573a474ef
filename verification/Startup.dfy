/** Reading an allocation map into a ring, as `apl.c` and `ll.c` both do: link the
    blocks in file order, number them, then walk the ring and check the numbers. */
module Startup {
  import opened Ring

  /** After `i` rows the block in row `k` carries the number of a row that names
      it, `k` or a later one. */
  ghost predicate StampedAt(value: seq<int>, rows: seq<int>, i: nat, k: nat)
    requires k < i <= |rows|
  {
    && 0 <= rows[k] < |value|
    && k <= value[rows[k]] < i
    && rows[value[rows[k]]] == rows[k]
  }

  ghost predicate Stamped(value: seq<int>, rows: seq<int>, i: nat)
    requires i <= |rows|
  {
    forall k :: 0 <= k < i ==> StampedAt(value, rows, i, k)
  }

  ghost predicate Stays(value: seq<int>, rows: seq<int>, k: nat)
    requires k < |rows|
  {
    0 <= rows[k] < |value| && value[rows[k]] == k
  }

  /** Blocks whose last row is `k` point to row `k + 1`. */
  ghost predicate Chained(next: seq<int>, value: seq<int>, head: int, rows: seq<int>, i: nat)
    requires i <= |rows| && |next| == |value|
  {
    && 0 <= head < |next|
    && (i > 0 ==> next[head] == rows[0])
    && forall k :: 0 <= k < i - 1 && Stays(value, rows, k) ==> next[rows[k]] == rows[k + 1]
  }

  ghost predicate BackChained(prev: seq<int>, value: seq<int>, head: int, rows: seq<int>, i: nat)
    requires i <= |rows| && |prev| == |value|
  {
    forall k :: 0 <= k < i && Stays(value, rows, k) ==> prev[rows[k]] == if k == 0 then head else rows[k - 1]
  }

  ghost predicate Closed(next: seq<int>, value: seq<int>, head: int, rows: seq<int>)
    requires |next| == |value|
  {
    && Stamped(value, rows, |rows|)
    && Chained(next, value, head, rows, |rows|)
    && (rows == [] ==> next[head] == head)
    && (rows != [] ==> StampedAt(value, rows, |rows|, |rows| - 1) && next[rows[|rows| - 1]] == head)
  }

  /** One row keeps what is known of the rows before it. */
  lemma StampRow(value: seq<int>, rows: seq<int>, i: nat)
    requires i < |rows| && Stamped(value, rows, i) && 0 <= rows[i] < |value|
    ensures Stamped(value[rows[i] := i], rows, i + 1)
    ensures forall k :: 0 <= k < i && Stays(value[rows[i] := i], rows, k) ==> Stays(value, rows, k) && rows[k] != rows[i]
  {
    var stamped, last := value[rows[i] := i], i + 1;
    forall k | 0 <= k < last
      ensures StampedAt(stamped, rows, last, k)
    {
      assert k < i ==> StampedAt(value, rows, i, k);
    }
  }

  lemma LinkRow(next: seq<int>, prev: seq<int>, value: seq<int>, head: int, rows: seq<int>, i: nat)
    requires i < |rows| && |next| == |prev| == |value| && 0 <= head < |next|
    requires forall k :: 0 <= k < |rows| ==> 0 <= rows[k] < |next| && rows[k] != head
    requires Stamped(value, rows, i)
    requires Chained(next, value, head, rows, i) && BackChained(prev, value, head, rows, i)
    ensures var v, p := value[rows[i] := i], if i == 0 then head else rows[i - 1];
            && Stamped(v, rows, i + 1)
            && Chained(next[p := rows[i]], v, head, rows, i + 1)
            && BackChained(prev[rows[i] := p], v, head, rows, i + 1)
  {
    StampRow(value, rows, i);
    var v, p := value[rows[i] := i], if i == 0 then head else rows[i - 1];
    forall k | 0 <= k < i && Stays(v, rows, k)
      ensures next[p := rows[i]][rows[k]] == rows[k + 1]
    {
      if k < i - 1 {
        assert StampedAt(value, rows, i, i - 1);
      }
    }
  }

  lemma CloseRow(next: seq<int>, value: seq<int>, head: int, rows: seq<int>)
    requires |next| == |value| && 0 <= head < |next|
    requires forall k :: 0 <= k < |rows| ==> 0 <= rows[k] < |next| && rows[k] != head
    requires Stamped(value, rows, |rows|) && Chained(next, value, head, rows, |rows|)
    ensures Closed(next[(if rows == [] then head else rows[|rows| - 1]) := head], value, head, rows)
  {
    if rows != [] {
      assert StampedAt(value, rows, |rows|, |rows| - 1);
    }
  }

  /** The loop that links the blocks, and the two stores that close the ring. */
  method LinkRows(next: array<int>, prev: array<int>, value: array<int>, head: int, rows: seq<int>)
    requires next != prev && next != value && prev != value
    requires next.Length == prev.Length == value.Length
    requires 0 <= head < next.Length
    requires forall k :: 0 <= k < |rows| ==> 0 <= rows[k] < next.Length && rows[k] != head
    modifies next, prev, value
    ensures Closed(next[..], value[..], head, rows)
    ensures Distinct(rows) ==> Threads(Links(next[..], prev[..]), [head] + rows)
    ensures Distinct(rows) ==> forall k :: 0 <= k < |rows| ==> value[rows[k]] == k
  {
    var blocksFree := 0;
    var p := head;
    while blocksFree < |rows|
      invariant 0 <= blocksFree <= |rows|
      invariant p == if blocksFree == 0 then head else rows[blocksFree - 1]
      invariant Stamped(value[..], rows, blocksFree)
      invariant Chained(next[..], value[..], head, rows, blocksFree)
      invariant BackChained(prev[..], value[..], head, rows, blocksFree)
    {
      var node := rows[blocksFree];
      LinkRow(next[..], prev[..], value[..], head, rows, blocksFree);
      value[node] := blocksFree;
      next[p] := node;
      prev[node] := p;
      p := node;
      blocksFree := blocksFree + 1;
    }
    CloseRow(next[..], value[..], head, rows);
    next[p] := head;
    prev[head] := p;
    if Distinct(rows) {
      RowsThread(next[..], prev[..], value[..], head, rows);
    }
  }

  lemma RowsThread(next: seq<int>, prev: seq<int>, value: seq<int>, head: int, rows: seq<int>)
    requires |next| == |prev| == |value| && 0 <= head < |next|
    requires Distinct(rows) && forall k :: 0 <= k < |rows| ==> 0 <= rows[k] < |next| && rows[k] != head
    requires Closed(next, value, head, rows) && BackChained(prev, value, head, rows, |rows|)
    requires prev[head] == if rows == [] then head else rows[|rows| - 1]
    ensures Threads(Links(next, prev), [head] + rows)
    ensures forall k :: 0 <= k < |rows| ==> value[rows[k]] == k
  {
    var ring := [head] + rows;
    forall k | 0 <= k < |rows|
      ensures value[rows[k]] == k
    {
      assert StampedAt(value, rows, |rows|, k);
    }
    forall k | 0 <= k < |ring|
      ensures LinkedAt(Links(next, prev), ring, k)
    {
      assert forall i :: 0 <= i < |rows| ==> StampedAt(value, rows, |rows|, i) && Stays(value, rows, i);
    }
  }

  /** The start-up check: walk the ring and compare every number. It succeeds
      exactly when the map names no block twice. */
  method CheckRows(next: array<int>, value: array<int>, head: int, ghost rows: seq<int>) returns (ok: bool)
    requires next.Length == value.Length && Closed(next[..], value[..], head, rows)
    requires head !in rows
    ensures ok <==> Distinct(rows)
  {
    var current := next[head];
    var v := 0;
    while current != head
      invariant 0 <= v <= |rows|
      invariant current == if v < |rows| then rows[v] else head
      invariant forall k :: 0 <= k < v ==> Stays(value[..], rows, k)
      decreases |rows| - v
    {
      assert v < |rows|;
      assert StampedAt(value[..], rows, |rows|, v);
      if value[current] != v {
        ghost var w := value[current];
        assert v < w && rows[w] == rows[v];
        return false;
      }
      assert Stays(value[..], rows, v);
      current := next[current];
      v := v + 1;
    }
    assert v == |rows|;
    forall i, j | 0 <= i < j < |rows|
      ensures rows[i] != rows[j]
    {
      assert Stays(value[..], rows, i) && Stays(value[..], rows, j);
    }
    return true;
  }
}
