/** The doubly linked rings of `common.c`.

    A node is a number and its `next` and `prev` fields are two entries of `Links`.
    `Threads(l, ring)` says that the fields in `l` form one cycle that visits
    exactly the nodes of `ring`, in that order. Each macro of `common.c` is a
    function on `Links`, a method on the two field arrays that computes it, and a
    lemma that says what it does to the ring.
 */
module Ring {

  datatype Links = Links(next: seq<int>, prev: seq<int>)

  const NULL := -1

  predicate IsNode(l: Links, x: int) {
    |l.next| == |l.prev| && 0 <= x < |l.next|
  }

  /** `x` and both its neighbours can be dereferenced. */
  predicate Hooked(l: Links, x: int) {
    IsNode(l, x) && IsNode(l, l.next[x]) && IsNode(l, l.prev[x])
  }

  // ----- the macros -----

  /** DELETE_NODE; the fields of `x` itself keep their stale values. */
  function Unlink(l: Links, x: int): Links
    requires Hooked(l, x)
  {
    Links(l.next[l.prev[x] := l.next[x]], l.prev[l.next[x] := l.prev[x]])
  }

  /** INSERT_NODE_AFTER */
  function InsertAfter(l: Links, at: int, x: int): Links
    requires IsNode(l, x) && Hooked(l, at)
  {
    Links(l.next[x := l.next[at]][at := x], l.prev[x := at][l.next[at] := x])
  }

  /** INSERT_NODE_BEFORE */
  function InsertBefore(l: Links, at: int, x: int): Links
    requires IsNode(l, x) && Hooked(l, at)
  {
    Links(l.next[x := at][l.prev[at] := x], l.prev[x := l.prev[at]][at := x])
  }

  /** The two splices that put the dangling node `y` where `x` is linked. */
  function Replace(l: Links, x: int, y: int): Links
    requires IsNode(l, y) && Hooked(l, x)
  {
    Links(l.next[l.prev[x] := y][y := l.next[x]], l.prev[y := l.prev[x]][l.next[x] := y])
  }

  method DeleteNode(next: array<int>, prev: array<int>, x: int)
    requires next != prev && Hooked(Links(next[..], prev[..]), x)
    modifies next, prev
    ensures Links(next[..], prev[..]) == Unlink(old(Links(next[..], prev[..])), x)
  {
    next[prev[x]] := next[x];
    prev[next[x]] := prev[x];
  }

  method InsertNodeAfter(next: array<int>, prev: array<int>, at: int, x: int)
    requires next != prev && Hooked(Links(next[..], prev[..]), at) && 0 <= x < next.Length
    modifies next, prev
    ensures Links(next[..], prev[..]) == InsertAfter(old(Links(next[..], prev[..])), at, x)
  {
    next[x] := next[at];
    prev[x] := at;
    prev[next[at]] := x;
    next[at] := x;
  }

  method InsertNodeBefore(next: array<int>, prev: array<int>, at: int, x: int)
    requires next != prev && Hooked(Links(next[..], prev[..]), at) && 0 <= x < next.Length
    modifies next, prev
    ensures Links(next[..], prev[..]) == InsertBefore(old(Links(next[..], prev[..])), at, x)
  {
    next[x] := at;
    prev[x] := prev[at];
    next[prev[at]] := x;
    prev[at] := x;
  }

  /** The splices of a delete by reference: `y` gets the neighbours of `x`. */
  method ReplaceNode(next: array<int>, prev: array<int>, x: int, y: int)
    requires next != prev && Hooked(Links(next[..], prev[..]), x) && 0 <= y < next.Length && x != y
    modifies next, prev
    ensures Links(next[..], prev[..]) == Replace(old(Links(next[..], prev[..])), x, y)
  {
    var nx, pv := next[x], prev[x];
    prev[y] := pv;
    next[pv] := y;
    next[y] := nx;
    prev[nx] := y;
  }

  // ----- rings -----

  ghost predicate Distinct(s: seq<int>) {
    forall i, j :: 0 <= i < j < |s| ==> s[i] != s[j]
  }

  function Succ(k: nat, n: nat): nat {
    if k + 1 == n then 0 else k + 1
  }

  /** The link between positions `k` and `Succ(k)` of `ring`, in both directions. */
  ghost predicate LinkedAt(l: Links, ring: seq<int>, k: nat)
    requires k < |ring|
  {
    && IsNode(l, ring[k])
    && IsNode(l, ring[Succ(k, |ring|)])
    && l.next[ring[k]] == ring[Succ(k, |ring|)]
    && l.prev[ring[Succ(k, |ring|)]] == ring[k]
  }

  ghost predicate Threads(l: Links, ring: seq<int>) {
    && 0 < |ring|
    && Distinct(ring)
    && forall k :: 0 <= k < |ring| ==> LinkedAt(l, ring, k)
  }

  function Without(s: seq<int>, k: nat): (r: seq<int>)
    requires k < |s|
  {
    s[..k] + s[k + 1..]
  }

  /** `s` with `x` placed just behind position `k`. */
  function With(s: seq<int>, k: nat, x: int): (r: seq<int>)
    requires k < |s|
  {
    s[..k + 1] + [x] + s[k + 1..]
  }

  /** Every node of a ring is hooked, with its ring neighbours on both sides. */
  lemma Neighbours(l: Links, ring: seq<int>, k: nat)
    requires Threads(l, ring) && k < |ring|
    ensures Hooked(l, ring[k])
    ensures l.next[ring[k]] == ring[Succ(k, |ring|)]
    ensures l.prev[ring[k]] == if k == 0 then ring[|ring| - 1] else ring[k - 1]
    ensures l.prev[l.next[ring[k]]] == ring[k] && l.next[l.prev[ring[k]]] == ring[k]
  {
    var j := if k == 0 then |ring| - 1 else k - 1;
    assert LinkedAt(l, ring, k) && LinkedAt(l, ring, j);
  }

  lemma UnlinkDrops(l: Links, ring: seq<int>, k: nat)
    requires Threads(l, ring) && 1 <= k < |ring|
    ensures Hooked(l, ring[k]) && Threads(Unlink(l, ring[k]), Without(ring, k))
  {
    Neighbours(l, ring, k);
    var r := Without(ring, k);
    var m := Unlink(l, ring[k]);
    forall i | 0 <= i < |r|
      ensures LinkedAt(m, r, i)
    {
      var j := if i < k then i else i + 1;
      assert LinkedAt(l, ring, j);
    }
  }

  lemma WithDistinct(s: seq<int>, k: nat, x: int)
    requires Distinct(s) && k < |s| && x !in s
    ensures Distinct(With(s, k, x))
  {
    var r := With(s, k, x);
    forall i, j | 0 <= i < j < |r|
      ensures r[i] != r[j]
    {
      assert i != k + 1 ==> r[i] == s[if i <= k then i else i - 1];
      assert j != k + 1 ==> r[j] == s[if j <= k then j else j - 1];
    }
  }

  lemma InsertAfterAdds(l: Links, ring: seq<int>, k: nat, x: int)
    requires Threads(l, ring) && k < |ring| && IsNode(l, x) && x !in ring
    ensures Hooked(l, ring[k]) && Threads(InsertAfter(l, ring[k], x), With(ring, k, x))
  {
    Neighbours(l, ring, k);
    var r := With(ring, k, x);
    var m := InsertAfter(l, ring[k], x);
    WithDistinct(ring, k, x);
    forall i | 0 <= i < |r|
      ensures LinkedAt(m, r, i)
    {
      var j := if i <= k then i else i - 1;
      assert LinkedAt(l, ring, j);
    }
  }

  /** Inserting before a node's successor is inserting after the node. */
  lemma InsertBeforeIsAfter(l: Links, ring: seq<int>, k: nat, x: int)
    requires Threads(l, ring) && k < |ring| && IsNode(l, x) && x !in ring
    ensures Hooked(l, ring[k]) && Hooked(l, ring[Succ(k, |ring|)])
    ensures InsertBefore(l, ring[Succ(k, |ring|)], x) == InsertAfter(l, ring[k], x)
  {
    Neighbours(l, ring, k);
    Neighbours(l, ring, Succ(k, |ring|));
  }

  lemma ReplaceSwaps(l: Links, ring: seq<int>, k: nat, y: int)
    requires Threads(l, ring) && 1 <= k < |ring| && IsNode(l, y) && y !in ring
    ensures Hooked(l, ring[k]) && Threads(Replace(l, ring[k], y), ring[k := y])
  {
    Neighbours(l, ring, k);
    var r := ring[k := y];
    var m := Replace(l, ring[k], y);
    forall i | 0 <= i < |r|
      ensures LinkedAt(m, r, i)
    {
      assert LinkedAt(l, ring, i);
    }
  }

  /** Unlinking a node and linking it back in the same place restores every
      field of the heap, because an unlinked node keeps its stale fields. */
  lemma UnlinkThenInsert(l: Links, ring: seq<int>, k: nat)
    requires Threads(l, ring) && 1 <= k < |ring|
    ensures Hooked(l, ring[k])
    ensures Hooked(Unlink(l, ring[k]), ring[k - 1])
    ensures InsertAfter(Unlink(l, ring[k]), ring[k - 1], ring[k]) == l
  {
    Neighbours(l, ring, k);
    Neighbours(l, ring, k - 1);
    UnlinkDrops(l, ring, k);
    Neighbours(Unlink(l, ring[k]), Without(ring, k), k - 1);
  }

  // ----- what the macros leave alone -----

  lemma UnlinkElsewhere(l: Links, ring: seq<int>, k: nat, y: int)
    requires Threads(l, ring) && 1 <= k < |ring| && IsNode(l, y) && y !in Without(ring, k)
    ensures Hooked(l, ring[k])
    ensures Unlink(l, ring[k]).next[y] == l.next[y] && Unlink(l, ring[k]).prev[y] == l.prev[y]
  {
    Neighbours(l, ring, k);
    var r := Without(ring, k);
    assert r[k - 1] == ring[k - 1];
    assert if k + 1 < |ring| then r[k] == ring[k + 1] else r[0] == ring[0];
  }

  lemma InsertAfterElsewhere(l: Links, ring: seq<int>, k: nat, x: int, y: int)
    requires Threads(l, ring) && k < |ring| && IsNode(l, x) && IsNode(l, y) && y !in With(ring, k, x)
    ensures Hooked(l, ring[k])
    ensures InsertAfter(l, ring[k], x).next[y] == l.next[y] && InsertAfter(l, ring[k], x).prev[y] == l.prev[y]
  {
    Neighbours(l, ring, k);
    var r := With(ring, k, x);
    assert r[k] == ring[k] && r[k + 1] == x;
    assert if k + 1 < |ring| then r[k + 2] == ring[k + 1] else r[0] == ring[0];
  }

  lemma ReplaceElsewhere(l: Links, ring: seq<int>, k: nat, y: int, z: int)
    requires Threads(l, ring) && 1 <= k < |ring| && IsNode(l, y) && IsNode(l, z) && z !in ring[k := y]
    ensures Hooked(l, ring[k])
    ensures Replace(l, ring[k], y).next[z] == l.next[z] && Replace(l, ring[k], y).prev[z] == l.prev[z]
  {
    Neighbours(l, ring, k);
    var r := ring[k := y];
    assert r[k] == y && r[k - 1] == ring[k - 1] && r[0] == ring[0];
    assert k + 1 < |ring| ==> r[k + 1] == ring[k + 1];
  }

  // ----- walking -----

  /** The node `m` hops along `next` from `x`, or NULL where the walk leaves the heap. */
  ghost function Hop(l: Links, x: int, m: nat): int {
    if m == 0 then x
    else var y := Hop(l, x, m - 1); if IsNode(l, y) then l.next[y] else NULL
  }

  /** A walk from the first node visits the ring in order, each node once, and
      is back at the first node after exactly |ring| hops. */
  lemma {:induction false} WalkVisits(l: Links, ring: seq<int>, m: nat)
    requires Threads(l, ring) && m <= |ring|
    ensures Hop(l, ring[0], m) == if m < |ring| then ring[m] else ring[0]
  {
    if m > 0 {
      WalkVisits(l, ring, m - 1);
      assert LinkedAt(l, ring, m - 1);
    }
  }
}
