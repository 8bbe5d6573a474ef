/** Sequences without repetitions and their rearrangements. */
module Permutations {
  import opened Ring

  function Range(n: nat): (s: seq<int>)
    ensures |s| == n && forall i :: 0 <= i < n ==> s[i] == i
    ensures Distinct(s)
  {
    seq(n, i => i)
  }

  lemma RangeMembers(n: nat)
    ensures forall x :: x in Range(n) <==> 0 <= x < n
  {
    forall x | 0 <= x < n
      ensures x in Range(n)
    {
      assert Range(n)[x] == x;
    }
  }

  lemma {:induction false} CountAt(s: seq<int>, i: nat)
    requires i < |s|
    ensures multiset(s)[s[i]] >= 1
    ensures forall j :: 0 <= j < |s| && j != i && s[j] == s[i] ==> multiset(s)[s[i]] >= 2
  {
    forall j | 0 <= j < |s| && j != i && s[j] == s[i]
      ensures multiset(s)[s[i]] >= 2
    {
      var lo, hi := if i < j then i else j, if i < j then j else i;
      assert s == s[..hi] + [s[hi]] + s[hi + 1..];
      assert s[..hi][lo] == s[i];
      assert s[i] in multiset(s[..hi]);
      assert multiset(s) == multiset(s[..hi]) + multiset([s[hi]]) + multiset(s[hi + 1..]);
    }
  }

  lemma {:induction false} DistinctCounts(s: seq<int>)
    requires Distinct(s)
    ensures forall x :: multiset(s)[x] <= 1
  {
    if s != [] {
      var rest := s[..|s| - 1];
      DistinctCounts(rest);
      assert s == rest + [s[|s| - 1]];
      assert s[|s| - 1] !in rest;
    }
  }

  /** A rearrangement of a sequence without repetitions has none either. */
  lemma RearrangedDistinct(s: seq<int>, t: seq<int>)
    requires Distinct(s) && multiset(t) == multiset(s)
    ensures Distinct(t) && |t| == |s|
    ensures forall x :: x in t <==> x in s
  {
    DistinctCounts(s);
    assert |multiset(t)| == |t| && |multiset(s)| == |s|;
    forall i, j | 0 <= i < j < |t|
      ensures t[i] != t[j]
    {
      CountAt(t, i);
    }
    assert forall x :: x in t <==> x in multiset(t);
    assert forall x :: x in s <==> x in multiset(s);
  }

  function Elems(s: seq<int>): set<int> {
    set x | x in s
  }

  lemma {:induction false} ElemsSize(s: seq<int>)
    requires Distinct(s)
    ensures |Elems(s)| == |s|
  {
    if s != [] {
      var last := |s| - 1;
      ElemsSize(s[..last]);
      assert s == s[..last] + [s[last]];
      assert Elems(s) == Elems(s[..last]) + {s[last]};
    }
  }

  lemma FitsIn(rows: seq<int>, nb: nat)
    requires Distinct(rows) && forall k :: 0 <= k < |rows| ==> 0 <= rows[k] < nb
    ensures |rows| <= nb
  {
    ElemsSize(rows);
    ElemsSize(Range(nb));
    RangeMembers(nb);
    assert Elems(rows) <= Elems(Range(nb));
    SubsetSize(Elems(rows), Elems(Range(nb)));
  }

  lemma SubsetSize(a: set<int>, b: set<int>)
    requires a <= b
    ensures |a| <= |b|
  {
    assert |b| == |a| + |b - a| by { assert b == a + (b - a); }
  }

  lemma Associative<T>(x: seq<T>, y: seq<T>, z: seq<T>)
    ensures (x + y) + z == x + (y + z)
  {
  }

  lemma AnyOf<T>(s: set<T>) returns (x: T)
    requires s != {}
    ensures x in s
  {
    x :| x in s;
  }

  lemma {:induction false} Smaller(s: set<int>, k: nat) returns (t: set<int>)
    requires k <= |s|
    ensures t <= s && |t| == k
    decreases |s|
  {
    t := s;
    if k < |s| {
      var x := AnyOf(s);
      t := Smaller(s - {x}, k);
    }
  }

  lemma SetFits(s: set<int>, nb: nat)
    requires forall x :: x in s ==> 0 <= x < nb
    ensures |s| <= nb
    ensures |s| < nb ==> exists x :: 0 <= x < nb && x !in s
  {
    ElemsSize(Range(nb));
    RangeMembers(nb);
    forall x | x in s
      ensures x in Elems(Range(nb))
    {
      assert x in Range(nb);
    }
    SubsetSize(s, Elems(Range(nb)));
    if |s| < nb {
      var all := Elems(Range(nb));
      if forall x :: x in all ==> x in s {
        assert all <= s;
        SubsetSize(all, s);
      }
      var x :| x in all && x !in s;
    }
  }

  // ----- lists of lists -----

  function Flat(s: seq<seq<int>>): seq<int> {
    if s == [] then [] else s[0] + Flat(s[1..])
  }

  /** Changing one list changes the multiset of all elements by the difference. */
  lemma {:induction false} FlatUpdate(s: seq<seq<int>>, i: nat, x: seq<int>)
    requires i < |s|
    ensures multiset(Flat(s[i := x])) + multiset(s[i]) == multiset(Flat(s)) + multiset(x)
  {
    if i == 0 {
      assert s[i := x][1..] == s[1..];
    } else {
      FlatUpdate(s[1..], i - 1, x);
      var t := s[i := x];
      assert t[1..] == s[1..][i - 1 := x] && t[0] == s[0];
      assert multiset(Flat(s)) == multiset(s[0]) + multiset(Flat(s[1..]));
      assert multiset(Flat(t)) == multiset(t[0]) + multiset(Flat(t[1..]));
      var a, b, c := multiset(Flat(t[1..])), multiset(Flat(s[1..])), multiset(s[0]);
      assert a + multiset(s[i]) == b + multiset(x);
      assert (c + a) + multiset(s[i]) == c + (a + multiset(s[i]));
      assert (c + b) + multiset(x) == c + (b + multiset(x));
    }
  }

  lemma CancelSum<T>(a: multiset<T>, b: multiset<T>, c: multiset<T>)
    requires a + c == b + c
    ensures a == b
  {
    forall x
      ensures a[x] == b[x]
    {
      assert (a + c)[x] == (b + c)[x];
    }
  }

  lemma FlatSwap(s: seq<seq<int>>, i: nat, j: nat)
    requires i < |s| && j < |s|
    ensures multiset(Flat(s[i := s[j]][j := s[i]])) == multiset(Flat(s))
  {
    FlatUpdate(s, i, s[j]);
    FlatUpdate(s[i := s[j]], j, s[i]);
    CancelSum(multiset(Flat(s[i := s[j]][j := s[i]])), multiset(Flat(s)), multiset(s[j]));
  }

  lemma {:induction false} FlatAppend(s: seq<seq<int>>, x: seq<int>)
    ensures Flat(s + [x]) == Flat(s) + x
  {
    if s == [] {
      assert [] + [x] == [x] && [x][1..] == [];
    } else {
      FlatAppend(s[1..], x);
      assert (s + [x])[1..] == s[1..] + [x];
    }
  }
}
