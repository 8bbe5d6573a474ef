/** The balance check of `apl_count_nodes`.

    It keeps a running maximum and, only for segments that do not raise the
    maximum, a running minimum, and reports an imbalance when the two are more
    than one apart.
 */
module CountCheck {

  const INT_MIN := -0x8000_0000
  const INT_MAX := 0x7fff_ffff

  datatype Scan = Scan(max: int, min: int)

  function Observe(s: Scan, count: int): Scan {
    if count > s.max then s.(max := count)
    else if count < s.min then s.(min := count)
    else s
  }

  function ScanOf(counts: seq<int>): Scan {
    if counts == [] then Scan(INT_MIN, INT_MAX)
    else Observe(ScanOf(counts[..|counts| - 1]), counts[|counts| - 1])
  }

  predicate Reported(counts: seq<int>) {
    ScanOf(counts).max - ScanOf(counts).min > 1
  }

  /** Segment `i` is longer than every segment before it. */
  predicate Raises(counts: seq<int>, i: nat)
    requires i < |counts|
  {
    forall k :: 0 <= k < i ==> counts[k] < counts[i]
  }

  /** Segment `i` is two or more blocks behind some other segment. */
  predicate Lags(counts: seq<int>, i: nat)
    requires i < |counts|
  {
    exists j :: 0 <= j < |counts| && counts[j] - counts[i] > 1
  }

  /** Lengths that an `int` of 32 bits can hold. */
  predicate InInt(counts: seq<int>) {
    forall i :: 0 <= i < |counts| ==> 0 <= counts[i] <= 0x7fff_ffff
  }

  lemma {:induction false} ScanMax(counts: seq<int>)
    requires InInt(counts)
    ensures forall i :: 0 <= i < |counts| ==> counts[i] <= ScanOf(counts).max
    ensures ScanOf(counts).max == -0x8000_0000 <==> counts == []
    ensures counts != [] ==> exists j :: 0 <= j < |counts| && counts[j] == ScanOf(counts).max
  {
    if counts != [] {
      var k := |counts| - 1;
      var rest := counts[..k];
      ScanMax(rest);
      if k > 0 {
        var j :| 0 <= j < k && rest[j] == ScanOf(rest).max;
        assert counts[j] == rest[j];
      }
      assert counts == rest + [counts[k]];
    }
  }

  /** The last segment raises the maximum exactly when it exceeds the scan so far. */
  lemma LastRaises(counts: seq<int>)
    requires InInt(counts) && counts != []
    ensures var k := |counts| - 1; Raises(counts, k) <==> counts[k] > ScanOf(counts[..k]).max
  {
    var k := |counts| - 1;
    var rest := counts[..k];
    ScanMax(rest);
    if k > 0 && counts[k] <= ScanOf(rest).max {
      var j :| 0 <= j < k && rest[j] == ScanOf(rest).max;
      assert counts[j] >= counts[k];
    }
    assert forall i :: 0 <= i < k ==> counts[i] == rest[i];
  }

  lemma {:induction false} ScanMin(counts: seq<int>)
    requires InInt(counts)
    ensures forall i :: 0 <= i < |counts| && !Raises(counts, i) ==> ScanOf(counts).min <= counts[i]
    ensures ScanOf(counts).min == 0x7fff_ffff ||
            exists i :: 0 <= i < |counts| && !Raises(counts, i) && counts[i] == ScanOf(counts).min
  {
    if counts != [] {
      var k := |counts| - 1;
      var rest, m := counts[..k], ScanOf(counts).min;
      ScanMin(rest);
      LastRaises(counts);
      forall i | 0 <= i < k
        ensures counts[i] == rest[i] && (Raises(counts, i) <==> Raises(rest, i))
      {
        assert forall j :: 0 <= j <= i ==> counts[j] == rest[j];
      }
      if m == ScanOf(rest).min && m != INT_MAX {
        var i :| 0 <= i < k && !Raises(rest, i) && rest[i] == m;
        assert !Raises(counts, i) && counts[i] == m;
      }
    }
  }

  /** The check reports exactly when some segment lags that did not raise the
      running maximum when it was counted. */
  lemma ReportExact(counts: seq<int>)
    requires InInt(counts)
    ensures Reported(counts) <==> exists i :: 0 <= i < |counts| && Lags(counts, i) && !Raises(counts, i)
  {
    ScanMax(counts);
    ScanMin(counts);
    var s := ScanOf(counts);
    if Reported(counts) {
      var i :| 0 <= i < |counts| && !Raises(counts, i) && counts[i] == s.min;
      var j :| 0 <= j < |counts| && counts[j] == s.max;
      assert counts[j] - counts[i] > 1;
      assert Lags(counts, i);
    }
  }

  predicate Imbalanced(counts: seq<int>) {
    exists i :: 0 <= i < |counts| && Lags(counts, i)
  }

  /** The lagging segments are the first `m`, and their lengths strictly rise. */
  predicate RisingStart(counts: seq<int>, m: nat) {
    && 1 <= m <= |counts|
    && (forall i, j :: 0 <= i < j < m ==> counts[i] < counts[j])
    && (forall i :: 0 <= i < |counts| ==> (Lags(counts, i) <==> i < m))
  }

  /** A real imbalance goes unreported exactly when the lagging segments are an
      initial stretch of strictly rising lengths. */
  lemma MissedImbalance(counts: seq<int>)
    requires InInt(counts)
    ensures Imbalanced(counts) && !Reported(counts) <==> exists m :: RisingStart(counts, m)
  {
    ReportExact(counts);
    if Imbalanced(counts) && !Reported(counts) {
      LaggardsFirst(counts);
    }
    if exists m :: RisingStart(counts, m) {
      var m :| RisingStart(counts, m);
      assert Lags(counts, 0);
      forall i | 0 <= i < |counts| && Lags(counts, i)
        ensures Raises(counts, i)
      {
      }
    }
  }

  lemma LaggardsFirst(counts: seq<int>)
    requires Imbalanced(counts)
    requires forall i :: 0 <= i < |counts| && Lags(counts, i) ==> Raises(counts, i)
    ensures exists m :: RisingStart(counts, m)
  {
    var m := |counts|;
    while m > 0 && !Lags(counts, m - 1)
      invariant 0 <= m <= |counts|
      invariant forall i :: m <= i < |counts| ==> !Lags(counts, i)
    {
      m := m - 1;
    }
    forall i | 0 <= i < m
      ensures Lags(counts, i)
    {
      if i < m - 1 {
        var j :| 0 <= j < |counts| && counts[j] - counts[m - 1] > 1;
        assert counts[i] < counts[m - 1];
        assert counts[j] - counts[i] > 1;
      }
    }
    forall i, j | 0 <= i < j < m
      ensures counts[i] < counts[j]
    {
      assert Raises(counts, j);
    }
    assert RisingStart(counts, m);
  }

  /** One empty segment followed by one of two blocks: imbalanced, not reported. */
  lemma MissedExample()
    ensures Imbalanced([0, 2]) && !Reported([0, 2])
  {
    var c := [0, 2];
    assert c[1] - c[0] > 1;
    assert Lags(c, 0);
    assert c[..1] == [0] && [0][..0] == [];
    assert ScanOf([0]) == Scan(0, INT_MAX);
  }
}
