/** Facts about quotients and remainders used for positions on a circle. */
module Arithmetic {

  lemma DivModUnique(a: int, n: int, q: int, r: int)
    requires 0 < n && a == q * n + r && 0 <= r < n
    ensures a / n == q && a % n == r
  {
    assert (a / n - q) * n == r - a % n;
    if a / n != q {
      NonzeroMultiple(a / n - q, n);
    }
  }

  lemma NonzeroMultiple(k: int, n: int)
    requires 0 < n && k != 0
    ensures k * n <= -n || n <= k * n
  {
    if k >= 1 {
      assert (k - 1) * n >= 0;
    } else {
      assert (-k - 1) * n >= 0;
    }
  }

  /** Adding a multiple of `n` does not change the remainder. */
  lemma ModShift(a: int, n: int, k: int)
    requires 0 < n
    ensures (a + k * n) % n == a % n && (a + k * n) / n == a / n + k
  {
    assert a + k * n == (a / n + k) * n + a % n;
    DivModUnique(a + k * n, n, a / n + k, a % n);
  }

  lemma ModAdd(a: int, b: int, n: int)
    requires 0 < n
    ensures (a % n + b) % n == (a + b) % n
  {
    assert a + b == (a % n + b) + (a / n) * n;
    ModShift(a % n + b, n, a / n);
  }

  /** The next position on a circle of `n`, one step at a time. */
  lemma ModNext(a: nat, n: nat)
    requires 0 < n
    ensures (a + 1) % n == if a % n + 1 == n then 0 else a % n + 1
    ensures (a + 1) / n == if a % n + 1 == n then a / n + 1 else a / n
  {
    if a % n + 1 == n {
      assert a + 1 == (a / n + 1) * n + 0;
      DivModUnique(a + 1, n, a / n + 1, 0);
    } else {
      DivModUnique(a + 1, n, a / n, a % n + 1);
    }
  }

  /** How many steps forward from `from` to `to` on a circle of `n`. */
  function Off(to: nat, from: nat, n: nat): (d: nat)
    requires to < n && from < n
    ensures d < n
  {
    if to >= from then to - from else to - from + n
  }

  lemma OffIsInverse(from: nat, to: nat, n: nat)
    requires to < n && from < n
    ensures (from + Off(to, from, n)) % n == to
  {
    DivModUnique(from + Off(to, from, n), n, if to >= from then 0 else 1, to);
  }

  lemma OffUnique(from: nat, d: nat, n: nat)
    requires d < n && from < n
    ensures (from + d) % n == if from + d < n then from + d else from + d - n
    ensures Off((from + d) % n, from, n) == d
  {
    if from + d < n {
      DivModUnique(from + d, n, 0, from + d);
    } else {
      DivModUnique(from + d, n, 1, from + d - n);
    }
  }

  /** One step back and one step forward on a circle of `n`, in either order. */
  lemma BackAndForth(p: nat, n: nat)
    requires p < n
    ensures (p - 1 + n) % n == if p == 0 then n - 1 else p - 1
    ensures ((p - 1 + n) % n + 1) % n == p
    ensures ((p + 1) % n - 1 + n) % n == p
  {
    DivModUnique(p - 1 + n, n, if p == 0 then 0 else 1, if p == 0 then n - 1 else p - 1);
    DivModUnique(p + 1, n, if p + 1 == n then 1 else 0, if p + 1 == n then 0 else p + 1);
    DivModUnique(n, n, 1, 0);
    DivModUnique(p, n, 0, p);
    DivModUnique(n - 1, n, 0, n - 1);
    DivModUnique(p + n, n, 1, p);
  }

  lemma MulMonotone(a: int, b: int, n: nat)
    requires a <= b
    ensures a * n <= b * n
  {
    assert (b - a) * n >= 0;
  }

  lemma OneRoundLess(q: nat, k: nat, r: nat)
    requires 0 < q
    ensures q * k + r == (q - 1) * k + k + r
    ensures q == 1 ==> q * k == k
    ensures q > 1 ==> q * k >= 2 * k
  {
    if q > 1 { MulMonotone(2, q, k); }
  }

  /** Dealing fewer than `c * n - p` items round robin from position `p` gives
      every position at most `c` of them, and those before `p` one less. */
  lemma DealBound(p: nat, k: nat, n: nat, c: nat)
    requires p < n && k < n * c - p
    ensures 0 <= (p + k) % n < n
    ensures 0 <= k / n < c - (if (p + k) % n < p then 1 else 0)
  {
    DealtTo(p, k, k / n, k % n, n);
    DealBoundAt(p, k, k / n, k % n, n, c);
  }

  /** Item `k`, in row `q` with remainder `r`, goes `r` steps behind position `p`. */
  lemma DealtTo(p: nat, k: nat, q: nat, r: nat, n: nat)
    requires p < n && r < n && k == q * n + r
    ensures (p + k) % n == if p + r < n then p + r else p + r - n
  {
    assert p + k == (p + r) + q * n;
    ModShift(p + r, n, q);
    OffUnique(p, r, n);
  }

  lemma DealBoundAt(p: nat, k: nat, q: nat, r: nat, n: nat, c: nat)
    requires p < n && r < n && k == q * n + r && k < n * c - p
    ensures q + (if p + r < n then 0 else 1) < c
  {
    var d := if p + r < n then 0 else 1;
    assert (q + d) * n == q * n + d * n;
    if q + d >= c {
      MulMonotone(c, q + d, n);
    }
  }

  /** The converse: row `j` of position `i` is dealt within the first `c * n - p`. */
  lemma DealIndex(p: nat, i: nat, j: nat, n: nat, c: nat)
    requires p < n && i < n && j < c - (if i < p then 1 else 0)
    ensures var k := j * n + Off(i, p, n);
            0 <= k < n * c - p && (p + k) % n == i && k / n == j
  {
    var d := Off(i, p, n);
    var k := j * n + d;
    assert j * n >= 0;
    DivModUnique(k, n, j, d);
    OffIsInverse(p, i, n);
    ModShift(p + d, n, j);
    assert p + k == p + d + j * n;
    var e := if i < p then 1 else 0;
    MulMonotone(j + 1, c - e, n);
    assert (j + 1) * n == j * n + n && (c - e) * n == c * n - e * n;
  }

  /** Among the multiples of `n`, rows are in the order of positions. */
  lemma RowOrder(a: nat, m: nat, n: nat)
    requires 0 < n && a % n == 0 && m % n == 0
    ensures a <= m <==> a / n <= m / n
  {
    assert a == (a / n) * n && m == (m / n) * n;
    if a / n <= m / n {
      MulMonotone(a / n, m / n, n);
    } else {
      MulMonotone(m / n + 1, a / n, n);
      assert (m / n + 1) * n == (m / n) * n + n;
    }
  }

  /** One row up. */
  lemma RowAbove(p: nat, a: nat, n: nat)
    requires 0 < n <= a
    ensures (a - n) / n == a / n - 1 && (p + (a - n)) % n == (p + a) % n
  {
    ModShift(a, n, -1);
    ModShift(p + a, n, -1);
  }

  lemma NextRow(a: nat, m: nat, n: nat)
    requires 0 < n && a % n == 0 && m % n == 0 && a < m
    ensures a + n <= m && (a + n) % n == 0
  {
    RowOrder(m, a, n);
    ModShift(a, n, 1);
    RowOrder(a + n, m, n);
  }

  /** Remainders on both sides of a difference do not change it modulo `n`. */
  lemma ModDiff(a: int, b: int, c: int, n: int)
    requires 0 < n
    ensures (a % n + c - b % n) % n == (a + c - b) % n
  {
    var k := b / n - a / n;
    assert k * n == (b / n) * n - (a / n) * n;
    assert a % n + c - b % n == (a + c - b) + k * n;
    ModShift(a + c - b, n, k);
  }

  /** Numbers with the same remainder are at least `n` apart. */
  lemma SameRemainder(a: int, b: int, n: int)
    requires 0 < n && a < b && a % n == b % n
    ensures a + n <= b
  {
    assert b - a == (b / n - a / n) * n;
    if b / n != a / n { NonzeroMultiple(b / n - a / n, n); }
  }
}
