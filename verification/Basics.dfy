/** Facts about products, quotients, powers of two, sets and sequences that the other
    modules share. */
module Basics {

  lemma MulMonotone(a: int, b: int, k: int)
    requires a <= b && 0 <= k
    ensures a * k <= b * k
  {
    assert (b - a) * k >= 0;
  }

  lemma Cancel(a: int, b: int, k: int)
    requires k >= 1 && a * k <= b * k
    ensures a <= b
  {
    if a > b {
      MulMonotone(b + 1, a, k);
    }
  }

  /** Quotient and remainder are unique. */
  lemma QuotientUnique(a: int, m: int, q: int, r: int)
    requires m > 0 && 0 <= r < m && a == q * m + r
    ensures a / m == q && a % m == r
  {
    var q', r' := a / m, a % m;
    assert (q - q') * m == r' - r;
    assert q - q' >= 1 ==> (q - q') * m >= m;
    assert q - q' <= -1 ==> (q - q') * m <= -m;
  }

  lemma OneMore(a: int, k: int)
    ensures (a + 1) * k == a * k + k
  {
  }

  lemma Associate(a: int, b: int, c: int)
    ensures (a * b) * c == a * (b * c)
  {
  }

  /** k steps of size m are the first to reach size. */
  lemma StepsTaken(size: int, m: int, k: int)
    requires 0 < size && 0 < m && k >= 1 && (k - 1) * m < size <= k * m
    ensures (size - 1) / m + 1 == k
  {
    OneMore(k - 1, m);
    QuotientUnique(size - 1, m, k - 1, size - 1 - (k - 1) * m);
  }

  lemma QuotientAtLeast(a: int, m: int, k: int)
    requires m > 0 && k * m <= a
    ensures a / m >= k
  {
    if a / m < k {
      MulMonotone(a / m + 1, k, m);
    }
  }

  lemma {:induction false} CardinalitySubset<T>(a: set<T>, b: set<T>)
    requires a <= b
    ensures |a| <= |b|
    decreases a
  {
    if a != {} {
      var x :| x in a;
      CardinalitySubset(a - {x}, b - {x});
    }
  }

  function Pow2(k: nat): (r: nat)
    ensures r >= 1
  {
    if k == 0 then 1 else 2 * Pow2(k - 1)
  }

  lemma {:induction false} Pow2Sum(a: nat, b: nat)
    ensures Pow2(a + b) == Pow2(a) * Pow2(b)
    decreases a
  {
    if a > 0 {
      Pow2Sum(a - 1, b);
      assert 2 * (Pow2(a - 1) * Pow2(b)) == (2 * Pow2(a - 1)) * Pow2(b);
    }
  }

  lemma PowersOfTwo()
    ensures Pow2(0) == 1 && Pow2(1) == 2 && Pow2(2) == 4 && Pow2(3) == 8 && Pow2(4) == 16
    ensures Pow2(5) == 32 && Pow2(6) == 64 && Pow2(7) == 128 && Pow2(8) == 256
  {
    assert Pow2(4) == 16;
    assert Pow2(6) == 64;
  }

  /** a & b, where a may be negative as in two's complement. */
  function BitAnd(a: int, b: nat): (r: nat)
    ensures r <= b
    decreases b
  {
    if b == 0 then 0 else 2 * BitAnd(a / 2, b / 2) + if a % 2 == 1 && b % 2 == 1 then 1 else 0
  }

  /** To mask with k ones is to take the remainder. */
  lemma {:induction false} LowBits(a: int, k: nat)
    ensures BitAnd(a, Pow2(k) - 1) == a % Pow2(k)
    decreases k
  {
    if k > 0 {
      LowBits(a / 2, k - 1);
      OneBitMore(a, Pow2(k - 1));
    }
  }

  lemma OneBitMore(a: int, p: int)
    requires p >= 1 && BitAnd(a / 2, p - 1) == a / 2 % p
    ensures BitAnd(a, 2 * p - 1) == a % (2 * p)
  {
    hide BitAnd;
    LowestBit(a, p - 1);
    assert 2 * (p - 1) + 1 == 2 * p - 1;
    Doubled(a, p);
  }

  lemma LowestBit(a: int, b: nat)
    ensures BitAnd(a, 2 * b + 1) == 2 * BitAnd(a / 2, b) + a % 2
  {
  }

  lemma Doubled(a: int, p: int)
    requires p >= 1
    ensures a % (2 * p) == 2 * (a / 2 % p) + a % 2
  {
    var q, r := a / 2 / p, a / 2 % p;
    assert q * (2 * p) == 2 * (q * p);
    QuotientUnique(a, 2 * p, q, 2 * r + a % 2);
  }

  ghost predicate Distinct(s: seq<int>) {
    forall p, q :: 0 <= p < q < |s| ==> s[p] != s[q]
  }

  lemma DistinctSnoc(s: seq<int>, v: int)
    requires Distinct(s) && v !in s
    ensures Distinct(s + [v])
  {
  }
}
