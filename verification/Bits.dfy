/** The bits of a number, and what shifting, masking and cutting do to them. */
module Bits {
  import opened Basics

  function Bit(v: int, i: nat): int {
    v / Pow2(i) % 2
  }

  lemma DivideTwice(v: int, a: int, b: int)
    requires 0 < a && 0 < b
    ensures v / a / b == v / (a * b)
  {
    var q, r, s := v / a / b, v / a % b, v % a;
    assert v == (q * b + r) * a + s;
    assert (q * b + r) * a + s == q * (a * b) + (r * a + s) by {
      Associate(q, b, a);
    }
    MulMonotone(r, b - 1, a);
    MulMonotone(0, r, a);
    QuotientUnique(v, a * b, q, r * a + s);
  }

  lemma BitOfHalf(v: int, i: nat)
    ensures Bit(v / 2, i) == Bit(v, i + 1)
  {
    DivideTwice(v, 2, Pow2(i));
  }

  lemma BitShifted(v: int, s: nat, i: nat)
    ensures Bit(v / Pow2(s), i) == Bit(v, s + i)
  {
    Pow2Sum(s, i);
    DivideTwice(v, Pow2(s), Pow2(i));
  }

  lemma BitScaled(b: int, s: nat, i: nat)
    ensures Bit(b * Pow2(s), s + i) == Bit(b, i)
  {
    Pow2Sum(s, i);
    QuotientUnique(b * Pow2(s), Pow2(s), b, 0);
    BitShifted(b * Pow2(s), s, i);
  }

  /** Taking the remainder keeps the bits below. */
  lemma {:induction false} BitOfRemainder(v: int, n: nat, j: nat)
    requires j < n
    ensures Bit(v % Pow2(n), j) == Bit(v, j)
    decreases j
  {
    hide Bit;
    hide Pow2;
    var r := v % Pow2(n);
    HalfOfRemainder(v, n);
    LowBit(v);
    LowBit(r);
    if j > 0 {
      BitOfHalf(r, j - 1);
      BitOfHalf(v, j - 1);
      BitOfRemainder(v / 2, n - 1, j - 1);
    }
  }

  lemma HalfOfRemainder(v: int, n: nat)
    requires n > 0
    ensures v % Pow2(n) / 2 == v / 2 % Pow2(n - 1) && v % Pow2(n) % 2 == v % 2
  {
    var h := v / 2 % Pow2(n - 1);
    Doubled(v, Pow2(n - 1));
    assert v % Pow2(n) == 2 * h + v % 2;
  }

  lemma {:induction false} Pow2Grows(a: nat, b: nat)
    requires a <= b
    ensures Pow2(a) <= Pow2(b)
    decreases b
  {
    if a < b {
      Pow2Grows(a, b - 1);
    }
  }

  /** Small numbers have no high bits. */
  lemma NoHighBit(v: int, n: nat, j: nat)
    requires 0 <= v < Pow2(n) && n <= j
    ensures Bit(v, j) == 0
  {
    Pow2Grows(n, j);
    QuotientUnique(v, Pow2(j), 0, v);
  }

  lemma TopBit(v: int, n: nat)
    requires 0 <= v < Pow2(n + 1)
    ensures Bit(v, n) == if v >= Pow2(n) then 1 else 0
  {
    if v >= Pow2(n) {
      QuotientUnique(v, Pow2(n), 1, v - Pow2(n));
    } else {
      QuotientUnique(v, Pow2(n), 0, v);
    }
  }

  /** Only the bits of the mask matter. */
  lemma {:induction false} MaskedAlike(x: int, y: int, b: nat)
    requires forall i: nat :: Bit(b, i) == 1 ==> Bit(x, i) == Bit(y, i)
    ensures BitAnd(x, b) == BitAnd(y, b)
    decreases b
  {
    if b > 0 {
      forall i: nat | Bit(b / 2, i) == 1
        ensures Bit(x / 2, i) == Bit(y / 2, i)
      {
        BitOfHalf(b, i);
        BitOfHalf(x, i);
        BitOfHalf(y, i);
      }
      MaskedAlike(x / 2, y / 2, b / 2);
      LowBit(b);
      LowBit(x);
      LowBit(y);
    }
  }

  lemma LowBit(v: int)
    ensures Bit(v, 0) == v % 2
  {
  }

  /** A bit that both have is seen. */
  lemma {:induction false} SharedBit(x: int, b: nat, i: nat)
    requires Bit(x, i) == 1 && Bit(b, i) == 1
    ensures BitAnd(x, b) > 0
    decreases i
  {
    LowBit(x);
    LowBit(b);
    if b == 0 {
      NoHighBit(0, 0, i);
    }
    if i > 0 {
      BitOfHalf(x, i - 1);
      BitOfHalf(b, i - 1);
      SharedBit(x / 2, b / 2, i - 1);
    }
  }
}
