/** The Data Encryption Standard on sequences of bits, as FIPS PUB 46-3 describes it: its
    tables, the cipher function f, the key schedule KS, enciphering and deciphering. Bits are
    numbered from 1 in the tables of the standard. */
module Fips46 {

  type Bits = seq<bool>

  type Of32 = x: int | 1 <= x <= 32 witness 1
  type Of48 = x: int | 1 <= x <= 48 witness 1
  type Of56 = x: int | 1 <= x <= 56 witness 1
  type Of64 = x: int | 1 <= x <= 64 witness 1
  type Nibble = x: int | 0 <= x < 16 witness 0

  // ---- Tables ----

  /** The initial permutation. */
  const IP: seq<Of64> :=
    [58, 50, 42, 34, 26, 18, 10, 2] +
    [60, 52, 44, 36, 28, 20, 12, 4] +
    [62, 54, 46, 38, 30, 22, 14, 6] +
    [64, 56, 48, 40, 32, 24, 16, 8] +
    [57, 49, 41, 33, 25, 17, 9, 1] +
    [59, 51, 43, 35, 27, 19, 11, 3] +
    [61, 53, 45, 37, 29, 21, 13, 5] +
    [63, 55, 47, 39, 31, 23, 15, 7]

  const IP_INVERSE: seq<Of64> :=
    [40, 8, 48, 16, 56, 24, 64, 32] +
    [39, 7, 47, 15, 55, 23, 63, 31] +
    [38, 6, 46, 14, 54, 22, 62, 30] +
    [37, 5, 45, 13, 53, 21, 61, 29] +
    [36, 4, 44, 12, 52, 20, 60, 28] +
    [35, 3, 43, 11, 51, 19, 59, 27] +
    [34, 2, 42, 10, 50, 18, 58, 26] +
    [33, 1, 41, 9, 49, 17, 57, 25]

  /** The bit-selection table of f. */
  const E: seq<Of32> :=
    [32, 1, 2, 3, 4, 5] +
    [4, 5, 6, 7, 8, 9] +
    [8, 9, 10, 11, 12, 13] +
    [12, 13, 14, 15, 16, 17] +
    [16, 17, 18, 19, 20, 21] +
    [20, 21, 22, 23, 24, 25] +
    [24, 25, 26, 27, 28, 29] +
    [28, 29, 30, 31, 32, 1]

  /** The permutation of f. */
  const P: seq<Of32> :=
    [16, 7, 20, 21, 29, 12, 28, 17] +
    [1, 15, 23, 26, 5, 18, 31, 10] +
    [2, 8, 24, 14, 32, 27, 3, 9] +
    [19, 13, 30, 6, 22, 11, 4, 25]

  /** Permuted choice 1 and 2 of the key schedule. */
  const PC1: seq<Of64> :=
    [57, 49, 41, 33, 25, 17, 9, 1, 58, 50, 42, 34, 26, 18] +
    [10, 2, 59, 51, 43, 35, 27, 19, 11, 3, 60, 52, 44, 36] +
    [63, 55, 47, 39, 31, 23, 15, 7, 62, 54, 46, 38, 30, 22] +
    [14, 6, 61, 53, 45, 37, 29, 21, 13, 5, 28, 20, 12, 4]

  const PC2: seq<Of56> :=
    [14, 17, 11, 24, 1, 5, 3, 28, 15, 6, 21, 10] +
    [23, 19, 12, 4, 26, 8, 16, 7, 27, 20, 13, 2] +
    [41, 52, 31, 37, 47, 55, 30, 40, 51, 45, 33, 48] +
    [44, 49, 39, 56, 34, 53, 46, 42, 50, 36, 29, 32]

  /** The numbers of left shifts. */
  const SHIFTS: seq<nat> :=
    [1, 1, 2, 2, 2, 2, 2, 2, 1, 2, 2, 2, 2, 2, 2, 1]

  /** The selection functions, four rows of sixteen. */
  const S1: seq<seq<Nibble>> :=
    [[14, 4, 13, 1, 2, 15, 11, 8, 3, 10, 6, 12, 5, 9, 0, 7],
     [0, 15, 7, 4, 14, 2, 13, 1, 10, 6, 12, 11, 9, 5, 3, 8],
     [4, 1, 14, 8, 13, 6, 2, 11, 15, 12, 9, 7, 3, 10, 5, 0],
     [15, 12, 8, 2, 4, 9, 1, 7, 5, 11, 3, 14, 10, 0, 6, 13]]

  const S2: seq<seq<Nibble>> :=
    [[15, 1, 8, 14, 6, 11, 3, 4, 9, 7, 2, 13, 12, 0, 5, 10],
     [3, 13, 4, 7, 15, 2, 8, 14, 12, 0, 1, 10, 6, 9, 11, 5],
     [0, 14, 7, 11, 10, 4, 13, 1, 5, 8, 12, 6, 9, 3, 2, 15],
     [13, 8, 10, 1, 3, 15, 4, 2, 11, 6, 7, 12, 0, 5, 14, 9]]

  const S3: seq<seq<Nibble>> :=
    [[10, 0, 9, 14, 6, 3, 15, 5, 1, 13, 12, 7, 11, 4, 2, 8],
     [13, 7, 0, 9, 3, 4, 6, 10, 2, 8, 5, 14, 12, 11, 15, 1],
     [13, 6, 4, 9, 8, 15, 3, 0, 11, 1, 2, 12, 5, 10, 14, 7],
     [1, 10, 13, 0, 6, 9, 8, 7, 4, 15, 14, 3, 11, 5, 2, 12]]

  const S4: seq<seq<Nibble>> :=
    [[7, 13, 14, 3, 0, 6, 9, 10, 1, 2, 8, 5, 11, 12, 4, 15],
     [13, 8, 11, 5, 6, 15, 0, 3, 4, 7, 2, 12, 1, 10, 14, 9],
     [10, 6, 9, 0, 12, 11, 7, 13, 15, 1, 3, 14, 5, 2, 8, 4],
     [3, 15, 0, 6, 10, 1, 13, 8, 9, 4, 5, 11, 12, 7, 2, 14]]

  const S5: seq<seq<Nibble>> :=
    [[2, 12, 4, 1, 7, 10, 11, 6, 8, 5, 3, 15, 13, 0, 14, 9],
     [14, 11, 2, 12, 4, 7, 13, 1, 5, 0, 15, 10, 3, 9, 8, 6],
     [4, 2, 1, 11, 10, 13, 7, 8, 15, 9, 12, 5, 6, 3, 0, 14],
     [11, 8, 12, 7, 1, 14, 2, 13, 6, 15, 0, 9, 10, 4, 5, 3]]

  const S6: seq<seq<Nibble>> :=
    [[12, 1, 10, 15, 9, 2, 6, 8, 0, 13, 3, 4, 14, 7, 5, 11],
     [10, 15, 4, 2, 7, 12, 9, 5, 6, 1, 13, 14, 0, 11, 3, 8],
     [9, 14, 15, 5, 2, 8, 12, 3, 7, 0, 4, 10, 1, 13, 11, 6],
     [4, 3, 2, 12, 9, 5, 15, 10, 11, 14, 1, 7, 6, 0, 8, 13]]

  const S7: seq<seq<Nibble>> :=
    [[4, 11, 2, 14, 15, 0, 8, 13, 3, 12, 9, 7, 5, 10, 6, 1],
     [13, 0, 11, 7, 4, 9, 1, 10, 14, 3, 5, 12, 2, 15, 8, 6],
     [1, 4, 11, 13, 12, 3, 7, 14, 10, 15, 6, 8, 0, 5, 9, 2],
     [6, 11, 13, 8, 1, 4, 10, 7, 9, 5, 0, 15, 14, 2, 3, 12]]

  const S8: seq<seq<Nibble>> :=
    [[13, 2, 8, 4, 6, 15, 11, 1, 10, 9, 3, 14, 5, 0, 12, 7],
     [1, 15, 13, 8, 10, 3, 7, 4, 12, 5, 6, 11, 0, 14, 9, 2],
     [7, 11, 4, 1, 9, 12, 14, 2, 0, 6, 10, 13, 15, 3, 5, 8],
     [2, 1, 14, 7, 4, 10, 8, 13, 15, 12, 9, 0, 3, 5, 6, 11]]

  function S(n: nat): (rows: seq<seq<Nibble>>)
    requires 1 <= n <= 8
    ensures |rows| == 4 && |rows[0]| == 16 && |rows[1]| == 16 && |rows[2]| == 16 && |rows[3]| == 16
  {
    match n
    case 1 => S1
    case 2 => S2
    case 3 => S3
    case 4 => S4
    case 5 => S5
    case 6 => S6
    case 7 => S7
    case 8 => S8
  }

  // ---- The cipher function ----

  /** Bit k of the result is the bit of b that the table has at k. */
  function Select(b: Bits, table: seq<int>): (r: Bits)
    requires forall k :: 0 <= k < |table| ==> 1 <= table[k] <= |b|
    ensures |r| == |table|
  {
    seq(|table|, k requires 0 <= k < |table| => b[table[k] - 1])
  }

  function Sum(a: Bits, b: Bits): (r: Bits)
    requires |a| == |b|
    ensures |r| == |a|
  {
    seq(|a|, k requires 0 <= k < |a| => a[k] != b[k])
  }

  function Digit(b: bool): (d: nat)
    ensures d <= 1
  {
    if b then 1 else 0
  }

  /** Four bits of a selection function: the outer two of the six select the row, the inner
      four the column. */
  function Selected(n: nat, six: Bits): (r: Bits)
    requires 1 <= n <= 8 && |six| == 6
    ensures |r| == 4
  {
    var row := 2 * Digit(six[0]) + Digit(six[5]);
    var column := 8 * Digit(six[1]) + 4 * Digit(six[2]) + 2 * Digit(six[3]) + Digit(six[4]);
    FourBits(S(n)[row][column])
  }

  function FourBits(v: Nibble): (r: Bits)
    ensures |r| == 4
  {
    [v / 8 % 2 == 1, v / 4 % 2 == 1, v / 2 % 2 == 1, v % 2 == 1]
  }

  /** The outputs of the eight selection functions, each of six bits of x. */
  function Substituted(x: Bits): (r: Bits)
    requires |x| == 48
    ensures |r| == 32
  {
    seq(32, k requires 0 <= k < 32 => Selected(k / 4 + 1, x[6 * (k / 4)..6 * (k / 4) + 6])[k % 4])
  }

  function F(r: Bits, k: Bits): (out: Bits)
    requires |r| == 32 && |k| == 48
    ensures |out| == 32
  {
    Select(Substituted(Sum(Select(r, E), k)), P)
  }

  // ---- The key schedule ----

  function LeftShift(c: Bits, k: nat): (r: Bits)
    requires k <= |c|
    ensures |r| == |c|
  {
    c[k..] + c[..k]
  }

  /** C and D after n iterations. */
  function CD(key: Bits, n: nat): (r: (Bits, Bits))
    requires |key| == 64 && n <= 16
    ensures |r.0| == 28 && |r.1| == 28
    decreases n
  {
    if n == 0 then (Select(key, PC1)[..28], Select(key, PC1)[28..])
    else
      var (c, d) := CD(key, n - 1);
      (LeftShift(c, SHIFTS[n - 1]), LeftShift(d, SHIFTS[n - 1]))
  }

  function RoundKey(key: Bits, n: nat): (k: Bits)
    requires |key| == 64 && 1 <= n <= 16
    ensures |k| == 48
  {
    Select(CD(key, n).0 + CD(key, n).1, PC2)
  }

  /** K1 to K16. */
  function KS(key: Bits): (ks: seq<Bits>)
    requires |key| == 64
    ensures AreKeys(ks)
  {
    seq(16, n requires 0 <= n < 16 => RoundKey(key, n + 1))
  }

  predicate AreKeys(ks: seq<Bits>) {
    |ks| == 16 && forall n :: 0 <= n < 16 ==> |ks[n]| == 48
  }

  // ---- Enciphering and deciphering ----

  /** L and R after n iterations. */
  function LR(block: Bits, ks: seq<Bits>, n: nat): (r: (Bits, Bits))
    requires |block| == 64 && AreKeys(ks) && n <= 16
    ensures |r.0| == 32 && |r.1| == 32
    decreases n
  {
    if n == 0 then (Select(block, IP)[..32], Select(block, IP)[32..])
    else
      var (left, right) := LR(block, ks, n - 1);
      (right, Sum(left, F(right, ks[n - 1])))
  }

  function Cipher(block: Bits, ks: seq<Bits>): (r: Bits)
    requires |block| == 64 && AreKeys(ks)
    ensures |r| == 64
  {
    var (left, right) := LR(block, ks, 16);
    Select(right + left, IP_INVERSE)
  }

  function Encipher(block: Bits, key: Bits): (r: Bits)
    requires |block| == 64 && |key| == 64
    ensures |r| == 64
  {
    Cipher(block, KS(key))
  }

  function Reversed(ks: seq<Bits>): (r: seq<Bits>)
    requires AreKeys(ks)
    ensures AreKeys(r) && forall n :: 0 <= n < 16 ==> r[n] == ks[15 - n]
  {
    seq(16, n requires 0 <= n < 16 => ks[15 - n])
  }

  /** The keys in reverse order. */
  function Decipher(block: Bits, key: Bits): (r: Bits)
    requires |block| == 64 && |key| == 64
    ensures |r| == 64
  {
    Cipher(block, Reversed(KS(key)))
  }
}
