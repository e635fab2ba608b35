/** What d3des.c computes is the Data Encryption Standard: for every key and block, both ways,
    the key being read from the lowest bit of each byte. */
module DesStandard {
  import opened Des
  import opened WordBits
  import opened DesTargets
  import opened DesRounds
  import opened DesPermutations
  import opened DesKeys
  import F = Fips46

  // ---- The iterations ----

  lemma SumHolds(h: F.Bits, w: bv32, h': F.Bits, w': bv32)
    requires HoldsHalf(h, w) && HoldsHalf(h', w')
    ensures HoldsHalf(F.Sum(h, h'), Xor(w, w'))
  {
    hide Bit;
    hide Xor;
    hide Turned;
    forall j | 0 <= j < 32
      ensures F.Sum(h, h')[j] == Bit(Xor(w, w'), Turned(j))
    {
      BitXor(w, w', Turned(j));
    }
  }

  lemma SameHolds(h: F.Bits, h': F.Bits, w: bv32)
    requires HoldsHalf(h, w) && HoldsHalf(h', w)
    ensures h == h'
  {
    hide Bit;
  }

  /** The words of the rounds hold the keys. */
  ghost predicate HoldKeys(ks: seq<F.Bits>, keys: seq<bv32>) {
    F.AreKeys(ks) && |keys| == 32 && forall n :: 0 <= n < 16 ==> HoldsKey(ks[n], keys[2 * n], keys[2 * n + 1])
  }

  /** After an even number of rounds each half is where it was, else they are exchanged: the
      rounds of d3des.c change the halves in turn. */
  ghost predicate HoldsBoth(lr: (F.Bits, F.Bits), b: Halves, n: nat) {
    if n % 2 == 0 then HoldsHalf(lr.0, b.left) && HoldsHalf(lr.1, b.right)
    else HoldsHalf(lr.1, b.left) && HoldsHalf(lr.0, b.right)
  }

  lemma RoundHolds(lr: (F.Bits, F.Bits), b: Halves, n: nat, k: F.Bits, k0: bv32, k1: bv32)
    requires n > 0 && HoldsBoth(lr, b, n - 1) && HoldsKey(k, k0, k1)
    ensures |lr.0| == 32 && |lr.1| == 32 && |k| == 48
    ensures HoldsBoth((lr.1, F.Sum(lr.0, F.F(lr.1, k))), Round(b, n % 2 == 1, k0, k1), n)
  {
    assert |lr.0| == 32 && |lr.1| == 32 && |k| == 48;
    hide HoldsHalf;
    hide HoldsKey;
    hide RoundValue;
    hide Xor;
    hide F.F;
    hide F.Sum;
    if n % 2 == 1 {
      HalfHolds(lr.0, b.left, lr.1, b.right, k, k0, k1);
    } else {
      HalfHolds(lr.0, b.right, lr.1, b.left, k, k0, k1);
    }
  }

  lemma HalfHolds(l: F.Bits, w: bv32, r: F.Bits, v: bv32, k: F.Bits, k0: bv32, k1: bv32)
    requires HoldsHalf(l, w) && HoldsHalf(r, v) && HoldsKey(k, k0, k1)
    ensures |l| == 32 && |r| == 32 && |k| == 48
    ensures HoldsHalf(F.Sum(l, F.F(r, k)), Xor(w, RoundValue(v, k0, k1)))
  {
    assert |l| == 32 && |r| == 32 && |k| == 48;
    hide HoldsHalf;
    hide HoldsKey;
    hide RoundValue;
    hide Xor;
    hide F.F;
    hide F.Sum;
    RoundValueIsF(r, v, k, k0, k1);
    SumHolds(l, w, F.F(r, k), RoundValue(v, k0, k1));
  }

  lemma {:induction false} RoundsHold(block: F.Bits, ks: seq<F.Bits>, b: Halves, keys: seq<bv32>, n: nat)
    requires |block| == 64 && HoldKeys(ks, keys) && n <= 16 && HoldsBoth(F.LR(block, ks, 0), b, 0)
    ensures HoldsBoth(F.LR(block, ks, n), Rounds(b, keys, n), n)
    decreases n
  {
    hide HoldsHalf;
    hide HoldsKey;
    hide Round;
    hide F.F;
    hide F.Sum;
    hide F.Select;
    if n > 0 {
      RoundsHold(block, ks, b, keys, n - 1);
      RoundHolds(F.LR(block, ks, n - 1), Rounds(b, keys, n - 1), n, ks[n - 1], keys[2 * (n - 1)], keys[2 * (n - 1) + 1]);
    }
  }

  // ---- The inverse of the initial permutation ----

  function Final(j: nat): (q: nat)
    requires j < 64
    ensures q < 64
  {
    var t: int := F.IP_INVERSE[j];
    t - 1
  }

  lemma Final0()
    ensures
      && Final(0) == 39 && Final(1) == 7 && Final(2) == 47 && Final(3) == 15
      && Final(4) == 55 && Final(5) == 23 && Final(6) == 63 && Final(7) == 31
  {
  }

  lemma Final1()
    ensures
      && Final(8) == 38 && Final(9) == 6 && Final(10) == 46 && Final(11) == 14
      && Final(12) == 54 && Final(13) == 22 && Final(14) == 62 && Final(15) == 30
  {
  }

  lemma Final2()
    ensures
      && Final(16) == 37 && Final(17) == 5 && Final(18) == 45 && Final(19) == 13
      && Final(20) == 53 && Final(21) == 21 && Final(22) == 61 && Final(23) == 29
  {
  }

  lemma Final3()
    ensures
      && Final(24) == 36 && Final(25) == 4 && Final(26) == 44 && Final(27) == 12
      && Final(28) == 52 && Final(29) == 20 && Final(30) == 60 && Final(31) == 28
  {
  }

  lemma Final4()
    ensures
      && Final(32) == 35 && Final(33) == 3 && Final(34) == 43 && Final(35) == 11
      && Final(36) == 51 && Final(37) == 19 && Final(38) == 59 && Final(39) == 27
  {
  }

  lemma Final5()
    ensures
      && Final(40) == 34 && Final(41) == 2 && Final(42) == 42 && Final(43) == 10
      && Final(44) == 50 && Final(45) == 18 && Final(46) == 58 && Final(47) == 26
  {
  }

  lemma Final6()
    ensures
      && Final(48) == 33 && Final(49) == 1 && Final(50) == 41 && Final(51) == 9
      && Final(52) == 49 && Final(53) == 17 && Final(54) == 57 && Final(55) == 25
  {
  }

  lemma Final7()
    ensures
      && Final(56) == 32 && Final(57) == 0 && Final(58) == 40 && Final(59) == 8
      && Final(60) == 48 && Final(61) == 16 && Final(62) == 56 && Final(63) == 24
  {
  }

  /** IP_INVERSE in closed form. */
  function FinalFormula(j: nat): int {
    if j % 2 == 1 then 7 - j / 8 + 8 * (j % 8 / 2) else 39 - j / 8 + 8 * (j % 8 / 2)
  }

  lemma FinalIs(j: nat)
    requires j < 64
    ensures Final(j) == FinalFormula(j)
  {
    hide Final;
    hide FinalFormula;
    if j < 32 {
      if j < 16 { FinalFirst(j); } else { FinalSecond(j); }
    } else {
      if j < 48 { FinalThird(j); } else { FinalFourth(j); }
    }
  }

  lemma FinalFirst(j: nat)
    requires 0 <= j < 16
    ensures Final(j) == FinalFormula(j)
  {
    hide Final;
    if j < 8 { Final0(); } else { Final1(); }
  }

  lemma FinalSecond(j: nat)
    requires 16 <= j < 32
    ensures Final(j) == FinalFormula(j)
  {
    hide Final;
    if j < 24 { Final2(); } else { Final3(); }
  }

  lemma FinalThird(j: nat)
    requires 32 <= j < 48
    ensures Final(j) == FinalFormula(j)
  {
    hide Final;
    if j < 40 { Final4(); } else { Final5(); }
  }

  lemma FinalFourth(j: nat)
    requires 48 <= j < 64
    ensures Final(j) == FinalFormula(j)
  {
    hide Final;
    if j < 56 { Final6(); } else { Final7(); }
  }

  lemma FinalInverts(j: nat)
    requires j < 64
    ensures Initial(Final(j)) == j
  {
    hide Initial;
    hide Final;
    hide Formula;
    hide FinalFormula;
    FinalIs(j);
    InitialFormula(Final(j));
    var r, k, odd := j / 8, j % 8 / 2, j % 2 == 1;
    FormulasCancel(r, k, odd);
    assert j == 8 * r + 2 * k + if odd then 1 else 0;
  }

  lemma FormulasCancel(r: nat, k: nat, odd: bool)
    requires r < 8 && k < 4
    ensures var j := 8 * r + 2 * k + if odd then 1 else 0;
      0 <= FinalFormula(j) < 64 && Formula(FinalFormula(j)) == j
  {
    var j := 8 * r + 2 * k + if odd then 1 else 0;
    var q := if odd then 8 * k + (7 - r) else 8 * (k + 4) + (7 - r);
    assert j / 8 == r && j % 8 / 2 == k && (j % 2 == 1) == odd;
    assert FinalFormula(j) == q;
    hide FinalFormula;
    assert q / 8 == (if odd then k else k + 4) && q % 8 == 7 - r;
  }

  lemma SelectBack(b: F.Bits)
    requires |b| == 64
    ensures F.Select(F.Select(b, F.IP), F.IP_INVERSE) == b
  {
    var p := F.Select(b, F.IP);
    forall j | 0 <= j < 64
      ensures F.Select(p, F.IP_INVERSE)[j] == b[j]
    {
      SelectBackAt(b, j);
    }
  }

  lemma SelectBackAt(b: F.Bits, j: nat)
    requires |b| == 64 && j < 64
    ensures F.Select(F.Select(b, F.IP), F.IP_INVERSE)[j] == b[j]
  {
    FinalInverts(j);
    var p := F.Select(b, F.IP);
    var t: int := F.IP_INVERSE[j];
    assert F.Select(p, F.IP_INVERSE)[j] == p[t - 1];
    var u: int := F.IP[t - 1];
    assert p[t - 1] == b[u - 1];
  }

  // ---- A block ----

  /** Both permutations and sixteen rounds. */
  lemma DesFunctionIs(b: Halves, keys: seq<bv32>, ks: seq<F.Bits>)
    requires HoldKeys(ks, keys)
    ensures BitsOf(DesFunction(b, keys)) == F.Cipher(BitsOf(b), ks)
  {
    hide BitsOf;
    hide InitialSwaps;
    hide FinalSwaps;
    hide HoldsHalf;
    hide HoldsKey;
    hide Rounds;
    hide F.Select;
    hide F.F;
    hide F.Sum;
    var block := BitsOf(b);
    var end := Rounds(InitialSwaps(b), keys, 16);
    var out := FinalSwaps(end);
    InitialIs(b);
    RoundsNone(InitialSwaps(b), keys);
    assert F.LR(block, ks, 0) == (F.Select(block, F.IP)[..32], F.Select(block, F.IP)[32..]);
    RoundsHold(block, ks, InitialSwaps(b), keys, 16);
    hide F.LR;
    var (left, right) := F.LR(block, ks, 16);
    SwapsCancel(end);
    InitialIs(out);
    var ip := F.Select(BitsOf(out), F.IP);
    SameHolds(ip[..32], right, end.right);
    SameHolds(ip[32..], left, end.left);
    assert ip == ip[..32] + ip[32..];
    SelectBack(BitsOf(out));
  }

  // ---- Bytes ----

  /** The bits of a block, of each byte the highest first. */
  function BlockBits(s: seq<bv8>): (b: F.Bits)
    requires |s| == 8
    ensures |b| == 64
  {
    seq(64, q requires 0 <= q < 64 => ByteBit(s[q / 8], 7 - q % 8))
  }

  lemma WordHas24(a: bv8, b: bv8, c: bv8, d: bv8, m: bv8, n: bv32)
    requires n == (m as bv32) << 24
    ensures Has(Word(a, b, c, d), n) <==> a & m != 0
  {
  }

  lemma PlaceOfByte24(k: nat)
    requires k < 8
    ensures Place(24 + k) == (BytePlace(k) as bv32) << 24
  {
  }

  lemma WordBit24(a: bv8, b: bv8, c: bv8, d: bv8, k: nat)
    requires k < 8
    ensures Bit(Word(a, b, c, d), 24 + k) <==> ByteBit(a, k)
  {
    hide Has;
    hide Word;
    hide Place;
    hide BytePlace;
    PlaceOfByte24(k);
    WordHas24(a, b, c, d, BytePlace(k), Place(24 + k));
  }

  lemma WordHas16(a: bv8, b: bv8, c: bv8, d: bv8, m: bv8, n: bv32)
    requires n == (m as bv32) << 16
    ensures Has(Word(a, b, c, d), n) <==> b & m != 0
  {
  }

  lemma PlaceOfByte16(k: nat)
    requires k < 8
    ensures Place(16 + k) == (BytePlace(k) as bv32) << 16
  {
  }

  lemma WordBit16(a: bv8, b: bv8, c: bv8, d: bv8, k: nat)
    requires k < 8
    ensures Bit(Word(a, b, c, d), 16 + k) <==> ByteBit(b, k)
  {
    hide Has;
    hide Word;
    hide Place;
    hide BytePlace;
    PlaceOfByte16(k);
    WordHas16(a, b, c, d, BytePlace(k), Place(16 + k));
  }

  lemma WordHas8(a: bv8, b: bv8, c: bv8, d: bv8, m: bv8, n: bv32)
    requires n == (m as bv32) << 8
    ensures Has(Word(a, b, c, d), n) <==> c & m != 0
  {
  }

  lemma PlaceOfByte8(k: nat)
    requires k < 8
    ensures Place(8 + k) == (BytePlace(k) as bv32) << 8
  {
  }

  lemma WordBit8(a: bv8, b: bv8, c: bv8, d: bv8, k: nat)
    requires k < 8
    ensures Bit(Word(a, b, c, d), 8 + k) <==> ByteBit(c, k)
  {
    hide Has;
    hide Word;
    hide Place;
    hide BytePlace;
    PlaceOfByte8(k);
    WordHas8(a, b, c, d, BytePlace(k), Place(8 + k));
  }

  lemma WordHas0(a: bv8, b: bv8, c: bv8, d: bv8, m: bv8, n: bv32)
    requires n == (m as bv32) << 0
    ensures Has(Word(a, b, c, d), n) <==> d & m != 0
  {
  }

  lemma PlaceOfByte0(k: nat)
    requires k < 8
    ensures Place(0 + k) == (BytePlace(k) as bv32) << 0
  {
  }

  lemma WordBit0(a: bv8, b: bv8, c: bv8, d: bv8, k: nat)
    requires k < 8
    ensures Bit(Word(a, b, c, d), 0 + k) <==> ByteBit(d, k)
  {
    hide Has;
    hide Word;
    hide Place;
    hide BytePlace;
    PlaceOfByte0(k);
    WordHas0(a, b, c, d, BytePlace(k), Place(0 + k));
  }

  lemma BitsOfWord(a: bv8, b: bv8, c: bv8, d: bv8, q: nat)
    requires q < 32
    ensures Bit(Word(a, b, c, d), 31 - q) <==> ByteBit([a, b, c, d][q / 8], 7 - q % 8)
  {
    hide Bit;
    hide Word;
    hide ByteBit;
    WordBit24(a, b, c, d, 7 - q % 8);
    WordBit16(a, b, c, d, 7 - q % 8);
    WordBit8(a, b, c, d, 7 - q % 8);
    WordBit0(a, b, c, d, 7 - q % 8);
    assert 31 - q == 24 - 8 * (q / 8) + (7 - q % 8);
  }

  lemma ScrunchedBits(s: seq<bv8>)
    requires |s| == 8
    ensures BitsOf(Scrunched(s)) == BlockBits(s)
  {
    hide BitsOf;
    hide BlockBits;
    hide Scrunched;
    forall q | 0 <= q < 64
      ensures BitsOf(Scrunched(s))[q] == BlockBits(s)[q]
    {
      ScrunchedBit(s, q);
    }
  }

  lemma ScrunchedBit(s: seq<bv8>, q: nat)
    requires |s| == 8 && q < 64
    ensures BitsOf(Scrunched(s))[q] == BlockBits(s)[q]
  {
    hide Bit;
    hide Word;
    hide ByteBit;
    var h := Scrunched(s);
    assert BitsOf(h)[q] == BlockBit(h, 63 - q);
    if q < 32 {
      BitsOfWord(s[0], s[1], s[2], s[3], q);
      assert [s[0], s[1], s[2], s[3]][q / 8] == s[q / 8];
    } else {
      BitsOfWord(s[4], s[5], s[6], s[7], q - 32);
      assert [s[4], s[5], s[6], s[7]][(q - 32) / 8] == s[q / 8];
    }
  }

  /** One block under the words of any sixteen keys. */
  lemma DesBytesIs(s: seq<bv8>, keys: seq<bv32>, ks: seq<F.Bits>)
    requires |s| == 8 && HoldKeys(ks, keys)
    ensures BlockBits(DesBytes(s, keys)) == F.Cipher(BlockBits(s), ks)
  {
    hide Scrunched;
    hide Unscrunched;
    hide DesFunction;
    hide BlockBits;
    hide BitsOf;
    hide F.Cipher;
    assert F.AreKeys(ks);
    hide HoldKeys;
    var h := DesFunction(Scrunched(s), keys);
    ScrunchedBits(s);
    DesFunctionIs(Scrunched(s), keys, ks);
    ScrunchRoundTrip(s, h);
    ScrunchedBits(Unscrunched(h));
  }

  lemma ScheduleHoldsKeys(key: seq<bv8>, keys: seq<bv32>, decrypt: bool)
    requires IsSchedule(keys, key, decrypt)
    ensures var ks := F.KS(MirroredBits(key)); HoldKeys(if decrypt then F.Reversed(ks) else ks, keys)
  {
    hide HoldsKey;
    hide ScheduleWord;
    hide F.RoundKey;
    hide MirroredBits;
    var ks := F.KS(MirroredBits(key));
    var used := if decrypt then F.Reversed(ks) else ks;
    forall n | 0 <= n < 16
      ensures HoldsKey(used[n], keys[2 * n], keys[2 * n + 1])
    {
      var i := if decrypt then 15 - n else n;
      assert keys[2 * (if decrypt then 15 - i else i)] == ScheduleWord(key, i, false);
      assert keys[2 * (if decrypt then 15 - i else i) + 1] == ScheduleWord(key, i, true);
      ScheduleHolds(key, i);
    }
  }

  /** A key register filled for either direction enciphers or deciphers by the standard. */
  lemma RegisterIsStandard(s: seq<bv8>, keys: seq<bv32>, key: seq<bv8>, decrypt: bool)
    requires |s| == 8 && IsSchedule(keys, key, decrypt)
    ensures BlockBits(DesBytes(s, keys)) ==
      if decrypt then F.Decipher(BlockBits(s), MirroredBits(key)) else F.Encipher(BlockBits(s), MirroredBits(key))
  {
    hide DesBytes;
    hide BlockBits;
    hide MirroredBits;
    hide HoldKeys;
    hide F.Cipher;
    var ks := F.KS(MirroredBits(key));
    ScheduleHoldsKeys(key, keys, decrypt);
    DesBytesIs(s, keys, if decrypt then F.Reversed(ks) else ks);
  }

  /** Blocks with the same bits are the same. */
  lemma SameBlock(s: seq<bv8>, t: seq<bv8>)
    requires |s| == 8 && |t| == 8 && BlockBits(s) == BlockBits(t)
    ensures s == t
  {
    hide ByteBit;
    forall i | 0 <= i < 8
      ensures s[i] == t[i]
    {
      forall k | 0 <= k < 8
        ensures ByteBit(s[i], k) == ByteBit(t[i], k)
      {
        var q := 8 * i + 7 - k;
        assert BlockBits(s)[q] == BlockBits(t)[q] && q / 8 == i && 7 - q % 8 == k;
      }
      SameByte(s[i], t[i]);
    }
  }

  lemma SameByte(x: bv8, y: bv8)
    requires forall k :: 0 <= k < 8 ==> ByteBit(x, k) == ByteBit(y, k)
    ensures x == y
  {
    assert ByteBit(x, 0) == ByteBit(y, 0) && ByteBit(x, 1) == ByteBit(y, 1) && ByteBit(x, 2) == ByteBit(y, 2);
    assert ByteBit(x, 3) == ByteBit(y, 3) && ByteBit(x, 4) == ByteBit(y, 4) && ByteBit(x, 5) == ByteBit(y, 5);
    assert ByteBit(x, 6) == ByteBit(y, 6) && ByteBit(x, 7) == ByteBit(y, 7);
  }
}
