/** The key schedule of d3des.c is that of the standard, for a key whose bytes are read from
    the lowest bit, with the bits of each round key where the rounds look for them. */
module DesKeys {
  import opened Des
  import opened DesTables
  import opened KeyHalves
  import opened WordBits
  import opened DesRounds
  import F = Fips46

  // ---- Bits of bytes ----

  function BytePlace(k: nat): bv8
    requires k < 8
  {
    match k
    case 0 => 0x01 case 1 => 0x02 case 2 => 0x04 case 3 => 0x08
    case 4 => 0x10 case 5 => 0x20 case 6 => 0x40 case 7 => 0x80
  }

  predicate ByteBit(x: bv8, k: nat)
    requires k < 8
  {
    x & BytePlace(k) != 0
  }

  /** The bits of a key in the order in which d3des.c counts them: in each byte the lowest
      first. */
  function MirroredBits(key: seq<bv8>): (b: F.Bits)
    requires |key| == 8
    ensures |b| == 64
  {
    seq(64, q requires 0 <= q < 64 => ByteBit(key[q / 8], q % 8))
  }

  // ---- Permuted choice 1 ----

  function Choice1(j: nat): (l: nat)
    requires j < 56
    ensures l < 64
  {
    var t: int := F.PC1[j];
    t - 1
  }

  function Selected1(j: nat): (l: nat)
    requires j < 56
    ensures l < 64
  {
    var t: int := PC1[j];
    t
  }

  lemma SameChoice0()
    ensures
      && Choice1(0) == 56 == Selected1(0) && Choice1(1) == 48 == Selected1(1) && Choice1(2) == 40 == Selected1(2)
      && Choice1(3) == 32 == Selected1(3) && Choice1(4) == 24 == Selected1(4) && Choice1(5) == 16 == Selected1(5)
      && Choice1(6) == 8 == Selected1(6)
  {
  }

  lemma SameChoice1()
    ensures
      && Choice1(7) == 0 == Selected1(7) && Choice1(8) == 57 == Selected1(8) && Choice1(9) == 49 == Selected1(9)
      && Choice1(10) == 41 == Selected1(10) && Choice1(11) == 33 == Selected1(11) && Choice1(12) == 25 == Selected1(12)
      && Choice1(13) == 17 == Selected1(13)
  {
  }

  lemma SameChoice2()
    ensures
      && Choice1(14) == 9 == Selected1(14) && Choice1(15) == 1 == Selected1(15) && Choice1(16) == 58 == Selected1(16)
      && Choice1(17) == 50 == Selected1(17) && Choice1(18) == 42 == Selected1(18) && Choice1(19) == 34 == Selected1(19)
      && Choice1(20) == 26 == Selected1(20)
  {
  }

  lemma SameChoice3()
    ensures
      && Choice1(21) == 18 == Selected1(21) && Choice1(22) == 10 == Selected1(22) && Choice1(23) == 2 == Selected1(23)
      && Choice1(24) == 59 == Selected1(24) && Choice1(25) == 51 == Selected1(25) && Choice1(26) == 43 == Selected1(26)
      && Choice1(27) == 35 == Selected1(27)
  {
  }

  lemma SameChoice4()
    ensures
      && Choice1(28) == 62 == Selected1(28) && Choice1(29) == 54 == Selected1(29) && Choice1(30) == 46 == Selected1(30)
      && Choice1(31) == 38 == Selected1(31) && Choice1(32) == 30 == Selected1(32) && Choice1(33) == 22 == Selected1(33)
      && Choice1(34) == 14 == Selected1(34)
  {
  }

  lemma SameChoice5()
    ensures
      && Choice1(35) == 6 == Selected1(35) && Choice1(36) == 61 == Selected1(36) && Choice1(37) == 53 == Selected1(37)
      && Choice1(38) == 45 == Selected1(38) && Choice1(39) == 37 == Selected1(39) && Choice1(40) == 29 == Selected1(40)
      && Choice1(41) == 21 == Selected1(41)
  {
  }

  lemma SameChoice6()
    ensures
      && Choice1(42) == 13 == Selected1(42) && Choice1(43) == 5 == Selected1(43) && Choice1(44) == 60 == Selected1(44)
      && Choice1(45) == 52 == Selected1(45) && Choice1(46) == 44 == Selected1(46) && Choice1(47) == 36 == Selected1(47)
      && Choice1(48) == 28 == Selected1(48)
  {
  }

  lemma SameChoice7()
    ensures
      && Choice1(49) == 20 == Selected1(49) && Choice1(50) == 12 == Selected1(50) && Choice1(51) == 4 == Selected1(51)
      && Choice1(52) == 27 == Selected1(52) && Choice1(53) == 19 == Selected1(53) && Choice1(54) == 11 == Selected1(54)
      && Choice1(55) == 3 == Selected1(55)
  {
  }

  lemma SameChoice(j: nat)
    requires j < 56
    ensures Choice1(j) == Selected1(j)
  {
    hide Choice1;
    hide Selected1;
    if j < 28 {
      if j < 7 { SameChoice0(); } else if j < 14 { SameChoice1(); } else if j < 21 { SameChoice2(); } else { SameChoice3(); }
    } else {
      if j < 35 { SameChoice4(); } else if j < 42 { SameChoice5(); } else if j < 49 { SameChoice6(); } else { SameChoice7(); }
    }
  }

  lemma ByteBitIs(x: bv8, k: nat)
    requires k < 8
    ensures ByteBit(x, k) <==> x & BYTEBIT[k] != 0
  {
    assert BYTEBIT[k] == BytePlace(k);
  }

  lemma KeyBitsAre(key: seq<bv8>)
    requires |key| == 8
    ensures KeyBits(key) == F.Select(MirroredBits(key), F.PC1)
  {
    var b := MirroredBits(key);
    hide F.PC1;
    hide PC1;
    hide ByteBit;
    forall j | 0 <= j < 56
      ensures KeyBits(key)[j] == F.Select(b, F.PC1)[j]
    {
      KeyBitAt(key, j);
    }
  }

  lemma KeyBitAt(key: seq<bv8>, j: nat)
    requires |key| == 8 && j < 56
    ensures KeyBits(key)[j] == F.Select(MirroredBits(key), F.PC1)[j]
  {
    hide ByteBit;
    var l := Selected1(j);
    SameChoice(j);
    ByteBitIs(key[l / 8], l % 8);
    var t: int := F.PC1[j];
    assert F.Select(MirroredBits(key), F.PC1)[j] == MirroredBits(key)[t - 1];
  }

  // ---- The shifts ----

  lemma ShiftTwice(c: F.Bits, a: nat, b: nat)
    requires a + b <= |c|
    ensures F.LeftShift(F.LeftShift(c, a), b) == F.LeftShift(c, a + b)
  {
  }

  /** All shifts up to iteration n. */
  function Total(n: nat): (t: nat)
    requires n <= 16
    ensures t <= 28
  {
    if n == 0 then 0 else TOTROT[n - 1]
  }

  lemma TotalsAre()
    ensures Total(0) == 0
    ensures
      && Total(1) == 1 && Total(2) == 2 && Total(3) == 4 && Total(4) == 6
      && Total(5) == 8 && Total(6) == 10 && Total(7) == 12 && Total(8) == 14
      && Total(9) == 15 && Total(10) == 17 && Total(11) == 19 && Total(12) == 21
      && Total(13) == 23 && Total(14) == 25 && Total(15) == 27 && Total(16) == 28
  {
  }

  lemma ShiftsAre()
    ensures
      && F.SHIFTS[0] == 1 && F.SHIFTS[1] == 1 && F.SHIFTS[2] == 2 && F.SHIFTS[3] == 2
      && F.SHIFTS[4] == 2 && F.SHIFTS[5] == 2 && F.SHIFTS[6] == 2 && F.SHIFTS[7] == 2
      && F.SHIFTS[8] == 1 && F.SHIFTS[9] == 2 && F.SHIFTS[10] == 2 && F.SHIFTS[11] == 2
      && F.SHIFTS[12] == 2 && F.SHIFTS[13] == 2 && F.SHIFTS[14] == 2 && F.SHIFTS[15] == 1
  {
  }

  lemma NextTotal(n: nat)
    requires 1 <= n <= 16
    ensures Total(n) == Total(n - 1) + F.SHIFTS[n - 1]
  {
    TotalsAre();
    ShiftsAre();
    hide Total;
    hide F.SHIFTS;
  }

  lemma {:induction false} CDIs(key: F.Bits, n: nat)
    requires |key| == 64 && n <= 16
    ensures F.CD(key, n) == (F.LeftShift(F.Select(key, F.PC1)[..28], Total(n)), F.LeftShift(F.Select(key, F.PC1)[28..], Total(n)))
    decreases n
  {
    var c, d := F.Select(key, F.PC1)[..28], F.Select(key, F.PC1)[28..];
    hide F.Select;
    if n == 0 {
      assert c[0..] + c[..0] == c && d[0..] + d[..0] == d;
    } else {
      hide Total;
      hide F.SHIFTS;
      NextTotal(n);
      CDIs(key, n - 1);
      ShiftTwice(c, Total(n - 1), F.SHIFTS[n - 1]);
      ShiftTwice(d, Total(n - 1), F.SHIFTS[n - 1]);
    }
  }

  /** The two loops of deskey are the shifts of the standard. */
  lemma RotatedIs(b: F.Bits, i: nat)
    requires |b| == 56 && i < 16
    ensures Rotated(b, i) == F.LeftShift(b[..28], Total(i + 1)) + F.LeftShift(b[28..], Total(i + 1))
  {
    var t, r := Total(i + 1), Rotated(b, i);
    assert t == TOTROT[i] as nat;
    hide TOTROT;
    forall j | 0 <= j < 28
      ensures r[..28][j] == if j + t < 28 then b[..28][j + t] else b[..28][j + t - 28]
      ensures r[28..][j] == if j + t < 28 then b[28..][j + t] else b[28..][j + t - 28]
    {
      assert r[j] == b[RotatedFrom(j, i)] && r[28 + j] == b[RotatedFrom(28 + j, i)];
    }
    SameHalf(r[..28], b[..28], t);
    SameHalf(r[28..], b[28..], t);
    assert r == r[..28] + r[28..];
  }

  // ---- Permuted choice 2 ----

  function Choice2(m: nat): (l: nat)
    requires m < 48
    ensures l < 56
  {
    var t: int := F.PC2[m];
    t - 1
  }

  lemma LowChoice()
    ensures
      && Choice2(0) == 13 && Choice2(1) == 16 && Choice2(2) == 10 && Choice2(3) == 23
      && Choice2(4) == 0 && Choice2(5) == 4 && Choice2(6) == 2 && Choice2(7) == 27
      && Choice2(8) == 14 && Choice2(9) == 5 && Choice2(10) == 20 && Choice2(11) == 9
      && Choice2(12) == 22 && Choice2(13) == 18 && Choice2(14) == 11 && Choice2(15) == 3
      && Choice2(16) == 25 && Choice2(17) == 7 && Choice2(18) == 15 && Choice2(19) == 6
      && Choice2(20) == 26 && Choice2(21) == 19 && Choice2(22) == 12 && Choice2(23) == 1
  {
  }

  lemma HighChoice()
    ensures
      && Choice2(24) == 40 && Choice2(25) == 51 && Choice2(26) == 30 && Choice2(27) == 36
      && Choice2(28) == 46 && Choice2(29) == 54 && Choice2(30) == 29 && Choice2(31) == 39
      && Choice2(32) == 50 && Choice2(33) == 44 && Choice2(34) == 32 && Choice2(35) == 47
      && Choice2(36) == 43 && Choice2(37) == 48 && Choice2(38) == 38 && Choice2(39) == 55
      && Choice2(40) == 33 && Choice2(41) == 52 && Choice2(42) == 45 && Choice2(43) == 41
      && Choice2(44) == 49 && Choice2(45) == 35 && Choice2(46) == 28 && Choice2(47) == 31
  {
  }

  lemma SameChoice2nd(m: nat)
    requires m < 48
    ensures Choice2(m) == Pc2(m)
  {
    hide Choice2;
    hide Pc2;
    if m < 24 {
      LowChoice();
      LowOrder();
    } else {
      HighChoice();
      HighOrder();
    }
  }

  lemma RoundKeyAt(key: seq<bv8>, i: nat, m: nat)
    requires |key| == 8 && i < 16 && m < 48
    ensures F.RoundKey(MirroredBits(key), i + 1)[m] == Rotated(KeyBits(key), i)[Pc2(m)]
  {
    hide F.CD;
    hide MirroredBits;
    hide KeyBits;
    hide Rotated;
    hide Total;
    var b := MirroredBits(key);
    KeyBitsAre(key);
    CDIs(b, i + 1);
    RotatedIs(KeyBits(key), i);
    SameChoice2nd(m);
    var t: int := F.PC2[m];
    assert F.RoundKey(b, i + 1)[m] == (F.CD(b, i + 1).0 + F.CD(b, i + 1).1)[t - 1];
  }

  // ---- The raw words ----

  lemma BigByteIs(j: nat)
    requires j < 24
    ensures BigByte(j) == Place(23 - j)
  {
    PowersAre();
    hide BigByte;
  }

  lemma {:induction false} KeyWordBit(pcr: seq<bool>, offset: nat, k: nat, t: nat)
    requires |pcr| == 56 && k <= 24 && offset + k <= 48 && t < 24
    ensures Bit(KeyWord(pcr, offset, k), t) <==> 23 - t < k && pcr[Pc2(offset + 23 - t)]
    decreases k
  {
    hide Bit;
    hide Place;
    hide Or;
    hide Pc2;
    hide BigByte;
    if k == 0 {
      NoBit(t);
    } else {
      KeyWordBit(pcr, offset, k - 1, t);
      BigByteIs(k - 1);
      BitPlace(24 - k, t);
      BitOr(KeyWord(pcr, offset, k - 1), BigByte(k - 1), t);
    }
  }

  lemma RawBit(key: seq<bv8>, i: nat, second: bool, t: nat)
    requires |key| == 8 && i < 16 && t < 24
    ensures Bit(RawWord(key, i, second), t) <==> F.RoundKey(MirroredBits(key), i + 1)[(if second then 47 else 23) - t]
  {
    hide Bit;
    hide KeyWord;
    hide Rotated;
    hide KeyBits;
    hide F.RoundKey;
    hide MirroredBits;
    hide Pc2;
    var offset := if second then 24 else 0;
    KeyWordBit(Rotated(KeyBits(key), i), offset, 24, t);
    RoundKeyAt(key, i, offset + 23 - t);
  }

  // ---- The cooked words ----

  predicate CookedOdd(raw0: bv32, raw1: bv32, c: bv32) {
    c == ((raw0 & 0x00fc0000) << 6) | ((raw0 & 0x00000fc0) << 10) | ((raw1 & 0x00fc0000) >> 10) | ((raw1 & 0x00000fc0) >> 6)
  }

  predicate CookedEven(raw0: bv32, raw1: bv32, c: bv32) {
    c == ((raw0 & 0x0003f000) << 12) | ((raw0 & 0x0000003f) << 16) | ((raw1 & 0x0003f000) >> 4) | (raw1 & 0x0000003f)
  }

  lemma CookedIs(raw0: bv32, raw1: bv32)
    ensures CookedOdd(raw0, raw1, Cooked(raw0, raw1, false)) && CookedEven(raw0, raw1, Cooked(raw0, raw1, true))
  {
  }

  predicate Moves1(m: bv32, n: bv32) {
    m & 0x3f000000 == m && m >> 6 == n
  }

  lemma HasGroup1(raw0: bv32, raw1: bv32, c: bv32, m: bv32, n: bv32)
    requires CookedOdd(raw0, raw1, c) && Moves1(m, n)
    ensures Has(c, m) <==> Has(raw0, n)
  {
  }

  lemma GroupPlaces1(t: nat)
    requires t < 6
    ensures Moves1(Place(24 + t), Place(18 + t))
  {
  }

  lemma CookedGroup1(raw0: bv32, raw1: bv32, t: nat)
    requires t < 6
    ensures Bit(Cooked(raw0, raw1, false), 24 + t) <==> Bit(raw0, 18 + t)
  {
    hide Has;
    hide Place;
    hide Cooked;
    hide CookedOdd;
    hide Moves1;
    CookedIs(raw0, raw1);
    GroupPlaces1(t);
    HasGroup1(raw0, raw1, Cooked(raw0, raw1, false), Place(24 + t), Place(18 + t));
  }

  predicate Moves2(m: bv32, n: bv32) {
    m & 0x3f000000 == m && m >> 12 == n
  }

  lemma HasGroup2(raw0: bv32, raw1: bv32, c: bv32, m: bv32, n: bv32)
    requires CookedEven(raw0, raw1, c) && Moves2(m, n)
    ensures Has(c, m) <==> Has(raw0, n)
  {
  }

  lemma GroupPlaces2(t: nat)
    requires t < 6
    ensures Moves2(Place(24 + t), Place(12 + t))
  {
  }

  lemma CookedGroup2(raw0: bv32, raw1: bv32, t: nat)
    requires t < 6
    ensures Bit(Cooked(raw0, raw1, true), 24 + t) <==> Bit(raw0, 12 + t)
  {
    hide Has;
    hide Place;
    hide Cooked;
    hide CookedEven;
    hide Moves2;
    CookedIs(raw0, raw1);
    GroupPlaces2(t);
    HasGroup2(raw0, raw1, Cooked(raw0, raw1, true), Place(24 + t), Place(12 + t));
  }

  predicate Moves3(m: bv32, n: bv32) {
    m & 0x003f0000 == m && m >> 10 == n
  }

  lemma HasGroup3(raw0: bv32, raw1: bv32, c: bv32, m: bv32, n: bv32)
    requires CookedOdd(raw0, raw1, c) && Moves3(m, n)
    ensures Has(c, m) <==> Has(raw0, n)
  {
  }

  lemma GroupPlaces3(t: nat)
    requires t < 6
    ensures Moves3(Place(16 + t), Place(6 + t))
  {
  }

  lemma CookedGroup3(raw0: bv32, raw1: bv32, t: nat)
    requires t < 6
    ensures Bit(Cooked(raw0, raw1, false), 16 + t) <==> Bit(raw0, 6 + t)
  {
    hide Has;
    hide Place;
    hide Cooked;
    hide CookedOdd;
    hide Moves3;
    CookedIs(raw0, raw1);
    GroupPlaces3(t);
    HasGroup3(raw0, raw1, Cooked(raw0, raw1, false), Place(16 + t), Place(6 + t));
  }

  predicate Moves4(m: bv32, n: bv32) {
    m & 0x003f0000 == m && m >> 16 == n
  }

  lemma HasGroup4(raw0: bv32, raw1: bv32, c: bv32, m: bv32, n: bv32)
    requires CookedEven(raw0, raw1, c) && Moves4(m, n)
    ensures Has(c, m) <==> Has(raw0, n)
  {
  }

  lemma GroupPlaces4(t: nat)
    requires t < 6
    ensures Moves4(Place(16 + t), Place(0 + t))
  {
  }

  lemma CookedGroup4(raw0: bv32, raw1: bv32, t: nat)
    requires t < 6
    ensures Bit(Cooked(raw0, raw1, true), 16 + t) <==> Bit(raw0, 0 + t)
  {
    hide Has;
    hide Place;
    hide Cooked;
    hide CookedEven;
    hide Moves4;
    CookedIs(raw0, raw1);
    GroupPlaces4(t);
    HasGroup4(raw0, raw1, Cooked(raw0, raw1, true), Place(16 + t), Place(0 + t));
  }

  predicate Moves5(m: bv32, n: bv32) {
    m & 0x00003f00 == m && m << 10 == n
  }

  lemma HasGroup5(raw0: bv32, raw1: bv32, c: bv32, m: bv32, n: bv32)
    requires CookedOdd(raw0, raw1, c) && Moves5(m, n)
    ensures Has(c, m) <==> Has(raw1, n)
  {
  }

  lemma GroupPlaces5(t: nat)
    requires t < 6
    ensures Moves5(Place(8 + t), Place(18 + t))
  {
  }

  lemma CookedGroup5(raw0: bv32, raw1: bv32, t: nat)
    requires t < 6
    ensures Bit(Cooked(raw0, raw1, false), 8 + t) <==> Bit(raw1, 18 + t)
  {
    hide Has;
    hide Place;
    hide Cooked;
    hide CookedOdd;
    hide Moves5;
    CookedIs(raw0, raw1);
    GroupPlaces5(t);
    HasGroup5(raw0, raw1, Cooked(raw0, raw1, false), Place(8 + t), Place(18 + t));
  }

  predicate Moves6(m: bv32, n: bv32) {
    m & 0x00003f00 == m && m << 4 == n
  }

  lemma HasGroup6(raw0: bv32, raw1: bv32, c: bv32, m: bv32, n: bv32)
    requires CookedEven(raw0, raw1, c) && Moves6(m, n)
    ensures Has(c, m) <==> Has(raw1, n)
  {
  }

  lemma GroupPlaces6(t: nat)
    requires t < 6
    ensures Moves6(Place(8 + t), Place(12 + t))
  {
  }

  lemma CookedGroup6(raw0: bv32, raw1: bv32, t: nat)
    requires t < 6
    ensures Bit(Cooked(raw0, raw1, true), 8 + t) <==> Bit(raw1, 12 + t)
  {
    hide Has;
    hide Place;
    hide Cooked;
    hide CookedEven;
    hide Moves6;
    CookedIs(raw0, raw1);
    GroupPlaces6(t);
    HasGroup6(raw0, raw1, Cooked(raw0, raw1, true), Place(8 + t), Place(12 + t));
  }

  predicate Moves7(m: bv32, n: bv32) {
    m & 0x0000003f == m && m << 6 == n
  }

  lemma HasGroup7(raw0: bv32, raw1: bv32, c: bv32, m: bv32, n: bv32)
    requires CookedOdd(raw0, raw1, c) && Moves7(m, n)
    ensures Has(c, m) <==> Has(raw1, n)
  {
  }

  lemma GroupPlaces7(t: nat)
    requires t < 6
    ensures Moves7(Place(0 + t), Place(6 + t))
  {
  }

  lemma CookedGroup7(raw0: bv32, raw1: bv32, t: nat)
    requires t < 6
    ensures Bit(Cooked(raw0, raw1, false), 0 + t) <==> Bit(raw1, 6 + t)
  {
    hide Has;
    hide Place;
    hide Cooked;
    hide CookedOdd;
    hide Moves7;
    CookedIs(raw0, raw1);
    GroupPlaces7(t);
    HasGroup7(raw0, raw1, Cooked(raw0, raw1, false), Place(0 + t), Place(6 + t));
  }

  predicate Moves8(m: bv32, n: bv32) {
    m & 0x0000003f == m && m == n
  }

  lemma HasGroup8(raw0: bv32, raw1: bv32, c: bv32, m: bv32, n: bv32)
    requires CookedEven(raw0, raw1, c) && Moves8(m, n)
    ensures Has(c, m) <==> Has(raw1, n)
  {
  }

  lemma GroupPlaces8(t: nat)
    requires t < 6
    ensures Moves8(Place(0 + t), Place(0 + t))
  {
  }

  lemma CookedGroup8(raw0: bv32, raw1: bv32, t: nat)
    requires t < 6
    ensures Bit(Cooked(raw0, raw1, true), 0 + t) <==> Bit(raw1, 0 + t)
  {
    hide Has;
    hide Place;
    hide Cooked;
    hide CookedEven;
    hide Moves8;
    CookedIs(raw0, raw1);
    GroupPlaces8(t);
    HasGroup8(raw0, raw1, Cooked(raw0, raw1, true), Place(0 + t), Place(0 + t));
  }

  lemma CookedBit(raw0: bv32, raw1: bv32, g: nat, q: nat)
    requires g < 8 && q < 6
    ensures Bit(Cooked(raw0, raw1, g % 2 == 1), KeyPlace(g, q)) ==
      Bit(if g < 4 then raw0 else raw1, (if g < 4 then 23 else 47) - (6 * g + q))
  {
    hide Bit;
    hide Cooked;
    match g
    case 0 => CookedGroup1(raw0, raw1, 5 - q);
    case 1 => CookedGroup2(raw0, raw1, 5 - q);
    case 2 => CookedGroup3(raw0, raw1, 5 - q);
    case 3 => CookedGroup4(raw0, raw1, 5 - q);
    case 4 => CookedGroup5(raw0, raw1, 5 - q);
    case 5 => CookedGroup6(raw0, raw1, 5 - q);
    case 6 => CookedGroup7(raw0, raw1, 5 - q);
    case 7 => CookedGroup8(raw0, raw1, 5 - q);
  }

  /** The words of a round hold its key. */
  lemma ScheduleHolds(key: seq<bv8>, i: nat)
    requires |key| == 8 && i < 16
    ensures HoldsKey(F.RoundKey(MirroredBits(key), i + 1), ScheduleWord(key, i, false), ScheduleWord(key, i, true))
  {
    var k := F.RoundKey(MirroredBits(key), i + 1);
    hide F.RoundKey;
    hide MirroredBits;
    hide ScheduleWord;
    hide HoldsKeyBit;
    forall g, q | 0 <= g < 8 && 0 <= q < 6
      ensures HoldsKeyBit(k, ScheduleWord(key, i, false), ScheduleWord(key, i, true), g, q)
    {
      ScheduleHoldsBit(key, i, g, q);
    }
  }

  lemma ScheduleHoldsBit(key: seq<bv8>, i: nat, g: nat, q: nat)
    requires |key| == 8 && i < 16 && g < 8 && q < 6
    ensures HoldsKeyBit(F.RoundKey(MirroredBits(key), i + 1), ScheduleWord(key, i, false), ScheduleWord(key, i, true), g, q)
  {
    hide F.RoundKey;
    hide MirroredBits;
    hide Bit;
    hide Cooked;
    hide RawWord;
    hide KeyPlace;
    CookedBit(RawWord(key, i, false), RawWord(key, i, true), g, q);
    RawBit(key, i, g >= 4, (if g < 4 then 23 else 47) - (6 * g + q));
  }
}
