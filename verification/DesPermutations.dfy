/** The bit exchanges before the rounds are the initial permutation of the standard, with both
    halves turned left by one place. */
module DesPermutations {
  import opened Des
  import opened WordBits
  import opened DesTargets
  import opened DesRounds
  import F = Fips46

  // ---- The exchange over 4 places ----

  predicate Exchanged4(a: bv32, b: bv32, a': bv32, b': bv32) {
    a' == a ^ ((((a >> 4) ^ b) & 0x0f0f0f0f) << 4) && b' == b ^ (((a >> 4) ^ b) & 0x0f0f0f0f)
  }

  lemma Swap4Exchanges(a: bv32, b: bv32)
    ensures var r := SwapBits(a, b, 4, 0x0f0f0f0f); Exchanged4(a, b, r.0, r.1)
  {
    hide SwapBits;
    hide ShiftLeft;
    hide ShiftRight;
    hide Exchanged4;
    var t, w, u, a', b' := Swapping(a, b, 4, 0x0f0f0f0f);
    By4(a);
    By4(w);
    Exchanging4(a, b, t, w, u, a', b');
  }

  lemma Exchanging4(a: bv32, b: bv32, t: bv32, w: bv32, u: bv32, a': bv32, b': bv32)
    requires t == a >> 4 && w == (t ^ b) & 0x0f0f0f0f && u == w << 4 && a' == a ^ u && b' == b ^ w
    ensures Exchanged4(a, b, a', b')
  {
    InOne4(a, b, t, w, u, a', b');
  }

  lemma InOne4(a: bv32, b: bv32, t: bv32, w: bv32, u: bv32, a': bv32, b': bv32)
    requires t == a >> 4 && w == (t ^ b) & 0x0f0f0f0f && u == w << 4 && a' == a ^ u && b' == b ^ w
    ensures a' == a ^ ((((a >> 4) ^ b) & 0x0f0f0f0f) << 4) && b' == b ^ (((a >> 4) ^ b) & 0x0f0f0f0f)
  {
  }

  lemma Moved4(a: bv32, b: bv32, a': bv32, b': bv32, m: bv32, n: bv32)
    requires Exchanged4(a, b, a', b') && Paired4(m, n)
    ensures (Has(b', m) <==> Has(a, n)) && (Has(a', n) <==> Has(b, m)) && (Has(a', m) <==> Has(a, m)) && (Has(b', n) <==> Has(b, n))
  {
    hide Exchanged4;
    hide Paired4;
    hide Has;
    Down4(a, b, a', b', m, n);
    Up4(a, b, a', b', m, n);
    Stay4(a, b, a', b', m, n);
  }

  lemma Down4(a: bv32, b: bv32, a': bv32, b': bv32, m: bv32, n: bv32)
    requires Exchanged4(a, b, a', b') && Paired4(m, n)
    ensures Has(b', m) <==> Has(a, n)
  {
  }

  lemma Up4(a: bv32, b: bv32, a': bv32, b': bv32, m: bv32, n: bv32)
    requires Exchanged4(a, b, a', b') && Paired4(m, n)
    ensures Has(a', n) <==> Has(b, m)
  {
  }

  lemma Stay4(a: bv32, b: bv32, a': bv32, b': bv32, m: bv32, n: bv32)
    requires Exchanged4(a, b, a', b') && Paired4(m, n)
    ensures (Has(a', m) <==> Has(a, m)) && (Has(b', n) <==> Has(b, n))
  {
  }

  /** m is under the mask and n lies 4 places up. */
  predicate Paired4(m: bv32, n: bv32) {
    m & 0x0f0f0f0f == m && n & 0xf0f0f0f0 == n && n >> 4 == m
  }

  lemma Pairs4(i: nat)
    requires i < 32 && i % 8 < 4
    ensures i + 4 < 32 && Paired4(Place(i), Place(i + 4))
  {
    hide Paired4;
    if i < 16 {
      LowPairs4(i);
    } else {
      HighPairs4(i);
    }
  }

  lemma LowPairs4(i: nat)
    requires i < 16 && i % 8 < 4
    ensures i + 4 < 32 && Paired4(Place(i), Place(i + 4))
  {
  }

  lemma HighPairs4(i: nat)
    requires 16 <= i < 32 && i % 8 < 4
    ensures i + 4 < 32 && Paired4(Place(i), Place(i + 4))
  {
  }

  lemma Swap4Bits(a: bv32, b: bv32, i: nat)
    requires i < 32
    ensures var r := SwapBits(a, b, 4, 0x0f0f0f0f);
      if i % 8 < 4 then (Bit(r.0, i) <==> Bit(a, i)) && i + 4 < 32 && (Bit(r.1, i) <==> Bit(a, i + 4))
      else i >= 4 && (Bit(r.0, i) <==> Bit(b, i - 4)) && (Bit(r.1, i) <==> Bit(b, i))
  {
    hide SwapBits;
    hide Exchanged4;
    hide Paired4;
    hide Has;
    hide Place;
    var r := SwapBits(a, b, 4, 0x0f0f0f0f);
    var l := if i % 8 < 4 then i else i - 4;
    Swap4Exchanges(a, b);
    Pairs4(l);
    Moved4(a, b, r.0, r.1, Place(l), Place(l + 4));
  }

  // ---- The exchange over 16 places ----

  predicate Exchanged16(a: bv32, b: bv32, a': bv32, b': bv32) {
    a' == a ^ ((((a >> 16) ^ b) & 0x0000ffff) << 16) && b' == b ^ (((a >> 16) ^ b) & 0x0000ffff)
  }

  lemma Swap16Exchanges(a: bv32, b: bv32)
    ensures var r := SwapBits(a, b, 16, 0x0000ffff); Exchanged16(a, b, r.0, r.1)
  {
    hide SwapBits;
    hide ShiftLeft;
    hide ShiftRight;
    hide Exchanged16;
    var t, w, u, a', b' := Swapping(a, b, 16, 0x0000ffff);
    By16(a);
    By16(w);
    Exchanging16(a, b, t, w, u, a', b');
  }

  lemma Exchanging16(a: bv32, b: bv32, t: bv32, w: bv32, u: bv32, a': bv32, b': bv32)
    requires t == a >> 16 && w == (t ^ b) & 0x0000ffff && u == w << 16 && a' == a ^ u && b' == b ^ w
    ensures Exchanged16(a, b, a', b')
  {
    InOne16(a, b, t, w, u, a', b');
  }

  lemma InOne16(a: bv32, b: bv32, t: bv32, w: bv32, u: bv32, a': bv32, b': bv32)
    requires t == a >> 16 && w == (t ^ b) & 0x0000ffff && u == w << 16 && a' == a ^ u && b' == b ^ w
    ensures a' == a ^ ((((a >> 16) ^ b) & 0x0000ffff) << 16) && b' == b ^ (((a >> 16) ^ b) & 0x0000ffff)
  {
  }

  lemma Moved16(a: bv32, b: bv32, a': bv32, b': bv32, m: bv32, n: bv32)
    requires Exchanged16(a, b, a', b') && Paired16(m, n)
    ensures (Has(b', m) <==> Has(a, n)) && (Has(a', n) <==> Has(b, m)) && (Has(a', m) <==> Has(a, m)) && (Has(b', n) <==> Has(b, n))
  {
    hide Exchanged16;
    hide Paired16;
    hide Has;
    Down16(a, b, a', b', m, n);
    Up16(a, b, a', b', m, n);
    Stay16(a, b, a', b', m, n);
  }

  lemma Down16(a: bv32, b: bv32, a': bv32, b': bv32, m: bv32, n: bv32)
    requires Exchanged16(a, b, a', b') && Paired16(m, n)
    ensures Has(b', m) <==> Has(a, n)
  {
  }

  lemma Up16(a: bv32, b: bv32, a': bv32, b': bv32, m: bv32, n: bv32)
    requires Exchanged16(a, b, a', b') && Paired16(m, n)
    ensures Has(a', n) <==> Has(b, m)
  {
  }

  lemma Stay16(a: bv32, b: bv32, a': bv32, b': bv32, m: bv32, n: bv32)
    requires Exchanged16(a, b, a', b') && Paired16(m, n)
    ensures (Has(a', m) <==> Has(a, m)) && (Has(b', n) <==> Has(b, n))
  {
  }

  /** m is under the mask and n lies 16 places up. */
  predicate Paired16(m: bv32, n: bv32) {
    m & 0x0000ffff == m && n & 0xffff0000 == n && n >> 16 == m
  }

  lemma Pairs16(i: nat)
    requires i < 32 && i < 16
    ensures i + 16 < 32 && Paired16(Place(i), Place(i + 16))
  {
  }

  lemma Swap16Bits(a: bv32, b: bv32, i: nat)
    requires i < 32
    ensures var r := SwapBits(a, b, 16, 0x0000ffff);
      if i < 16 then (Bit(r.0, i) <==> Bit(a, i)) && i + 16 < 32 && (Bit(r.1, i) <==> Bit(a, i + 16))
      else i >= 16 && (Bit(r.0, i) <==> Bit(b, i - 16)) && (Bit(r.1, i) <==> Bit(b, i))
  {
    hide SwapBits;
    hide Exchanged16;
    hide Paired16;
    hide Has;
    hide Place;
    var r := SwapBits(a, b, 16, 0x0000ffff);
    var l := if i < 16 then i else i - 16;
    Swap16Exchanges(a, b);
    Pairs16(l);
    Moved16(a, b, r.0, r.1, Place(l), Place(l + 16));
  }

  // ---- The exchange over 2 places ----

  predicate Exchanged2(a: bv32, b: bv32, a': bv32, b': bv32) {
    a' == a ^ ((((a >> 2) ^ b) & 0x33333333) << 2) && b' == b ^ (((a >> 2) ^ b) & 0x33333333)
  }

  lemma Swap2Exchanges(a: bv32, b: bv32)
    ensures var r := SwapBits(a, b, 2, 0x33333333); Exchanged2(a, b, r.0, r.1)
  {
    hide SwapBits;
    hide ShiftLeft;
    hide ShiftRight;
    hide Exchanged2;
    var t, w, u, a', b' := Swapping(a, b, 2, 0x33333333);
    By2(a);
    By2(w);
    Exchanging2(a, b, t, w, u, a', b');
  }

  lemma Exchanging2(a: bv32, b: bv32, t: bv32, w: bv32, u: bv32, a': bv32, b': bv32)
    requires t == a >> 2 && w == (t ^ b) & 0x33333333 && u == w << 2 && a' == a ^ u && b' == b ^ w
    ensures Exchanged2(a, b, a', b')
  {
    InOne2(a, b, t, w, u, a', b');
  }

  lemma InOne2(a: bv32, b: bv32, t: bv32, w: bv32, u: bv32, a': bv32, b': bv32)
    requires t == a >> 2 && w == (t ^ b) & 0x33333333 && u == w << 2 && a' == a ^ u && b' == b ^ w
    ensures a' == a ^ ((((a >> 2) ^ b) & 0x33333333) << 2) && b' == b ^ (((a >> 2) ^ b) & 0x33333333)
  {
  }

  lemma Moved2(a: bv32, b: bv32, a': bv32, b': bv32, m: bv32, n: bv32)
    requires Exchanged2(a, b, a', b') && Paired2(m, n)
    ensures (Has(b', m) <==> Has(a, n)) && (Has(a', n) <==> Has(b, m)) && (Has(a', m) <==> Has(a, m)) && (Has(b', n) <==> Has(b, n))
  {
    hide Exchanged2;
    hide Paired2;
    hide Has;
    Down2(a, b, a', b', m, n);
    Up2(a, b, a', b', m, n);
    Stay2(a, b, a', b', m, n);
  }

  lemma Down2(a: bv32, b: bv32, a': bv32, b': bv32, m: bv32, n: bv32)
    requires Exchanged2(a, b, a', b') && Paired2(m, n)
    ensures Has(b', m) <==> Has(a, n)
  {
  }

  lemma Up2(a: bv32, b: bv32, a': bv32, b': bv32, m: bv32, n: bv32)
    requires Exchanged2(a, b, a', b') && Paired2(m, n)
    ensures Has(a', n) <==> Has(b, m)
  {
  }

  lemma Stay2(a: bv32, b: bv32, a': bv32, b': bv32, m: bv32, n: bv32)
    requires Exchanged2(a, b, a', b') && Paired2(m, n)
    ensures (Has(a', m) <==> Has(a, m)) && (Has(b', n) <==> Has(b, n))
  {
  }

  /** m is under the mask and n lies 2 places up. */
  predicate Paired2(m: bv32, n: bv32) {
    m & 0x33333333 == m && n & 0xcccccccc == n && n >> 2 == m
  }

  lemma Pairs2(i: nat)
    requires i < 32 && i % 4 < 2
    ensures i + 2 < 32 && Paired2(Place(i), Place(i + 2))
  {
    hide Paired2;
    if i < 16 {
      LowPairs2(i);
    } else {
      HighPairs2(i);
    }
  }

  lemma LowPairs2(i: nat)
    requires i < 16 && i % 4 < 2
    ensures i + 2 < 32 && Paired2(Place(i), Place(i + 2))
  {
  }

  lemma HighPairs2(i: nat)
    requires 16 <= i < 32 && i % 4 < 2
    ensures i + 2 < 32 && Paired2(Place(i), Place(i + 2))
  {
  }

  lemma Swap2Bits(a: bv32, b: bv32, i: nat)
    requires i < 32
    ensures var r := SwapBits(a, b, 2, 0x33333333);
      if i % 4 < 2 then (Bit(r.0, i) <==> Bit(a, i)) && i + 2 < 32 && (Bit(r.1, i) <==> Bit(a, i + 2))
      else i >= 2 && (Bit(r.0, i) <==> Bit(b, i - 2)) && (Bit(r.1, i) <==> Bit(b, i))
  {
    hide SwapBits;
    hide Exchanged2;
    hide Paired2;
    hide Has;
    hide Place;
    var r := SwapBits(a, b, 2, 0x33333333);
    var l := if i % 4 < 2 then i else i - 2;
    Swap2Exchanges(a, b);
    Pairs2(l);
    Moved2(a, b, r.0, r.1, Place(l), Place(l + 2));
  }

  // ---- The exchange over 8 places ----

  predicate Exchanged8(a: bv32, b: bv32, a': bv32, b': bv32) {
    a' == a ^ ((((a >> 8) ^ b) & 0x00ff00ff) << 8) && b' == b ^ (((a >> 8) ^ b) & 0x00ff00ff)
  }

  lemma Swap8Exchanges(a: bv32, b: bv32)
    ensures var r := SwapBits(a, b, 8, 0x00ff00ff); Exchanged8(a, b, r.0, r.1)
  {
    hide SwapBits;
    hide ShiftLeft;
    hide ShiftRight;
    hide Exchanged8;
    var t, w, u, a', b' := Swapping(a, b, 8, 0x00ff00ff);
    By8(a);
    By8(w);
    Exchanging8(a, b, t, w, u, a', b');
  }

  lemma Exchanging8(a: bv32, b: bv32, t: bv32, w: bv32, u: bv32, a': bv32, b': bv32)
    requires t == a >> 8 && w == (t ^ b) & 0x00ff00ff && u == w << 8 && a' == a ^ u && b' == b ^ w
    ensures Exchanged8(a, b, a', b')
  {
    InOne8(a, b, t, w, u, a', b');
  }

  lemma InOne8(a: bv32, b: bv32, t: bv32, w: bv32, u: bv32, a': bv32, b': bv32)
    requires t == a >> 8 && w == (t ^ b) & 0x00ff00ff && u == w << 8 && a' == a ^ u && b' == b ^ w
    ensures a' == a ^ ((((a >> 8) ^ b) & 0x00ff00ff) << 8) && b' == b ^ (((a >> 8) ^ b) & 0x00ff00ff)
  {
  }

  lemma Moved8(a: bv32, b: bv32, a': bv32, b': bv32, m: bv32, n: bv32)
    requires Exchanged8(a, b, a', b') && Paired8(m, n)
    ensures (Has(b', m) <==> Has(a, n)) && (Has(a', n) <==> Has(b, m)) && (Has(a', m) <==> Has(a, m)) && (Has(b', n) <==> Has(b, n))
  {
    hide Exchanged8;
    hide Paired8;
    hide Has;
    Down8(a, b, a', b', m, n);
    Up8(a, b, a', b', m, n);
    Stay8(a, b, a', b', m, n);
  }

  lemma Down8(a: bv32, b: bv32, a': bv32, b': bv32, m: bv32, n: bv32)
    requires Exchanged8(a, b, a', b') && Paired8(m, n)
    ensures Has(b', m) <==> Has(a, n)
  {
  }

  lemma Up8(a: bv32, b: bv32, a': bv32, b': bv32, m: bv32, n: bv32)
    requires Exchanged8(a, b, a', b') && Paired8(m, n)
    ensures Has(a', n) <==> Has(b, m)
  {
  }

  lemma Stay8(a: bv32, b: bv32, a': bv32, b': bv32, m: bv32, n: bv32)
    requires Exchanged8(a, b, a', b') && Paired8(m, n)
    ensures (Has(a', m) <==> Has(a, m)) && (Has(b', n) <==> Has(b, n))
  {
  }

  /** m is under the mask and n lies 8 places up. */
  predicate Paired8(m: bv32, n: bv32) {
    m & 0x00ff00ff == m && n & 0xff00ff00 == n && n >> 8 == m
  }

  lemma Pairs8(i: nat)
    requires i < 32 && i % 16 < 8
    ensures i + 8 < 32 && Paired8(Place(i), Place(i + 8))
  {
    hide Paired8;
    if i < 16 {
      LowPairs8(i);
    } else {
      HighPairs8(i);
    }
  }

  lemma LowPairs8(i: nat)
    requires i < 16 && i % 16 < 8
    ensures i + 8 < 32 && Paired8(Place(i), Place(i + 8))
  {
  }

  lemma HighPairs8(i: nat)
    requires 16 <= i < 32 && i % 16 < 8
    ensures i + 8 < 32 && Paired8(Place(i), Place(i + 8))
  {
  }

  lemma Swap8Bits(a: bv32, b: bv32, i: nat)
    requires i < 32
    ensures var r := SwapBits(a, b, 8, 0x00ff00ff);
      if i % 16 < 8 then (Bit(r.0, i) <==> Bit(a, i)) && i + 8 < 32 && (Bit(r.1, i) <==> Bit(a, i + 8))
      else i >= 8 && (Bit(r.0, i) <==> Bit(b, i - 8)) && (Bit(r.1, i) <==> Bit(b, i))
  {
    hide SwapBits;
    hide Exchanged8;
    hide Paired8;
    hide Has;
    hide Place;
    var r := SwapBits(a, b, 8, 0x00ff00ff);
    var l := if i % 16 < 8 then i else i - 8;
    Swap8Exchanges(a, b);
    Pairs8(l);
    Moved8(a, b, r.0, r.1, Place(l), Place(l + 8));
  }

  // ---- The exchange without a shift ----

  predicate ExchangedOdd(a: bv32, b: bv32, a': bv32, b': bv32) {
    a' == a ^ ((a ^ b) & 0xaaaaaaaa) && b' == b ^ ((a ^ b) & 0xaaaaaaaa)
  }

  lemma Swap0Exchanges(a: bv32, b: bv32)
    ensures var r := SwapBits(a, b, 0, 0xaaaaaaaa); ExchangedOdd(a, b, r.0, r.1)
  {
    hide SwapBits;
    hide ShiftLeft;
    hide ShiftRight;
    hide ExchangedOdd;
    var t, w, u, a', b' := Swapping(a, b, 0, 0xaaaaaaaa);
    By0(a);
    By0(w);
    ExchangingOdd(a, b, t, w, u, a', b');
  }

  lemma ExchangingOdd(a: bv32, b: bv32, t: bv32, w: bv32, u: bv32, a': bv32, b': bv32)
    requires t == a && w == (t ^ b) & 0xaaaaaaaa && u == w && a' == a ^ u && b' == b ^ w
    ensures ExchangedOdd(a, b, a', b')
  {
    InOneOdd(a, b, t, w, u, a', b');
  }

  lemma InOneOdd(a: bv32, b: bv32, t: bv32, w: bv32, u: bv32, a': bv32, b': bv32)
    requires t == a && w == (t ^ b) & 0xaaaaaaaa && u == w && a' == a ^ u && b' == b ^ w
    ensures a' == a ^ ((a ^ b) & 0xaaaaaaaa) && b' == b ^ ((a ^ b) & 0xaaaaaaaa)
  {
  }

  predicate Under(m: bv32) {
    m & 0xaaaaaaaa == m
  }

  predicate Beside(m: bv32) {
    m & 0xaaaaaaaa == 0
  }

  lemma MovedOdd(a: bv32, b: bv32, a': bv32, b': bv32, m: bv32)
    requires ExchangedOdd(a, b, a', b') && Under(m)
    ensures (Has(a', m) <==> Has(b, m)) && (Has(b', m) <==> Has(a, m))
  {
    hide Has;
    hide ExchangedOdd;
    hide Under;
    CrossOdd(a, b, a', b', m);
    BackOdd(a, b, a', b', m);
  }

  lemma CrossOdd(a: bv32, b: bv32, a': bv32, b': bv32, m: bv32)
    requires ExchangedOdd(a, b, a', b') && Under(m)
    ensures Has(a', m) <==> Has(b, m)
  {
  }

  lemma BackOdd(a: bv32, b: bv32, a': bv32, b': bv32, m: bv32)
    requires ExchangedOdd(a, b, a', b') && Under(m)
    ensures Has(b', m) <==> Has(a, m)
  {
  }

  lemma KeptOdd(a: bv32, b: bv32, a': bv32, b': bv32, m: bv32)
    requires ExchangedOdd(a, b, a', b') && Beside(m)
    ensures (Has(a', m) <==> Has(a, m)) && (Has(b', m) <==> Has(b, m))
  {
  }

  lemma OddPlaces(i: nat)
    requires i < 32
    ensures if i % 2 == 1 then Under(Place(i)) else Beside(Place(i))
  {
  }

  lemma Swap0Bits(a: bv32, b: bv32, i: nat)
    requires i < 32
    ensures var r := SwapBits(a, b, 0, 0xaaaaaaaa);
      if i % 2 == 1 then (Bit(r.0, i) <==> Bit(b, i)) && (Bit(r.1, i) <==> Bit(a, i))
      else (Bit(r.0, i) <==> Bit(a, i)) && (Bit(r.1, i) <==> Bit(b, i))
  {
    hide SwapBits;
    hide ExchangedOdd;
    hide Under;
    hide Beside;
    hide Has;
    hide Place;
    var r := SwapBits(a, b, 0, 0xaaaaaaaa);
    Swap0Exchanges(a, b);
    OddPlaces(i);
    if i % 2 == 1 {
      MovedOdd(a, b, r.0, r.1, Place(i));
    } else {
      KeptOdd(a, b, r.0, r.1, Place(i));
    }
  }

  // ---- All exchanges ----

  /** Bits of both halves, the right one first, from the lowest. */
  predicate BlockBit(h: Halves, p: nat)
    requires p < 64
  {
    if p < 32 then Bit(h.right, p) else Bit(h.left, p - 32)
  }

  /** Bit p of h' is bit q of h. */
  predicate Comes(h: Halves, h': Halves, p: nat, q: nat)
    requires p < 64 && q < 64
  {
    BlockBit(h', p) <==> BlockBit(h, q)
  }

  function From4(p: nat): (q: nat)
    requires p < 64
    ensures q < 64
  {
    if p < 32 && p % 8 < 4 then p + 36 else if p >= 32 && p % 8 >= 4 then p - 36 else p
  }

  function From16(p: nat): (q: nat)
    requires p < 64
    ensures q < 64
  {
    if p < 16 then p + 48 else if p >= 48 then p - 48 else p
  }

  function From2(p: nat): (q: nat)
    requires p < 64
    ensures q < 64
  {
    if p >= 32 && p % 4 < 2 then p - 30 else if p < 32 && p % 4 >= 2 then p + 30 else p
  }

  function From8(p: nat): (q: nat)
    requires p < 64
    ensures q < 64
  {
    if p >= 32 && p % 16 < 8 then p - 24 else if p < 32 && p % 16 >= 8 then p + 24 else p
  }

  /** The right half is turned, and then odd places are exchanged. */
  function FromOdd(p: nat): (q: nat)
    requires p < 64
    ensures q < 64
  {
    if (p < 32) == (p % 2 == 0) then (p + 31) % 32 else 32 + p % 32
  }

  /** The left half is turned. */
  function FromTurn(p: nat): (q: nat)
    requires p < 64
    ensures q < 64
  {
    if p < 32 then p else 32 + (p + 31) % 32
  }

  function Step4(h: Halves): Halves {
    var r := SwapBits(h.left, h.right, 4, 0x0f0f0f0f);
    Halves(r.0, r.1)
  }

  function Step16(h: Halves): Halves {
    var r := SwapBits(h.left, h.right, 16, 0x0000ffff);
    Halves(r.0, r.1)
  }

  function Step2(h: Halves): Halves {
    var r := SwapBits(h.right, h.left, 2, 0x33333333);
    Halves(r.1, r.0)
  }

  function Step8(h: Halves): Halves {
    var r := SwapBits(h.right, h.left, 8, 0x00ff00ff);
    Halves(r.1, r.0)
  }

  function StepOdd(h: Halves): Halves {
    var r := SwapBits(h.left, RotateLeft(h.right), 0, 0xaaaaaaaa);
    Halves(r.0, r.1)
  }

  function StepTurn(h: Halves): Halves {
    Halves(RotateLeft(h.left), h.right)
  }

  lemma StepsAreInitial(h: Halves)
    ensures InitialSwaps(h) == StepTurn(StepOdd(Step8(Step2(Step16(Step4(h))))))
  {
    hide SwapBits;
    hide RotateLeft;
  }

  lemma Comes4(h: Halves, p: nat)
    requires p < 64
    ensures Comes(h, Step4(h), p, From4(p))
  {
    hide SwapBits;
    hide Bit;
    Swap4Bits(h.left, h.right, p % 32);
  }

  lemma Comes16(h: Halves, p: nat)
    requires p < 64
    ensures Comes(h, Step16(h), p, From16(p))
  {
    hide SwapBits;
    hide Bit;
    Swap16Bits(h.left, h.right, p % 32);
  }

  lemma Comes2(h: Halves, p: nat)
    requires p < 64
    ensures Comes(h, Step2(h), p, From2(p))
  {
    hide SwapBits;
    hide Bit;
    Swap2Bits(h.right, h.left, p % 32);
  }

  lemma Comes8(h: Halves, p: nat)
    requires p < 64
    ensures Comes(h, Step8(h), p, From8(p))
  {
    hide SwapBits;
    hide Bit;
    Swap8Bits(h.right, h.left, p % 32);
  }

  lemma ComesOdd(h: Halves, p: nat)
    requires p < 64
    ensures Comes(h, StepOdd(h), p, FromOdd(p))
  {
    hide SwapBits;
    hide RotateLeft;
    hide Bit;
    hide TurnedOne;
    Swap0Bits(h.left, RotateLeft(h.right), p % 32);
    RotateLeftTurns(h.right);
    BitTurnedOne(h.right, RotateLeft(h.right), p % 32);
  }

  lemma ComesTurn(h: Halves, p: nat)
    requires p < 64
    ensures Comes(h, StepTurn(h), p, FromTurn(p))
  {
    hide RotateLeft;
    hide Bit;
    hide TurnedOne;
    RotateLeftTurns(h.left);
    BitTurnedOne(h.left, RotateLeft(h.left), p % 32);
  }

  /** Where bit p of the exchanged halves comes from. */
  function Origin(p: nat): (q: nat)
    requires p < 64
    ensures q < 64
  {
    From4(From16(From2(From8(FromOdd(FromTurn(p))))))
  }

  lemma ComesInitial(h: Halves, p: nat)
    requires p < 64
    ensures Comes(h, InitialSwaps(h), p, Origin(p))
  {
    hide BlockBit;
    hide Step4;
    hide Step16;
    hide Step2;
    hide Step8;
    hide StepOdd;
    hide StepTurn;
    hide From4;
    hide From16;
    hide From2;
    hide From8;
    hide FromOdd;
    hide FromTurn;
    hide InitialSwaps;
    StepsAreInitial(h);
    var h1 := Step4(h);
    var h2 := Step16(h1);
    var h3 := Step2(h2);
    var h4 := Step8(h3);
    var h5 := StepOdd(h4);
    var p1 := FromTurn(p);
    var p2 := FromOdd(p1);
    var p3 := From8(p2);
    var p4 := From2(p3);
    var p5 := From16(p4);
    ComesTurn(h5, p);
    ComesOdd(h4, p1);
    Comes8(h3, p2);
    Comes2(h2, p3);
    Comes16(h1, p4);
    Comes4(h, p5);
  }

  // ---- The initial permutation ----

  /** The bits of a block in the order of the standard. */
  function BitsOf(h: Halves): (b: F.Bits)
    ensures |b| == 64
  {
    seq(64, q requires 0 <= q < 64 => BlockBit(h, 63 - q))
  }

  /** The bit that IP selects for bit j. */
  function Initial(j: nat): (q: nat)
    requires j < 64
    ensures q < 64
  {
    var t: int := F.IP[j];
    t - 1
  }

  /** The place of bit j of the permuted block. */
  function PlaceOf(j: nat): (p: nat)
    requires j < 64
    ensures p < 64
  {
    if j < 32 then 32 + Turned(j) else Turned(j - 32)
  }

  lemma Initial0()
    ensures
      && Initial(0) == 57 && Initial(1) == 49 && Initial(2) == 41 && Initial(3) == 33
      && Initial(4) == 25 && Initial(5) == 17 && Initial(6) == 9 && Initial(7) == 1
  {
  }

  lemma Initial1()
    ensures
      && Initial(8) == 59 && Initial(9) == 51 && Initial(10) == 43 && Initial(11) == 35
      && Initial(12) == 27 && Initial(13) == 19 && Initial(14) == 11 && Initial(15) == 3
  {
  }

  lemma Initial2()
    ensures
      && Initial(16) == 61 && Initial(17) == 53 && Initial(18) == 45 && Initial(19) == 37
      && Initial(20) == 29 && Initial(21) == 21 && Initial(22) == 13 && Initial(23) == 5
  {
  }

  lemma Initial3()
    ensures
      && Initial(24) == 63 && Initial(25) == 55 && Initial(26) == 47 && Initial(27) == 39
      && Initial(28) == 31 && Initial(29) == 23 && Initial(30) == 15 && Initial(31) == 7
  {
  }

  lemma Initial4()
    ensures
      && Initial(32) == 56 && Initial(33) == 48 && Initial(34) == 40 && Initial(35) == 32
      && Initial(36) == 24 && Initial(37) == 16 && Initial(38) == 8 && Initial(39) == 0
  {
  }

  lemma Initial5()
    ensures
      && Initial(40) == 58 && Initial(41) == 50 && Initial(42) == 42 && Initial(43) == 34
      && Initial(44) == 26 && Initial(45) == 18 && Initial(46) == 10 && Initial(47) == 2
  {
  }

  lemma Initial6()
    ensures
      && Initial(48) == 60 && Initial(49) == 52 && Initial(50) == 44 && Initial(51) == 36
      && Initial(52) == 28 && Initial(53) == 20 && Initial(54) == 12 && Initial(55) == 4
  {
  }

  lemma Initial7()
    ensures
      && Initial(56) == 62 && Initial(57) == 54 && Initial(58) == 46 && Initial(59) == 38
      && Initial(60) == 30 && Initial(61) == 22 && Initial(62) == 14 && Initial(63) == 6
  {
  }

  lemma OriginIs(j: nat)
    requires j < 64
    ensures Origin(PlaceOf(j)) == 63 - Initial(j)
  {
    hide Origin;
    hide Initial;
    hide PlaceOf;
    InitialFormula(j);
    OriginFormula(j);
  }

  /** IP in closed form: even bits and then odd ones, columns of the block from below. */
  function Formula(j: nat): int {
    if j < 32 then 57 + 2 * (j / 8) - 8 * (j % 8) else 56 + 2 * (j / 8 - 4) - 8 * (j % 8)
  }

  lemma InitialFormula(j: nat)
    requires j < 64
    ensures Initial(j) == Formula(j)
  {
    hide Initial;
    hide Formula;
    if j < 32 {
      if j < 16 { InitialFirst(j); } else { InitialSecond(j); }
    } else {
      if j < 48 { InitialThird(j); } else { InitialFourth(j); }
    }
  }

  lemma InitialFirst(j: nat)
    requires 0 <= j < 16
    ensures Initial(j) == Formula(j)
  {
    hide Initial;
    if j < 8 { Initial0(); } else { Initial1(); }
  }

  lemma InitialSecond(j: nat)
    requires 16 <= j < 32
    ensures Initial(j) == Formula(j)
  {
    hide Initial;
    if j < 24 { Initial2(); } else { Initial3(); }
  }

  lemma InitialThird(j: nat)
    requires 32 <= j < 48
    ensures Initial(j) == Formula(j)
  {
    hide Initial;
    if j < 40 { Initial4(); } else { Initial5(); }
  }

  lemma InitialFourth(j: nat)
    requires 48 <= j < 64
    ensures Initial(j) == Formula(j)
  {
    hide Initial;
    if j < 56 { Initial6(); } else { Initial7(); }
  }

  /** The stations of bit j on its way back through the exchanges. */
  predicate Way(j: nat, p0: nat, p1: nat, p2: nat, p3: nat, p4: nat, p5: nat, p6: nat)
    requires j < 64 && p0 < 64 && p1 < 64 && p2 < 64 && p3 < 64 && p4 < 64 && p5 < 64
  {
    && PlaceOf(j) == p0 && FromTurn(p0) == p1 && FromOdd(p1) == p2 && From8(p2) == p3 && From2(p3) == p4
    && From16(p4) == p5 && From4(p5) == p6 && p6 == 63 - Formula(j)
  }

  lemma WayEnds(j: nat, p0: nat, p1: nat, p2: nat, p3: nat, p4: nat, p5: nat, p6: nat)
    requires j < 64 && p0 < 64 && p1 < 64 && p2 < 64 && p3 < 64 && p4 < 64 && p5 < 64
    requires Way(j, p0, p1, p2, p3, p4, p5, p6)
    ensures Origin(PlaceOf(j)) == 63 - Formula(j)
  {
  }

  lemma Origin0(c: nat)
    requires c < 4
    ensures Origin(PlaceOf(0 + c)) == 63 - Formula(0 + c)
  {
    hide Origin;
    match c
    case 0 => WayEnds(0, 32, 63, 30, 54, 54, 6, 6);
    case 1 => WayEnds(1, 63, 62, 62, 62, 62, 14, 14);
    case 2 => WayEnds(2, 62, 61, 28, 52, 22, 22, 22);
    case 3 => WayEnds(3, 61, 60, 60, 60, 30, 30, 30);
  }

  lemma Origin1(c: nat)
    requires c < 4
    ensures Origin(PlaceOf(4 + c)) == 63 - Formula(4 + c)
  {
    hide Origin;
    match c
    case 0 => WayEnds(4, 60, 59, 26, 50, 50, 2, 38);
    case 1 => WayEnds(5, 59, 58, 58, 58, 58, 10, 46);
    case 2 => WayEnds(6, 58, 57, 24, 48, 18, 18, 54);
    case 3 => WayEnds(7, 57, 56, 56, 56, 26, 26, 62);
  }

  lemma Origin2(c: nat)
    requires c < 4
    ensures Origin(PlaceOf(8 + c)) == 63 - Formula(8 + c)
  {
    hide Origin;
    match c
    case 0 => WayEnds(8, 56, 55, 22, 22, 52, 4, 4);
    case 1 => WayEnds(9, 55, 54, 54, 30, 60, 12, 12);
    case 2 => WayEnds(10, 54, 53, 20, 20, 20, 20, 20);
    case 3 => WayEnds(11, 53, 52, 52, 28, 28, 28, 28);
  }

  lemma Origin3(c: nat)
    requires c < 4
    ensures Origin(PlaceOf(12 + c)) == 63 - Formula(12 + c)
  {
    hide Origin;
    match c
    case 0 => WayEnds(12, 52, 51, 18, 18, 48, 0, 36);
    case 1 => WayEnds(13, 51, 50, 50, 26, 56, 8, 44);
    case 2 => WayEnds(14, 50, 49, 16, 16, 16, 16, 52);
    case 3 => WayEnds(15, 49, 48, 48, 24, 24, 24, 60);
  }

  lemma Origin4(c: nat)
    requires c < 4
    ensures Origin(PlaceOf(16 + c)) == 63 - Formula(16 + c)
  {
    hide Origin;
    match c
    case 0 => WayEnds(16, 48, 47, 14, 38, 38, 38, 2);
    case 1 => WayEnds(17, 47, 46, 46, 46, 46, 46, 10);
    case 2 => WayEnds(18, 46, 45, 12, 36, 6, 54, 18);
    case 3 => WayEnds(19, 45, 44, 44, 44, 14, 62, 26);
  }

  lemma Origin5(c: nat)
    requires c < 4
    ensures Origin(PlaceOf(20 + c)) == 63 - Formula(20 + c)
  {
    hide Origin;
    match c
    case 0 => WayEnds(20, 44, 43, 10, 34, 34, 34, 34);
    case 1 => WayEnds(21, 43, 42, 42, 42, 42, 42, 42);
    case 2 => WayEnds(22, 42, 41, 8, 32, 2, 50, 50);
    case 3 => WayEnds(23, 41, 40, 40, 40, 10, 58, 58);
  }

  lemma Origin6(c: nat)
    requires c < 4
    ensures Origin(PlaceOf(24 + c)) == 63 - Formula(24 + c)
  {
    hide Origin;
    match c
    case 0 => WayEnds(24, 40, 39, 6, 6, 36, 36, 0);
    case 1 => WayEnds(25, 39, 38, 38, 14, 44, 44, 8);
    case 2 => WayEnds(26, 38, 37, 4, 4, 4, 52, 16);
    case 3 => WayEnds(27, 37, 36, 36, 12, 12, 60, 24);
  }

  lemma Origin7(c: nat)
    requires c < 4
    ensures Origin(PlaceOf(28 + c)) == 63 - Formula(28 + c)
  {
    hide Origin;
    match c
    case 0 => WayEnds(28, 36, 35, 2, 2, 32, 32, 32);
    case 1 => WayEnds(29, 35, 34, 34, 10, 40, 40, 40);
    case 2 => WayEnds(30, 34, 33, 0, 0, 0, 48, 48);
    case 3 => WayEnds(31, 33, 32, 32, 8, 8, 56, 56);
  }

  lemma Origin8(c: nat)
    requires c < 4
    ensures Origin(PlaceOf(32 + c)) == 63 - Formula(32 + c)
  {
    hide Origin;
    match c
    case 0 => WayEnds(32, 0, 0, 31, 55, 55, 7, 7);
    case 1 => WayEnds(33, 31, 31, 63, 63, 63, 15, 15);
    case 2 => WayEnds(34, 30, 30, 29, 53, 23, 23, 23);
    case 3 => WayEnds(35, 29, 29, 61, 61, 31, 31, 31);
  }

  lemma Origin9(c: nat)
    requires c < 4
    ensures Origin(PlaceOf(36 + c)) == 63 - Formula(36 + c)
  {
    hide Origin;
    match c
    case 0 => WayEnds(36, 28, 28, 27, 51, 51, 3, 39);
    case 1 => WayEnds(37, 27, 27, 59, 59, 59, 11, 47);
    case 2 => WayEnds(38, 26, 26, 25, 49, 19, 19, 55);
    case 3 => WayEnds(39, 25, 25, 57, 57, 27, 27, 63);
  }

  lemma Origin10(c: nat)
    requires c < 4
    ensures Origin(PlaceOf(40 + c)) == 63 - Formula(40 + c)
  {
    hide Origin;
    match c
    case 0 => WayEnds(40, 24, 24, 23, 23, 53, 5, 5);
    case 1 => WayEnds(41, 23, 23, 55, 31, 61, 13, 13);
    case 2 => WayEnds(42, 22, 22, 21, 21, 21, 21, 21);
    case 3 => WayEnds(43, 21, 21, 53, 29, 29, 29, 29);
  }

  lemma Origin11(c: nat)
    requires c < 4
    ensures Origin(PlaceOf(44 + c)) == 63 - Formula(44 + c)
  {
    hide Origin;
    match c
    case 0 => WayEnds(44, 20, 20, 19, 19, 49, 1, 37);
    case 1 => WayEnds(45, 19, 19, 51, 27, 57, 9, 45);
    case 2 => WayEnds(46, 18, 18, 17, 17, 17, 17, 53);
    case 3 => WayEnds(47, 17, 17, 49, 25, 25, 25, 61);
  }

  lemma Origin12(c: nat)
    requires c < 4
    ensures Origin(PlaceOf(48 + c)) == 63 - Formula(48 + c)
  {
    hide Origin;
    match c
    case 0 => WayEnds(48, 16, 16, 15, 39, 39, 39, 3);
    case 1 => WayEnds(49, 15, 15, 47, 47, 47, 47, 11);
    case 2 => WayEnds(50, 14, 14, 13, 37, 7, 55, 19);
    case 3 => WayEnds(51, 13, 13, 45, 45, 15, 63, 27);
  }

  lemma Origin13(c: nat)
    requires c < 4
    ensures Origin(PlaceOf(52 + c)) == 63 - Formula(52 + c)
  {
    hide Origin;
    match c
    case 0 => WayEnds(52, 12, 12, 11, 35, 35, 35, 35);
    case 1 => WayEnds(53, 11, 11, 43, 43, 43, 43, 43);
    case 2 => WayEnds(54, 10, 10, 9, 33, 3, 51, 51);
    case 3 => WayEnds(55, 9, 9, 41, 41, 11, 59, 59);
  }

  lemma Origin14(c: nat)
    requires c < 4
    ensures Origin(PlaceOf(56 + c)) == 63 - Formula(56 + c)
  {
    hide Origin;
    match c
    case 0 => WayEnds(56, 8, 8, 7, 7, 37, 37, 1);
    case 1 => WayEnds(57, 7, 7, 39, 15, 45, 45, 9);
    case 2 => WayEnds(58, 6, 6, 5, 5, 5, 53, 17);
    case 3 => WayEnds(59, 5, 5, 37, 13, 13, 61, 25);
  }

  lemma Origin15(c: nat)
    requires c < 4
    ensures Origin(PlaceOf(60 + c)) == 63 - Formula(60 + c)
  {
    hide Origin;
    match c
    case 0 => WayEnds(60, 4, 4, 3, 3, 33, 33, 33);
    case 1 => WayEnds(61, 3, 3, 35, 11, 41, 41, 41);
    case 2 => WayEnds(62, 2, 2, 1, 1, 1, 49, 49);
    case 3 => WayEnds(63, 1, 1, 33, 9, 9, 57, 57);
  }

  lemma OriginFormula(j: nat)
    requires j < 64
    ensures Origin(PlaceOf(j)) == 63 - Formula(j)
  {
    hide Origin;
    hide PlaceOf;
    hide Formula;
    match j / 4
    case 0 => Origin0(j - 0);
    case 1 => Origin1(j - 4);
    case 2 => Origin2(j - 8);
    case 3 => Origin3(j - 12);
    case 4 => Origin4(j - 16);
    case 5 => Origin5(j - 20);
    case 6 => Origin6(j - 24);
    case 7 => Origin7(j - 28);
    case 8 => Origin8(j - 32);
    case 9 => Origin9(j - 36);
    case 10 => Origin10(j - 40);
    case 11 => Origin11(j - 44);
    case 12 => Origin12(j - 48);
    case 13 => Origin13(j - 52);
    case 14 => Origin14(j - 56);
    case 15 => Origin15(j - 60);
  }

  lemma InitialBit(h: Halves, j: nat)
    requires j < 64
    ensures F.Select(BitsOf(h), F.IP)[j] == BlockBit(InitialSwaps(h), PlaceOf(j))
  {
    hide BlockBit;
    hide InitialSwaps;
    hide Origin;
    hide PlaceOf;
    OriginIs(j);
    ComesInitial(h, PlaceOf(j));
    var t: int := F.IP[j];
    assert F.Select(BitsOf(h), F.IP)[j] == BitsOf(h)[t - 1];
  }

  /** The halves after the exchanges are those of the permuted block. */
  lemma InitialIs(h: Halves)
    ensures var ip := F.Select(BitsOf(h), F.IP);
      HoldsHalf(ip[..32], InitialSwaps(h).left) && HoldsHalf(ip[32..], InitialSwaps(h).right)
  {
    hide InitialSwaps;
    hide Bit;
    hide BitsOf;
    hide Turned;
    var ip := F.Select(BitsOf(h), F.IP);
    hide F.Select;
    forall j | 0 <= j < 32
      ensures ip[..32][j] == Bit(InitialSwaps(h).left, Turned(j)) && ip[32..][j] == Bit(InitialSwaps(h).right, Turned(j))
    {
      InitialBit(h, j);
      InitialBit(h, j + 32);
    }
  }
}
