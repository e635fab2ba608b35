/** Words of 32 bits, bit by bit. */
module WordBits {
  import opened Des

  /** The word with bit i alone, bit 0 being the lowest. */
  function Place(i: nat): bv32
    requires i < 32
  {
    match i
    case 0 => 0x1 case 1 => 0x2 case 2 => 0x4 case 3 => 0x8
    case 4 => 0x10 case 5 => 0x20 case 6 => 0x40 case 7 => 0x80
    case 8 => 0x100 case 9 => 0x200 case 10 => 0x400 case 11 => 0x800
    case 12 => 0x1000 case 13 => 0x2000 case 14 => 0x4000 case 15 => 0x8000
    case 16 => 0x10000 case 17 => 0x20000 case 18 => 0x40000 case 19 => 0x80000
    case 20 => 0x100000 case 21 => 0x200000 case 22 => 0x400000 case 23 => 0x800000
    case 24 => 0x1000000 case 25 => 0x2000000 case 26 => 0x4000000 case 27 => 0x8000000
    case 28 => 0x10000000 case 29 => 0x20000000 case 30 => 0x40000000 case 31 => 0x80000000
  }

  /** m is one of the bits of w. */
  predicate Has(w: bv32, m: bv32) {
    w & m != 0
  }

  predicate Bit(w: bv32, i: nat)
    requires i < 32
  {
    Has(w, Place(i))
  }

  predicate Single(m: bv32) {
    m != 0 && m & (m - 1) == 0
  }

  lemma PlaceSingle(i: nat)
    requires i < 32
    ensures Single(Place(i))
  {
  }

  // ---- Bits of what words are combined to ----

  predicate IsXor(a: bv32, b: bv32, c: bv32) {
    c == a ^ b
  }

  predicate IsOr(a: bv32, b: bv32, c: bv32) {
    c == a | b
  }

  lemma HasXor(a: bv32, b: bv32, c: bv32, m: bv32)
    requires Single(m) && IsXor(a, b, c)
    ensures Has(c, m) <==> Has(a, m) != Has(b, m)
  {
  }

  lemma HasOr(a: bv32, b: bv32, c: bv32, m: bv32)
    requires IsOr(a, b, c)
    ensures Has(c, m) <==> Has(a, m) || Has(b, m)
  {
    MaskedOr(a, b, m);
    NoneInOr(a & m, b & m);
  }

  lemma MaskedOr(a: bv32, b: bv32, m: bv32)
    ensures (a | b) & m == (a & m) | (b & m)
  {
  }

  lemma NoneInOr(p: bv32, q: bv32)
    ensures p | q == 0 <==> p == 0 && q == 0
  {
  }

  lemma BitXor(a: bv32, b: bv32, i: nat)
    requires i < 32
    ensures Bit(Xor(a, b), i) <==> Bit(a, i) != Bit(b, i)
  {
    hide Has;
    hide IsXor;
    hide Xor;
    hide Single;
    hide Place;
    PlaceSingle(i);
    XorIs(a, b);
    HasXor(a, b, Xor(a, b), Place(i));
  }

  lemma BitOr(a: bv32, b: bv32, i: nat)
    requires i < 32
    ensures Bit(Or(a, b), i) <==> Bit(a, i) || Bit(b, i)
  {
    hide Has;
    hide IsOr;
    hide Or;
    hide Place;
    OrIs(a, b);
    HasOr(a, b, Or(a, b), Place(i));
  }

  lemma XorIs(a: bv32, b: bv32)
    ensures IsXor(a, b, Xor(a, b))
  {
  }

  lemma OrIs(a: bv32, b: bv32)
    ensures IsOr(a, b, Or(a, b))
  {
  }

  lemma NoBit(i: nat)
    requires i < 32
    ensures !Bit(0, i)
  {
  }

  lemma BitPlace(k: nat, i: nat)
    requires k < 32 && i < 32
    ensures Bit(Place(k), i) <==> k == i
  {
    hide Bit;
    hide Place;
    if k < 16 {
      LowBitPlace(k, i);
    } else {
      HighBitPlace(k, i);
    }
  }

  lemma LowBitPlace(k: nat, i: nat)
    requires 0 <= k < 16 && i < 32
    ensures Bit(Place(k), i) <==> k == i
  {
    match k
    case 0 => case 1 => case 2 => case 3 => case 4 => case 5 => case 6 => case 7 =>
    case 8 => case 9 => case 10 => case 11 => case 12 => case 13 => case 14 => case 15 =>
  }

  lemma HighBitPlace(k: nat, i: nat)
    requires 16 <= k < 32 && i < 32
    ensures Bit(Place(k), i) <==> k == i
  {
    match k
    case 16 => case 17 => case 18 => case 19 => case 20 => case 21 => case 22 => case 23 =>
    case 24 => case 25 => case 26 => case 27 => case 28 => case 29 => case 30 => case 31 =>
  }

  // ---- Words that are turned ----

  /** c is a turned left by one place. */
  predicate TurnedOne(a: bv32, c: bv32) {
    c == (a << 1) | (a >> 31)
  }

  /** c is a turned right by four places. */
  predicate TurnedFour(a: bv32, c: bv32) {
    c == (a << 28) | (a >> 4)
  }

  lemma HasTurnedOne(a: bv32, c: bv32, m: bv32, n: bv32)
    requires TurnedOne(a, c) && TurnedOne(n, m)
    ensures Has(c, m) <==> Has(a, n)
  {
  }

  lemma HasTurnedFour(a: bv32, c: bv32, m: bv32, n: bv32)
    requires TurnedFour(a, c) && TurnedFour(n, m)
    ensures Has(c, m) <==> Has(a, n)
  {
  }

  lemma PlaceTurnedOne(i: nat)
    requires i < 32
    ensures TurnedOne(Place((i + 31) % 32), Place(i))
  {
    if i < 16 {
      LowTurnedOne(i);
    } else {
      HighTurnedOne(i);
    }
    hide TurnedOne;
  }

  lemma LowTurnedOne(i: nat)
    requires i < 16
    ensures TurnedOne(Place((i + 31) % 32), Place(i))
  {
  }

  lemma HighTurnedOne(i: nat)
    requires 16 <= i < 32
    ensures TurnedOne(Place((i + 31) % 32), Place(i))
  {
  }

  lemma PlaceTurnedFour(i: nat)
    requires i < 32
    ensures TurnedFour(Place((i + 4) % 32), Place(i))
  {
    if i < 16 {
      LowTurnedFour(i);
    } else {
      HighTurnedFour(i);
    }
    hide TurnedFour;
  }

  lemma LowTurnedFour(i: nat)
    requires i < 16
    ensures TurnedFour(Place((i + 4) % 32), Place(i))
  {
  }

  lemma HighTurnedFour(i: nat)
    requires 16 <= i < 32
    ensures TurnedFour(Place((i + 4) % 32), Place(i))
  {
  }

  lemma BitTurnedOne(a: bv32, c: bv32, i: nat)
    requires i < 32 && TurnedOne(a, c)
    ensures Bit(c, i) <==> Bit(a, (i + 31) % 32)
  {
    hide Has;
    hide Place;
    hide TurnedOne;
    PlaceTurnedOne(i);
    HasTurnedOne(a, c, Place(i), Place((i + 31) % 32));
  }

  lemma BitTurnedFour(a: bv32, c: bv32, i: nat)
    requires i < 32 && TurnedFour(a, c)
    ensures Bit(c, i) <==> Bit(a, (i + 4) % 32)
  {
    hide Has;
    hide Place;
    hide TurnedFour;
    PlaceTurnedFour(i);
    HasTurnedFour(a, c, Place(i), Place((i + 4) % 32));
  }

  lemma RotateLeftTurns(a: bv32)
    ensures TurnedOne(a, RotateLeft(a))
  {
  }

  lemma RotateFourTurns(a: bv32)
    ensures TurnedFour(a, Or(ShiftLeft(a, 28), ShiftRight(a, 4)))
  {
    var b, c := ShiftLeft(a, 28), ShiftRight(a, 4);
    LeftIs28(a);
    RightIs4(a);
    OrIs(b, c);
    assert Or(b, c) == b | c;
    hide ShiftLeft;
    hide ShiftRight;
    hide Or;
  }

  lemma LeftIs28(a: bv32)
    ensures ShiftLeft(a, 28) == a << 28
  {
  }

  lemma RightIs4(a: bv32)
    ensures ShiftRight(a, 4) == a >> 4
  {
  }
}
