/** A round of d3des.c is an iteration of the standard, on half blocks that are kept in words
    turned left by one. */
module DesRounds {
  import opened Des
  import opened WordBits
  import opened DesBoxes
  import opened DesTargets
  import F = Fips46

  /** The half block in a word. */
  ghost predicate HoldsHalf(h: F.Bits, w: bv32) {
    |h| == 32 && forall j :: 0 <= j < 32 ==> h[j] == Bit(w, Turned(j))
  }

  /** The place of bit q of group g of a round key: groups 1, 3, 5 and 7 are in the first word,
      the others in the second, one to a byte. */
  function KeyPlace(g: nat, q: nat): (t: nat)
    requires g < 8 && q < 6
    ensures t < 32
  {
    8 * (3 - g / 2) + 5 - q
  }

  ghost predicate HoldsKey(k: F.Bits, k0: bv32, k1: bv32) {
    |k| == 48 && forall g, q :: 0 <= g < 8 && 0 <= q < 6 ==> HoldsKeyBit(k, k0, k1, g, q)
  }

  ghost predicate HoldsKeyBit(k: F.Bits, k0: bv32, k1: bv32, g: nat, q: nat)
    requires |k| == 48 && g < 8 && q < 6
  {
    k[6 * g + q] == Bit(if g % 2 == 0 then k0 else k1, KeyPlace(g, q))
  }

  // ---- Six bits ----

  function Index(six: F.Bits): (i: nat)
    requires |six| == 6
    ensures i < 64
  {
    32 * F.Digit(six[0]) + 16 * F.Digit(six[1]) + 8 * F.Digit(six[2]) + 4 * F.Digit(six[3]) + 2 * F.Digit(six[4]) + F.Digit(six[5])
  }

  lemma IndexSelects(n: nat, six: F.Bits)
    requires 1 <= n <= 8 && |six| == 6
    ensures BoxOutput(n, Index(six)) == F.Selected(n, six)
  {
    IndexParts(six);
  }

  lemma IndexParts(six: F.Bits)
    requires |six| == 6
    ensures Row(Index(six)) == 2 * F.Digit(six[0]) + F.Digit(six[5])
    ensures Column(Index(six)) == 8 * F.Digit(six[1]) + 4 * F.Digit(six[2]) + 2 * F.Digit(six[3]) + F.Digit(six[4])
  {
  }

  /** The six bits of the byte that lies shift bits up. */
  function SixBits(w: bv32, shift: nat): (s: F.Bits)
    requires shift <= 24
    ensures |s| == 6
  {
    [Bit(w, shift + 5), Bit(w, shift + 4), Bit(w, shift + 3), Bit(w, shift + 2), Bit(w, shift + 1), Bit(w, shift)]
  }

  lemma SixAt0(w: bv32)
    ensures Six(w) == Index(SixBits(w, 0))
  {
  }

  lemma SixAt8(w: bv32)
    ensures Six(ShiftRight(w, 8)) == Index(SixBits(w, 8))
  {
  }

  lemma SixAt16(w: bv32)
    ensures Six(ShiftRight(w, 16)) == Index(SixBits(w, 16))
  {
  }

  lemma SixAt24(w: bv32)
    ensures Six(ShiftRight(w, 24)) == Index(SixBits(w, 24))
  {
  }

  // ---- The selection of E, with the key ----

  /** The bit that E selects for bit q of group g. */
  function Expanded(g: nat, q: nat): (k: nat)
    requires g < 8 && q < 6
    ensures k < 32
  {
    var e: int := F.E[6 * g + q];
    e - 1
  }

  lemma Group1()
    ensures
      && Expanded(0, 0) == 31 && Expanded(0, 1) == 0 && Expanded(0, 2) == 1
      && Expanded(0, 3) == 2 && Expanded(0, 4) == 3 && Expanded(0, 5) == 4
  {
  }

  lemma Group2()
    ensures
      && Expanded(1, 0) == 3 && Expanded(1, 1) == 4 && Expanded(1, 2) == 5
      && Expanded(1, 3) == 6 && Expanded(1, 4) == 7 && Expanded(1, 5) == 8
  {
  }

  lemma Group3()
    ensures
      && Expanded(2, 0) == 7 && Expanded(2, 1) == 8 && Expanded(2, 2) == 9
      && Expanded(2, 3) == 10 && Expanded(2, 4) == 11 && Expanded(2, 5) == 12
  {
  }

  lemma Group4()
    ensures
      && Expanded(3, 0) == 11 && Expanded(3, 1) == 12 && Expanded(3, 2) == 13
      && Expanded(3, 3) == 14 && Expanded(3, 4) == 15 && Expanded(3, 5) == 16
  {
  }

  lemma Group5()
    ensures
      && Expanded(4, 0) == 15 && Expanded(4, 1) == 16 && Expanded(4, 2) == 17
      && Expanded(4, 3) == 18 && Expanded(4, 4) == 19 && Expanded(4, 5) == 20
  {
  }

  lemma Group6()
    ensures
      && Expanded(5, 0) == 19 && Expanded(5, 1) == 20 && Expanded(5, 2) == 21
      && Expanded(5, 3) == 22 && Expanded(5, 4) == 23 && Expanded(5, 5) == 24
  {
  }

  lemma Group7()
    ensures
      && Expanded(6, 0) == 23 && Expanded(6, 1) == 24 && Expanded(6, 2) == 25
      && Expanded(6, 3) == 26 && Expanded(6, 4) == 27 && Expanded(6, 5) == 28
  {
  }

  lemma Group8()
    ensures
      && Expanded(7, 0) == 27 && Expanded(7, 1) == 28 && Expanded(7, 2) == 29
      && Expanded(7, 3) == 30 && Expanded(7, 4) == 31 && Expanded(7, 5) == 0
  {
  }

  lemma ExpandedIs(g: nat, q: nat)
    requires g < 8 && q < 6
    ensures Expanded(g, q) == (4 * g + q + 31) % 32
  {
    hide Expanded;
    match g
    case 0 => Group1();
    case 1 => Group2();
    case 2 => Group3();
    case 3 => Group4();
    case 4 => Group5();
    case 5 => Group6();
    case 6 => Group7();
    case 7 => Group8();
  }

  /** The word that group g is read from. */
  function GroupWord(half: bv32, k0: bv32, k1: bv32, g: nat): bv32 {
    if g % 2 == 0 then Xor(Or(ShiftLeft(half, 28), ShiftRight(half, 4)), k0) else Xor(half, k1)
  }

  /** What goes into the selection functions. */
  function Input(h: F.Bits, k: F.Bits): (x: F.Bits)
    requires |h| == 32 && |k| == 48
    ensures |x| == 48
  {
    F.Sum(F.Select(h, F.E), k)
  }

  lemma InputAt(h: F.Bits, k: F.Bits, g: nat, q: nat)
    requires |h| == 32 && |k| == 48 && g < 8 && q < 6
    ensures Input(h, k)[6 * g + q] <==> h[Expanded(g, q)] != k[6 * g + q]
  {
    var e: int := F.E[6 * g + q];
  }

  lemma GroupWordAt(half: bv32, k0: bv32, k1: bv32, g: nat, q: nat)
    requires g < 8 && q < 6
    ensures Bit(GroupWord(half, k0, k1, g), KeyPlace(g, q)) <==>
      Bit(half, Turned((4 * g + q + 31) % 32)) != Bit(if g % 2 == 0 then k0 else k1, KeyPlace(g, q))
  {
    hide Bit;
    hide Xor;
    hide Or;
    hide ShiftLeft;
    hide ShiftRight;
    hide TurnedFour;
    var t := KeyPlace(g, q);
    if g % 2 == 0 {
      var c := Or(ShiftLeft(half, 28), ShiftRight(half, 4));
      BitXor(c, k0, t);
      RotateFourTurns(half);
      BitTurnedFour(half, c, t);
      assert (t + 4) % 32 == Turned((4 * g + q + 31) % 32);
    } else {
      BitXor(half, k1, t);
      assert t == Turned((4 * g + q + 31) % 32);
    }
  }

  lemma InputBit(h: F.Bits, half: bv32, k: F.Bits, k0: bv32, k1: bv32, g: nat, q: nat)
    requires HoldsHalf(h, half) && HoldsKey(k, k0, k1) && g < 8 && q < 6
    ensures Input(h, k)[6 * g + q] == Bit(GroupWord(half, k0, k1, g), KeyPlace(g, q))
  {
    hide Bit;
    hide GroupWord;
    hide Input;
    hide Expanded;
    hide KeyPlace;
    assert HoldsKeyBit(k, k0, k1, g, q);
    InputAt(h, k, g, q);
    ExpandedIs(g, q);
    GroupWordAt(half, k0, k1, g, q);
  }

  /** Six bits of a word are the six bits that go into a selection function. */
  lemma GroupIs(h: F.Bits, half: bv32, k: F.Bits, k0: bv32, k1: bv32, g: nat)
    requires HoldsHalf(h, half) && HoldsKey(k, k0, k1) && g < 8
    ensures Input(h, k)[6 * g..6 * g + 6] == SixBits(GroupWord(half, k0, k1, g), 8 * (3 - g / 2))
  {
    var x := Input(h, k);
    var w := GroupWord(half, k0, k1, g);
    InputBit(h, half, k, k0, k1, g, 0);
    InputBit(h, half, k, k0, k1, g, 1);
    InputBit(h, half, k, k0, k1, g, 2);
    InputBit(h, half, k, k0, k1, g, 3);
    InputBit(h, half, k, k0, k1, g, 4);
    InputBit(h, half, k, k0, k1, g, 5);
    hide Bit;
    hide GroupWord;
    hide Input;
    hide HoldsHalf;
    hide HoldsKey;
    hide KeyPlace;
    hide SixBits;
    SixAre(x, w, g);
  }

  lemma SixAre(x: F.Bits, w: bv32, g: nat)
    requires |x| == 48 && g < 8
    requires x[6 * g] == Bit(w, KeyPlace(g, 0)) && x[6 * g + 1] == Bit(w, KeyPlace(g, 1)) && x[6 * g + 2] == Bit(w, KeyPlace(g, 2))
    requires x[6 * g + 3] == Bit(w, KeyPlace(g, 3)) && x[6 * g + 4] == Bit(w, KeyPlace(g, 4)) && x[6 * g + 5] == Bit(w, KeyPlace(g, 5))
    ensures x[6 * g..6 * g + 6] == SixBits(w, 8 * (3 - g / 2))
  {
    hide Bit;
    var s := x[6 * g..6 * g + 6];
    assert s == [x[6 * g], x[6 * g + 1], x[6 * g + 2], x[6 * g + 3], x[6 * g + 4], x[6 * g + 5]];
  }

  // ---- The round ----

  /** The index of box n. */
  function BoxIndex(half: bv32, k0: bv32, k1: bv32, n: nat): (i: nat)
    requires 1 <= n <= 8
    ensures i < 64
  {
    var g := n - 1;
    Index(SixBits(GroupWord(half, k0, k1, g), 8 * (3 - g / 2)))
  }

  lemma BoxIndices(half: bv32, k0: bv32, k1: bv32) returns (a: bv32, b: bv32)
    ensures RoundValue(half, k0, k1) == Or(Boxes(a, 7, 5, 3, 1), Boxes(b, 8, 6, 4, 2))
    ensures
      && BoxIndex(half, k0, k1, 7) == Six(a) && BoxIndex(half, k0, k1, 5) == Six(ShiftRight(a, 8))
      && BoxIndex(half, k0, k1, 3) == Six(ShiftRight(a, 16)) && BoxIndex(half, k0, k1, 1) == Six(ShiftRight(a, 24))
    ensures
      && BoxIndex(half, k0, k1, 8) == Six(b) && BoxIndex(half, k0, k1, 6) == Six(ShiftRight(b, 8))
      && BoxIndex(half, k0, k1, 4) == Six(ShiftRight(b, 16)) && BoxIndex(half, k0, k1, 2) == Six(ShiftRight(b, 24))
  {
    hide Xor;
    hide Or;
    hide ShiftLeft;
    hide ShiftRight;
    hide Six;
    hide Index;
    hide SixBits;
    hide Boxes;
    a, b := GroupWord(half, k0, k1, 0), GroupWord(half, k0, k1, 1);
    SixAt0(a);
    SixAt8(a);
    SixAt16(a);
    SixAt24(a);
    SixAt0(b);
    SixAt8(b);
    SixAt16(b);
    SixAt24(b);
  }

  /** What box n contributes. */
  function Boxed(half: bv32, k0: bv32, k1: bv32, n: nat): bv32
    requires 1 <= n <= 8
  {
    Box(n, BoxIndex(half, k0, k1, n))
  }

  function OrFour(a: bv32, b: bv32, c: bv32, d: bv32): bv32 {
    Or(Or(Or(a, b), c), d)
  }

  lemma BitOrFour(a: bv32, b: bv32, c: bv32, d: bv32, t: nat)
    requires t < 32
    ensures Bit(OrFour(a, b, c, d), t) <==> Bit(a, t) || Bit(b, t) || Bit(c, t) || Bit(d, t)
  {
    hide Bit;
    hide Or;
    BitOr(a, b, t);
    BitOr(Or(a, b), c, t);
    BitOr(Or(Or(a, b), c), d, t);
  }

  lemma BoxesAre(half: bv32, k0: bv32, k1: bv32, w: bv32, n0: nat, n1: nat, n2: nat, n3: nat)
    requires 1 <= n0 <= 8 && 1 <= n1 <= 8 && 1 <= n2 <= 8 && 1 <= n3 <= 8
    requires BoxIndex(half, k0, k1, n0) == Six(w) && BoxIndex(half, k0, k1, n1) == Six(ShiftRight(w, 8))
    requires BoxIndex(half, k0, k1, n2) == Six(ShiftRight(w, 16)) && BoxIndex(half, k0, k1, n3) == Six(ShiftRight(w, 24))
    ensures Boxes(w, n0, n1, n2, n3) ==
      OrFour(Boxed(half, k0, k1, n0), Boxed(half, k0, k1, n1), Boxed(half, k0, k1, n2), Boxed(half, k0, k1, n3))
  {
    hide Or;
    hide Box;
    hide BoxIndex;
    hide Six;
    hide ShiftRight;
  }

  lemma RoundValueIs(half: bv32, k0: bv32, k1: bv32) returns (x: bv32, y: bv32)
    ensures RoundValue(half, k0, k1) == Or(x, y)
    ensures x == OrFour(Boxed(half, k0, k1, 7), Boxed(half, k0, k1, 5), Boxed(half, k0, k1, 3), Boxed(half, k0, k1, 1))
    ensures y == OrFour(Boxed(half, k0, k1, 8), Boxed(half, k0, k1, 6), Boxed(half, k0, k1, 4), Boxed(half, k0, k1, 2))
  {
    hide RoundValue;
    hide Or;
    hide OrFour;
    hide ShiftRight;
    hide Six;
    hide Boxed;
    hide Boxes;
    hide BoxIndex;
    var a, b := BoxIndices(half, k0, k1);
    x, y := Boxes(a, 7, 5, 3, 1), Boxes(b, 8, 6, 4, 2);
    BoxesAre(half, k0, k1, a, 7, 5, 3, 1);
    BoxesAre(half, k0, k1, b, 8, 6, 4, 2);
  }

  /** Every bit comes from one box. */
  lemma RoundValueBit(half: bv32, k0: bv32, k1: bv32, j: nat)
    requires j < 32
    ensures Bit(RoundValue(half, k0, k1), Turned(j)) <==> Bit(Boxed(half, k0, k1, Source(j) / 4 + 1), Turned(j))
  {
    hide Bit;
    hide Or;
    hide OrFour;
    hide RoundValue;
    hide Boxed;
    hide Source;
    hide Turned;
    var t := Turned(j);
    var x, y := RoundValueIs(half, k0, k1);
    BitOr(x, y, t);
    BitOrFour(Boxed(half, k0, k1, 7), Boxed(half, k0, k1, 5), Boxed(half, k0, k1, 3), Boxed(half, k0, k1, 1), t);
    BitOrFour(Boxed(half, k0, k1, 8), Boxed(half, k0, k1, 6), Boxed(half, k0, k1, 4), Boxed(half, k0, k1, 2), t);
    forall n | 1 <= n <= 8 && n != Source(j) / 4 + 1
      ensures !Bit(Boxed(half, k0, k1, n), t)
    {
      OtherBox(half, k0, k1, n, j);
    }
  }

  lemma OtherBox(half: bv32, k0: bv32, k1: bv32, n: nat, j: nat)
    requires 1 <= n <= 8 && j < 32 && n != Source(j) / 4 + 1
    ensures !Bit(Boxed(half, k0, k1, n), Turned(j))
  {
    hide Bit;
    hide Box;
    hide BoxIndex;
    hide Source;
    hide Turned;
    hide BoxOutput;
    BoxBit(n, BoxIndex(half, k0, k1, n), j);
  }

  /** The cipher function. */
  lemma RoundValueIsF(h: F.Bits, half: bv32, k: F.Bits, k0: bv32, k1: bv32)
    requires HoldsHalf(h, half) && HoldsKey(k, k0, k1)
    ensures HoldsHalf(F.F(h, k), RoundValue(half, k0, k1))
  {
    hide RoundValue;
    hide Bit;
    forall j | 0 <= j < 32
      ensures F.F(h, k)[j] == Bit(RoundValue(half, k0, k1), Turned(j))
    {
      RoundBit(h, half, k, k0, k1, j);
    }
  }

  lemma RoundBit(h: F.Bits, half: bv32, k: F.Bits, k0: bv32, k1: bv32, j: nat)
    requires HoldsHalf(h, half) && HoldsKey(k, k0, k1) && j < 32
    ensures F.F(h, k)[j] == Bit(RoundValue(half, k0, k1), Turned(j))
  {
    assert |h| == 32 && |k| == 48;
    hide RoundValue;
    hide Bit;
    hide HoldsKey;
    hide HoldsHalf;
    hide Boxed;
    hide F.F;
    hide F.Selected;
    hide Input;
    hide Source;
    hide Turned;
    FAt(h, k, j);
    RoundValueBit(half, k0, k1, j);
    BoxedIs(h, half, k, k0, k1, Source(j) / 4 + 1, j);
  }

  lemma BoxedIs(h: F.Bits, half: bv32, k: F.Bits, k0: bv32, k1: bv32, n: nat, j: nat)
    requires HoldsHalf(h, half) && HoldsKey(k, k0, k1) && j < 32 && n == Source(j) / 4 + 1
    ensures Bit(Boxed(half, k0, k1, n), Turned(j)) == F.Selected(n, Input(h, k)[6 * (n - 1)..6 * (n - 1) + 6])[Source(j) % 4]
  {
    assert |h| == 32 && |k| == 48;
    hide Bit;
    hide Box;
    hide BoxIndex;
    hide HoldsKey;
    hide HoldsHalf;
    hide Index;
    hide Input;
    hide F.Selected;
    hide BoxOutput;
    hide Source;
    hide Turned;
    var six := Input(h, k)[6 * (n - 1)..6 * (n - 1) + 6];
    BoxIndexIs(h, half, k, k0, k1, n);
    BoxBit(n, Index(six), j);
    IndexSelects(n, six);
  }

  lemma BoxIndexIs(h: F.Bits, half: bv32, k: F.Bits, k0: bv32, k1: bv32, n: nat)
    requires HoldsHalf(h, half) && HoldsKey(k, k0, k1) && 1 <= n <= 8
    ensures BoxIndex(half, k0, k1, n) == Index(Input(h, k)[6 * (n - 1)..6 * (n - 1) + 6])
  {
    hide HoldsKey;
    hide HoldsHalf;
    hide Index;
    hide SixBits;
    hide GroupWord;
    hide Input;
    GroupIs(h, half, k, k0, k1, n - 1);
  }

  lemma FAt(h: F.Bits, k: F.Bits, j: nat)
    requires |h| == 32 && |k| == 48 && j < 32
    ensures var n := Source(j) / 4 + 1;
      F.F(h, k)[j] == F.Selected(n, Input(h, k)[6 * (n - 1)..6 * (n - 1) + 6])[Source(j) % 4]
  {
    hide F.Selected;
    hide F.Sum;
    hide Input;
    var p: int := F.P[j];
    assert F.F(h, k)[j] == F.Substituted(F.Sum(F.Select(h, F.E), k))[p - 1];
    InputIs(h, k);
  }

  lemma InputIs(h: F.Bits, k: F.Bits)
    requires |h| == 32 && |k| == 48
    ensures Input(h, k) == F.Sum(F.Select(h, F.E), k)
  {
  }
}
