/** The key schedule carried out on words: the two halves of the selected key bits are kept in
    28 bits each and turned there, and the raw words are put together from them. */
module KeyHalves {
  import opened Des
  import opened DesTables

  /** The places of the 28 bits of a half, the first one on top. */
  const TOP: seq<bv32> :=
    [0x8000000, 0x4000000, 0x2000000, 0x1000000, 0x800000, 0x400000, 0x200000] +
    [0x100000, 0x80000, 0x40000, 0x20000, 0x10000, 0x8000, 0x4000] +
    [0x2000, 0x1000, 0x800, 0x400, 0x200, 0x100, 0x80] +
    [0x40, 0x20, 0x10, 0x8, 0x4, 0x2, 0x1]

  /** The bits p are in c. */
  ghost predicate Holds(p: seq<bool>, c: bv32) {
    |p| == 28 && And(c, 0xfffffff) == c && forall j :: 0 <= j < 28 ==> p[j] == (And(c, TOP[j]) != 0)
  }

  // ---- Turning ----

  function Turn(c: bv32): bv32 {
    ((c << 1) | (c >> 27)) & 0xfffffff
  }

  function Turned(c: bv32, k: nat): bv32 {
    if k == 0 then c else Turn(Turned(c, k - 1))
  }

  lemma Tops()
    ensures
      && TOP[0] == 0x8000000 && TOP[1] == 0x4000000 && TOP[2] == 0x2000000 && TOP[3] == 0x1000000
      && TOP[4] == 0x800000 && TOP[5] == 0x400000 && TOP[6] == 0x200000 && TOP[7] == 0x100000
      && TOP[8] == 0x80000 && TOP[9] == 0x40000 && TOP[10] == 0x20000 && TOP[11] == 0x10000
      && TOP[12] == 0x8000 && TOP[13] == 0x4000 && TOP[14] == 0x2000 && TOP[15] == 0x1000
      && TOP[16] == 0x800 && TOP[17] == 0x400 && TOP[18] == 0x200 && TOP[19] == 0x100
      && TOP[20] == 0x80 && TOP[21] == 0x40 && TOP[22] == 0x20 && TOP[23] == 0x10
      && TOP[24] == 0x8 && TOP[25] == 0x4 && TOP[26] == 0x2 && TOP[27] == 0x1
  {
  }

  lemma TopAbove(j: nat)
    requires j < 27
    ensures TOP[j] == TOP[j + 1] << 1 && And(TOP[j + 1], 0x7ffffff) == TOP[j + 1]
  {
    Tops();
    hide TOP;
  }

  lemma TurnBit(c: bv32, t: bv32)
    requires And(c, 0xfffffff) == c && And(t, 0x7ffffff) == t
    ensures (And(Turn(c), t << 1) != 0) == (And(c, t) != 0)
  {
  }

  lemma TurnLast(c: bv32)
    requires And(c, 0xfffffff) == c
    ensures (And(Turn(c), 1) != 0) == (And(c, 0x8000000) != 0) && And(Turn(c), 0xfffffff) == Turn(c)
  {
  }

  lemma TurnHolds(p: seq<bool>, c: bv32)
    requires Holds(p, c)
    ensures Holds(p[1..] + p[..1], Turn(c))
  {
    var q := p[1..] + p[..1];
    TurnLast(c);
    hide TOP;
    hide Turn;
    hide And;
    forall j | 0 <= j < 28
      ensures q[j] == (And(Turn(c), TOP[j]) != 0)
    {
      TurnHoldsAt(p, c, j);
      assert q[j] == if j < 27 then p[j + 1] else p[0];
    }
  }

  lemma TurnHoldsAt(p: seq<bool>, c: bv32, j: nat)
    requires Holds(p, c) && j < 28
    ensures (And(Turn(c), TOP[j]) != 0) == if j < 27 then p[j + 1] else p[0]
  {
    if j < 27 {
      TopAbove(j);
      TurnBit(c, TOP[j + 1]);
    } else {
      assert TOP[27] == 1 && TOP[0] == 0x8000000;
      TurnLast(c);
    }
    hide TOP;
    hide Turn;
    hide And;
  }

  lemma {:induction false} TurnedHolds(p: seq<bool>, c: bv32, k: nat)
    requires Holds(p, c) && k <= 28
    ensures Holds(p[k..] + p[..k], Turned(c, k))
    decreases k
  {
    hide Turn;
    assert |p| == 28;
    hide Holds;
    if k == 0 {
      assert p[0..] + p[..0] == p;
    } else {
      var q := p[k - 1..] + p[..k - 1];
      TurnedHolds(p, c, k - 1);
      TurnHolds(q, Turned(c, k - 1));
      assert q[1..] + q[..1] == p[k..] + p[..k];
    }
  }

  lemma SameHalf(r: seq<bool>, b: seq<bool>, t: nat)
    requires |r| == 28 && |b| == 28 && t <= 28
    requires forall j :: 0 <= j < 28 ==> r[j] == if j + t < 28 then b[j + t] else b[j + t - 28]
    ensures r == b[t..] + b[..t]
  {
  }

  /** Both halves of the bits of a key as they are in round i. */
  lemma RotatedHolds(b: seq<bool>, left: bv32, right: bv32, i: nat)
    requires |b| == 56 && i < 16 && Holds(b[..28], left) && Holds(b[28..], right)
    ensures Holds(Rotated(b, i)[..28], Turned(left, TOTROT[i])) && Holds(Rotated(b, i)[28..], Turned(right, TOTROT[i]))
  {
    hide Holds;
    hide Turned;
    var t: nat, r := TOTROT[i], Rotated(b, i);
    hide TOTROT;
    forall j | 0 <= j < 28
      ensures r[..28][j] == if j + t < 28 then b[..28][j + t] else b[..28][j + t - 28]
      ensures r[28..][j] == if j + t < 28 then b[28..][j + t] else b[28..][j + t - 28]
    {
      assert r[j] == b[RotatedFrom(j, i)] && r[28 + j] == b[RotatedFrom(28 + j, i)];
    }
    SameHalf(r[..28], b[..28], t);
    SameHalf(r[28..], b[28..], t);
    TurnedHolds(b[..28], left, t);
    TurnedHolds(b[28..], right, t);
  }

  // ---- Putting a raw word together ----

  /** One more bit: to is set if c has the bit from. */
  function Step(w: bv32, c: bv32, from: bv32, to: bv32): bv32 {
    if And(c, from) != 0 then Or(w, to) else w
  }

  /** Where a half has the bit that PC2 selects. */
  function From(m: nat): bv32
    requires m < 48
  {
    TOP[Pc2(m) % 28]
  }

  function SoFar(c: bv32, offset: nat, k: nat): bv32
    requires k <= 24 && offset <= 24
  {
    if k == 0 then 0 else Step(SoFar(c, offset, k - 1), c, From(offset + (k - 1)), BigByte(k - 1))
  }

  lemma LowOrder()
    ensures
      && Pc2(0) == 13 && Pc2(1) == 16 && Pc2(2) == 10 && Pc2(3) == 23 && Pc2(4) == 0 && Pc2(5) == 4
      && Pc2(6) == 2 && Pc2(7) == 27 && Pc2(8) == 14 && Pc2(9) == 5 && Pc2(10) == 20 && Pc2(11) == 9
      && Pc2(12) == 22 && Pc2(13) == 18 && Pc2(14) == 11 && Pc2(15) == 3 && Pc2(16) == 25 && Pc2(17) == 7
      && Pc2(18) == 15 && Pc2(19) == 6 && Pc2(20) == 26 && Pc2(21) == 19 && Pc2(22) == 12 && Pc2(23) == 1
  {
  }

  lemma HighOrder()
    ensures
      && Pc2(24) == 40 && Pc2(25) == 51 && Pc2(26) == 30 && Pc2(27) == 36 && Pc2(28) == 46 && Pc2(29) == 54
      && Pc2(30) == 29 && Pc2(31) == 39 && Pc2(32) == 50 && Pc2(33) == 44 && Pc2(34) == 32 && Pc2(35) == 47
      && Pc2(36) == 43 && Pc2(37) == 48 && Pc2(38) == 38 && Pc2(39) == 55 && Pc2(40) == 33 && Pc2(41) == 52
      && Pc2(42) == 45 && Pc2(43) == 41 && Pc2(44) == 49 && Pc2(45) == 35 && Pc2(46) == 28 && Pc2(47) == 31
  {
  }

  /** The first 24 bits are selected from the first half, the others from the second. */
  lemma Selects(m: nat)
    requires m < 48
    ensures Pc2(m) < 28 <==> m < 24
  {
    LowOrder();
    HighOrder();
    hide Pc2;
  }

  lemma {:induction false} WordIs(p: seq<bool>, second: bool, c: bv32, k: nat)
    requires |p| == 56 && k <= 24 && Holds(if second then p[28..] else p[..28], c)
    ensures KeyWord(p, if second then 24 else 0, k) == SoFar(c, if second then 24 else 0, k)
    decreases k
  {
    hide Pc2;
    hide BigByte;
    hide TOP;
    hide And;
    hide Or;
    if k > 0 {
      var offset := if second then 24 else 0;
      WordIs(p, second, c, k - 1);
      Selects(offset + (k - 1));
      assert p[Pc2(offset + k - 1)] == (if second then p[28..] else p[..28])[Pc2(offset + k - 1) % 28];
    }
  }

  /** The raw words of round i, from the halves of the key's bits. */
  lemma RawIs(key: seq<bv8>, left: bv32, right: bv32, i: nat)
    requires |key| == 8 && i < 16 && Holds(KeyBits(key)[..28], left) && Holds(KeyBits(key)[28..], right)
    ensures RawWord(key, i, false) == SoFar(Turned(left, TOTROT[i]), 0, 24)
    ensures RawWord(key, i, true) == SoFar(Turned(right, TOTROT[i]), 24, 24)
  {
    hide Holds;
    hide Turned;
    hide KeyBits;
    hide KeyWord;
    hide SoFar;
    hide Rotated;
    RotatedHolds(KeyBits(key), left, right, i);
    WordIs(Rotated(KeyBits(key), i), false, Turned(left, TOTROT[i]), 24);
    WordIs(Rotated(KeyBits(key), i), true, Turned(right, TOTROT[i]), 24);
  }

  // ---- The same without tables ----

  function LowWord(c: bv32): bv32 {
    var w1 := Step(Step(Step(Step(0, c, 0x4000, 0x800000), c, 0x800, 0x400000), c, 0x20000, 0x200000), c, 0x10, 0x100000);
    var w2 := Step(Step(Step(Step(w1, c, 0x8000000, 0x80000), c, 0x800000, 0x40000), c, 0x2000000, 0x20000), c, 0x1, 0x10000);
    var w3 := Step(Step(Step(Step(w2, c, 0x2000, 0x8000), c, 0x400000, 0x4000), c, 0x80, 0x2000), c, 0x40000, 0x1000);
    var w4 := Step(Step(Step(Step(w3, c, 0x20, 0x800), c, 0x200, 0x400), c, 0x10000, 0x200), c, 0x1000000, 0x100);
    var w5 := Step(Step(Step(Step(w4, c, 0x4, 0x80), c, 0x100000, 0x40), c, 0x1000, 0x20), c, 0x200000, 0x10);
    Step(Step(Step(Step(w5, c, 0x2, 0x8), c, 0x100, 0x4), c, 0x8000, 0x2), c, 0x4000000, 0x1)
  }

  function HighWord(c: bv32): bv32 {
    var w1 := Step(Step(Step(Step(0, c, 0x8000, 0x800000), c, 0x10, 0x400000), c, 0x2000000, 0x200000), c, 0x80000, 0x100000);
    var w2 := Step(Step(Step(Step(w1, c, 0x200, 0x80000), c, 0x2, 0x40000), c, 0x4000000, 0x20000), c, 0x10000, 0x10000);
    var w3 := Step(Step(Step(Step(w2, c, 0x20, 0x8000), c, 0x800, 0x4000), c, 0x800000, 0x2000), c, 0x100, 0x1000);
    var w4 := Step(Step(Step(Step(w3, c, 0x1000, 0x800), c, 0x80, 0x400), c, 0x20000, 0x200), c, 0x1, 0x100);
    var w5 := Step(Step(Step(Step(w4, c, 0x400000, 0x80), c, 0x8, 0x40), c, 0x400, 0x20), c, 0x4000, 0x10);
    Step(Step(Step(Step(w5, c, 0x40, 0x8), c, 0x100000, 0x4), c, 0x8000000, 0x2), c, 0x1000000, 0x1)
  }

  lemma PowersAre()
    ensures
      && BigByte(0) == 0x800000 && BigByte(1) == 0x400000 && BigByte(2) == 0x200000 && BigByte(3) == 0x100000
      && BigByte(4) == 0x80000 && BigByte(5) == 0x40000 && BigByte(6) == 0x20000 && BigByte(7) == 0x10000
      && BigByte(8) == 0x8000 && BigByte(9) == 0x4000 && BigByte(10) == 0x2000 && BigByte(11) == 0x1000
      && BigByte(12) == 0x800 && BigByte(13) == 0x400 && BigByte(14) == 0x200 && BigByte(15) == 0x100
      && BigByte(16) == 0x80 && BigByte(17) == 0x40 && BigByte(18) == 0x20 && BigByte(19) == 0x10
      && BigByte(20) == 0x8 && BigByte(21) == 0x4 && BigByte(22) == 0x2 && BigByte(23) == 0x1
  {
  }

  lemma LowPlaces()
    ensures
      && From(0) == 0x4000 && From(1) == 0x800 && From(2) == 0x20000 && From(3) == 0x10
      && From(4) == 0x8000000 && From(5) == 0x800000 && From(6) == 0x2000000 && From(7) == 0x1
      && From(8) == 0x2000 && From(9) == 0x400000 && From(10) == 0x80 && From(11) == 0x40000
      && From(12) == 0x20 && From(13) == 0x200 && From(14) == 0x10000 && From(15) == 0x1000000
      && From(16) == 0x4 && From(17) == 0x100000 && From(18) == 0x1000 && From(19) == 0x200000
      && From(20) == 0x2 && From(21) == 0x100 && From(22) == 0x8000 && From(23) == 0x4000000
  {
    LowOrder();
    Tops();
    hide Pc2;
    hide TOP;
  }

  lemma HighPlaces()
    ensures
      && From(24) == 0x8000 && From(25) == 0x10 && From(26) == 0x2000000 && From(27) == 0x80000
      && From(28) == 0x200 && From(29) == 0x2 && From(30) == 0x4000000 && From(31) == 0x10000
      && From(32) == 0x20 && From(33) == 0x800 && From(34) == 0x800000 && From(35) == 0x100
      && From(36) == 0x1000 && From(37) == 0x80 && From(38) == 0x20000 && From(39) == 0x1
      && From(40) == 0x400000 && From(41) == 0x8 && From(42) == 0x400 && From(43) == 0x4000
      && From(44) == 0x40 && From(45) == 0x100000 && From(46) == 0x8000000 && From(47) == 0x1000000
  {
    HighOrder();
    Tops();
    hide Pc2;
    hide TOP;
  }

  lemma LowIs(c: bv32)
    ensures SoFar(c, 0, 24) == LowWord(c)
  {
    PowersAre();
    LowPlaces();
    hide BigByte;
    hide From;
    hide Step;
    assert SoFar(c, 0, 1) == Step(SoFar(c, 0, 0), c, 0x4000, 0x800000)
      && SoFar(c, 0, 2) == Step(SoFar(c, 0, 1), c, 0x800, 0x400000)
      && SoFar(c, 0, 3) == Step(SoFar(c, 0, 2), c, 0x20000, 0x200000)
      && SoFar(c, 0, 4) == Step(SoFar(c, 0, 3), c, 0x10, 0x100000);
    assert SoFar(c, 0, 5) == Step(SoFar(c, 0, 4), c, 0x8000000, 0x80000)
      && SoFar(c, 0, 6) == Step(SoFar(c, 0, 5), c, 0x800000, 0x40000)
      && SoFar(c, 0, 7) == Step(SoFar(c, 0, 6), c, 0x2000000, 0x20000)
      && SoFar(c, 0, 8) == Step(SoFar(c, 0, 7), c, 0x1, 0x10000);
    assert SoFar(c, 0, 9) == Step(SoFar(c, 0, 8), c, 0x2000, 0x8000)
      && SoFar(c, 0, 10) == Step(SoFar(c, 0, 9), c, 0x400000, 0x4000)
      && SoFar(c, 0, 11) == Step(SoFar(c, 0, 10), c, 0x80, 0x2000)
      && SoFar(c, 0, 12) == Step(SoFar(c, 0, 11), c, 0x40000, 0x1000);
    assert SoFar(c, 0, 13) == Step(SoFar(c, 0, 12), c, 0x20, 0x800)
      && SoFar(c, 0, 14) == Step(SoFar(c, 0, 13), c, 0x200, 0x400)
      && SoFar(c, 0, 15) == Step(SoFar(c, 0, 14), c, 0x10000, 0x200)
      && SoFar(c, 0, 16) == Step(SoFar(c, 0, 15), c, 0x1000000, 0x100);
    assert SoFar(c, 0, 17) == Step(SoFar(c, 0, 16), c, 0x4, 0x80)
      && SoFar(c, 0, 18) == Step(SoFar(c, 0, 17), c, 0x100000, 0x40)
      && SoFar(c, 0, 19) == Step(SoFar(c, 0, 18), c, 0x1000, 0x20)
      && SoFar(c, 0, 20) == Step(SoFar(c, 0, 19), c, 0x200000, 0x10);
    assert SoFar(c, 0, 21) == Step(SoFar(c, 0, 20), c, 0x2, 0x8)
      && SoFar(c, 0, 22) == Step(SoFar(c, 0, 21), c, 0x100, 0x4)
      && SoFar(c, 0, 23) == Step(SoFar(c, 0, 22), c, 0x8000, 0x2)
      && SoFar(c, 0, 24) == Step(SoFar(c, 0, 23), c, 0x4000000, 0x1);
  }

  lemma HighIs(c: bv32)
    ensures SoFar(c, 24, 24) == HighWord(c)
  {
    PowersAre();
    HighPlaces();
    hide BigByte;
    hide From;
    hide Step;
    assert SoFar(c, 24, 1) == Step(SoFar(c, 24, 0), c, 0x8000, 0x800000)
      && SoFar(c, 24, 2) == Step(SoFar(c, 24, 1), c, 0x10, 0x400000)
      && SoFar(c, 24, 3) == Step(SoFar(c, 24, 2), c, 0x2000000, 0x200000)
      && SoFar(c, 24, 4) == Step(SoFar(c, 24, 3), c, 0x80000, 0x100000);
    assert SoFar(c, 24, 5) == Step(SoFar(c, 24, 4), c, 0x200, 0x80000)
      && SoFar(c, 24, 6) == Step(SoFar(c, 24, 5), c, 0x2, 0x40000)
      && SoFar(c, 24, 7) == Step(SoFar(c, 24, 6), c, 0x4000000, 0x20000)
      && SoFar(c, 24, 8) == Step(SoFar(c, 24, 7), c, 0x10000, 0x10000);
    assert SoFar(c, 24, 9) == Step(SoFar(c, 24, 8), c, 0x20, 0x8000)
      && SoFar(c, 24, 10) == Step(SoFar(c, 24, 9), c, 0x800, 0x4000)
      && SoFar(c, 24, 11) == Step(SoFar(c, 24, 10), c, 0x800000, 0x2000)
      && SoFar(c, 24, 12) == Step(SoFar(c, 24, 11), c, 0x100, 0x1000);
    assert SoFar(c, 24, 13) == Step(SoFar(c, 24, 12), c, 0x1000, 0x800)
      && SoFar(c, 24, 14) == Step(SoFar(c, 24, 13), c, 0x80, 0x400)
      && SoFar(c, 24, 15) == Step(SoFar(c, 24, 14), c, 0x20000, 0x200)
      && SoFar(c, 24, 16) == Step(SoFar(c, 24, 15), c, 0x1, 0x100);
    assert SoFar(c, 24, 17) == Step(SoFar(c, 24, 16), c, 0x400000, 0x80)
      && SoFar(c, 24, 18) == Step(SoFar(c, 24, 17), c, 0x8, 0x40)
      && SoFar(c, 24, 19) == Step(SoFar(c, 24, 18), c, 0x400, 0x20)
      && SoFar(c, 24, 20) == Step(SoFar(c, 24, 19), c, 0x4000, 0x10);
    assert SoFar(c, 24, 21) == Step(SoFar(c, 24, 20), c, 0x40, 0x8)
      && SoFar(c, 24, 22) == Step(SoFar(c, 24, 21), c, 0x100000, 0x4)
      && SoFar(c, 24, 23) == Step(SoFar(c, 24, 22), c, 0x8000000, 0x2)
      && SoFar(c, 24, 24) == Step(SoFar(c, 24, 23), c, 0x1000000, 0x1);
  }
}
