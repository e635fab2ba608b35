/** Where the bits of the selection functions end up in the words of d3des.c, which are turned
    left by one: at the places that P gives them. */
module DesTargets {
  import opened Des
  import opened WordBits
  import opened DesBoxes
  import F = Fips46

  /** Bit j of half a block, the first being 0, in a word that is turned left by one. */
  function Turned(j: nat): (t: nat)
    requires j < 32
    ensures t < 32
  {
    (32 - j) % 32
  }

  type Spot = x: int | 0 <= x < 32 witness 0

  const TARGETS: seq<Spot> :=
    [24, 16, 10, 2, 20, 5, 31, 15, 9, 17, 3, 27, 7, 13, 23, 0] +
    [25, 19, 8, 30, 29, 4, 22, 14, 1, 21, 11, 26, 28, 6, 18, 12]

  /** The place of output m of the selection functions, counted from 0. */
  function Target(m: nat): Spot
    requires m < 32
  {
    TARGETS[m]
  }

  /** The output that P selects for bit j. */
  function Source(j: nat): (m: nat)
    requires j < 32
    ensures m < 32
  {
    var p: int := F.P[j];
    p - 1
  }

  lemma TargetOfSource(j: nat)
    requires j < 32
    ensures Target(Source(j)) == Turned(j)
  {
    hide Target;
    hide Source;
    if j < 16 {
      FirstTargets();
    } else {
      LastTargets();
    }
  }

  lemma FirstTargets()
    ensures
      && Target(Source(0)) == 0 && Target(Source(1)) == 31 && Target(Source(2)) == 30 && Target(Source(3)) == 29
      && Target(Source(4)) == 28 && Target(Source(5)) == 27 && Target(Source(6)) == 26 && Target(Source(7)) == 25
      && Target(Source(8)) == 24 && Target(Source(9)) == 23 && Target(Source(10)) == 22 && Target(Source(11)) == 21
      && Target(Source(12)) == 20 && Target(Source(13)) == 19 && Target(Source(14)) == 18 && Target(Source(15)) == 17
  {
  }

  lemma LastTargets()
    ensures
      && Target(Source(16)) == 16 && Target(Source(17)) == 15 && Target(Source(18)) == 14 && Target(Source(19)) == 13
      && Target(Source(20)) == 12 && Target(Source(21)) == 11 && Target(Source(22)) == 10 && Target(Source(23)) == 9
      && Target(Source(24)) == 8 && Target(Source(25)) == 7 && Target(Source(26)) == 6 && Target(Source(27)) == 5
      && Target(Source(28)) == 4 && Target(Source(29)) == 3 && Target(Source(30)) == 2 && Target(Source(31)) == 1
  {
  }



  lemma TargetsDiffer(m: nat, k: nat)
    requires m < 32 && k < 32 && Target(m) == Target(k)
    ensures m == k
  {
    OutputAt(m);
    OutputAt(k);
  }

  /** The output at a place. */
  const OUTPUTS: seq<nat> :=
    [15, 24, 3, 10, 21, 5, 29, 12, 18, 8, 2, 26, 31, 13, 23, 7] +
    [1, 9, 30, 17, 4, 25, 22, 14, 0, 16, 27, 11, 28, 20, 19, 6]

  function Output(t: Spot): nat {
    OUTPUTS[t]
  }

  lemma OutputAt(m: nat)
    requires m < 32
    ensures Output(Target(m)) == m
  {
    hide Target;
    hide Output;
    if m < 16 {
      FirstOutputs();
    } else {
      LastOutputs();
    }
  }

  lemma FirstOutputs()
    ensures
      && Output(Target(0)) == 0 && Output(Target(1)) == 1 && Output(Target(2)) == 2 && Output(Target(3)) == 3
      && Output(Target(4)) == 4 && Output(Target(5)) == 5 && Output(Target(6)) == 6 && Output(Target(7)) == 7
      && Output(Target(8)) == 8 && Output(Target(9)) == 9 && Output(Target(10)) == 10 && Output(Target(11)) == 11
      && Output(Target(12)) == 12 && Output(Target(13)) == 13 && Output(Target(14)) == 14 && Output(Target(15)) == 15
  {
  }

  lemma LastOutputs()
    ensures
      && Output(Target(16)) == 16 && Output(Target(17)) == 17 && Output(Target(18)) == 18 && Output(Target(19)) == 19
      && Output(Target(20)) == 20 && Output(Target(21)) == 21 && Output(Target(22)) == 22 && Output(Target(23)) == 23
      && Output(Target(24)) == 24 && Output(Target(25)) == 25 && Output(Target(26)) == 26 && Output(Target(27)) == 27
      && Output(Target(28)) == 28 && Output(Target(29)) == 29 && Output(Target(30)) == 30 && Output(Target(31)) == 31
  {
  }



  function If(b: bool, w: bv32): bv32 {
    if b then w else 0
  }

  /** Four bits at four places. */
  function Spread(b: F.Bits, t0: Spot, t1: Spot, t2: Spot, t3: Spot): bv32
    requires |b| == 4
  {
    Or(Or(If(b[0], Place(t0)), If(b[1], Place(t1))), Or(If(b[2], Place(t2)), If(b[3], Place(t3))))
  }

  lemma SpreadBit(b: F.Bits, t0: Spot, t1: Spot, t2: Spot, t3: Spot, t: Spot)
    requires |b| == 4
    ensures Bit(Spread(b, t0, t1, t2, t3), t) <==>
      (b[0] && t == t0) || (b[1] && t == t1) || (b[2] && t == t2) || (b[3] && t == t3)
  {
    hide Bit;
    hide Or;
    hide If;
    hide Place;
    var w0, w1, w2, w3 := If(b[0], Place(t0)), If(b[1], Place(t1)), If(b[2], Place(t2)), If(b[3], Place(t3));
    IfBit(b[0], t0, t);
    IfBit(b[1], t1, t);
    IfBit(b[2], t2, t);
    IfBit(b[3], t3, t);
    BitOr(w0, w1, t);
    BitOr(w2, w3, t);
    BitOr(Or(w0, w1), Or(w2, w3), t);
  }

  lemma IfBit(b: bool, k: Spot, t: Spot)
    ensures Bit(If(b, Place(k)), t) <==> b && t == k
  {
    hide Bit;
    hide Place;
    BitPlace(k, t);
    NoBit(t);
  }

  lemma Out1Is(v: F.Nibble)
    ensures Out1(v) == Spread(F.FourBits(v), 24, 16, 10, 2)
  {
    hide Out1;
    hide Spread;
    hide F.FourBits;
    if v < 8 {
      Out1Low(v);
    } else {
      Out1High(v);
    }
  }

  lemma Out1Low(v: F.Nibble)
    requires v < 8
    ensures Out1(v) == Spread(F.FourBits(v), 24, 16, 10, 2)
  {
    match v
    case 0 => case 1 => case 2 => case 3 => case 4 => case 5 => case 6 => case 7 =>
  }

  lemma Out1High(v: F.Nibble)
    requires v >= 8
    ensures Out1(v) == Spread(F.FourBits(v), 24, 16, 10, 2)
  {
    match v
    case 8 => case 9 => case 10 => case 11 => case 12 => case 13 => case 14 => case 15 =>
  }

  lemma Out2Is(v: F.Nibble)
    ensures Out2(v) == Spread(F.FourBits(v), 20, 5, 31, 15)
  {
    hide Out2;
    hide Spread;
    hide F.FourBits;
    if v < 8 {
      Out2Low(v);
    } else {
      Out2High(v);
    }
  }

  lemma Out2Low(v: F.Nibble)
    requires v < 8
    ensures Out2(v) == Spread(F.FourBits(v), 20, 5, 31, 15)
  {
    match v
    case 0 => case 1 => case 2 => case 3 => case 4 => case 5 => case 6 => case 7 =>
  }

  lemma Out2High(v: F.Nibble)
    requires v >= 8
    ensures Out2(v) == Spread(F.FourBits(v), 20, 5, 31, 15)
  {
    match v
    case 8 => case 9 => case 10 => case 11 => case 12 => case 13 => case 14 => case 15 =>
  }

  lemma Out3Is(v: F.Nibble)
    ensures Out3(v) == Spread(F.FourBits(v), 9, 17, 3, 27)
  {
    hide Out3;
    hide Spread;
    hide F.FourBits;
    if v < 8 {
      Out3Low(v);
    } else {
      Out3High(v);
    }
  }

  lemma Out3Low(v: F.Nibble)
    requires v < 8
    ensures Out3(v) == Spread(F.FourBits(v), 9, 17, 3, 27)
  {
    match v
    case 0 => case 1 => case 2 => case 3 => case 4 => case 5 => case 6 => case 7 =>
  }

  lemma Out3High(v: F.Nibble)
    requires v >= 8
    ensures Out3(v) == Spread(F.FourBits(v), 9, 17, 3, 27)
  {
    match v
    case 8 => case 9 => case 10 => case 11 => case 12 => case 13 => case 14 => case 15 =>
  }

  lemma Out4Is(v: F.Nibble)
    ensures Out4(v) == Spread(F.FourBits(v), 7, 13, 23, 0)
  {
    hide Out4;
    hide Spread;
    hide F.FourBits;
    if v < 8 {
      Out4Low(v);
    } else {
      Out4High(v);
    }
  }

  lemma Out4Low(v: F.Nibble)
    requires v < 8
    ensures Out4(v) == Spread(F.FourBits(v), 7, 13, 23, 0)
  {
    match v
    case 0 => case 1 => case 2 => case 3 => case 4 => case 5 => case 6 => case 7 =>
  }

  lemma Out4High(v: F.Nibble)
    requires v >= 8
    ensures Out4(v) == Spread(F.FourBits(v), 7, 13, 23, 0)
  {
    match v
    case 8 => case 9 => case 10 => case 11 => case 12 => case 13 => case 14 => case 15 =>
  }

  lemma Out5Is(v: F.Nibble)
    ensures Out5(v) == Spread(F.FourBits(v), 25, 19, 8, 30)
  {
    hide Out5;
    hide Spread;
    hide F.FourBits;
    if v < 8 {
      Out5Low(v);
    } else {
      Out5High(v);
    }
  }

  lemma Out5Low(v: F.Nibble)
    requires v < 8
    ensures Out5(v) == Spread(F.FourBits(v), 25, 19, 8, 30)
  {
    match v
    case 0 => case 1 => case 2 => case 3 => case 4 => case 5 => case 6 => case 7 =>
  }

  lemma Out5High(v: F.Nibble)
    requires v >= 8
    ensures Out5(v) == Spread(F.FourBits(v), 25, 19, 8, 30)
  {
    match v
    case 8 => case 9 => case 10 => case 11 => case 12 => case 13 => case 14 => case 15 =>
  }

  lemma Out6Is(v: F.Nibble)
    ensures Out6(v) == Spread(F.FourBits(v), 29, 4, 22, 14)
  {
    hide Out6;
    hide Spread;
    hide F.FourBits;
    if v < 8 {
      Out6Low(v);
    } else {
      Out6High(v);
    }
  }

  lemma Out6Low(v: F.Nibble)
    requires v < 8
    ensures Out6(v) == Spread(F.FourBits(v), 29, 4, 22, 14)
  {
    match v
    case 0 => case 1 => case 2 => case 3 => case 4 => case 5 => case 6 => case 7 =>
  }

  lemma Out6High(v: F.Nibble)
    requires v >= 8
    ensures Out6(v) == Spread(F.FourBits(v), 29, 4, 22, 14)
  {
    match v
    case 8 => case 9 => case 10 => case 11 => case 12 => case 13 => case 14 => case 15 =>
  }

  lemma Out7Is(v: F.Nibble)
    ensures Out7(v) == Spread(F.FourBits(v), 1, 21, 11, 26)
  {
    hide Out7;
    hide Spread;
    hide F.FourBits;
    if v < 8 {
      Out7Low(v);
    } else {
      Out7High(v);
    }
  }

  lemma Out7Low(v: F.Nibble)
    requires v < 8
    ensures Out7(v) == Spread(F.FourBits(v), 1, 21, 11, 26)
  {
    match v
    case 0 => case 1 => case 2 => case 3 => case 4 => case 5 => case 6 => case 7 =>
  }

  lemma Out7High(v: F.Nibble)
    requires v >= 8
    ensures Out7(v) == Spread(F.FourBits(v), 1, 21, 11, 26)
  {
    match v
    case 8 => case 9 => case 10 => case 11 => case 12 => case 13 => case 14 => case 15 =>
  }

  lemma Out8Is(v: F.Nibble)
    ensures Out8(v) == Spread(F.FourBits(v), 28, 6, 18, 12)
  {
    hide Out8;
    hide Spread;
    hide F.FourBits;
    if v < 8 {
      Out8Low(v);
    } else {
      Out8High(v);
    }
  }

  lemma Out8Low(v: F.Nibble)
    requires v < 8
    ensures Out8(v) == Spread(F.FourBits(v), 28, 6, 18, 12)
  {
    match v
    case 0 => case 1 => case 2 => case 3 => case 4 => case 5 => case 6 => case 7 =>
  }

  lemma Out8High(v: F.Nibble)
    requires v >= 8
    ensures Out8(v) == Spread(F.FourBits(v), 28, 6, 18, 12)
  {
    match v
    case 8 => case 9 => case 10 => case 11 => case 12 => case 13 => case 14 => case 15 =>
  }

  /** Outputs spread to their targets are where P looks for them. */
  lemma SpreadTargets(n: nat, b: F.Bits, j: nat)
    requires 1 <= n <= 8 && |b| == 4 && j < 32
    ensures var m := 4 * (n - 1);
      Bit(Spread(b, Target(m), Target(m + 1), Target(m + 2), Target(m + 3)), Turned(j)) <==>
        Source(j) / 4 == n - 1 && b[Source(j) % 4]
  {
    hide Bit;
    hide Spread;
    hide Target;
    hide Source;
    var m, s := 4 * (n - 1), Source(j);
    TargetOfSource(j);
    SpreadBit(b, Target(m), Target(m + 1), Target(m + 2), Target(m + 3), Turned(j));
    Apart(m, s);
    Apart(m + 1, s);
    Apart(m + 2, s);
    Apart(m + 3, s);
  }

  lemma Apart(m: nat, k: nat)
    requires m < 32 && k < 32
    ensures Target(m) == Target(k) <==> m == k
  {
    if Target(m) == Target(k) {
      TargetsDiffer(m, k);
    }
  }

  lemma TargetsAre()
    ensures
      && Target(0) == 24 && Target(1) == 16 && Target(2) == 10 && Target(3) == 2
      && Target(4) == 20 && Target(5) == 5 && Target(6) == 31 && Target(7) == 15
      && Target(8) == 9 && Target(9) == 17 && Target(10) == 3 && Target(11) == 27
      && Target(12) == 7 && Target(13) == 13 && Target(14) == 23 && Target(15) == 0
      && Target(16) == 25 && Target(17) == 19 && Target(18) == 8 && Target(19) == 30
      && Target(20) == 29 && Target(21) == 4 && Target(22) == 22 && Target(23) == 14
      && Target(24) == 1 && Target(25) == 21 && Target(26) == 11 && Target(27) == 26
      && Target(28) == 28 && Target(29) == 6 && Target(30) == 18 && Target(31) == 12
  {
    hide Target;
    FirstTargetsAre();
    LastTargetsAre();
  }

  lemma FirstTargetsAre()
    ensures
      && Target(0) == 24 && Target(1) == 16 && Target(2) == 10 && Target(3) == 2
      && Target(4) == 20 && Target(5) == 5 && Target(6) == 31 && Target(7) == 15
      && Target(8) == 9 && Target(9) == 17 && Target(10) == 3 && Target(11) == 27
      && Target(12) == 7 && Target(13) == 13 && Target(14) == 23 && Target(15) == 0
  {
  }

  lemma LastTargetsAre()
    ensures
      && Target(16) == 25 && Target(17) == 19 && Target(18) == 8 && Target(19) == 30
      && Target(20) == 29 && Target(21) == 4 && Target(22) == 22 && Target(23) == 14
      && Target(24) == 1 && Target(25) == 21 && Target(26) == 11 && Target(27) == 26
      && Target(28) == 28 && Target(29) == 6 && Target(30) == 18 && Target(31) == 12
  {
  }

  /** What the selection function of box n has for the index i. */
  function BoxOutput(n: nat, i: nat): (b: F.Bits)
    requires 1 <= n <= 8 && i < 64
    ensures |b| == 4
  {
    F.FourBits(F.S(n)[Row(i)][Column(i)])
  }

  /** Bit j of a box: an output of its selection function, if P selects one for j. */
  lemma BoxBit(n: nat, i: nat, j: nat)
    requires 1 <= n <= 8 && i < 64 && j < 32
    ensures Bit(Box(n, i), Turned(j)) <==> Source(j) / 4 == n - 1 && BoxOutput(n, i)[Source(j) % 4]
  {
    hide Box;
    hide Spread;
    hide Bit;
    hide BoxOutput;
    hide Source;
    hide Turned;
    BoxIs(n, i);
    SpreadTargets(n, BoxOutput(n, i), j);
  }

  lemma BoxIs(n: nat, i: nat)
    requires 1 <= n <= 8 && i < 64
    ensures var m := 4 * (n - 1);
      Box(n, i) == Spread(BoxOutput(n, i), Target(m), Target(m + 1), Target(m + 2), Target(m + 3))
  {
    hide Spread;
    hide Target;
    hide F.FourBits;
    TargetsAre();
    var v := F.S(n)[Row(i)][Column(i)];
    hide Row;
    hide Column;
    match n
    case 1 => Box1(i); Out1Is(v);
    case 2 => Box2(i); Out2Is(v);
    case 3 => Box3(i); Out3Is(v);
    case 4 => Box4(i); Out4Is(v);
    case 5 => Box5(i); Out5Is(v);
    case 6 => Box6(i); Out6Is(v);
    case 7 => Box7(i); Out7Is(v);
    case 8 => Box8(i); Out8Is(v);
  }
}
