/** The functions of d3des.c step by step: the key register KnL that deskey fills, and des,
    which may read and write the same block. */
module KeyRegister {
  import opened Des
  import opened DesTables

  datatype Mode = EN0 | DE1

  class KeyRegister {
    const knl: array<bv32>  // KnL

    ghost predicate Valid() {
      knl.Length == 32
    }

    /** The register holds the schedule of a key. */
    ghost predicate Holds(key: seq<bv8>, edf: Mode)
      reads knl
    {
      Valid() && IsSchedule(knl[..], key, edf.DE1?)
    }

    constructor ()
      ensures Valid() && fresh(knl)
    {
      knl := new bv32[32](_ => 0);
    }

    /** The first loop of deskey. */
    method SelectBits(key: seq<bv8>) returns (pc1m: array<bool>)
      requires |key| == 8
      ensures fresh(pc1m) && pc1m[..] == KeyBits(key)
    {
      pc1m := new bool[56](_ => false);
      var j := 0;
      while j < 56
        invariant 0 <= j <= 56 && pc1m.Length == 56
        invariant forall k :: 0 <= k < j ==> pc1m[k] == KeyBits(key)[k]
      {
        var l: KeyBit := PC1[j];
        var m := l % 8;
        pc1m[j] := key[l / 8] & BYTEBIT[m] != 0;
        j := j + 1;
      }
    }

    /** The two loops of deskey that rotate the halves. */
    method Rotate(pc1m: array<bool>, pcr: array<bool>, i: nat)
      requires pc1m.Length == 56 && pcr.Length == 56 && pc1m != pcr && i < 16
      modifies pcr
      ensures pcr[..] == Rotated(pc1m[..], i)
    {
      var j := 0;
      while j < 28
        invariant 0 <= j <= 28
        invariant forall k :: 0 <= k < j ==> pcr[k] == pc1m[RotatedFrom(k, i)]
      {
        var l: int := j + TOTROT[i] as int;
        if l < 28 {
          pcr[j] := pc1m[l];
        } else {
          pcr[j] := pc1m[l - 28];
        }
        j := j + 1;
      }
      j := 28;
      while j < 56
        invariant 28 <= j <= 56
        invariant forall k :: 0 <= k < j ==> pcr[k] == pc1m[RotatedFrom(k, i)]
      {
        var l: int := j + TOTROT[i] as int;
        if l < 56 {
          pcr[j] := pc1m[l];
        } else {
          pcr[j] := pc1m[l - 28];
        }
        j := j + 1;
      }
      assert forall k :: 0 <= k < 56 ==> pcr[..][k] == Rotated(pc1m[..], i)[k];
    }

    /** The loop of deskey that collects the two raw words of a round. */
    method Collect(pcr: array<bool>, kn: array<bv32>, m: nat)
      requires pcr.Length == 56 && kn.Length == 32 && m + 1 < 32
      modifies kn
      ensures kn[m] == KeyWord(pcr[..], 0, 24) && kn[m + 1] == KeyWord(pcr[..], 24, 24)
      ensures forall k :: 0 <= k < 32 && k != m && k != m + 1 ==> kn[k] == old(kn[k])
    {
      hide Or;
      hide Pc2;
      hide BigByte;
      kn[m] := 0;
      kn[m + 1] := 0;
      var j := 0;
      while j < 24
        invariant 0 <= j <= 24
        invariant kn[m] == KeyWord(pcr[..], 0, j) && kn[m + 1] == KeyWord(pcr[..], 24, j)
        invariant forall k :: 0 <= k < 32 && k != m && k != m + 1 ==> kn[k] == old(kn[k])
      {
        if pcr[Pc2(j)] { kn[m] := Or(kn[m], BigByte(j)); }
        if pcr[Pc2(j + 24)] { kn[m + 1] := Or(kn[m + 1], BigByte(j)); }
        j := j + 1;
      }
    }

    /** Where deskey puts the words of round i. */
    function Slot(i: nat, edf: Mode): (m: nat)
      requires i < 16
      ensures m + 1 < 32
    {
      if edf.DE1? then 2 * (15 - i) else 2 * i
    }

    /** deskey. */
    method Deskey(key: seq<bv8>, edf: Mode)
      requires Valid() && |key| == 8
      modifies knl
      ensures Holds(key, edf)
    {
      hide KeyWord;
      hide KeyBits;
      hide Rotated;
      var pc1m := SelectBits(key);
      var pcr := new bool[56](_ => false);
      var kn := new bv32[32](_ => 0);
      var i := 0;
      while i < 16
        invariant 0 <= i <= 16 && pc1m[..] == KeyBits(key) && kn.Length == 32
        invariant forall k :: 0 <= k < i ==>
          kn[Slot(k, edf)] == RawWord(key, k, false) && kn[Slot(k, edf) + 1] == RawWord(key, k, true)
      {
        var m := if edf.DE1? then (15 - i) * 2 else i * 2;
        Rotate(pc1m, pcr, i);
        Collect(pcr, kn, m);
        i := i + 1;
      }
      Cookey(kn, key, edf);
    }

    /** cookey, and usekey that loads the register. */
    method Cookey(kn: array<bv32>, ghost key: seq<bv8>, ghost edf: Mode)
      requires Valid() && |key| == 8 && kn.Length == 32 && kn != knl
      requires forall k :: 0 <= k < 16 ==>
        kn[Slot(k, edf)] == RawWord(key, k, false) && kn[Slot(k, edf) + 1] == RawWord(key, k, true)
      modifies knl
      ensures Holds(key, edf)
    {
      hide RawWord;
      hide Cooked;
      hide IsSchedule;
      var dough := new bv32[32](_ => 0);
      var i := 0;
      while i < 16
        invariant 0 <= i <= 16 && dough.Length == 32
        invariant forall k :: 0 <= k < i ==>
          dough[2 * k] == Cooked(kn[2 * k], kn[2 * k + 1], false) && dough[2 * k + 1] == Cooked(kn[2 * k], kn[2 * k + 1], true)
      {
        dough[2 * i] := Cooked(kn[2 * i], kn[2 * i + 1], false);
        dough[2 * i + 1] := Cooked(kn[2 * i], kn[2 * i + 1], true);
        i := i + 1;
      }
      Usekey(dough);
      CookedSchedule(kn[..], dough[..], key, edf);
    }

    lemma CookedSchedule(kn: seq<bv32>, dough: seq<bv32>, key: seq<bv8>, edf: Mode)
      requires |kn| == 32 && |dough| == 32 && |key| == 8
      requires forall k :: 0 <= k < 16 ==>
        kn[Slot(k, edf)] == RawWord(key, k, false) && kn[Slot(k, edf) + 1] == RawWord(key, k, true)
      requires forall k :: 0 <= k < 16 ==>
        dough[2 * k] == Cooked(kn[2 * k], kn[2 * k + 1], false) && dough[2 * k + 1] == Cooked(kn[2 * k], kn[2 * k + 1], true)
      ensures IsSchedule(dough, key, edf.DE1?)
    {
      hide RawWord;
      hide Cooked;
      forall k | 0 <= k < 16
        ensures dough[Slot(k, edf)] == ScheduleWord(key, k, false) && dough[Slot(k, edf) + 1] == ScheduleWord(key, k, true)
      {
        var j := if edf.DE1? then 15 - k else k;
        assert dough[2 * j] == Cooked(kn[2 * j], kn[2 * j + 1], false) && dough[2 * j + 1] == Cooked(kn[2 * j], kn[2 * j + 1], true);
      }
    }

    method Usekey(from: array<bv32>)
      requires Valid() && from.Length == 32 && from != knl
      modifies knl
      ensures knl[..] == from[..]
    {
      var i := 0;
      while i < 32
        invariant 0 <= i <= 32 && forall k :: 0 <= k < i ==> knl[k] == from[k]
      {
        knl[i] := from[i];
        i := i + 1;
      }
    }

    // ---- One block ----

    /** The statements that stand in desfunc once for each round. */
    method Fval(half: bv32, k0: bv32, k1: bv32) returns (fval: bv32)
      ensures fval == RoundValue(half, k0, k1)
    {
      hide Box;
      hide Six;
      hide Xor;
      hide Or;
      hide ShiftLeft;
      hide ShiftRight;
      var work := Or(ShiftLeft(half, 28), ShiftRight(half, 4));
      work := Xor(work, k0);
      fval := Box(7, Six(work));
      fval := Or(fval, Box(5, Six(ShiftRight(work, 8))));
      fval := Or(fval, Box(3, Six(ShiftRight(work, 16))));
      fval := Or(fval, Box(1, Six(ShiftRight(work, 24))));
      ghost var odd := fval;
      work := Xor(half, k1);
      fval := Or(fval, Box(8, Six(work)));
      fval := Or(fval, Box(6, Six(ShiftRight(work, 8))));
      fval := Or(fval, Box(4, Six(ShiftRight(work, 16))));
      fval := Or(fval, Box(2, Six(ShiftRight(work, 24))));
      OrFour(odd, Box(8, Six(work)), Box(6, Six(ShiftRight(work, 8))), Box(4, Six(ShiftRight(work, 16))),
             Box(2, Six(ShiftRight(work, 24))));
    }

    lemma OrFour(v: bv32, a: bv32, b: bv32, c: bv32, d: bv32)
      ensures Or(Or(Or(Or(v, a), b), c), d) == Or(v, Or(Or(Or(a, b), c), d))
    {
    }

    /** desfunc up to the rounds: the exchanges of bits, three statements each. */
    method Before(left0: bv32, right0: bv32) returns (leftt: bv32, right: bv32)
      ensures Halves(leftt, right) == InitialSwaps(Halves(left0, right0))
    {
      hide SwapBits;
      hide RotateLeft;
      var w := SwapBits(left0, right0, 4, 0x0f0f0f0f);
      w := SwapBits(w.0, w.1, 16, 0x0000ffff);
      w := SwapBits(w.1, w.0, 2, 0x33333333);
      w := SwapBits(w.0, w.1, 8, 0x00ff00ff);
      right := RotateLeft(w.0);
      w := SwapBits(w.1, right, 0, 0xaaaaaaaa);
      right := w.1;
      leftt := RotateLeft(w.0);
    }

    /** desfunc after the rounds; the result is what goes into the block. */
    method After(left0: bv32, right0: bv32) returns (first: bv32, second: bv32)
      ensures Halves(first, second) == FinalSwaps(Halves(left0, right0))
    {
      hide SwapBits;
      hide RotateRight;
      var right := RotateRight(right0);
      var w := SwapBits(left0, right, 0, 0xaaaaaaaa);
      var leftt := RotateRight(w.0);
      w := SwapBits(leftt, w.1, 8, 0x00ff00ff);
      w := SwapBits(w.0, w.1, 2, 0x33333333);
      w := SwapBits(w.1, w.0, 16, 0x0000ffff);
      w := SwapBits(w.0, w.1, 4, 0x0f0f0f0f);
      first, second := w.0, w.1;
    }

    /** desfunc. */
    method Desfunc(left0: bv32, right0: bv32) returns (first: bv32, second: bv32)
      requires Valid()
      ensures Halves(first, second) == DesFunction(Halves(left0, right0), knl[..])
    {
      hide InitialSwaps;
      hide FinalSwaps;
      hide RoundValue;
      var leftt, right := Before(left0, right0);
      ghost var start := InitialSwaps(Halves(left0, right0));
      RoundsNone(start, knl[..]);
      var round := 0;
      while round < 8
        invariant 0 <= round <= 8 && Halves(leftt, right) == Rounds(start, knl[..], 2 * round)
      {
        TwoRounds(start, knl[..], round);
        var fval := Fval(right, knl[4 * round], knl[4 * round + 1]);
        leftt := Xor(leftt, fval);
        fval := Fval(leftt, knl[4 * round + 2], knl[4 * round + 3]);
        right := Xor(right, fval);
        round := round + 1;
      }
      first, second := After(leftt, right);
    }

    lemma TwoRounds(b: Halves, keys: seq<bv32>, round: nat)
      requires |keys| == 32 && round < 8
      ensures Rounds(b, keys, 2 * round + 2)
        == Des.Round(Des.Round(Rounds(b, keys, 2 * round), true, keys[4 * round], keys[4 * round + 1]), false,
                     keys[4 * round + 2], keys[4 * round + 3])
    {
      hide Des.Round;
      assert Rounds(b, keys, 2 * round + 1) == Des.Round(Rounds(b, keys, 2 * round), true, keys[4 * round], keys[4 * round + 1]);
    }

    /** des: one block, at position p of the input, goes to position q of the output, which
        may be the same. */
    method DesBlock(inblock: array<bv8>, p: nat, outblock: array<bv8>, q: nat)
      requires Valid() && p + 8 <= inblock.Length && q + 8 <= outblock.Length
      modifies outblock
      ensures outblock[q..q + 8] == DesBytes(old(inblock[p..p + 8]), old(knl[..]))
      ensures forall k :: 0 <= k < outblock.Length && !(q <= k < q + 8) ==> outblock[k] == old(outblock[k])
      ensures knl[..] == old(knl[..])
    {
      hide DesFunction;
      hide Scrunched;
      hide Unscrunched;
      var left, right := Scrunch(inblock, p);
      var first, second := Desfunc(left, right);
      Unscrun(first, second, outblock, q);
    }

    static method Scrunch(outof: array<bv8>, p: nat) returns (left: bv32, right: bv32)
      requires p + 8 <= outof.Length
      ensures Halves(left, right) == Scrunched(outof[p..p + 8])
    {
      hide Word;
      left := Word(outof[p], outof[p + 1], outof[p + 2], outof[p + 3]);
      right := Word(outof[p + 4], outof[p + 5], outof[p + 6], outof[p + 7]);
    }

    static method Unscrun(first: bv32, second: bv32, into: array<bv8>, q: nat)
      requires q + 8 <= into.Length
      modifies into
      ensures into[q..q + 8] == Unscrunched(Halves(first, second))
      ensures forall k :: 0 <= k < into.Length && !(q <= k < q + 8) ==> into[k] == old(into[k])
    {
      hide ByteAt;
      into[q], into[q + 1], into[q + 2], into[q + 3] := ByteAt(first, 24), ByteAt(first, 16), ByteAt(first, 8), ByteAt(first, 0);
      into[q + 4], into[q + 5], into[q + 6], into[q + 7] :=
        ByteAt(second, 24), ByteAt(second, 16), ByteAt(second, 8), ByteAt(second, 0);
      assert into[q..q + 8] ==
        [into[q], into[q + 1], into[q + 2], into[q + 3], into[q + 4], into[q + 5], into[q + 6], into[q + 7]];
    }
  }
}
