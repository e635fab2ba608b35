/** DES as d3des.c has it: a key register that is filled for encryption or, with the round
    keys in reverse order, for decryption, and one block at a time. */
module Des {
  import opened DesTables

  /** The two halves of a block. */
  datatype Halves = Halves(left: bv32, right: bv32)

  // ---- Operations on words; steps that only combine them need not look inside ----

  function Xor(a: bv32, b: bv32): bv32 {
    a ^ b
  }

  function Or(a: bv32, b: bv32): bv32 {
    a | b
  }

  function And(a: bv32, b: bv32): bv32 {
    a & b
  }

  function ShiftLeft(a: bv32, k: nat): bv32
    requires k < 32
  {
    a << k
  }

  function ShiftRight(a: bv32, k: nat): bv32
    requires k < 32
  {
    a >> k
  }

  // ---- The steps around the rounds ----

  /** Bits of a and b under mask change places, those of a from shift positions further up. */
  function SwapBits(a: bv32, b: bv32, shift: nat, mask: bv32): (r: (bv32, bv32))
    requires shift < 32
  {
    var work := And(Xor(ShiftRight(a, shift), b), mask);
    (Xor(a, ShiftLeft(work, shift)), Xor(b, work))
  }

  /** The words on the way through a swap. */
  lemma Swapping(a: bv32, b: bv32, shift: nat, mask: bv32) returns (t: bv32, w: bv32, u: bv32, a': bv32, b': bv32)
    requires shift < 32
    ensures SwapBits(a, b, shift, mask) == (a', b')
    ensures t == ShiftRight(a, shift) && w == (t ^ b) & mask && u == ShiftLeft(w, shift) && a' == a ^ u && b' == b ^ w
  {
    t := ShiftRight(a, shift);
    var x := Xor(t, b);
    w := And(x, mask);
    u := ShiftLeft(w, shift);
    a', b' := Xor(a, u), Xor(b, w);
    XorIs(t, b);
    AndIs(x, mask);
    XorIs(a, u);
    XorIs(b, w);
    hide Xor;
    hide And;
    hide ShiftLeft;
    hide ShiftRight;
  }

  lemma XorIs(a: bv32, b: bv32)
    ensures Xor(a, b) == a ^ b
  {
  }

  lemma AndIs(a: bv32, b: bv32)
    ensures And(a, b) == a & b
  {
  }

  lemma Swap4(a: bv32, b: bv32)
    ensures var r := SwapBits(a, b, 4, 0x0f0f0f0f); SwapBits(r.0, r.1, 4, 0x0f0f0f0f) == (a, b)
  {
    var t, w, u, a', b' := Swapping(a, b, 4, 0x0f0f0f0f);
    var t', w', u', a'', b'' := Swapping(a', b', 4, 0x0f0f0f0f);
    By4(a);
    By4(w);
    By4(a');
    By4(w');
    hide SwapBits;
    hide ShiftLeft;
    hide ShiftRight;
    Twice4(a, b, t, w, u, a', b', t', w', u', a'', b'');
  }

  lemma By4(a: bv32)
    ensures ShiftRight(a, 4) == a >> 4 && ShiftLeft(a, 4) == a << 4
  {
  }

  lemma Twice4(a: bv32, b: bv32, t: bv32, w: bv32, u: bv32, a': bv32, b': bv32, t': bv32, w': bv32, u': bv32, a'': bv32, b'': bv32)
    requires t == a >> 4 && w == (t ^ b) & 0x0f0f0f0f && u == w << 4 && a' == a ^ u && b' == b ^ w
    requires t' == a' >> 4 && w' == (t' ^ b') & 0x0f0f0f0f && u' == w' << 4 && a'' == a' ^ u' && b'' == b' ^ w'
    ensures a'' == a && b'' == b
  {
  }

  lemma Swap16(a: bv32, b: bv32)
    ensures var r := SwapBits(a, b, 16, 0x0000ffff); SwapBits(r.0, r.1, 16, 0x0000ffff) == (a, b)
  {
    var t, w, u, a', b' := Swapping(a, b, 16, 0x0000ffff);
    var t', w', u', a'', b'' := Swapping(a', b', 16, 0x0000ffff);
    By16(a);
    By16(w);
    By16(a');
    By16(w');
    hide SwapBits;
    hide ShiftLeft;
    hide ShiftRight;
    Twice16(a, b, t, w, u, a', b', t', w', u', a'', b'');
  }

  lemma By16(a: bv32)
    ensures ShiftRight(a, 16) == a >> 16 && ShiftLeft(a, 16) == a << 16
  {
  }

  lemma Twice16(a: bv32, b: bv32, t: bv32, w: bv32, u: bv32, a': bv32, b': bv32, t': bv32, w': bv32, u': bv32, a'': bv32, b'': bv32)
    requires t == a >> 16 && w == (t ^ b) & 0x0000ffff && u == w << 16 && a' == a ^ u && b' == b ^ w
    requires t' == a' >> 16 && w' == (t' ^ b') & 0x0000ffff && u' == w' << 16 && a'' == a' ^ u' && b'' == b' ^ w'
    ensures a'' == a && b'' == b
  {
  }

  lemma Swap2(a: bv32, b: bv32)
    ensures var r := SwapBits(a, b, 2, 0x33333333); SwapBits(r.0, r.1, 2, 0x33333333) == (a, b)
  {
    var t, w, u, a', b' := Swapping(a, b, 2, 0x33333333);
    var t', w', u', a'', b'' := Swapping(a', b', 2, 0x33333333);
    By2(a);
    By2(w);
    By2(a');
    By2(w');
    hide SwapBits;
    hide ShiftLeft;
    hide ShiftRight;
    Twice2(a, b, t, w, u, a', b', t', w', u', a'', b'');
  }

  lemma By2(a: bv32)
    ensures ShiftRight(a, 2) == a >> 2 && ShiftLeft(a, 2) == a << 2
  {
  }

  lemma Twice2(a: bv32, b: bv32, t: bv32, w: bv32, u: bv32, a': bv32, b': bv32, t': bv32, w': bv32, u': bv32, a'': bv32, b'': bv32)
    requires t == a >> 2 && w == (t ^ b) & 0x33333333 && u == w << 2 && a' == a ^ u && b' == b ^ w
    requires t' == a' >> 2 && w' == (t' ^ b') & 0x33333333 && u' == w' << 2 && a'' == a' ^ u' && b'' == b' ^ w'
    ensures a'' == a && b'' == b
  {
  }

  lemma Swap8(a: bv32, b: bv32)
    ensures var r := SwapBits(a, b, 8, 0x00ff00ff); SwapBits(r.0, r.1, 8, 0x00ff00ff) == (a, b)
  {
    var t, w, u, a', b' := Swapping(a, b, 8, 0x00ff00ff);
    var t', w', u', a'', b'' := Swapping(a', b', 8, 0x00ff00ff);
    By8(a);
    By8(w);
    By8(a');
    By8(w');
    hide SwapBits;
    hide ShiftLeft;
    hide ShiftRight;
    Twice8(a, b, t, w, u, a', b', t', w', u', a'', b'');
  }

  lemma By8(a: bv32)
    ensures ShiftRight(a, 8) == a >> 8 && ShiftLeft(a, 8) == a << 8
  {
  }

  lemma Twice8(a: bv32, b: bv32, t: bv32, w: bv32, u: bv32, a': bv32, b': bv32, t': bv32, w': bv32, u': bv32, a'': bv32, b'': bv32)
    requires t == a >> 8 && w == (t ^ b) & 0x00ff00ff && u == w << 8 && a' == a ^ u && b' == b ^ w
    requires t' == a' >> 8 && w' == (t' ^ b') & 0x00ff00ff && u' == w' << 8 && a'' == a' ^ u' && b'' == b' ^ w'
    ensures a'' == a && b'' == b
  {
  }

  function RotateLeft(a: bv32): bv32 {
    (a << 1) | ((a >> 31) & 1)
  }

  function RotateRight(a: bv32): bv32 {
    (a << 31) | (a >> 1)
  }

  lemma RotateBack(a: bv32)
    ensures RotateLeft(RotateRight(a)) == a && RotateRight(RotateLeft(a)) == a
  {
  }

  /** Before the rounds. */
  function InitialSwaps(b: Halves): Halves {
    var (l1, r1) := SwapBits(b.left, b.right, 4, 0x0f0f0f0f);
    var (l2, r2) := SwapBits(l1, r1, 16, 0x0000ffff);
    var (r3, l3) := SwapBits(r2, l2, 2, 0x33333333);
    var (r4, l4) := SwapBits(r3, l3, 8, 0x00ff00ff);
    var (l5, r5) := SwapBits(l4, RotateLeft(r4), 0, 0xaaaaaaaa);
    Halves(RotateLeft(l5), r5)
  }

  /** After the rounds; the halves come out in the other order. */
  function FinalSwaps(b: Halves): Halves {
    var (l1, r1) := SwapBits(b.left, RotateRight(b.right), 0, 0xaaaaaaaa);
    var (l2, r2) := SwapBits(RotateRight(l1), r1, 8, 0x00ff00ff);
    var (l3, r3) := SwapBits(l2, r2, 2, 0x33333333);
    var (r4, l4) := SwapBits(r3, l3, 16, 0x0000ffff);
    var (r5, l5) := SwapBits(r4, l4, 4, 0x0f0f0f0f);
    Halves(r5, l5)
  }

  /** The steps before the rounds undo those after them, with the halves exchanged. */
  lemma SwapsCancel(b: Halves)
    ensures InitialSwaps(FinalSwaps(b)) == Halves(b.right, b.left)
  {
    hide SwapBits;
    hide RotateLeft;
    hide RotateRight;
    RotateBack(b.right);
    Swap0Either(b.left, RotateRight(b.right));
    var (l1, r1) := SwapBits(b.left, RotateRight(b.right), 0, 0xaaaaaaaa);
    RotateBack(l1);
    Swap8(RotateRight(l1), r1);
    var (l2, r2) := SwapBits(RotateRight(l1), r1, 8, 0x00ff00ff);
    Swap2(l2, r2);
    var (l3, r3) := SwapBits(l2, r2, 2, 0x33333333);
    Swap16(r3, l3);
    var (r4, l4) := SwapBits(r3, l3, 16, 0x0000ffff);
    Swap4(r4, l4);
  }

  /** The swap without a shift is the same from either side. */
  lemma Swap0Either(a: bv32, b: bv32)
    ensures var r := SwapBits(a, b, 0, 0xaaaaaaaa); SwapBits(r.1, r.0, 0, 0xaaaaaaaa) == (b, a)
  {
    var w := And(Xor(a, b), 0xaaaaaaaa);
    By0(a);
    By0(w);
    By0(Xor(b, w));
    XorBoth(a, b, w);
    XorTwice(a, w);
    XorTwice(b, w);
    hide Xor;
    hide And;
    hide ShiftLeft;
    hide ShiftRight;
  }

  lemma By0(a: bv32)
    ensures ShiftRight(a, 0) == a && ShiftLeft(a, 0) == a
  {
  }

  lemma XorBoth(a: bv32, b: bv32, w: bv32)
    ensures Xor(Xor(b, w), Xor(a, w)) == Xor(a, b)
  {
    var c, d := Xor(a, w), Xor(b, w);
    XorIs(a, w);
    XorIs(b, w);
    XorIs(d, c);
    XorIs(a, b);
    hide Xor;
    SameDifference(a, b, w, c, d);
  }

  lemma SameDifference(a: bv32, b: bv32, w: bv32, c: bv32, d: bv32)
    requires c == a ^ w && d == b ^ w
    ensures d ^ c == a ^ b
  {
  }

  // ---- The rounds ----

  /** The low six bits, an index into a box. */
  function Six(a: bv32): (i: nat)
    ensures i < 64
  {
    var m := a & 0x3f;
    assert m < 64;
    m as int
  }

  function Box(n: nat, i: nat): bv32
    requires 1 <= n <= 8 && i < 64
  {
    match n
    case 1 => SP1[i]
    case 2 => SP2[i]
    case 3 => SP3[i]
    case 4 => SP4[i]
    case 5 => SP5[i]
    case 6 => SP6[i]
    case 7 => SP7[i]
    case 8 => SP8[i]
  }

  /** Four boxes, looked up by six bits of each byte, the lowest first. */
  function Boxes(w: bv32, n0: nat, n1: nat, n2: nat, n3: nat): bv32
    requires 1 <= n0 <= 8 && 1 <= n1 <= 8 && 1 <= n2 <= 8 && 1 <= n3 <= 8
  {
    Or(Or(Or(Box(n0, Six(w)), Box(n1, Six(ShiftRight(w, 8)))), Box(n2, Six(ShiftRight(w, 16)))), Box(n3, Six(ShiftRight(w, 24))))
  }

  /** What one half and a pair of key words contribute to the other half. */
  function RoundValue(half: bv32, k0: bv32, k1: bv32): bv32 {
    var a := Xor(Or(ShiftLeft(half, 28), ShiftRight(half, 4)), k0);
    var b := Xor(half, k1);
    Or(Boxes(a, 7, 5, 3, 1), Boxes(b, 8, 6, 4, 2))
  }

  /** One round: odd ones change the left half, even ones the right half. */
  function Round(h: Halves, odd: bool, k0: bv32, k1: bv32): Halves {
    if odd then Halves(Xor(h.left, RoundValue(h.right, k0, k1)), h.right)
    else Halves(h.left, Xor(h.right, RoundValue(h.left, k0, k1)))
  }

  /** k rounds with the key words from the front. */
  function Rounds(b: Halves, keys: seq<bv32>, k: nat): Halves
    requires 2 * k <= |keys|
    decreases k
  {
    if k == 0 then b
    else Round(Rounds(b, keys, k - 1), k % 2 == 1, keys[2 * k - 2], keys[2 * k - 1])
  }

  function Exchanged(b: Halves): Halves {
    Halves(b.right, b.left)
  }

  function DesFunction(b: Halves, keys: seq<bv32>): Halves
    requires |keys| == 32
  {
    FinalSwaps(Rounds(InitialSwaps(b), keys, 16))
  }

  /** The words of the sixteen rounds in reverse order of the rounds. */
  ghost predicate Opposite(keys: seq<bv32>, yeks: seq<bv32>) {
    && |keys| == 32 && |yeks| == 32
    && forall i :: 0 <= i < 16 ==> yeks[2 * i] == keys[2 * (15 - i)] && yeks[2 * i + 1] == keys[2 * (15 - i) + 1]
  }

  lemma XorTwice(a: bv32, b: bv32)
    ensures Xor(Xor(a, b), b) == a
  {
  }

  lemma RoundCancels(h: Halves, odd: bool, k0: bv32, k1: bv32)
    ensures Round(Exchanged(Round(h, odd, k0, k1)), !odd, k0, k1) == Exchanged(h)
  {
    hide RoundValue;
    hide Xor;
    XorTwice(h.left, RoundValue(h.right, k0, k1));
    XorTwice(h.right, RoundValue(h.left, k0, k1));
  }

  /** k rounds with the reversed words take back the last k rounds. */
  lemma {:induction false} RoundsCancel(b: Halves, keys: seq<bv32>, yeks: seq<bv32>, k: nat)
    requires Opposite(keys, yeks) && k <= 16
    ensures Rounds(Exchanged(Rounds(b, keys, 16)), yeks, k) == Exchanged(Rounds(b, keys, 16 - k))
    decreases k
  {
    hide Round;
    if k > 0 {
      RoundsCancel(b, keys, yeks, k - 1);
      var j := 16 - k;
      assert yeks[2 * (k - 1)] == keys[2 * j] && yeks[2 * (k - 1) + 1] == keys[2 * j + 1];
      var h := Rounds(b, keys, j);
      assert Rounds(b, keys, j + 1) == Round(h, (j + 1) % 2 == 1, keys[2 * j], keys[2 * j + 1]);
      RoundCancels(h, (j + 1) % 2 == 1, keys[2 * j], keys[2 * j + 1]);
    }
  }

  /** What one order of the round keys does, the other undoes. */
  lemma DesCancels(b: Halves, keys: seq<bv32>, yeks: seq<bv32>)
    requires Opposite(keys, yeks)
    ensures DesFunction(DesFunction(b, keys), yeks) == b
  {
    hide Rounds;
    hide InitialSwaps;
    hide FinalSwaps;
    var start := InitialSwaps(b);
    var end := Rounds(start, keys, 16);
    SwapsCancel(end);
    RoundsCancel(start, keys, yeks, 16);
    RoundsNone(start, keys);
    FinalUndoes(b);
  }

  lemma RoundsNone(b: Halves, keys: seq<bv32>)
    ensures Rounds(b, keys, 0) == b
  {
  }

  /** The steps after the rounds undo those before them, with the halves exchanged. */
  lemma FinalUndoes(b: Halves)
    ensures FinalSwaps(Exchanged(InitialSwaps(b))) == b
  {
    hide SwapBits;
    hide RotateLeft;
    hide RotateRight;
    Swap4(b.left, b.right);
    var (l1, r1) := SwapBits(b.left, b.right, 4, 0x0f0f0f0f);
    Swap16(l1, r1);
    var (l2, r2) := SwapBits(l1, r1, 16, 0x0000ffff);
    Swap2(r2, l2);
    var (r3, l3) := SwapBits(r2, l2, 2, 0x33333333);
    Swap8(r3, l3);
    var (r4, l4) := SwapBits(r3, l3, 8, 0x00ff00ff);
    RotateBack(r4);
    Swap0Either(l4, RotateLeft(r4));
    var (l5, r5) := SwapBits(l4, RotateLeft(r4), 0, 0xaaaaaaaa);
    RotateBack(l5);
  }

  // ---- Bytes of a block ----

  function Word(a: bv8, b: bv8, c: bv8, d: bv8): bv32 {
    ((a as bv32) << 24) | ((b as bv32) << 16) | ((c as bv32) << 8) | (d as bv32)
  }

  /** The byte that lies shift bits up. */
  function ByteAt(w: bv32, shift: nat): bv8
    requires shift <= 24
  {
    var m := (w >> shift) & 0xff;
    assert m <= 0xff;
    m as bv8
  }

  lemma WordBytes(a: bv8, b: bv8, c: bv8, d: bv8)
    ensures var w := Word(a, b, c, d);
      ByteAt(w, 24) == a && ByteAt(w, 16) == b && ByteAt(w, 8) == c && ByteAt(w, 0) == d
  {
  }

  lemma BytesWord(w: bv32)
    ensures Word(ByteAt(w, 24), ByteAt(w, 16), ByteAt(w, 8), ByteAt(w, 0)) == w
  {
    Byte24(w);
    Byte16(w);
    Byte8(w);
    Byte0(w);
    hide ByteAt;
    FourParts(w);
  }

  lemma Byte24(w: bv32)
    ensures ByteAt(w, 24) as bv32 == (w >> 24) & 0xff
  {
  }

  lemma Byte16(w: bv32)
    ensures ByteAt(w, 16) as bv32 == (w >> 16) & 0xff
  {
  }

  lemma Byte8(w: bv32)
    ensures ByteAt(w, 8) as bv32 == (w >> 8) & 0xff
  {
  }

  lemma Byte0(w: bv32)
    ensures ByteAt(w, 0) as bv32 == w & 0xff
  {
  }

  lemma FourParts(w: bv32)
    ensures (((w >> 24) & 0xff) << 24) | (((w >> 16) & 0xff) << 16) | (((w >> 8) & 0xff) << 8) | (w & 0xff) == w
  {
  }

  /** scrunch. */
  function Scrunched(s: seq<bv8>): Halves
    requires |s| == 8
  {
    Halves(Word(s[0], s[1], s[2], s[3]), Word(s[4], s[5], s[6], s[7]))
  }

  /** unscrun. */
  function Unscrunched(b: Halves): (s: seq<bv8>)
    ensures |s| == 8
  {
    [ByteAt(b.left, 24), ByteAt(b.left, 16), ByteAt(b.left, 8), ByteAt(b.left, 0),
     ByteAt(b.right, 24), ByteAt(b.right, 16), ByteAt(b.right, 8), ByteAt(b.right, 0)]
  }

  lemma ScrunchRoundTrip(s: seq<bv8>, b: Halves)
    requires |s| == 8
    ensures Unscrunched(Scrunched(s)) == s && Scrunched(Unscrunched(b)) == b
  {
    hide Word;
    hide ByteAt;
    WordBytes(s[0], s[1], s[2], s[3]);
    WordBytes(s[4], s[5], s[6], s[7]);
    BytesWord(b.left);
    BytesWord(b.right);
  }

  /** One block of eight bytes under the words of a key register. */
  function DesBytes(s: seq<bv8>, keys: seq<bv32>): (r: seq<bv8>)
    requires |s| == 8 && |keys| == 32
    ensures |r| == 8
  {
    Unscrunched(DesFunction(Scrunched(s), keys))
  }

  lemma DesBytesCancels(s: seq<bv8>, keys: seq<bv32>, yeks: seq<bv32>)
    requires |s| == 8 && Opposite(keys, yeks)
    ensures DesBytes(DesBytes(s, keys), yeks) == s
  {
    hide Scrunched;
    hide Unscrunched;
    hide DesFunction;
    ScrunchRoundTrip(s, DesFunction(Scrunched(s), keys));
    DesCancels(Scrunched(s), keys, yeks);
  }

  // ---- The key schedule ----

  /** The 56 bits of the key in the order of the standard. */
  function KeyBits(key: seq<bv8>): (r: seq<bool>)
    requires |key| == 8
    ensures |r| == 56
  {
    seq(56, j requires 0 <= j < 56 => key[PC1[j] / 8] & BYTEBIT[PC1[j] % 8] != 0)
  }

  /** Both halves of 28 bits rotated for round i. */
  function Rotated(c: seq<bool>, i: nat): (r: seq<bool>)
    requires |c| == 56 && i < 16
    ensures |r| == 56
  {
    seq(56, j requires 0 <= j < 56 => c[RotatedFrom(j, i)])
  }

  function RotatedFrom(j: nat, i: nat): (l: nat)
    requires j < 56 && i < 16
    ensures l < 56
  {
    var l := j + TOTROT[i];
    if l < (if j < 28 then 28 else 56) then l else l - 28
  }

  function Pc2(j: nat): (p: nat)
    requires j < 48
    ensures p < 56
  {
    PC2[j]
  }

  function BigByte(j: nat): bv32
    requires j < 24
  {
    BIGBYTE[j]
  }

  /** 24 selected bits as a word; the first k of them are in. */
  function KeyWord(pcr: seq<bool>, offset: nat, k: nat): bv32
    requires |pcr| == 56 && k <= 24 && offset + k <= 48
    decreases k
  {
    if k == 0 then 0
    else if pcr[Pc2(offset + k - 1)] then Or(KeyWord(pcr, offset, k - 1), BigByte(k - 1))
    else KeyWord(pcr, offset, k - 1)
  }

  function RawWord(key: seq<bv8>, i: nat, second: bool): bv32
    requires |key| == 8 && i < 16
  {
    KeyWord(Rotated(KeyBits(key), i), if second then 24 else 0, 24)
  }

  /** The bits of two raw words where the rounds look for them. */
  function Cooked(raw0: bv32, raw1: bv32, second: bool): bv32 {
    if second then
      ((raw0 & 0x0003f000) << 12) | ((raw0 & 0x0000003f) << 16) | ((raw1 & 0x0003f000) >> 4) | (raw1 & 0x0000003f)
    else
      ((raw0 & 0x00fc0000) << 6) | ((raw0 & 0x00000fc0) << 10) | ((raw1 & 0x00fc0000) >> 10) | ((raw1 & 0x00000fc0) >> 6)
  }

  /** A word of the key register after deskey for encryption. */
  function ScheduleWord(key: seq<bv8>, i: nat, second: bool): bv32
    requires |key| == 8 && i < 16
  {
    Cooked(RawWord(key, i, false), RawWord(key, i, true), second)
  }

  ghost predicate IsSchedule(keys: seq<bv32>, key: seq<bv8>, decrypt: bool) {
    && |keys| == 32 && |key| == 8
    && forall i :: 0 <= i < 16 ==>
         && keys[2 * (if decrypt then 15 - i else i)] == ScheduleWord(key, i, false)
         && keys[2 * (if decrypt then 15 - i else i) + 1] == ScheduleWord(key, i, true)
  }

  /** A bit below the top of a byte does not depend on the top. */
  lemma LowBits(a: bv8, b: bv8, t: nat)
    requires a & 0x7f == b & 0x7f && t < 7
    ensures a & BYTEBIT[t] == b & BYTEBIT[t]
  {
    assert a & 1 == b & 1 && a & 2 == b & 2 && a & 4 == b & 4 && a & 8 == b & 8;
    assert a & 16 == b & 16 && a & 32 == b & 32 && a & 64 == b & 64;
  }

  lemma KeyBitAgrees(a: seq<bv8>, b: seq<bv8>, j: nat)
    requires |a| == 8 && |b| == 8 && j < 56 && forall k :: 0 <= k < 8 ==> a[k] & 0x7f == b[k] & 0x7f
    ensures KeyBits(a)[j] == KeyBits(b)[j]
  {
    var p := PC1[j];
    assert p % 8 < 7;
    LowBits(a[p / 8], b[p / 8], p % 8);
  }

  lemma KeyBitsAgree(a: seq<bv8>, b: seq<bv8>)
    requires |a| == 8 && |b| == 8 && forall k :: 0 <= k < 8 ==> a[k] & 0x7f == b[k] & 0x7f
    ensures KeyBits(a) == KeyBits(b)
  {
    hide KeyBits;
    forall j | 0 <= j < 56
      ensures KeyBits(a)[j] == KeyBits(b)[j]
    {
      KeyBitAgrees(a, b, j);
    }
  }

  /** The top bit of each byte of a key is ignored. */
  lemma TopBitsIgnored(a: seq<bv8>, b: seq<bv8>, keys: seq<bv32>, decrypt: bool)
    requires |a| == 8 && |b| == 8 && forall k :: 0 <= k < 8 ==> a[k] & 0x7f == b[k] & 0x7f
    ensures IsSchedule(keys, a, decrypt) <==> IsSchedule(keys, b, decrypt)
  {
    hide KeyBits;
    hide Rotated;
    hide KeyWord;
    hide Cooked;
    KeyBitsAgree(a, b);
    forall i: nat, second | i < 16
      ensures ScheduleWord(a, i, second) == ScheduleWord(b, i, second)
    {
      assert RawWord(a, i, false) == RawWord(b, i, false) && RawWord(a, i, true) == RawWord(b, i, true);
    }
    hide ScheduleWord;
  }

  lemma SchedulesOpposite(keys: seq<bv32>, yeks: seq<bv32>, key: seq<bv8>)
    requires IsSchedule(keys, key, false) && IsSchedule(yeks, key, true)
    ensures Opposite(keys, yeks) && Opposite(yeks, keys)
  {
    hide ScheduleWord;
    forall i | 0 <= i < 16
      ensures yeks[2 * i] == keys[2 * (15 - i)] && yeks[2 * i + 1] == keys[2 * (15 - i) + 1]
      ensures keys[2 * i] == yeks[2 * (15 - i)] && keys[2 * i + 1] == yeks[2 * (15 - i) + 1]
    {
      var j := 15 - i;
      assert yeks[2 * (15 - j)] == ScheduleWord(key, j, false) == keys[2 * j];
      assert yeks[2 * (15 - j) + 1] == ScheduleWord(key, j, true) == keys[2 * j + 1];
      assert yeks[2 * (15 - i)] == ScheduleWord(key, i, false) == keys[2 * i];
      assert yeks[2 * (15 - i) + 1] == ScheduleWord(key, i, true) == keys[2 * i + 1];
    }
  }
}
