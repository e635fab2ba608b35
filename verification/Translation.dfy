/** The lookup tables that translate true-colour pixels: one table over whole pixels, or
    three over the red, green and blue fields. Both come to the same. */
module Translation {
  import opened Basics
  import opened Bytes
  import B = Bits
  import PF = PixelFields

  /** A field of a pixel: its shift and its greatest value. */
  datatype Channel = Channel(shift: nat, max: int)

  datatype PixelFormat = PixelFormat(bits: nat, red: Channel, green: Channel, blue: Channel, bigEndian: bool)

  predicate IsChannel(c: Channel) {
    1 <= c.max < 0x1_0000 && c.shift < 32
  }

  predicate IsFormat(f: PixelFormat) {
    IsChannel(f.red) && IsChannel(f.green) && IsChannel(f.blue) && (f.bits == 8 || f.bits == 16 || f.bits == 32)
  }

  /** (pix >> shift) & max. */
  function Field(pix: int, c: Channel): (v: int)
    requires IsChannel(c)
    ensures 0 <= v <= c.max
  {
    BitAnd(pix / Pow2(c.shift), c.max)
  }

  // ---- Scaling a component ----

  function Scaled(v: int, inMax: int, outMax: int): int
    requires inMax >= 1
  {
    (v * outMax + inMax / 2) / inMax
  }

  /** A scaled component stays within the greatest value of its field. */
  lemma ScaledInRange(v: int, inMax: int, outMax: int)
    requires 0 <= v <= inMax && 1 <= inMax && 0 <= outMax
    ensures 0 <= Scaled(v, inMax, outMax) <= outMax
  {
    MulMonotone(v, inMax, outMax);
    MulMonotone(0, v, outMax);
    var s := Scaled(v, inMax, outMax);
    var r := (v * outMax + inMax / 2) % inMax;
    assert s * inMax + r == v * outMax + inMax / 2;
    assert s * inMax < (outMax + 1) * inMax;
    if s > outMax {
      MulMonotone(outMax + 1, s, inMax);
    }
    if s < 0 {
      MulMonotone(s, -1, inMax);
    }
  }

  /** Rounding to the nearest: the product with inMax is within half of inMax. */
  lemma ScaledNear(v: int, inMax: int, outMax: int)
    requires inMax >= 1
    ensures var d := Scaled(v, inMax, outMax) * inMax - v * outMax;
      inMax / 2 - inMax < d <= inMax / 2
  {
    var n := v * outMax + inMax / 2;
    assert n == (n / inMax) * inMax + n % inMax;
  }

  /** Up to a greater range and back. */
  lemma ScaleUpAndBack(v: int, inMax: int, outMax: int)
    requires 0 <= v <= inMax && 1 <= inMax <= outMax
    ensures Scaled(Scaled(v, inMax, outMax), outMax, inMax) == v
  {
    var s := Scaled(v, inMax, outMax);
    ScaledNear(v, inMax, outMax);
    if inMax == outMax {
      QuotientUnique(v * inMax + inMax / 2, inMax, v, inMax / 2);
    }
    var r := s * inMax + outMax / 2 - v * outMax;
    assert 0 <= r < outMax;
    QuotientUnique(s * inMax + outMax / 2, outMax, v, r);
  }

  /** s is the value of the output nearest to v of the input. */
  ghost predicate Nearest(v: int, inMax: int, outMax: int, s: int) {
    0 <= s <= outMax && forall t :: 0 <= t <= outMax ==> Distance(v, inMax, outMax, s) <= Distance(v, inMax, outMax, t)
  }

  /** How far v / inMax and s / outMax are apart, times inMax and outMax. */
  function Distance(v: int, inMax: int, outMax: int, s: int): int {
    var d := s * inMax - v * outMax;
    if d < 0 then -d else d
  }

  lemma ScaledIsNearest(v: int, inMax: int, outMax: int)
    requires 0 <= v <= inMax && 1 <= inMax && 0 <= outMax
    ensures Nearest(v, inMax, outMax, Scaled(v, inMax, outMax))
  {
    var s := Scaled(v, inMax, outMax);
    ScaledInRange(v, inMax, outMax);
    ScaledNear(v, inMax, outMax);
    forall t | 0 <= t <= outMax
      ensures Distance(v, inMax, outMax, s) <= Distance(v, inMax, outMax, t)
    {
      if t > s {
        MulMonotone(s + 1, t, inMax);
        OneMore(s, inMax);
      } else if t < s {
        MulMonotone(t, s - 1, inMax);
        OneMore(s - 1, inMax);
      }
    }
  }

  // ---- Words of the output ----

  /** A value cut to the width of an output pixel. */
  function Cut(w: nat, bits: nat): nat {
    w % Pow2(bits)
  }

  function Swap16(w: nat): nat {
    256 * (w % 256) + w / 256 % 256
  }

  function Swap32(w: nat): nat {
    0x100_0000 * (w % 256) + 0x1_0000 * (w / 256 % 256) + 256 * (w / 0x1_0000 % 256) + w / 0x100_0000 % 256
  }

  /** Pixels of one byte are never swapped. */
  function Swap(w: nat, bits: nat): nat {
    if bits == 16 then Swap16(w) else if bits == 32 then Swap32(w) else w
  }

  function Shifted(v: int, c: Channel): nat
    requires IsChannel(c) && 0 <= v <= c.max
  {
    MulMonotone(0, v, Pow2(c.shift));
    v * Pow2(c.shift)
  }

  function Or3(a: nat, b: nat, c: nat): nat {
    BitOr(BitOr(a, b), c)
  }

  // ---- Or ----

  function BitOr(a: nat, b: nat): nat
    decreases a + b
  {
    if a == 0 && b == 0 then 0 else 2 * BitOr(a / 2, b / 2) + if a % 2 == 1 || b % 2 == 1 then 1 else 0
  }

  /** What is above and below bit k. */
  function High(a: nat, k: nat): (q: nat) {
    NotNegative(a, Pow2(k));
    a / Pow2(k)
  }

  function Low(a: nat, k: nat): (r: nat)
    ensures r < Pow2(k)
  {
    a % Pow2(k)
  }

  lemma NotNegative(a: nat, p: nat)
    requires p >= 1
    ensures a / p >= 0
  {
    if a / p < 0 {
      MulMonotone(a / p, -1, p);
    }
  }

  lemma HighHalf(a: nat, k: nat)
    requires k > 0
    ensures High(a, k) == High(a / 2, k - 1)
  {
    B.DivideTwice(a, 2, Pow2(k - 1));
  }

  lemma LowHalf(a: nat, k: nat)
    requires k > 0
    ensures Low(a, k) / 2 == Low(a / 2, k - 1) && Low(a, k) % 2 == a % 2
  {
    B.HalfOfRemainder(a, k);
  }

  lemma NoSplit(a: nat)
    ensures High(a, 0) == a && Low(a, 0) == 0 && BitOr(0, 0) == 0
  {
  }

  lemma {:induction false} OrSplit(a: nat, b: nat, k: nat)
    ensures High(BitOr(a, b), k) == BitOr(High(a, k), High(b, k)) && Low(BitOr(a, b), k) == BitOr(Low(a, k), Low(b, k))
    decreases k
  {
    hide BitOr;
    hide High;
    hide Low;
    hide Pow2;
    var c := BitOr(a, b);
    if k == 0 {
      NoSplit(a);
      NoSplit(b);
      NoSplit(c);
    } else {
      OrSplit(a / 2, b / 2, k - 1);
      OrHalf(a, b);
      HighHalf(a, k);
      HighHalf(b, k);
      HighHalf(c, k);
      LowHalf(a, k);
      LowHalf(b, k);
      LowHalf(c, k);
      OrHalf(Low(a, k), Low(b, k));
    }
  }

  lemma OrHalf(a: nat, b: nat)
    ensures BitOr(a, b) / 2 == BitOr(a / 2, b / 2) && BitOr(a, b) % 2 == if a % 2 == 1 || b % 2 == 1 then 1 else 0
  {
  }

  /** Or of values put together from two parts. */
  lemma OrParts(hi: nat, lo: nat, hi': nat, lo': nat, k: nat)
    requires lo < Pow2(k) && lo' < Pow2(k)
    ensures BitOr(Joined(hi, lo, k), Joined(hi', lo', k)) == Joined(BitOr(hi, hi'), BitOr(lo, lo'), k)
  {
    hide BitOr;
    hide Joined;
    hide Pow2;
    var a, b := Joined(hi, lo, k), Joined(hi', lo', k);
    JoinedSplits(hi, lo, k);
    JoinedSplits(hi', lo', k);
    OrSplit(a, b, k);
    SplitJoins(BitOr(a, b), k);
  }

  function Joined(hi: nat, lo: nat, k: nat): nat {
    MulMonotone(0, hi, Pow2(k));
    hi * Pow2(k) + lo
  }

  lemma JoinedSplits(hi: nat, lo: nat, k: nat)
    requires lo < Pow2(k)
    ensures High(Joined(hi, lo, k), k) == hi && Low(Joined(hi, lo, k), k) == lo
  {
    QuotientUnique(Joined(hi, lo, k), Pow2(k), hi, lo);
  }

  lemma SplitJoins(a: nat, k: nat)
    ensures a == Joined(High(a, k), Low(a, k), k)
  {
  }

  /** Byte i of a word. */
  function ByteAt(a: nat, i: nat): (r: nat)
    ensures r < 256
  {
    High(a, 8 * i) % 256
  }

  lemma ByteOr(a: nat, b: nat, i: nat)
    ensures ByteAt(BitOr(a, b), i) == BitOr(ByteAt(a, i), ByteAt(b, i))
  {
    hide BitOr;
    hide High;
    PowersOfTwo();
    hide Pow2;
    OrSplit(a, b, 8 * i);
    OrSplit(High(a, 8 * i), High(b, 8 * i), 8);
  }

  lemma JoinBytes(hi: nat, lo: nat, hi': nat, lo': nat)
    requires lo < 256 && lo' < 256
    ensures BitOr(hi * 256 + lo, hi' * 256 + lo') == BitOr(hi, hi') * 256 + BitOr(lo, lo')
  {
    hide BitOr;
    PowersOfTwo();
    hide Pow2;
    OrParts(hi, lo, hi', lo', 8);
  }

  lemma MorePowers()
    ensures Pow2(16) == 0x1_0000 && Pow2(24) == 0x100_0000 && Pow2(32) == 0x1_0000_0000
  {
    PowersOfTwo();
    Pow2Sum(8, 8);
    Pow2Sum(16, 8);
    Pow2Sum(24, 8);
  }

  /** The bytes as the source masks them out. */
  lemma BytesAre(a: nat)
    ensures ByteAt(a, 0) == a % 256 && ByteAt(a, 1) == a / 256 % 256
    ensures ByteAt(a, 2) == a / 0x1_0000 % 256 && ByteAt(a, 3) == a / 0x100_0000 % 256
  {
    PowersOfTwo();
    MorePowers();
    assert 8 * 0 == 0 && 8 * 1 == 8 && 8 * 2 == 16 && 8 * 3 == 24;
    hide Pow2;
  }

  lemma Swap16Or(a: nat, b: nat)
    ensures Swap16(BitOr(a, b)) == BitOr(Swap16(a), Swap16(b))
  {
    hide BitOr;
    hide ByteAt;
    hide Swap16;
    Swap16Is(a);
    Swap16Is(b);
    Swap16Is(BitOr(a, b));
    ByteOr(a, b, 0);
    ByteOr(a, b, 1);
    JoinBytes(ByteAt(a, 0), ByteAt(a, 1), ByteAt(b, 0), ByteAt(b, 1));
  }

  lemma Swap16Is(a: nat)
    ensures Swap16(a) == ByteAt(a, 0) * 256 + ByteAt(a, 1)
  {
    hide ByteAt;
    BytesAre(a);
  }

  /** The value of four bytes, the highest first. */
  function FourBytes(x: nat, y: nat, z: nat, t: nat): nat {
    ((x * 256 + y) * 256 + z) * 256 + t
  }

  lemma FourOr(x: nat, y: nat, z: nat, t: nat, x': nat, y': nat, z': nat, t': nat)
    requires y < 256 && z < 256 && t < 256 && y' < 256 && z' < 256 && t' < 256
    ensures BitOr(FourBytes(x, y, z, t), FourBytes(x', y', z', t')) == FourBytes(BitOr(x, x'), BitOr(y, y'), BitOr(z, z'), BitOr(t, t'))
  {
    hide BitOr;
    JoinBytes(x, y, x', y');
    JoinBytes(x * 256 + y, z, x' * 256 + y', z');
    JoinBytes((x * 256 + y) * 256 + z, t, (x' * 256 + y') * 256 + z', t');
  }

  lemma Swap32Or(a: nat, b: nat)
    ensures Swap32(BitOr(a, b)) == BitOr(Swap32(a), Swap32(b))
  {
    hide BitOr;
    hide ByteAt;
    var c := BitOr(a, b);
    ByteOr(a, b, 0);
    ByteOr(a, b, 1);
    ByteOr(a, b, 2);
    ByteOr(a, b, 3);
    Swap32Is(a);
    Swap32Is(b);
    Swap32Is(c);
    hide FourBytes;
    hide Swap32;
    FourOr(ByteAt(a, 0), ByteAt(a, 1), ByteAt(a, 2), ByteAt(a, 3), ByteAt(b, 0), ByteAt(b, 1), ByteAt(b, 2), ByteAt(b, 3));
  }

  lemma Swap32Is(a: nat)
    ensures Swap32(a) == FourBytes(ByteAt(a, 0), ByteAt(a, 1), ByteAt(a, 2), ByteAt(a, 3))
  {
    hide ByteAt;
    BytesAre(a);
  }

  lemma CutOr(a: nat, b: nat, c: nat, bits: nat)
    ensures Cut(Or3(a, b, c), bits) == Or3(Cut(a, bits), Cut(b, bits), Cut(c, bits))
  {
    hide BitOr;
    hide Pow2;
    OrSplit(a, b, bits);
    OrSplit(BitOr(a, b), c, bits);
  }

  /** The bytes in the order of the client. */
  function Ordered(w: nat, inf: PixelFormat, outf: PixelFormat): nat {
    if outf.bigEndian != inf.bigEndian then Swap(w, outf.bits) else w
  }

  function Component(pix: int, ic: Channel, oc: Channel): nat
    requires IsChannel(ic) && IsChannel(oc)
  {
    ScaledInRange(Field(pix, ic), ic.max, oc.max);
    Shifted(Scaled(Field(pix, ic), ic.max, oc.max), oc)
  }

  /** The entry of the single table for a pixel. */
  function SingleEntry(pix: int, inf: PixelFormat, outf: PixelFormat): nat
    requires IsFormat(inf) && IsFormat(outf)
  {
    Ordered(Cut(Or3(Component(pix, inf.red, outf.red), Component(pix, inf.green, outf.green), Component(pix, inf.blue, outf.blue)),
                outf.bits), inf, outf)
  }

  /** An entry of one of the three tables. */
  function ChannelEntry(v: int, ic: Channel, oc: Channel, inf: PixelFormat, outf: PixelFormat): nat
    requires IsChannel(ic) && IsChannel(oc) && 0 <= v <= ic.max
  {
    ScaledInRange(v, ic.max, oc.max);
    Ordered(Cut(Shifted(Scaled(v, ic.max, oc.max), oc), outf.bits), inf, outf)
  }

  function ThreeEntry(pix: int, inf: PixelFormat, outf: PixelFormat): nat
    requires IsFormat(inf) && IsFormat(outf)
  {
    Or3(ChannelEntry(Field(pix, inf.red), inf.red, outf.red, inf, outf),
        ChannelEntry(Field(pix, inf.green), inf.green, outf.green, inf, outf),
        ChannelEntry(Field(pix, inf.blue), inf.blue, outf.blue, inf, outf))
  }

  lemma OrderedOr(a: nat, b: nat, c: nat, inf: PixelFormat, outf: PixelFormat)
    ensures Ordered(Cut(Or3(a, b, c), outf.bits), inf, outf)
      == Or3(Ordered(Cut(a, outf.bits), inf, outf), Ordered(Cut(b, outf.bits), inf, outf), Ordered(Cut(c, outf.bits), inf, outf))
  {
    hide Swap16;
    hide Swap32;
    hide BitOr;
    hide Cut;
    CutOr(a, b, c, outf.bits);
    var x, y, z := Cut(a, outf.bits), Cut(b, outf.bits), Cut(c, outf.bits);
    Swap16Or(x, y);
    Swap16Or(BitOr(x, y), z);
    Swap32Or(x, y);
    Swap32Or(BitOr(x, y), z);
  }

  /** Three lookups or-ed together are the single lookup, whether bytes are swapped or not. */
  lemma ThreeTablesAgree(pix: int, inf: PixelFormat, outf: PixelFormat)
    requires IsFormat(inf) && IsFormat(outf)
    ensures ThreeEntry(pix, inf, outf) == SingleEntry(pix, inf, outf)
  {
    hide Or3;
    hide Cut;
    hide Ordered;
    hide Shifted;
    OrderedOr(Component(pix, inf.red, outf.red), Component(pix, inf.green, outf.green), Component(pix, inf.blue, outf.blue), inf, outf);
  }

  // ---- What an entry shows ----

  /** Swapping is putting the bytes in the other order. */
  lemma SwapReverses(w: nat, bits: nat)
    requires (bits == 8 || bits == 16 || bits == 32) && w < Pow2(bits)
    ensures Swap(w, bits) < Pow2(bits) && PixelBytes(Swap(w, bits), bits / 8) == Reversed(PixelBytes(w, bits / 8))
    ensures Swapped(Swap(w, bits), bits / 8) == w
  {
    PowersOfTwo();
    MorePowers();
    Ranges();
    hide Pow2;
    hide Range;
    hide PixelBytes;
    hide Swapped;
    hide Swap16;
    hide Swap32;
    if bits == 8 {
      OneByte(w);
      ReversedBack(w, w, 1);
    } else if bits == 16 {
      TwoBytes(w);
      ReversedBack(w, Swap16(w), 2);
    } else {
      FourBytesBack(w);
      ReversedBack(w, Swap32(w), 4);
    }
  }

  lemma ReversedBack(w: nat, s: nat, n: nat)
    requires w < Range(n) && PixelBytes(s, n) == Reversed(PixelBytes(w, n))
    ensures Swapped(s, n) == w
  {
    hide PixelBytes;
    hide PixelOf;
    assert Reversed(Reversed(PixelBytes(w, n))) == PixelBytes(w, n);
    PixelRoundTrip(w, n);
  }

  lemma Ranges()
    ensures Range(1) == 256 && Range(2) == 0x1_0000 && Range(4) == 0x1_0000_0000
  {
    assert Range(2) == 0x1_0000;
    assert Range(3) == 0x100_0000;
  }

  lemma OneByte(w: nat)
    requires w < 256
    ensures PixelBytes(w, 1) == Reversed(PixelBytes(w, 1))
  {
  }

  lemma TwoBytes(w: nat)
    requires w < 0x1_0000
    ensures Swap16(w) < 0x1_0000 && PixelBytes(Swap16(w), 2) == Reversed(PixelBytes(w, 2))
  {
    assert PixelBytes(w, 2) == [w % 256, w / 256];
    assert PixelBytes(Swap16(w), 2) == [w / 256, w % 256];
  }

  lemma FourOf(w: nat)
    requires w < 0x1_0000_0000
    ensures PixelBytes(w, 4) == [w % 256, w / 256 % 256, w / 0x1_0000 % 256, w / 0x100_0000]
  {
    assert PixelBytes(w, 4) == [w % 256] + PixelBytes(w / 256, 3);
    assert PixelBytes(w / 256, 3) == [w / 256 % 256] + PixelBytes(w / 256 / 256, 2);
    assert PixelBytes(w / 256 / 256, 2) == [w / 256 / 256 % 256, w / 256 / 256 / 256];
  }

  lemma FourBytesBack(w: nat)
    requires w < 0x1_0000_0000
    ensures Swap32(w) < 0x1_0000_0000 && PixelBytes(Swap32(w), 4) == Reversed(PixelBytes(w, 4))
  {
    var x, y, z, t := w % 256, w / 256 % 256, w / 0x1_0000 % 256, w / 0x100_0000;
    FourOf(w);
    BytesBack(x, y, z, t);
    assert Swap32(w) == FourBytes(x, y, z, t);
    FourOf(FourBytes(x, y, z, t));
    hide PixelBytes;
    assert PixelBytes(Swap32(w), 4) == [t, z, y, x];
  }

  lemma BytesBack(x: nat, y: nat, z: nat, t: nat)
    requires x < 256 && y < 256 && z < 256 && t < 256
    ensures var v := FourBytes(x, y, z, t);
      v < 0x1_0000_0000 && v % 256 == t && v / 256 % 256 == z && v / 0x1_0000 % 256 == y && v / 0x100_0000 == x
  {
    var v := FourBytes(x, y, z, t);
    QuotientUnique(v, 256, (x * 256 + y) * 256 + z, t);
    QuotientUnique(v, 0x1_0000, x * 256 + y, z * 256 + t);
    QuotientUnique(v, 0x100_0000, x, (y * 256 + z) * 256 + t);
  }

  /** How many bits a value up to max takes. */
  function Width(max: nat): (k: nat)
    ensures max < Pow2(k)
  {
    if max == 0 then 0 else 1 + Width(max / 2)
  }

  /** The bits of two channels do not overlap. */
  predicate Apart(c: Channel, d: Channel)
    requires IsChannel(c) && IsChannel(d)
  {
    c.shift + Width(c.max) <= d.shift || d.shift + Width(d.max) <= c.shift
  }

  /** Three channels that do not overlap and fit. */
  predicate IsDisjoint(f: PixelFormat) {
    && IsFormat(f) && Apart(f.red, f.green) && Apart(f.red, f.blue) && Apart(f.green, f.blue)
    && f.red.shift + Width(f.red.max) <= f.bits && f.green.shift + Width(f.green.max) <= f.bits
    && f.blue.shift + Width(f.blue.max) <= f.bits
  }

  /** The bits of a channel by division and remainder. */
  function Part(w: nat, c: Channel): (v: nat)
    requires IsChannel(c)
  {
    w / Pow2(c.shift) % Pow2(Width(c.max))
  }

  function Fields(f: PixelFormat): PF.Fields
    requires IsFormat(f)
  {
    PF.Fields([Pow2(f.red.shift), Pow2(f.green.shift), Pow2(f.blue.shift)],
              [Pow2(Width(f.red.max)) - 1, Pow2(Width(f.green.max)) - 1, Pow2(Width(f.blue.max)) - 1])
  }

  lemma PowerDivides(a: nat, b: nat)
    requires a <= b
    ensures Pow2(b) % Pow2(a) == 0
  {
    Pow2Sum(b - a, a);
    QuotientUnique(Pow2(b), Pow2(a), Pow2(b - a), 0);
  }

  lemma ChannelAbove(c: Channel, d: Channel)
    requires IsChannel(c) && IsChannel(d) && c.shift + Width(c.max) <= d.shift
    ensures Pow2(c.shift) * Pow2(Width(c.max)) >= 1 && Pow2(d.shift) % (Pow2(c.shift) * Pow2(Width(c.max))) == 0
  {
    Pow2Sum(c.shift, Width(c.max));
    PowerDivides(c.shift + Width(c.max), d.shift);
  }

  lemma ChannelWithin(c: Channel, bits: nat)
    requires IsChannel(c) && c.shift + Width(c.max) <= bits
    ensures Pow2(c.shift) * Pow2(Width(c.max)) >= 1 && Pow2(bits) % (Pow2(c.shift) * Pow2(Width(c.max))) == 0
  {
    Pow2Sum(c.shift, Width(c.max));
    PowerDivides(c.shift + Width(c.max), bits);
  }

  lemma PairAbove(c: Channel, d: Channel)
    requires IsChannel(c) && IsChannel(d) && Apart(c, d)
    ensures Pow2(c.shift) * Pow2(Width(c.max)) >= 1 && Pow2(d.shift) * Pow2(Width(d.max)) >= 1
    ensures Pow2(d.shift) % (Pow2(c.shift) * Pow2(Width(c.max))) == 0 || Pow2(c.shift) % (Pow2(d.shift) * Pow2(Width(d.max))) == 0
  {
    hide Width;
    Pow2Sum(c.shift, Width(c.max));
    Pow2Sum(d.shift, Width(d.max));
    if c.shift + Width(c.max) <= d.shift {
      ChannelAbove(c, d);
    } else {
      ChannelAbove(d, c);
    }
  }

  lemma WidthAtLeast(max: nat)
    requires max >= 1
    ensures Pow2(Width(max)) >= 2
  {
  }

  lemma DisjointFields(f: PixelFormat)
    requires IsDisjoint(f)
    ensures PF.IsFields(Fields(f)) && PF.Within(Fields(f), Pow2(f.bits))
  {
    hide Width;
    hide Pow2;
    PairAbove(f.red, f.green);
    PairAbove(f.red, f.blue);
    PairAbove(f.green, f.blue);
    WidthAtLeast(f.red.max);
    WidthAtLeast(f.green.max);
    WidthAtLeast(f.blue.max);
    ChannelWithin(f.red, f.bits);
    ChannelWithin(f.green, f.bits);
    ChannelWithin(f.blue, f.bits);
  }

  lemma {:induction false} OrOfApart(a: nat, b: nat)
    requires BitAnd(a, b) == 0
    ensures BitOr(a, b) == a + b
    decreases a + b
  {
    if b > 0 {
      OrOfApart(a / 2, b / 2);
    } else {
      OrNothing(a);
    }
  }

  lemma {:induction false} OrNothing(a: nat)
    ensures BitOr(a, 0) == a
    decreases a
  {
    if a > 0 {
      OrNothing(a / 2);
    }
  }

  lemma {:induction false} OrApart(a: nat, b: nat, c: nat)
    requires BitAnd(a, c) == 0 && BitAnd(b, c) == 0
    ensures BitAnd(BitOr(a, b), c) == 0
    decreases c
  {
    if c > 0 {
      OrHalf(a, b);
      OrApart(a / 2, b / 2, c / 2);
    }
  }

  /** A low value and a multiple above it share no bit. */
  lemma {:induction false} LowAndHigh(x: nat, u: nat, t: nat)
    requires x < Pow2(t)
    ensures BitAnd(x, u * Pow2(t)) == 0 && BitAnd(u * Pow2(t), x) == 0
    decreases t
  {
    if t == 0 {
      AndNothing(u * Pow2(t));
    } else {
      var p := Pow2(t - 1);
      assert u * Pow2(t) == 2 * (u * p) by {
        Associate(u, 2, p);
        Associate(2, u, p);
      }
      MulMonotone(0, u, p);
      LowAndHigh(x / 2, u, t - 1);
      EvenAnd(x, u * p);
    }
  }

  lemma EvenAnd(x: nat, y: nat)
    ensures BitAnd(x, 2 * y) == 2 * BitAnd(x / 2, y) && BitAnd(2 * y, x) == 2 * BitAnd(y, x / 2)
  {
    var z := 2 * y;
    assert z / 2 == y && z % 2 == 0;
    EvenMask(x, z);
    EvenMasked(x, z);
  }

  lemma EvenMask(x: nat, z: nat)
    requires z % 2 == 0
    ensures BitAnd(x, z) == 2 * BitAnd(x / 2, z / 2)
  {
  }

  lemma EvenMasked(x: nat, z: nat)
    requires z % 2 == 0
    ensures BitAnd(z, x) == 2 * BitAnd(z / 2, x / 2)
  {
  }

  lemma {:induction false} AndNothing(a: nat)
    ensures BitAnd(a, 0) == 0 && BitAnd(0, a) == 0
    decreases a
  {
    if a > 0 {
      AndNothing(a / 2);
    }
  }

  lemma ShiftedApart(v: nat, c: Channel, u: nat, d: Channel)
    requires IsChannel(c) && IsChannel(d) && v <= c.max && u <= d.max && Apart(c, d)
    ensures BitAnd(Shifted(v, c), Shifted(u, d)) == 0
  {
    hide Width;
    if c.shift + Width(c.max) <= d.shift {
      ShiftedBelow(v, c, d.shift);
      LowAndHigh(Shifted(v, c), u, d.shift);
    } else {
      ShiftedBelow(u, d, c.shift);
      LowAndHigh(Shifted(u, d), v, c.shift);
    }
  }

  lemma ShiftedBelow(v: nat, c: Channel, t: nat)
    requires IsChannel(c) && v <= c.max && c.shift + Width(c.max) <= t
    ensures Shifted(v, c) < Pow2(t)
  {
    var w := Width(c.max);
    hide Width;
    Pow2Sum(w, c.shift);
    MulMonotone(v + 1, Pow2(w), Pow2(c.shift));
    OneMore(v, Pow2(c.shift));
    B.Pow2Grows(c.shift + w, t);
  }

  /** Fields that do not overlap are added by or. */
  lemma OrIsSum(r: nat, g: nat, b: nat, f: PixelFormat)
    requires IsDisjoint(f) && r <= f.red.max && g <= f.green.max && b <= f.blue.max
    ensures Or3(Shifted(r, f.red), Shifted(g, f.green), Shifted(b, f.blue))
      == r * Pow2(f.red.shift) + g * Pow2(f.green.shift) + b * Pow2(f.blue.shift)
  {
    hide Width;
    hide Pow2;
    hide BitOr;
    hide BitAnd;
    var x, y, z := Shifted(r, f.red), Shifted(g, f.green), Shifted(b, f.blue);
    ShiftedApart(r, f.red, g, f.green);
    ShiftedApart(r, f.red, b, f.blue);
    ShiftedApart(g, f.green, b, f.blue);
    OrOfThree(x, y, z);
  }

  lemma OrOfThree(x: nat, y: nat, z: nat)
    requires BitAnd(x, y) == 0 && BitAnd(x, z) == 0 && BitAnd(y, z) == 0
    ensures Or3(x, y, z) == x + y + z
  {
    hide BitOr;
    hide BitAnd;
    OrOfApart(x, y);
    OrApart(x, y, z);
    OrOfApart(BitOr(x, y), z);
  }

  /** An entry with its bytes in the order of the input again. */
  function Undone(w: int, inf: PixelFormat, outf: PixelFormat): int {
    if outf.bigEndian != inf.bigEndian then Swapped(w, outf.bits / 8) else w
  }

  /** The bits of the output channel are the value of its range nearest to what the input has
      in its field. */
  ghost predicate Shows(pix: int, w: int, ic: Channel, oc: Channel)
    requires IsChannel(ic) && IsChannel(oc) && 0 <= w
  {
    Nearest(Field(pix, ic), ic.max, oc.max, Part(w, oc))
  }

  /** A pixel of the output has the colours of one of the input, each in its place, and
      nothing else. */
  ghost predicate PixelShows(pix: int, out: int, inf: PixelFormat, outf: PixelFormat)
    requires IsFormat(inf) && IsFormat(outf)
  {
    var w := Undone(out, inf, outf);
    && 0 <= w < Pow2(outf.bits)
    && Shows(pix, w, inf.red, outf.red) && Shows(pix, w, inf.green, outf.green) && Shows(pix, w, inf.blue, outf.blue)
    && w == Part(w, outf.red) * Pow2(outf.red.shift) + Part(w, outf.green) * Pow2(outf.green.shift)
            + Part(w, outf.blue) * Pow2(outf.blue.shift)
  }

  lemma EntryShows(pix: int, inf: PixelFormat, outf: PixelFormat)
    requires IsFormat(inf) && IsDisjoint(outf)
    ensures PixelShows(pix, SingleEntry(pix, inf, outf), inf, outf)
  {
    hide Width;
    hide Pow2;
    hide Swap;
    hide Swapped;
    hide Nearest;
    hide Field;
    hide Scaled;
    hide Shifted;
    hide Or3;
    var r, rm, ro := Field(pix, inf.red), inf.red.max, outf.red.max;
    var g, gm, go := Field(pix, inf.green), inf.green.max, outf.green.max;
    var b, bm, bo := Field(pix, inf.blue), inf.blue.max, outf.blue.max;
    ScaledInRange(r, rm, ro);
    ScaledInRange(g, gm, go);
    ScaledInRange(b, bm, bo);
    ScaledIsNearest(r, rm, ro);
    ScaledIsNearest(g, gm, go);
    ScaledIsNearest(b, bm, bo);
    var d := [Scaled(r, rm, ro), Scaled(g, gm, go), Scaled(b, bm, bo)];
    JoinedParts(d, outf);
    var w := d[0] * Pow2(outf.red.shift) + d[1] * Pow2(outf.green.shift) + d[2] * Pow2(outf.blue.shift);
    OrIsSum(d[0], d[1], d[2], outf);
    QuotientUnique(w, Pow2(outf.bits), 0, w);
    assert SingleEntry(pix, inf, outf) == Ordered(w, inf, outf);
    SwapReverses(w, outf.bits);
  }

  /** A pixel put together from three values has them as its parts. */
  lemma JoinedParts(d: seq<int>, f: PixelFormat)
    requires IsDisjoint(f) && |d| == 3 && 0 <= d[0] <= f.red.max && 0 <= d[1] <= f.green.max && 0 <= d[2] <= f.blue.max
    ensures var w := d[0] * Pow2(f.red.shift) + d[1] * Pow2(f.green.shift) + d[2] * Pow2(f.blue.shift);
      0 <= w < Pow2(f.bits) && Part(w, f.red) == d[0] && Part(w, f.green) == d[1] && Part(w, f.blue) == d[2]
  {
    hide Width;
    hide Pow2;
    DisjointFields(f);
    var fs := Fields(f);
    var w := PF.Joined(d, fs);
    PF.JoinedWithin(d, fs, Pow2(f.bits));
    PF.FieldsRoundTrip(d, fs);
    PartIsField(w, f);
    hide PF.IsFields;
    hide PF.Field;
    hide Part;
    assert PF.FieldsOf(w, fs)[0] == d[0] && PF.FieldsOf(w, fs)[1] == d[1] && PF.FieldsOf(w, fs)[2] == d[2];
  }

  lemma PartIsField(w: int, f: PixelFormat)
    requires IsDisjoint(f) && 0 <= w && PF.IsFields(Fields(f))
    ensures Part(w, f.red) == PF.Field(w, Fields(f), 0) && Part(w, f.green) == PF.Field(w, Fields(f), 1)
    ensures Part(w, f.blue) == PF.Field(w, Fields(f), 2)
  {
    hide Width;
    hide Pow2;
    hide PF.IsFields;
  }

  /** The field of the input, bit by bit. */
  lemma FieldBits(pix: int, c: Channel, i: nat)
    requires IsChannel(c)
    ensures B.Bit(Field(pix, c), i) == B.Bit(pix, c.shift + i) * B.Bit(c.max, i)
  {
    AndBits(pix / Pow2(c.shift), c.max, i);
    B.BitShifted(pix, c.shift, i);
  }

  lemma {:induction false} AndBits(a: int, b: nat, i: nat)
    ensures B.Bit(BitAnd(a, b), i) == B.Bit(a, i) * B.Bit(b, i)
    decreases i
  {
    B.LowBit(a);
    B.LowBit(b);
    B.LowBit(BitAnd(a, b));
    AndHalf(a, b);
    if i > 0 {
      B.BitOfHalf(a, i - 1);
      B.BitOfHalf(b, i - 1);
      B.BitOfHalf(BitAnd(a, b), i - 1);
      AndBits(a / 2, b / 2, i - 1);
    }
  }

  lemma AndHalf(a: int, b: nat)
    ensures BitAnd(a, b) / 2 == BitAnd(a / 2, b / 2) && BitAnd(a, b) % 2 == (a % 2) * (b % 2)
  {
    var r := if a % 2 == 1 && b % 2 == 1 then 1 else 0;
    AndUnfolds(a, b);
    hide BitAnd;
    assert a % 2 == 0 || a % 2 == 1;
    assert b % 2 == 0 || b % 2 == 1;
    assert (a % 2) * (b % 2) == r;
  }

  lemma AndUnfolds(a: int, b: nat)
    ensures BitAnd(a, b) == 2 * BitAnd(a / 2, b / 2) + if a % 2 == 1 && b % 2 == 1 then 1 else 0
  {
  }

  /** For a greatest value of ones, by division and remainder. */
  lemma FieldIsPart(pix: nat, c: Channel)
    requires IsChannel(c) && c.max == Pow2(Width(c.max)) - 1
    ensures Field(pix, c) == Part(pix, c)
  {
    LowBits(pix / Pow2(c.shift), Width(c.max));
  }

  // ---- Filling the tables ----

  /** rfbInitTrueColourSingleTable. */
  method InitSingleTable(inf: PixelFormat, outf: PixelFormat) returns (t: array<nat>)
    requires IsFormat(inf) && IsFormat(outf)
    ensures fresh(t) && t.Length == Pow2(inf.bits)
    ensures forall i :: 0 <= i < t.Length ==> t[i] == SingleEntry(i, inf, outf)
  {
    hide Or3;
    hide Cut;
    hide Swap;
    hide Shifted;
    hide Scaled;
    hide Field;
    var nEntries := Pow2(inf.bits);
    t := new nat[nEntries](_ => 0);
    var i := 0;
    while i < nEntries
      invariant 0 <= i <= nEntries && t.Length == nEntries
      invariant forall k :: 0 <= k < i ==> t[k] == SingleEntry(k, inf, outf)
    {
      var inRed, inGreen, inBlue := Field(i, inf.red), Field(i, inf.green), Field(i, inf.blue);
      ScaledInRange(inRed, inf.red.max, outf.red.max);
      ScaledInRange(inGreen, inf.green.max, outf.green.max);
      ScaledInRange(inBlue, inf.blue.max, outf.blue.max);
      var outRed := Scaled(inRed, inf.red.max, outf.red.max);
      var outGreen := Scaled(inGreen, inf.green.max, outf.green.max);
      var outBlue := Scaled(inBlue, inf.blue.max, outf.blue.max);
      t[i] := Cut(Or3(Shifted(outRed, outf.red), Shifted(outGreen, outf.green), Shifted(outBlue, outf.blue)), outf.bits);
      if outf.bigEndian != inf.bigEndian {
        t[i] := Swap(t[i], outf.bits);
      }
      i := i + 1;
    }
  }

  /** rfbInitOneRGBTable, into the part of the tables that starts at from. */
  method InitOneTable(table: array<nat>, from: nat, ic: Channel, oc: Channel, inf: PixelFormat, outf: PixelFormat)
    requires IsChannel(ic) && IsChannel(oc) && from + ic.max + 1 <= table.Length
    modifies table
    ensures forall v :: 0 <= v <= ic.max ==> table[from + v] == ChannelEntry(v, ic, oc, inf, outf)
    ensures forall k :: 0 <= k < table.Length && !(from <= k <= from + ic.max) ==> table[k] == old(table[k])
  {
    hide Cut;
    hide Swap;
    hide Shifted;
    hide Scaled;
    var nEntries := ic.max + 1;
    var i := 0;
    while i < nEntries
      invariant 0 <= i <= nEntries
      invariant forall v :: 0 <= v < i ==> table[from + v] == ChannelEntry(v, ic, oc, inf, outf)
      invariant forall k :: 0 <= k < table.Length && !(from <= k <= from + ic.max) ==> table[k] == old(table[k])
    {
      ScaledInRange(i, ic.max, oc.max);
      table[from + i] := Cut(Shifted(Scaled(i, ic.max, oc.max), oc), outf.bits);
      if outf.bigEndian != inf.bigEndian {
        table[from + i] := Swap(table[from + i], outf.bits);
      }
      i := i + 1;
    }
  }

  /** The three tables lie one after the other. */
  ghost predicate HoldsTables(table: array<nat>, inf: PixelFormat, outf: PixelFormat)
    requires IsFormat(inf) && IsFormat(outf)
    reads table
  {
    && table.Length == inf.red.max + inf.green.max + inf.blue.max + 3
    && (forall v :: 0 <= v <= inf.red.max ==> table[v] == ChannelEntry(v, inf.red, outf.red, inf, outf))
    && (forall v :: 0 <= v <= inf.green.max ==>
          table[inf.red.max + 1 + v] == ChannelEntry(v, inf.green, outf.green, inf, outf))
    && (forall v :: 0 <= v <= inf.blue.max ==>
          table[inf.red.max + inf.green.max + 2 + v] == ChannelEntry(v, inf.blue, outf.blue, inf, outf))
  }

  /** rfbInitTrueColourRGBTables. */
  method InitRGBTables(inf: PixelFormat, outf: PixelFormat) returns (table: array<nat>)
    requires IsFormat(inf) && IsFormat(outf)
    ensures fresh(table) && HoldsTables(table, inf, outf)
  {
    hide ChannelEntry;
    table := new nat[inf.red.max + inf.green.max + inf.blue.max + 3](_ => 0);
    var greenTable := inf.red.max + 1;
    var blueTable := greenTable + inf.green.max + 1;
    InitOneTable(table, 0, inf.red, outf.red, inf, outf);
    assert forall v :: 0 <= v <= inf.red.max ==> table[0 + v] == table[v];
    InitOneTable(table, greenTable, inf.green, outf.green, inf, outf);
    InitOneTable(table, blueTable, inf.blue, outf.blue, inf, outf);
  }

  // ---- Translating a rectangle ----

  function Row(pixels: seq<int>, inf: PixelFormat, outf: PixelFormat): (r: seq<nat>)
    requires IsFormat(inf) && IsFormat(outf)
    ensures |r| == |pixels|
  {
    seq(|pixels|, i requires 0 <= i < |pixels| => SingleEntry(pixels[i], inf, outf))
  }

  /** w pixels of the output from o on are those of the input from p on, translated. */
  ghost predicate RowTranslated(op: seq<nat>, o: int, ip: seq<int>, p: int, w: int, inf: PixelFormat, outf: PixelFormat)
    requires IsFormat(inf) && IsFormat(outf)
  {
    && 0 <= o && 0 <= w && o + w <= |op| && 0 <= p && p + w <= |ip|
    && op[o..o + w] == Row(ip[p..p + w], inf, outf)
  }

  lemma NoPixels(inf: PixelFormat, outf: PixelFormat)
    requires IsFormat(inf) && IsFormat(outf)
    ensures Row([], inf, outf) == []
  {
  }

  lemma RowSnoc(pixels: seq<int>, pix: int, inf: PixelFormat, outf: PixelFormat)
    requires IsFormat(inf) && IsFormat(outf)
    ensures Row(pixels + [pix], inf, outf) == Row(pixels, inf, outf) + [SingleEntry(pix, inf, outf)]
  {
  }

  /** Rows of width pixels, stride apart in the input and adjacent in the output. */
  ghost predicate Translated(op: seq<nat>, ip: seq<int>, start: int, stride: int, width: int, height: int,
                             inf: PixelFormat, outf: PixelFormat)
    requires IsFormat(inf) && IsFormat(outf)
  {
    forall j :: 0 <= j < height ==> RowTranslated(op, j * width, ip, start + j * stride, width, inf, outf)
  }

  lemma TranslatedStep(op: seq<nat>, op': seq<nat>, ip: seq<int>, start: nat, stride: nat, width: nat, j: nat,
                       inf: PixelFormat, outf: PixelFormat)
    requires IsFormat(inf) && IsFormat(outf) && Translated(op, ip, start, stride, width, j, inf, outf)
    requires |op'| == |op| && j * width <= |op| && op'[..j * width] == op[..j * width]
    requires RowTranslated(op', j * width, ip, start + j * stride, width, inf, outf)
    ensures Translated(op', ip, start, stride, width, j + 1, inf, outf)
  {
    hide RowTranslated;
    forall k | 0 <= k < j
      ensures RowTranslated(op', k * width, ip, start + k * stride, width, inf, outf)
    {
      assert RowTranslated(op, k * width, ip, start + k * stride, width, inf, outf);
      MulMonotone(k + 1, j, width);
      OneMore(k, width);
      RowKept(op, op', j * width, k * width, ip, start + k * stride, width, inf, outf);
    }
  }

  lemma RowKept(op: seq<nat>, op': seq<nat>, n: nat, o: int, ip: seq<int>, p: int, w: nat, inf: PixelFormat, outf: PixelFormat)
    requires IsFormat(inf) && IsFormat(outf) && RowTranslated(op, o, ip, p, w, inf, outf)
    requires |op'| == |op| && n <= |op| && op'[..n] == op[..n] && o + w <= n
    ensures RowTranslated(op', o, ip, p, w, inf, outf)
  {
    hide Row;
    assert op'[o..o + w] == op'[..n][o..o + w] && op[o..o + w] == op[..n][o..o + w];
  }

  /** The pixels of the output show the colours of the input. */
  ghost predicate AllShow(pixels: seq<int>, out: seq<nat>, inf: PixelFormat, outf: PixelFormat)
    requires IsFormat(inf) && IsFormat(outf)
  {
    |out| == |pixels| && forall i :: 0 <= i < |pixels| ==> PixelShows(pixels[i], out[i], inf, outf)
  }

  lemma RowIsShown(pixels: seq<int>, inf: PixelFormat, outf: PixelFormat)
    requires IsFormat(inf) && IsDisjoint(outf)
    ensures AllShow(pixels, Row(pixels, inf, outf), inf, outf)
  {
    assert IsFormat(outf);
    hide IsDisjoint;
    hide SingleEntry;
    hide PixelShows;
    forall i | 0 <= i < |pixels|
      ensures PixelShows(pixels[i], Row(pixels, inf, outf)[i], inf, outf)
    {
      EntryShows(pixels[i], inf, outf);
    }
  }

  ghost predicate RowShows(op: seq<nat>, o: int, ip: seq<int>, p: int, w: int, inf: PixelFormat, outf: PixelFormat)
    requires IsFormat(inf) && IsFormat(outf)
  {
    && 0 <= o && 0 <= w && o + w <= |op| && 0 <= p && p + w <= |ip|
    && AllShow(ip[p..p + w], op[o..o + w], inf, outf)
  }

  ghost predicate RectShows(op: seq<nat>, ip: seq<int>, start: int, stride: int, width: int, height: int,
                            inf: PixelFormat, outf: PixelFormat)
    requires IsFormat(inf) && IsFormat(outf)
  {
    forall j :: 0 <= j < height ==> RowShows(op, j * width, ip, start + j * stride, width, inf, outf)
  }

  lemma TranslatedShows(op: seq<nat>, ip: seq<int>, start: int, stride: int, width: int, height: int,
                        inf: PixelFormat, outf: PixelFormat)
    requires IsFormat(inf) && IsDisjoint(outf) && Translated(op, ip, start, stride, width, height, inf, outf)
    ensures RectShows(op, ip, start, stride, width, height, inf, outf)
  {
    assert IsFormat(outf);
    hide IsDisjoint;
    hide Row;
    hide AllShow;
    forall j | 0 <= j < height
      ensures RowShows(op, j * width, ip, start + j * stride, width, inf, outf)
    {
      var p, o := start + j * stride, j * width;
      assert RowTranslated(op, o, ip, p, width, inf, outf);
      RowIsShown(ip[p..p + width], inf, outf);
    }
  }

  /** One line through the single table. */
  method SingleLine(t: array<nat>, ip: array<int>, p: nat, op: array<nat>, o: nat, width: nat, inf: PixelFormat, outf: PixelFormat)
    requires IsFormat(inf) && IsFormat(outf) && t.Length == Pow2(inf.bits) && t != op && ip as object != op as object
    requires forall i :: 0 <= i < t.Length ==> t[i] == SingleEntry(i, inf, outf)
    requires forall k :: 0 <= k < ip.Length ==> 0 <= ip[k] < Pow2(inf.bits)
    requires p + width <= ip.Length && o + width <= op.Length
    modifies op
    ensures RowTranslated(op[..], o, ip[..], p, width, inf, outf) && op[..o] == old(op[..o])
  {
    hide SingleEntry;
    hide Pow2;
    hide Row;
    ghost var pixels, entries := ip[..], t[..];
    NoPixels(inf, outf);
    assert ip[p..p] == [] && op[o..o] == [];
    var i := 0;
    while i < width
      invariant 0 <= i <= width && op[..o] == old(op[..o]) && ip[..] == pixels && t[..] == entries
      invariant op[o..o + i] == Row(ip[p..p + i], inf, outf)
    {
      op[o + i] := t[ip[p + i]];
      RowSnoc(ip[p..p + i], ip[p + i], inf, outf);
      assert ip[p..p + i + 1] == ip[p..p + i] + [ip[p + i]] && op[o..o + i + 1] == op[o..o + i] + [op[o + i]];
      i := i + 1;
    }
  }

  /** One line through the three tables. */
  method RGBLine(table: array<nat>, ip: array<int>, p: nat, op: array<nat>, o: nat, width: nat, inf: PixelFormat, outf: PixelFormat)
    requires IsFormat(inf) && IsFormat(outf) && HoldsTables(table, inf, outf) && table != op && ip as object != op as object
    requires p + width <= ip.Length && o + width <= op.Length
    modifies op
    ensures RowTranslated(op[..], o, ip[..], p, width, inf, outf) && op[..o] == old(op[..o])
  {
    hide SingleEntry;
    hide ChannelEntry;
    hide Field;
    hide Or3;
    hide Row;
    var greenTable := inf.red.max + 1;
    var blueTable := greenTable + inf.green.max + 1;
    ghost var pixels := ip[..];
    NoPixels(inf, outf);
    assert ip[p..p] == [] && op[o..o] == [];
    var i := 0;
    while i < width
      invariant 0 <= i <= width && op[..o] == old(op[..o]) && ip[..] == pixels && HoldsTables(table, inf, outf)
      invariant op[o..o + i] == Row(ip[p..p + i], inf, outf)
    {
      var pix := ip[p + i];
      ThreeTablesAgree(pix, inf, outf);
      op[o + i] := Or3(table[Field(pix, inf.red)], table[greenTable + Field(pix, inf.green)], table[blueTable + Field(pix, inf.blue)]);
      RowSnoc(ip[p..p + i], pix, inf, outf);
      assert ip[p..p + i + 1] == ip[p..p + i] + [pix] && op[o..o + i + 1] == op[o..o + i] + [op[o + i]];
      i := i + 1;
    }
  }

  /** rfbTranslateWithSingleTable and rfbTranslateWithRGBTables: whichever table is used, the
      rectangle comes out the same. */
  method TranslateRect(single: bool, table: array<nat>, ip: array<int>, start: nat, stride: nat, op: array<nat>,
                       width: nat, height: nat, inf: PixelFormat, outf: PixelFormat)
    requires IsFormat(inf) && IsFormat(outf) && table != op && ip as object != op as object && width <= stride
    requires if single then table.Length == Pow2(inf.bits) && forall i :: 0 <= i < table.Length ==> table[i] == SingleEntry(i, inf, outf)
      else HoldsTables(table, inf, outf)
    requires forall k :: 0 <= k < ip.Length ==> 0 <= ip[k] < Pow2(inf.bits)
    requires height * width <= op.Length && (height > 0 ==> start + (height - 1) * stride + width <= ip.Length)
    modifies op
    ensures Translated(op[..], ip[..], start, stride, width, height, inf, outf)
    ensures IsDisjoint(outf) ==> RectShows(op[..], ip[..], start, stride, width, height, inf, outf)
  {
    hide RectShows;
    hide IsDisjoint;
    hide SingleEntry;
    hide ChannelEntry;
    hide RowTranslated;
    hide HoldsTables;
    var p, o, j := start, 0, 0;
    while j < height
      invariant 0 <= j <= height && p == start + j * stride && o == j * width
      invariant Translated(op[..], ip[..], start, stride, width, j, inf, outf)
    {
      MulMonotone(j, height - 1, stride);
      MulMonotone(j + 1, height, width);
      OneMore(j, stride);
      OneMore(j, width);
      ghost var was := op[..];
      if single {
        SingleLine(table, ip, p, op, o, width, inf, outf);
      } else {
        RGBLine(table, ip, p, op, o, width, inf, outf);
      }
      TranslatedStep(was, op[..], ip[..], start, stride, width, j, inf, outf);
      p := p + stride;
      o := o + width;
      j := j + 1;
    }
    if IsDisjoint(outf) {
      TranslatedShows(op[..], ip[..], start, stride, width, height, inf, outf);
    }
  }
}
