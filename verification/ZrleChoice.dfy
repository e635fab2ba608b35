/** Which form ZRLE sends its pixels in. Pixels of 32 bits go out in three bytes when the
    maxima and shifts of the client's format seem to leave one byte unused; the pixels
    themselves are not looked at. */
module ZrleChoice {
  import opened Basics
  import opened Bits
  import opened Bytes
  import opened Images
  import opened Translation
  import opened Zrle
  import opened ZrleFormat
  import opened ZrleRect

  // ---- The choice ----

  /** max << shift, in 32 bits with a sign. */
  function ShiftedLeft(c: Channel): int
    requires IsChannel(c)
  {
    var m := c.max * Pow2(c.shift) % 0x1_0000_0000;
    if m >= 0x8000_0000 then m - 0x1_0000_0000 else m
  }

  predicate FitsInLS3Bytes(f: PixelFormat)
    requires IsFormat(f)
  {
    ShiftedLeft(f.red) < 0x100_0000 && ShiftedLeft(f.green) < 0x100_0000 && ShiftedLeft(f.blue) < 0x100_0000
  }

  predicate FitsInMS3Bytes(f: PixelFormat) {
    f.red.shift > 7 && f.green.shift > 7 && f.blue.shift > 7
  }

  /** The switch of rfbSendRectEncodingZRLE: the forms 24A and 24B send the first and the last
      three bytes of a pixel in memory. */
  function ChosenForm(f: PixelFormat): Cpixel
    requires IsFormat(f)
  {
    if f.bits == 8 then Cpixel(1, false)
    else if f.bits == 16 then Cpixel(2, false)
    else if (FitsInLS3Bytes(f) && !f.bigEndian) || (FitsInMS3Bytes(f) && f.bigEndian) then Cpixel(3, false)
    else if (FitsInLS3Bytes(f) && f.bigEndian) || (FitsInMS3Bytes(f) && !f.bigEndian) then Cpixel(3, true)
    else Cpixel(4, false)
  }

  // ---- What arrives ----

  /** A pixel value as it lies in memory, read low byte first; and back. */
  function InMemory(v: int, f: PixelFormat): int {
    if f.bigEndian then Swapped(v, f.bits / 8) else v
  }

  /** The pixel that the client has for the pixel v. */
  function Received(v: int, f: PixelFormat): int
    requires IsFormat(f)
  {
    InMemory(Kept(InMemory(v, f), ChosenForm(f)), f)
  }

  predicate SameColours(v: int, w: int, f: PixelFormat)
    requires IsFormat(f)
  {
    Field(v, f.red) == Field(w, f.red) && Field(v, f.green) == Field(w, f.green) && Field(v, f.blue) == Field(w, f.blue)
  }

  /** The highest bit of a 32-bit pixel belongs to the channel. */
  predicate ReachesTop(c: Channel) {
    c.max * Pow2(c.shift) % 0x1_0000_0000 >= 0x8000_0000
  }

  /** The format for which the choice goes wrong: a channel that reaches the highest bit is
      negative when shifted, and so counts as one that fits in the lower three bytes. */
  predicate LosesColour(f: PixelFormat)
    requires IsFormat(f)
  {
    && f.bits == 32 && FitsInLS3Bytes(f) && (f.bigEndian ==> !FitsInMS3Bytes(f))
    && (ReachesTop(f.red) || ReachesTop(f.green) || ReachesTop(f.blue))
  }

  lemma Powers()
    ensures Pow2(24) == 0x100_0000 && Pow2(31) == 0x8000_0000 && Pow2(32) == 0x1_0000_0000
    ensures Range(1) == 256 && Range(2) == 0x1_0000 && Range(3) == 0x100_0000 && Range(4) == 0x1_0000_0000
  {
    PowersOfTwo();
    Pow2Sum(8, 8);
    Pow2Sum(16, 8);
    Pow2Sum(24, 7);
    Pow2Sum(24, 8);
    assert Range(2) == 256 * Range(1);
  }

  lemma SwapFour(a: int, b: int, c: int, d: int)
    requires 0 <= a < 256 && 0 <= b < 256 && 0 <= c < 256 && 0 <= d < 256
    ensures Swapped(a + 256 * b + 0x1_0000 * c + 0x100_0000 * d, 4) == d + 256 * c + 0x1_0000 * b + 0x100_0000 * a
  {
    var v := a + 256 * b + 0x1_0000 * c + 0x100_0000 * d;
    var s: seq<Byte> := [a, b, c, d];
    assert PixelOf([d]) == d && PixelOf([c, d]) == c + 256 * d by {
      assert [c, d][1..] == [d];
      assert [d][1..] == [];
    }
    assert PixelOf(s) == v by {
      assert s[1..] == [b, c, d] && [b, c, d][1..] == [c, d];
    }
    BytesRoundTrip(s);
    var r: seq<Byte> := [d, c, b, a];
    assert Reversed(s) == r;
    assert PixelOf([a]) == a && PixelOf([b, a]) == b + 256 * a by {
      assert [b, a][1..] == [a];
      assert [a][1..] == [];
    }
    assert PixelOf(r) == d + 256 * c + 0x1_0000 * b + 0x100_0000 * a by {
      assert r[1..] == [c, b, a] && [c, b, a][1..] == [b, a];
    }
  }

  lemma FourBytes(v: int) returns (a: int, b: int, c: int, d: int)
    requires 0 <= v < 0x1_0000_0000
    ensures 0 <= a < 256 && 0 <= b < 256 && 0 <= c < 256 && 0 <= d < 256
    ensures v == a + 256 * b + 0x1_0000 * c + 0x100_0000 * d && a == v % 256 && v % 0x100_0000 == v - 0x100_0000 * d
  {
    var v1 := v / 256;
    var v2 := v1 / 256;
    a, b, c, d := v % 256, v1 % 256, v2 % 256, v2 / 256;
    assert v == a + 256 * v1 && v1 == b + 256 * v2 && v2 == c + 256 * d;
    QuotientUnique(v, 0x100_0000, d, a + 256 * b + 0x1_0000 * c);
  }

  /** Cutting a big-endian pixel in memory: its first three bytes are the upper ones. */
  lemma CutSwapped(v: int)
    requires 0 <= v < 0x1_0000_0000
    ensures Swapped(Swapped(v, 4) % 0x100_0000, 4) == v - v % 256
    ensures Swapped(256 * (Swapped(v, 4) / 256 % 0x100_0000), 4) == v % 0x100_0000
  {
    hide Swapped;
    var a, b, c, d := FourBytes(v);
    SwapFour(a, b, c, d);
    var m := d + 256 * c + 0x1_0000 * b + 0x100_0000 * a;
    assert m % 0x100_0000 == d + 256 * c + 0x1_0000 * b;
    SwapFour(d, c, b, 0);
    assert 256 * (m / 256 % 0x100_0000) == 256 * c + 0x1_0000 * b + 0x100_0000 * a;
    SwapFour(0, c, b, a);
  }

  /** Which byte of the pixel is lost, if any: the highest, the lowest, or none. */
  lemma ReceivedIs(v: int, f: PixelFormat)
    requires IsFormat(f) && 0 <= v < Range(f.bits / 8)
    ensures Received(v, f) ==
      if f.bits != 32 then v
      else if f.bigEndian then
        if FitsInMS3Bytes(f) then v - v % 256 else if FitsInLS3Bytes(f) then v % 0x100_0000 else v
      else
        if FitsInLS3Bytes(f) then v % 0x100_0000 else if FitsInMS3Bytes(f) then v - v % 256 else v
  {
    hide Swapped;
    hide FitsInLS3Bytes;
    hide Range;
    hide Kept;
    var m, form := InMemory(v, f), ChosenForm(f);
    SwappedTwice(v, f.bits / 8);
    KeptForms(m, form.bytes, form.dropLow);
    Powers();
    if f.bits == 32 && f.bigEndian {
      CutSwapped(v);
    }
  }

  /** What the forms keep of a pixel in memory. */
  lemma KeptForms(m: int, bytes: nat, dropLow: bool)
    requires 0 <= m && 1 <= bytes <= 4 && (dropLow ==> bytes == 3 && m < Range(4))
    ensures !dropLow && m < Range(bytes) ==> Kept(m, Cpixel(bytes, false)) == m
    ensures !dropLow && bytes == 3 ==> Kept(m, Cpixel(3, false)) == m % 0x100_0000
    ensures dropLow ==> Kept(m, Cpixel(3, true)) == 256 * (m / 256 % 0x100_0000) == m - m % 256
  {
    hide Kept;
    KeptFits(m, Cpixel(bytes, dropLow));
    Powers();
    hide Range;
    if dropLow {
      assert 0 <= m / 256 < 0x100_0000;
    } else if m < Range(bytes) {
      SmallRemainder(m, Range(bytes));
    }
  }

  lemma SmallRemainder(m: int, r: int)
    requires 0 <= m < r
    ensures m % r == m
  {
  }

  // ---- Which formats keep their colours ----

  lemma FieldWithoutTop(v: int, c: Channel)
    requires IsChannel(c) && 0 <= v < Pow2(32) && c.max * Pow2(c.shift) % Pow2(32) < Pow2(24)
    ensures Field(v % Pow2(24), c) == Field(v, c)
  {
    hide Pow2;
    hide Bit;
    hide BitAnd;
    var s, m, w := c.shift, c.max * Pow2(c.shift), v % Pow2(24);
    forall i: nat | Bit(c.max, i) == 1
      ensures Bit(w / Pow2(s), i) == Bit(v / Pow2(s), i)
    {
      BitShifted(w, s, i);
      BitShifted(v, s, i);
      BitScaled(c.max, s, i);
      if s + i < 24 {
        BitOfRemainder(v, 24, s + i);
      } else if s + i >= 32 {
        NoHighBit(v, 32, s + i);
        NoHighBit(w, 24, s + i);
      } else {
        BitOfRemainder(m, 32, s + i);
        NoHighBit(m % Pow2(32), 24, s + i);
      }
    }
    MaskedAlike(w / Pow2(s), v / Pow2(s), c.max);
  }

  lemma FieldWithoutLow(v: int, c: Channel)
    requires IsChannel(c) && c.shift > 7 && 0 <= v
    ensures Field(v - v % 256, c) == Field(v, c)
  {
    hide BitAnd;
    PowersOfTwo();
    Pow2Sum(8, c.shift - 8);
    DivideTwice(v, 256, Pow2(c.shift - 8));
    DivideTwice(v - v % 256, 256, Pow2(c.shift - 8));
    assert (v - v % 256) / 256 == v / 256;
  }

  lemma {:induction false} NoBits(b: nat)
    ensures BitAnd(0, b) == 0
    decreases b
  {
    if b > 0 {
      NoBits(b / 2);
    }
  }

  lemma TopSeen(c: Channel)
    requires IsChannel(c) && ReachesTop(c)
    ensures Field(0x8000_0000, c) > 0 && Field(0, c) == 0
  {
    Powers();
    hide Pow2;
    hide BitAnd;
    hide Bit;
    var m := c.max * Pow2(c.shift);
    TopBit(m % Pow2(32), 31);
    BitOfRemainder(m, 32, 31);
    BitScaled(c.max, c.shift, 31 - c.shift);
    TopBit(Pow2(31), 31);
    BitShifted(Pow2(31), c.shift, 31 - c.shift);
    SharedBit(Pow2(31) / Pow2(c.shift), c.max, 31 - c.shift);
    NothingShifted(Pow2(c.shift));
    NoBits(c.max);
  }

  lemma NothingShifted(p: int)
    requires p >= 1
    ensures 0 / p == 0
  {
  }

  lemma LowEnough(c: Channel)
    requires IsChannel(c) && ShiftedLeft(c) < 0x100_0000 && !ReachesTop(c)
    ensures c.max * Pow2(c.shift) % Pow2(32) < Pow2(24)
  {
    Powers();
  }

  lemma ChannelArrives(v: int, f: PixelFormat, c: Channel)
    requires IsFormat(f) && (c == f.red || c == f.green || c == f.blue) && !LosesColour(f) && 0 <= v < Range(f.bits / 8)
    ensures Field(Received(v, f), c) == Field(v, c)
  {
    hide Field;
    hide ReachesTop;
    hide Received;
    ReceivedIs(v, f);
    Powers();
    if f.bits == 32 && (if f.bigEndian then FitsInMS3Bytes(f) else !FitsInLS3Bytes(f) && FitsInMS3Bytes(f)) {
      FieldWithoutLow(v, c);
    } else if f.bits == 32 && FitsInLS3Bytes(f) {
      LowEnough(c);
      FieldWithoutTop(v, c);
    }
  }

  /** Every colour of every pixel arrives exactly if the format is not one of those for which
      the choice goes wrong. */
  lemma ColoursArrive(f: PixelFormat)
    requires IsFormat(f)
    ensures !LosesColour(f) <==> forall v :: 0 <= v < Range(f.bits / 8) ==> SameColours(Received(v, f), v, f)
  {
    hide Received;
    hide Field;
    if LosesColour(f) {
      var v := 0x8000_0000;
      Powers();
      ReceivedIs(v, f);
      hide ReachesTop;
      hide FitsInLS3Bytes;
      if ReachesTop(f.red) {
        TopSeen(f.red);
      } else if ReachesTop(f.green) {
        TopSeen(f.green);
      } else {
        TopSeen(f.blue);
      }
      assert !SameColours(Received(v, f), v, f);
    } else {
      hide LosesColour;
      forall v | 0 <= v < Range(f.bits / 8)
        ensures SameColours(Received(v, f), v, f)
      {
        ChannelArrives(v, f, f.red);
        ChannelArrives(v, f, f.green);
        ChannelArrives(v, f, f.blue);
      }
    }
  }

  /** The usual format of 32 bits, with eight bits of padding on top: the padding of a pixel
      is dropped, its colours are not. */
  lemma PaddingIsDropped(f: PixelFormat)
    requires f == PixelFormat(32, Channel(16, 255), Channel(8, 255), Channel(0, 255), false)
    ensures ChosenForm(f) == Cpixel(3, false) && !LosesColour(f) && Received(0x0100_0005, f) == 5
  {
    PowersOfTwo();
    Pow2Sum(8, 8);
    Powers();
    assert ShiftedLeft(f.red) == 255 * 0x1_0000 && ShiftedLeft(f.green) == 255 * 256 && ShiftedLeft(f.blue) == 255;
    hide Received;
    ReceivedIs(0x0100_0005, f);
  }

  /** The same with the colours on top and the padding below: red is taken to fit in the
      lower three bytes, and is lost. */
  lemma RedIsLost(f: PixelFormat)
    requires f == PixelFormat(32, Channel(24, 255), Channel(16, 255), Channel(8, 255), false)
    ensures ChosenForm(f) == Cpixel(3, false) && LosesColour(f) && Received(0xFF00_0000, f) == 0
  {
    PowersOfTwo();
    Pow2Sum(8, 8);
    Powers();
    assert ShiftedLeft(f.red) == 0xFF00_0000 - 0x1_0000_0000;
    assert ShiftedLeft(f.green) == 255 * 0x1_0000 && ShiftedLeft(f.blue) == 255 * 256;
    hide Received;
    ReceivedIs(0xFF00_0000, f);
  }

  // ---- A rectangle ----

  /** The part of rfbSendRectEncodingZRLE that chooses the form and encodes: the client decodes
      every pixel as received, and with the colours it had unless the choice went wrong. */
  method EncodeChosen(os: OutStream, s: Screen, rx: int, ry: int, rw: int, rh: int, f: PixelFormat, buf: array<int>)
    returns (ghost out: seq<Byte>, ghost seen: Image)
    requires Within(s, rx, ry, rw, rh) && buf.Length == TILE * TILE + 1 && IsFormat(f)
    requires PictureFits(Area(s, rx, ry, rw, rh), f.bits / 8)
    modifies os, buf
    ensures os.bytes == old(os.bytes) + out && IsImage(seen, rw, rh)
    ensures forall rest :: ZrleRect.Decode(out + rest, rw, rh, ChosenForm(f)) == Some((seen, rest))
    ensures var area := Area(s, rx, ry, rw, rh);
      forall j, i :: 0 <= j < rh && 0 <= i < rw ==>
        && InMemory(seen[j][i], f) == Received(InMemory(area[j][i], f), f)
        && (!LosesColour(f) ==> SameColours(InMemory(seen[j][i], f), InMemory(area[j][i], f), f))
  {
    hide ZrleRect.Decode;
    hide Received;
    hide LosesColour;
    hide SameColours;
    hide ChosenForm;
    ghost var area := Area(s, rx, ry, rw, rh);
    out := EncodeRect(os, s, rx, ry, rw, rh, f.bits / 8, ChosenForm(f), buf);
    seen := KeptRows(area, ChosenForm(f));
    forall j, i | 0 <= j < rh && 0 <= i < rw
      ensures InMemory(seen[j][i], f) == Received(InMemory(area[j][i], f), f)
      ensures !LosesColour(f) ==> SameColours(InMemory(seen[j][i], f), InMemory(area[j][i], f), f)
    {
      assert PixelsFit(area[j], f.bits / 8);
      PixelReceived(area[j][i], f);
    }
  }

  lemma PixelReceived(m: int, f: PixelFormat)
    requires IsFormat(f) && 0 <= m < Range(f.bits / 8)
    ensures InMemory(Kept(m, ChosenForm(f)), f) == Received(InMemory(m, f), f)
    ensures !LosesColour(f) ==> SameColours(InMemory(Kept(m, ChosenForm(f)), f), InMemory(m, f), f)
  {
    hide Kept;
    hide LosesColour;
    hide Field;
    hide Swapped;
    hide ChosenForm;
    SwappedTwice(m, f.bits / 8);
    ColoursArrive(f);
  }
}
