/** Conversions that the Tight encoder makes in place: pixels are read from a byte buffer
    and what they become is written over the front of it, never over a pixel that has not
    been read. */
module TightBuffer {
  import opened Basics
  import opened Bytes
  import opened ZrleFormat
  import opened TightPalette

  /** At p the buffer holds the pixels of row, n bytes each. */
  ghost predicate Holds(s: seq<Byte>, p: nat, row: seq<int>, n: nat) {
    p + |row| * n <= |s| && s[p..p + |row| * n] == RowBytes(row, n)
  }

  lemma HoldsHead(s: seq<Byte>, p: nat, row: seq<int>, n: nat)
    requires Holds(s, p, row, n) && PixelsFit(row, n) && row != [] && n >= 1
    ensures p + n <= |s| && PixelOf(s[p..p + n]) == row[0] && Holds(s, p + n, row[1..], n)
  {
    assert |row| * n == n + (|row| - 1) * n;
    var b := RowBytes(row, n);
    Bytes.Parts(PixelBytes(row[0], n), RowBytes(row[1..], n));
    assert s[p..p + n] == b[..n] && s[p + n..p + |row| * n] == b[n..];
    PixelRoundTrip(row[0], n);
  }

  lemma HoldsKept(s: seq<Byte>, t: seq<Byte>, p: nat, row: seq<int>, n: nat)
    requires Holds(s, p, row, n) && |s| == |t| && p <= |s| && s[p..] == t[p..]
    ensures Holds(t, p, row, n)
  {
    var e := p + |row| * n;
    assert s[p..e] == s[p..][..e - p] && t[p..e] == t[p..][..e - p];
  }

  // ---- Palette indices ----

  /** The bytes are the indices of the pixels. */
  ghost predicate IndicesOf(s: seq<Byte>, pixels: seq<int>, palette: Palette)
    reads palette, palette.node, palette.rgb
  {
    && palette.node.Length == SIZE && palette.rgb.Length == SIZE && |s| == |pixels|
    && forall k :: 0 <= k < |s| ==>
         s[k] < palette.numColors && 0 <= palette.node[s[k]] < SIZE && palette.Entry(s[k]) == pixels[k]
  }

  lemma IndicesRun(s: seq<Byte>, pixels: seq<int>, palette: Palette, v: int, b: Byte, len: nat)
    requires IndicesOf(s, pixels, palette)
    requires b < palette.numColors && 0 <= palette.node[b] < SIZE && palette.Entry(b) == v
    ensures IndicesOf(s + seq(len, _ => b), pixels + seq(len, _ => v), palette)
  {
  }

  /** The run of equal pixels at p: where it ends in the buffer. */
  method SkipRun(buf: array<Byte>, p: nat, n: nat, left: nat, rgb: int, ghost pixels: seq<int>)
    returns (q: nat, rep: nat)
    requires n >= 1 && |pixels| == left && PixelsFit(pixels, n) && Holds(buf[..], p, pixels, n)
    ensures rep <= left && q >= p + rep && Holds(buf[..], q, pixels[rep..], n)
    ensures forall k :: 0 <= k < rep ==> pixels[k] == rgb
    ensures rep < left ==> pixels[rep] != rgb
  {
    q, rep := p, 0;
    while rep < left
      invariant rep <= left && q >= p + rep && Holds(buf[..], q, pixels[rep..], n)
      invariant forall k :: 0 <= k < rep ==> pixels[k] == rgb
    {
      HoldsHead(buf[..], q, pixels[rep..], n);
      assert buf[..][q..q + n] == buf[q..q + n];
      if PixelOf(buf[q..q + n]) != rgb { break; }
      assert pixels[rep..][1..] == pixels[rep + 1..];
      rep := rep + 1;
      q := q + n;
    }
  }

  /** A byte written len times from d on. */
  method Fill(buf: array<Byte>, d: nat, len: nat, b: Byte)
    requires d + len <= buf.Length
    modifies buf
    ensures buf[..d + len] == old(buf[..d]) + seq(len, _ => b)
    ensures buf[d + len..] == old(buf[d + len..])
  {
    var i := 0;
    while i < len
      invariant 0 <= i <= len
      invariant forall k :: 0 <= k < buf.Length ==> buf[k] == if d <= k < d + i then b else old(buf[k])
    {
      buf[d + i] := b;
      i := i + 1;
    }
  }

  /** The index of a run goes in front of the pixels that have not been read. */
  method PutIndices(buf: array<Byte>, i: nat, len: nat, b: Byte, palette: Palette, ghost before: seq<int>, ghost v: int,
                    ghost q: nat, ghost row: seq<int>, ghost n: nat)
    requires i + len <= q && Holds(buf[..], q, row, n) && i + len <= buf.Length && IndicesOf(buf[..i], before, palette)
    requires b < palette.numColors && 0 <= palette.node[b] < SIZE && palette.Entry(b) == v
    modifies buf
    ensures IndicesOf(buf[..i + len], before + seq(len, _ => v), palette) && Holds(buf[..], q, row, n)
  {
    hide Holds;
    HoldsBound(buf[..], q, row, n);
    ghost var was := buf[..];
    Fill(buf, i, len, b);
    assert was[i + len..] == buf[..][i + len..];
    assert was[q..] == was[i + len..][q - (i + len)..] && buf[..][q..] == buf[..][i + len..][q - (i + len)..];
    HoldsKept(was, buf[..], q, row, n);
    IndicesRun(was[..i], before, palette, v, b, len);
  }

  /** The walk along the chain of a colour that is in the palette. */
  method IndexOf(palette: Palette, rgb: int) returns (b: Byte)
    requires palette.Valid() && rgb in palette.Colours() && IsPixel(rgb, palette.bpp)
    ensures b < palette.numColors && 0 <= palette.node[b] < SIZE && palette.Entry(b) == rgb
  {
    hide Order;
    hide Chains;
    hide Distinct;
    var pnode, prev := palette.Find(rgb);
    palette.EntryInRange(pnode);
    b := palette.idx[pnode];
  }

  lemma NoIndices(palette: Palette)
    requires palette.node.Length == SIZE && palette.rgb.Length == SIZE
    ensures IndicesOf([], [], palette)
  {
  }

  lemma SuffixesFit(pixels: seq<int>, n: nat)
    requires PixelsFit(pixels, n)
    ensures forall k :: 0 <= k <= |pixels| ==> PixelsFit(pixels[k..], n)
  {
  }

  /** EncodeIndexedRect16 and 32. */
  method EncodeIndexedRect(buf: array<Byte>, count: nat, n: nat, palette: Palette, ghost pixels: seq<int>)
    requires palette.Valid() && n >= 1 && |pixels| == count && PixelsFit(pixels, n) && Holds(buf[..], 0, pixels, n)
    requires forall k :: 0 <= k < count ==> pixels[k] in palette.Colours() && IsPixel(pixels[k], palette.bpp)
    modifies buf
    ensures count <= buf.Length && IndicesOf(buf[..count], pixels, palette)
  {
    hide Order;
    hide Chains;
    hide Distinct;
    hide Holds;
    hide IndicesOf;
    hide PixelsFit;
    var i, p := 0, 0;
    NoIndices(palette);
    SuffixesFit(pixels, n);
    assert pixels[0..] == pixels && pixels[..0] == [] && buf[..0] == [];
    while i < count
      invariant 0 <= i <= count && i <= p && i <= buf.Length
      invariant Holds(buf[..], p, pixels[i..], n)
      invariant IndicesOf(buf[..i], pixels[..i], palette)
    {
      HoldsHead(buf[..], p, pixels[i..], n);
      assert buf[..][p..p + n] == buf[p..p + n];
      var rgb := PixelOf(buf[p..p + n]);
      assert pixels[i..][1..] == pixels[i + 1..] && pixels[i] == rgb;
      var q, rep := SkipRun(buf, p + n, n, count - i - 1, rgb, pixels[i + 1..]);
      var index := IndexOf(palette, rgb);
      HoldsBound(buf[..], q, pixels[i + 1..][rep..], n);
      PutIndices(buf, i, rep + 1, index, palette, pixels[..i], rgb, q, pixels[i + 1..][rep..], n);
      assert pixels[i + 1..][rep..] == pixels[i + 1 + rep..];
      RunOf(pixels, pixels[i + 1..], i, rep, rgb);
      i, p := i + 1 + rep, q;
    }
    assert pixels[..count] == pixels;
  }

  lemma HoldsBound(s: seq<Byte>, p: nat, row: seq<int>, n: nat)
    requires Holds(s, p, row, n)
    ensures p <= |s|
  {
  }

  lemma RunOf(pixels: seq<int>, tail: seq<int>, i: nat, rep: nat, v: int)
    requires i + 1 + rep <= |pixels| && pixels[i] == v && tail == pixels[i + 1..]
    requires forall k :: 0 <= k < rep ==> tail[k] == v
    ensures pixels[..i] + seq(rep + 1, _ => v) == pixels[..i + 1 + rep]
  {
    forall k | i < k < i + 1 + rep
      ensures pixels[k] == v
    {
      assert pixels[k] == tail[k - i - 1];
    }
  }

  // ---- One bit to a pixel ----

  function Bit(v: int, bg: int): int {
    if v == bg then 0 else 1
  }

  function Bits(row: seq<int>, bg: int): (r: seq<int>)
    ensures |r| == |row| && AreIndices(r, 2)
  {
    seq(|row|, i requires 0 <= i < |row| => Bit(row[i], bg))
  }

  lemma BitsColours(row: seq<int>, bg: int, fg: int)
    requires forall k :: 0 <= k < |row| ==> row[k] == bg || row[k] == fg
    ensures Colours(Bits(row, bg), [bg, fg]) == row
  {
  }

  /** value |= mask, for a mask of one bit. */
  function OrBit(value: int, mask: int): int
    requires mask > 0
  {
    if value / mask % 2 == 1 then value else value + mask
  }

  /** The byte of some bits, first one on top, when the next bit comes in at mask. */
  ghost predicate Collected(bits: seq<int>, value: int, mask: int) {
    |bits| <= 8 && AreIndices(bits, 2) && value == Top(bits, 1) && 2 * mask == Pow2(8 - |bits|)
  }

  lemma CollectStart()
    ensures Collected([], 0, 0x80)
  {
    PowersOfTwo();
  }

  lemma CollectStep(bits: seq<int>, value: int, mask: int, b: int)
    requires Collected(bits, value, mask) && |bits| < 8 && 0 <= b < 2
    ensures 1 <= mask
    ensures |bits| < 7 ==> Collected(bits + [b], if b == 1 then OrBit(value, mask) else value, mask / 2)
    ensures (if b == 1 then OrBit(value, mask) else value) == Top(bits + [b], 1)
  {
    var all := bits + [b];
    var p, left := Pack(bits, 1), 7 - |bits|;
    TwiceOne(left);
    PackSnoc(bits, b);
    hide Pack;
    hide Pow2;
    assert Top(all, 1) == (2 * p + b) * mask;
    assert value == p * (2 * mask);
    AddBit(p, b, mask);
    Halves(p, mask, value);
    if |bits| < 7 {
      TwiceOne(left - 1);
    }
  }

  lemma TwiceOne(k: nat)
    ensures Pow2(k + 1) == 2 * Pow2(k)
  {
  }

  lemma PackSnoc(bits: seq<int>, b: int)
    ensures Pack(bits + [b], 1) == 2 * Pack(bits, 1) + b
  {
    assert (bits + [b])[..|bits|] == bits;
    TwiceOne(0);
  }

  lemma AddBit(p: int, b: int, mask: int)
    ensures (2 * p + b) * mask == p * (2 * mask) + b * mask
  {
  }

  lemma Halves(p: int, mask: int, value: int)
    requires mask > 0 && value == p * (2 * mask)
    ensures value / mask % 2 == 0
  {
    assert value == (2 * p) * mask + 0;
    QuotientUnique(value, mask, 2 * p, 0);
  }

  lemma {:induction false} ZeroBits(k: nat)
    requires k <= 8
    ensures Pack(seq(k, _ => 0), 1) == 0
    decreases k
  {
    if k > 0 {
      var s := seq(k, _ => 0);
      assert s[..k - 1] == seq(k - 1, _ => 0);
      ZeroBits(k - 1);
    }
  }

  /** Leading background: the byte so far is 0 and the next mask is shifted down. */
  lemma CollectZeros(k: nat)
    requires k <= 8
    ensures k < 8 ==> Collected(seq(k, _ => 0), 0, Pow2(7 - k))
    ensures k == 8 ==> Top(seq(8, _ => 0), 1) == 0
  {
    ZeroBits(k);
    if k < 8 {
      assert Pow2(8 - k) == 2 * Pow2(7 - k);
    }
  }

  /** One pixel of the row. */
  lemma NextBit(s: seq<Byte>, p: nat, row: seq<int>, k: nat, n: nat, bg: int)
    requires k < |row| && Holds(s, p, row[k..], n) && PixelsFit(row, n) && n >= 1
    ensures p + n <= |s| && PixelOf(s[p..p + n]) == row[k] && Holds(s, p + n, row[k + 1..], n)
    ensures Bits(row[..k + 1], bg) == Bits(row[..k], bg) + [Bit(row[k], bg)]
  {
    HoldsHead(s, p, row[k..], n);
    assert row[k..][1..] == row[k + 1..];
  }

  /** Eight pixels: leading ones that are background are passed without touching the mask. */
  method MonoByte(buf: array<Byte>, p: nat, n: nat, bg: int, ghost row: seq<int>) returns (value: int, q: nat)
    requires |row| >= 8 && n >= 1 && PixelsFit(row, n) && Holds(buf[..], p, row, n)
    ensures value == Top(Bits(row[..8], bg), 1) && q >= p + 8 && Holds(buf[..], q, row[8..], n)
  {
    hide Holds;
    hide Top;
    hide PixelsFit;
    var k := 0;
    q := p;
    assert row[0..] == row;
    var other := false;
    while k < 8 && !other
      invariant 0 <= k <= 8 && q >= p + k && Holds(buf[..], q, row[k..], n)
      invariant if other then k > 0 && Bits(row[..k], bg) == seq(k - 1, _ => 0) + [1] else Bits(row[..k], bg) == seq(k, _ => 0)
      decreases 8 - k
    {
      NextBit(buf[..], q, row, k, n, bg);
      assert buf[..][q..q + n] == buf[q..q + n];
      other := PixelOf(buf[q..q + n]) != bg;
      k := k + 1;
      q := q + n;
    }
    if !other {
      CollectZeros(8);
      return 0, q;
    }
    CollectZeros(k - 1);
    PowersOfTwo();
    var mask := Pow2(8 - k);
    CollectStep(seq(k - 1, _ => 0), 0, mask, 1);
    assert OrBit(0, mask) == mask;
    value := mask;
    while k < 8
      invariant 0 < k <= 8 && q >= p + k && Holds(buf[..], q, row[k..], n)
      invariant value == Top(Bits(row[..k], bg), 1)
      invariant k < 8 ==> Collected(Bits(row[..k], bg), value, mask / 2)
    {
      mask := mask / 2;
      NextBit(buf[..], q, row, k, n, bg);
      CollectStep(Bits(row[..k], bg), value, mask, Bit(row[k], bg));
      assert buf[..][q..q + n] == buf[q..q + n];
      if PixelOf(buf[q..q + n]) != bg {
        value := OrBit(value, mask);
      }
      k := k + 1;
      q := q + n;
    }
  }

  /** The last pixels of a row, fewer than eight. */
  method MonoRest(buf: array<Byte>, p: nat, n: nat, bg: int, left: nat, ghost row: seq<int>) returns (value: int, q: nat)
    requires 0 < left < 8 && |row| >= left && n >= 1 && PixelsFit(row, n) && Holds(buf[..], p, row, n)
    ensures value == Top(Bits(row[..left], bg), 1) && q >= p + left && Holds(buf[..], q, row[left..], n)
  {
    hide Holds;
    hide Top;
    hide PixelsFit;
    var mask, k := 0x80, 0;
    value, q := 0, p;
    CollectStart();
    assert row[0..] == row && Bits(row[..0], bg) == [];
    while k < left
      invariant 0 <= k <= left && q >= p + k && Holds(buf[..], q, row[k..], n)
      invariant Collected(Bits(row[..k], bg), value, mask)
    {
      NextBit(buf[..], q, row, k, n, bg);
      CollectStep(Bits(row[..k], bg), value, mask, Bit(row[k], bg));
      assert buf[..][q..q + n] == buf[q..q + n];
      if PixelOf(buf[q..q + n]) != bg {
        value := OrBit(value, mask);
      }
      mask := mask / 2;
      k := k + 1;
      q := q + n;
    }
  }

  /** A byte of bits goes in front of the pixels that have not been read. */
  method PutBits(buf: array<Byte>, d: nat, value: Byte, ghost q: nat, ghost row: seq<int>, ghost n: nat)
    requires d < q && Holds(buf[..], q, row, n) && d < buf.Length
    modifies buf
    ensures buf[..d + 1] == old(buf[..d]) + [value] && Holds(buf[..], q, row, n)
  {
    hide Holds;
    HoldsBound(buf[..], q, row, n);
    ghost var was := buf[..];
    buf[d] := value;
    assert was[q..] == buf[..][q..];
    HoldsKept(was, buf[..], q, row, n);
  }

  /** The bits of the next pixels complete one more byte of the row. */
  lemma BitsStep(out: seq<Byte>, w: nat, rest: seq<int>, x: nat, k: nat, bg: int, fg: int)
    requires x < w <= |rest| && k == (if w - x < 8 then w - x else 8)
    requires RowGives(out, w, rest[..x], 1, [bg, fg])
    requires forall i :: 0 <= i < |rest| ==> rest[i] == bg || rest[i] == fg
    ensures var b := Top(Bits(rest[x..][..k], bg), 1);
      0 <= b < 256 && RowGives(out + [b], w, rest[..x + k], 1, [bg, fg])
  {
    hide RowGives;
    hide Top;
    var cur := rest[x..][..k];
    PowersOfTwo();
    BitsColours(cur, bg, fg);
    RowGivesStep(out, w, rest[..x], 1, [bg, fg], Bits(cur, bg));
    assert rest[..x] + cur == rest[..x + k];
  }

  /** One row of EncodeMonoRect. */
  method EncodeMonoRow(buf: array<Byte>, p: nat, d: nat, w: nat, n: nat, bg: int, ghost fg: int, ghost rest: seq<int>)
    returns (q: nat, e: nat, ghost out: seq<Byte>)
    requires n >= 1 && w <= |rest| && d <= p && PixelsFit(rest, n) && Holds(buf[..], p, rest, n)
    requires forall i :: 0 <= i < |rest| ==> rest[i] == bg || rest[i] == fg
    modifies buf
    ensures e == d + (w + 7) / 8 && e <= q && e <= buf.Length && buf[..e] == old(buf[..d]) + out
    ensures Holds(buf[..], q, rest[w..], n) && RowGives(out, w, rest[..w], 1, [bg, fg])
  {
    hide Holds;
    hide RowGives;
    hide Top;
    hide PixelsFit;
    SuffixesFit(rest, n);
    HoldsBound(buf[..], p, rest, n);
    q, e, out := p, d, [];
    RowGivesNothing(w, 1, [bg, fg]);
    assert rest[0..] == rest && rest[..0] == [];
    var x, value := 0, 0;
    var alignedWidth := w - w % 8;
    while x < alignedWidth
      invariant 0 <= x <= alignedWidth && x % 8 == 0 && e == d + x / 8 && q >= p + x && e <= buf.Length
      invariant Holds(buf[..], q, rest[x..], n) && RowGives(out, w, rest[..x], 1, [bg, fg])
      invariant buf[..e] == old(buf[..d]) + out
    {
      value, q := MonoByte(buf, q, n, bg, rest[x..]);
      assert rest[x..][8..] == rest[x + 8..];
      BitsStep(out, w, rest, x, 8, bg, fg);
      HoldsBound(buf[..], q, rest[x + 8..], n);
      PutBits(buf, e, value, q, rest[x + 8..], n);
      out := out + [value];
      e, x := e + 1, x + 8;
    }
    if x < w {
      value, q := MonoRest(buf, q, n, bg, w - x, rest[x..]);
      assert rest[x..][w - x..] == rest[w..];
      BitsStep(out, w, rest, x, w - x, bg, fg);
      HoldsBound(buf[..], q, rest[w..], n);
      PutBits(buf, e, value, q, rest[w..], n);
      out := out + [value];
      e := e + 1;
    }
  }

  /** EncodeMonoRect8, 16 and 32: a bit to a pixel, every row in bytes of its own. Decoding
      finds the pixels again. */
  method EncodeMonoRect(buf: array<Byte>, w: nat, h: nat, n: nat, bg: int, ghost fg: int, ghost pixels: seq<int>)
    returns (len: nat)
    requires n >= 1 && |pixels| == h * w && PixelsFit(pixels, n) && Holds(buf[..], 0, pixels, n)
    requires forall i :: 0 <= i < |pixels| ==> pixels[i] == bg || pixels[i] == fg
    modifies buf
    ensures len == h * ((w + 7) / 8) && len <= buf.Length
    ensures forall rest :: DecodePacked(buf[..len] + rest, w, h, 1, [bg, fg]) == Some((pixels, rest))
  {
    hide Holds;
    hide RowGives;
    hide RowsGive;
    hide PixelsFit;
    SuffixesFit(pixels, n);
    var y, p := 0, 0;
    ghost var i := 0;  // pixels read
    len := 0;
    RowsGiveNothing(w, h, 1, [bg, fg]);
    assert pixels[0..] == pixels && pixels[..0] == [] && buf[..0] == [];
    while y < h
      invariant 0 <= y <= h && i == y * w <= |pixels| && len == y * ((w + 7) / 8) && len <= p && len <= buf.Length
      invariant Holds(buf[..], p, pixels[i..], n) && RowsGive(buf[..len], w, h, y, pixels[..i], 1, [bg, fg])
    {
      OneMore(y, w);
      OneMore(y, (w + 7) / 8);
      MulMonotone(y + 1, h, w);
      ghost var before, out := buf[..len], [];
      p, len, out := EncodeMonoRow(buf, p, len, w, n, bg, fg, pixels[i..]);
      RowsGiveStep(before, w, h, y, pixels[..i], 1, [bg, fg], out, pixels[i..][..w]);
      assert pixels[i..][w..] == pixels[i + w..] && pixels[..i] + pixels[i..][..w] == pixels[..i + w];
      i := i + w;
      y := y + 1;
    }
    assert pixels[..i] == pixels;
    RowsEnd(buf[..len], w, h, pixels, [bg, fg]);
  }

  lemma RowsEnd(out: seq<Byte>, w: nat, h: nat, pixels: seq<int>, pal: seq<int>)
    requires RowsGive(out, w, h, h, pixels, 1, pal)
    ensures forall rest :: DecodePacked(out + rest, w, h, 1, pal) == Some((pixels, rest))
  {
    forall rest
      ensures DecodePacked(out + rest, w, h, 1, pal) == Some((pixels, rest))
    {
      assert DecodePacked(rest, w, 0, 1, pal) == Some(([], rest));
      assert pixels + [] == pixels;
    }
  }

  // ---- Three bytes to a pixel ----

  /** Byte k of a pixel, (pix >> 8 * k) & 0xFF. */
  function ByteOf(pix: int, k: nat): (b: int)
    requires k < 4
    ensures 0 <= b < 256
  {
    pix / Range(k) % 256
  }

  /** Where the colours lie in a pixel of four bytes. */
  datatype Layout = Layout(r: nat, g: nat, b: nat)

  predicate Fine(l: Layout) {
    l.r < 4 && l.g < 4 && l.b < 4 && l.r != l.g && l.r != l.b && l.g != l.b
  }

  function Samples(pix: int, l: Layout): (s: seq<Byte>)
    requires Fine(l)
    ensures |s| == 3
  {
    [ByteOf(pix, l.r), ByteOf(pix, l.g), ByteOf(pix, l.b)]
  }

  function AllSamples(pixels: seq<int>, l: Layout): (s: seq<Byte>)
    requires Fine(l)
    ensures |s| == 3 * |pixels|
    decreases |pixels|
  {
    if pixels == [] then [] else AllSamples(pixels[..|pixels| - 1], l) + Samples(pixels[|pixels| - 1], l)
  }

  /** What the client makes of three samples. */
  function Rebuilt(r: int, g: int, b: int, l: Layout): int {
    r * Range(l.r) + g * Range(l.g) + b * Range(l.b)
  }

  /** A pixel with nothing in its fourth byte is recovered. */
  lemma SamplesRebuild(pix: int, l: Layout)
    requires Fine(l) && 0 <= pix < 0x1_0000_0000
    requires forall k: nat :: k < 4 && k != l.r && k != l.g && k != l.b ==> ByteOf(pix, k) == 0
    ensures var s := Samples(pix, l); Rebuilt(s[0], s[1], s[2], l) == pix
  {
    FourBytes(pix);
    var b0, b1, b2, b3 := ByteOf(pix, 0), ByteOf(pix, 1), ByteOf(pix, 2), ByteOf(pix, 3);
    RangeValues();
    assert l.r == 0 || l.r == 1 || l.r == 2 || l.r == 3;
    assert l.g == 0 || l.g == 1 || l.g == 2 || l.g == 3;
    assert l.b == 0 || l.b == 1 || l.b == 2 || l.b == 3;
  }

  lemma RangeValues()
    ensures Range(0) == 1 && Range(1) == 256 && Range(2) == 0x1_0000 && Range(3) == 0x100_0000
  {
    assert Range(2) == 0x1_0000;
  }

  lemma FourBytes(pix: int)
    requires 0 <= pix < 0x1_0000_0000
    ensures pix == ByteOf(pix, 0) + 256 * ByteOf(pix, 1) + 0x1_0000 * ByteOf(pix, 2) + 0x100_0000 * ByteOf(pix, 3)
  {
    RangeValues();
  }

  /** Three bytes go in front of the pixels that have not been read. */
  method PutThree(buf: array<Byte>, d: nat, a: Byte, b: Byte, c: Byte, ghost q: nat, ghost row: seq<int>, ghost n: nat)
    requires d + 3 <= q && d + 3 <= buf.Length && Holds(buf[..], q, row, n)
    modifies buf
    ensures buf[..d + 3] == old(buf[..d]) + [a, b, c] && Holds(buf[..], q, row, n)
  {
    hide Holds;
    HoldsBound(buf[..], q, row, n);
    ghost var was := buf[..];
    buf[d], buf[d + 1], buf[d + 2] := a, b, c;
    assert was[q..] == buf[..][q..];
    HoldsKept(was, buf[..], q, row, n);
  }

  /** Pack24. */
  method Pack24(buf: array<Byte>, count: nat, l: Layout, ghost pixels: seq<int>)
    requires Fine(l) && |pixels| == count && PixelsFit(pixels, 4) && Holds(buf[..], 0, pixels, 4)
    modifies buf
    ensures 3 * count <= buf.Length && buf[..3 * count] == AllSamples(pixels, l)
  {
    hide PixelsFit;
    hide Holds;
    hide PixelOf;
    hide ByteOf;
    SuffixesFit(pixels, 4);
    HoldsAll(buf[..], pixels, 4);
    assert pixels[0..] == pixels && pixels[..0] == [] && buf[..0] == [];
    var i := 0;
    while i < count
      invariant 0 <= i <= count && Holds(buf[..], 4 * i, pixels[i..], 4)
      invariant buf[..3 * i] == AllSamples(pixels[..i], l)
    {
      HoldsHead(buf[..], 4 * i, pixels[i..], 4);
      assert buf[..][4 * i..4 * i + 4] == buf[4 * i..4 * i + 4] && pixels[i..][1..] == pixels[i + 1..];
      var pix := PixelOf(buf[4 * i..4 * i + 4]);
      PutThree(buf, 3 * i, ByteOf(pix, l.r), ByteOf(pix, l.g), ByteOf(pix, l.b), 4 * i + 4, pixels[i + 1..], 4);
      assert pixels[..i + 1][..i] == pixels[..i];
      i := i + 1;
    }
    assert pixels[..count] == pixels;
  }

  lemma HoldsAll(s: seq<Byte>, row: seq<int>, n: nat)
    requires Holds(s, 0, row, n)
    ensures |row| * n <= |s|
  {
  }
}
