/** How the Tight encoder sends one rectangle: it counts the colours, converts the pixels in
    place in the way they call for, and compresses what comes out. */
module TightRect {
  import opened Basics
  import opened Bytes
  import opened Images
  import opened UpdateBuffer
  import opened ZrleFormat
  import opened TightPalette
  import opened TightFill
  import opened TightBuffer
  import opened TightGradient
  import opened TightGradientFields
  import opened TightFormat
  import opened TightWays
  import opened TightLevels
  import opened Rectangles
  import opened RegionForm
  import ZrleRect
  import TightData

  // ---- Pixels and bytes ----

  lemma {:induction false} RowBytesSnoc(row: seq<int>, v: int, n: nat)
    ensures RowBytes(row + [v], n) == RowBytes(row, n) + PixelBytes(v, n)
    decreases |row|
  {
    if row == [] {
      assert (row + [v])[1..] == [];
      assert PixelBytes(v, n) + [] == PixelBytes(v, n);
    } else {
      RowBytesSnoc(row[1..], v, n);
      assert (row + [v])[1..] == row[1..] + [v];
      Regroup(PixelBytes(row[0], n), RowBytes(row[1..], n), PixelBytes(v, n));
    }
  }

  /** Some bytes are put into a buffer. */
  method PutAt(buf: array<Byte>, at: nat, s: seq<Byte>)
    requires at + |s| <= buf.Length
    modifies buf
    ensures buf[..at + |s|] == old(buf[..at]) + s
  {
    var i := 0;
    while i < |s|
      invariant 0 <= i <= |s| && buf[..at + i] == old(buf[..at]) + s[..i]
    {
      buf[at + i] := s[i];
      i := i + 1;
    }
    assert s[..i] == s;
  }

  /** Pixels put into a buffer of bytes, which the source reads as either. */
  method Store(pixels: seq<int>, n: nat, buf: array<Byte>)
    requires |pixels| * n <= buf.Length
    modifies buf
    ensures Holds(buf[..], 0, pixels, n)
  {
    var i, at := 0, 0;
    assert pixels[..0] == [] && buf[..0] == [];
    while i < |pixels|
      invariant 0 <= i <= |pixels| && at == i * n && at <= buf.Length
      invariant buf[..at] == RowBytes(pixels[..i], n)
    {
      OneMore(i, n);
      MulMonotone(i + 1, |pixels|, n);
      PutAt(buf, at, PixelBytes(pixels[i], n));
      RowBytesSnoc(pixels[..i], pixels[i], n);
      assert pixels[..i + 1] == pixels[..i] + [pixels[i]];
      at := at + n;
      i := i + 1;
    }
    assert pixels[..i] == pixels;
    assert buf[..][0..0 + |pixels| * n] == buf[..at];
  }

  lemma HoldsBytes(s: seq<Byte>, pixels: seq<int>, n: nat)
    requires Holds(s, 0, pixels, n)
    ensures 0 <= |pixels| * n <= |s| && s[..|pixels| * n] == RowBytes(pixels, n)
  {
  }

  /** Pack24, if it is called for: the pixels as they go out are in front of the buffer. */
  method PackIfNeeded(buf: array<Byte>, count: nat, f: Format, ghost pixels: seq<int>)
    requires IsFormat(f) && |pixels| == count && PixelsFit(pixels, f.n) && Holds(buf[..], 0, pixels, f.n)
    modifies buf
    ensures count * Width(f) <= buf.Length && buf[..count * Width(f)] == TPixelsOut(pixels, f)
  {
    hide IsForm;
    hide Holds;
    hide PixelsFit;
    hide AllSamples;
    HoldsBytes(buf[..], pixels, f.n);
    if f.packed.Some? {
      Pack24(buf, count, f.packed.value, pixels);
    } else {
      assert buf[..][..count * f.n] == buf[..count * f.n];
    }
  }

  /** The first pixel of those in a buffer. */
  lemma HoldsFirst(s: seq<Byte>, pixels: seq<int>, n: nat)
    requires Holds(s, 0, pixels, n) && pixels != [] && PixelsFit(pixels, n)
    ensures Holds(s, 0, [pixels[0]], n) && PixelsFit([pixels[0]], n)
  {
    var v := pixels[0];
    assert |pixels| * n == n + (|pixels| - 1) * n;
    MulMonotone(0, |pixels| - 1, n);
    Bytes.Parts(PixelBytes(v, n), RowBytes(pixels[1..], n));
    assert s[0..n] == s[0..|pixels| * n][..n];
    assert RowBytes([v], n) == PixelBytes(v, n) + RowBytes([], n);
    assert [v][1..] == [];
    assert PixelBytes(v, n) + [] == PixelBytes(v, n);
  }

  /** The pixels as the client sees them: as they are, or reduced to their colours. */
  ghost predicate Faithful(seen: seq<int>, pixels: seq<int>, f: Format)
    requires IsFormat(f)
  {
    seen == pixels || (f.n > 1 && seen == AllPlain(pixels, f))
  }

  lemma ShownFaithful(pixels: seq<int>, f: Format)
    requires IsFormat(f)
    ensures Faithful(Shown(pixels, f), pixels, f)
  {
  }

  lemma ShownRepeat(v: int, k: nat, f: Format)
    requires IsFormat(f)
    ensures Repeat(Shown([v], f)[0], k) == Shown(Repeat(v, k), f)
  {
  }

  /** In any case it sees the same colours. */
  lemma FaithfulColours(seen: seq<int>, pixels: seq<int>, f: Format)
    requires IsFormat(f) && Faithful(seen, pixels, f) && f.n > 1
    ensures |seen| == |pixels| && forall i :: 0 <= i < |pixels| ==> SamplesIn(seen[i], f) == SamplesIn(pixels[i], f)
  {
    hide SamplesIn;
    forall i | 0 <= i < |pixels|
      ensures SamplesIn(seen[i], f) == SamplesIn(pixels[i], f)
    {
      PlainKeepsSamples(pixels[i], f);
    }
  }

  // ---- The encoder ----

  const ENCODING_TIGHT := 7

  ghost predicate StartsWith(out: seq<Byte>, b: int) {
    out != [] && out[0] == b
  }

  /** How many colours a palette may have for n pixels. */
  function PaletteMaxColors(n: nat, c: Conf): int
    requires IsConf(c)
  {
    if n / c.idxMaxColorsDivisor < 2 && n >= c.monoMinRectSize then 2 else n / c.idxMaxColorsDivisor
  }

  /** The way to send that goes with a number of colours, 0 standing for too many: a fill,
      bits, indices, differences or the pixels themselves. */
  function ControlByte(num: int, gradient: bool): int {
    if num == 1 then 0x80
    else if num == 2 then 0x50
    else if num > 2 then 0x60
    else if gradient then 0x70
    else 0
  }

  class TightCoder {
    const cl: UpdateBuf
    const before: array<Byte>       // tightBeforeBuf
    const after: array<Byte>        // tightAfterBuf
    const prevRowBuf: array<int>
    const codec: Codec
    const format: Format
    const conf: Conf
    var past: Streams               // zsStruct

    constructor (cl: UpdateBuf, codec: Codec, format: Format, level: int)
      requires cl.Valid() && Lossless(codec) && IsFormat(format) && 0 <= level < 10
      ensures Valid() && this.cl == cl && this.codec == codec && this.format == format && conf == TightConf(level)
      ensures fresh(before) && fresh(after) && fresh(prevRowBuf) && past == [[], [], [], []]
    {
      hide IsForm;
      hide Lossless;
      this.cl, this.codec, this.format, conf := cl, codec, format, TightConf(level);
      past := [[], [], [], []];
      AfterSizeSmall(TightConf(level), format.n);
      var size: nat := TightConf(level).maxRectSize * format.n;
      before := new Byte[size](_ => 0);
      after := new Byte[AfterSize(size)](_ => 0);
      prevRowBuf := new int[2048 * 3];
    }

    ghost predicate Valid()
      reads this, cl
    {
      && cl.Valid() && IsFormat(format) && Lossless(codec) && IsConf(conf)
      && before != cl.updateBuf && after != cl.updateBuf && before != after
      && conf.maxRectSize * format.n <= before.Length && 256 * format.n <= after.Length < 0x40_0000
      && 3 * 2048 <= prevRowBuf.Length
    }

    lemma RoomForOne()
      requires Valid()
      ensures cl.Valid() && IsFormat(format) && format.n <= before.Length && before != cl.updateBuf
    {
      MulMonotone(1, conf.maxRectSize, format.n);
    }

    /** Whatever is compressed fits into the after-buffer. */
    ghost predicate Roomy() {
      forall level, past, data ::
        |data| <= conf.maxRectSize * format.n ==> |codec.deflate(level, past, data)| < after.Length
    }

    /** What the client sees of a rectangle in the bytes sent for it. */
    ghost predicate Sees(out: seq<Byte>, w: nat, h: nat, st: Streams, st': Streams, pixels: seq<int>, seen: seq<int>) {
      IsFormat(format) && RectGives(out, w, h, format, codec, st, st', seen) && Faithful(seen, pixels, format)
    }

    /** The way the pixels are sent goes by the number of their colours. */
    ghost predicate RightWay(out: seq<Byte>, pixels: seq<int>, smooth: bool) {
      && IsConf(conf)
      && StartsWith(out, ControlByte(NumColours(pixels, PaletteMaxColors(|pixels|, conf), if format.n == 1 then 2 else 256),
                                     smooth && format.n > 1))
    }

    /** CompressData, with SendCompressedData. It fails if the after-buffer becomes full. */
    method CompressData(id: nat, dataLen: nat) returns (ok: bool, ghost out: seq<Byte>)
      requires Valid() && id < 4 && dataLen <= before.Length && cl.ublen + MIN_TO_COMPRESS <= UPDATE_BUF_SIZE
      modifies this`past, cl, cl.updateBuf
      ensures Valid()
      ensures ok ==> cl.Stream() == old(cl.Stream()) + out
      ensures ok ==> DataGives(out, old(before[..dataLen]), id, codec, old(past), past)
      ensures cl.healthy && Roomy() && dataLen <= conf.maxRectSize * format.n ==> ok
    {
      hide IsFormat;
      hide Lossless;
      hide DataGives;
      var data := before[..dataLen];
      if dataLen < MIN_TO_COMPRESS {
        cl.Put(data);
        out := data;
        ShortDataGives(data, id, codec, past);
        return true, out;
      }
      var z := codec.deflate(ZlibLevel(conf, id), past[id], data);
      if |z| >= after.Length { return false, []; }
      LongDataGives(data, id, ZlibLevel(conf, id), codec, past);
      past := past[id := past[id] + [data]];
      ok := TightData.SendCompressedData(cl, z);
      out := TightData.CompactLength(|z|) + z;
    }

    /** SendSolidRect. */
    method SendSolidRect(ghost w: nat, ghost h: nat, ghost v: int) returns (ok: bool, ghost out: seq<Byte>)
      requires Valid() && Holds(before[..], 0, [v], format.n) && PixelsFit([v], format.n)
      modifies cl, cl.updateBuf, before
      ensures Valid()
      ensures ok ==> cl.Stream() == old(cl.Stream()) + out
      ensures ok ==> Sees(out, w, h, past, past, Repeat(v, h * w), Shown(Repeat(v, h * w), format))
      ensures cl.healthy ==> ok
      ensures ok ==> StartsWith(out, 0x80)
    {
      hide Lossless;
      hide RectGives;
      hide Shown;
      hide Holds;
      hide IsForm;
      PackIfNeeded(before, 1, format, [v]);
      var len := Width(format);
      ok := cl.MakeRoom(1 + len);
      if !ok { return ok, []; }
      ghost var was := cl.Stream();
      cl.Put([0x80]);
      cl.Put(before[..len]);
      out := [0x80] + TPixelsOut([v], format);
      Regroup(was, [0x80], before[..len]);
      FillGives(v, w, h, format, codec, past);
      ShownRepeat(v, h * w, format);
      ShownFaithful(Repeat(v, h * w), format);
    }

    /** The palette goes through the after-buffer. */
    method PutColours(pal: seq<int>)
      requires Valid() && |pal| <= 256 && PixelsFit(pal, format.n) && cl.ublen + |pal| * format.n <= UPDATE_BUF_SIZE
      modifies cl, cl.updateBuf, after
      ensures Valid() && cl.Stream() == old(cl.Stream()) + TPixelsOut(pal, format)
      ensures cl.ublen <= old(cl.ublen) + |pal| * format.n
    {
      hide Lossless;
      hide Holds;
      hide IsForm;
      hide TPixelsOut;
      MulMonotone(|pal|, 256, format.n);
      Store(pal, format.n, after);
      PackIfNeeded(after, |pal|, format, pal);
      cl.Put(after[..|pal| * Width(format)]);
    }

    /** SendMonoRect. */
    method SendMonoRect(w: nat, h: nat, bg: int, fg: int, ghost pixels: seq<int>) returns (ok: bool, ghost out: seq<Byte>)
      requires Valid() && |pixels| == h * w && PixelsFit(pixels, format.n) && Holds(before[..], 0, pixels, format.n)
      requires (forall i :: 0 <= i < |pixels| ==> pixels[i] == bg || pixels[i] == fg) && PixelsFit([bg, fg], format.n)
      modifies this`past, cl, cl.updateBuf, before, after
      ensures Valid()
      ensures ok ==> cl.Stream() == old(cl.Stream()) + out
      ensures ok ==> Sees(out, w, h, old(past), past, pixels, Shown(pixels, format))
      ensures cl.healthy && Roomy() && h * w <= conf.maxRectSize ==> ok
      ensures ok ==> StartsWith(out, 0x50)
    {
      hide Lossless;
      hide RectGives;
      hide DataGives;
      hide DecodePacked;
      hide Shown;
      hide Holds;
      hide IsForm;
      hide TPixelsOut;
      hide Roomy;
      ok := cl.MakeRoom(MIN_TO_COMPRESS + 6 + 2 * format.n);
      if !ok { return ok, []; }
      ghost var was := cl.Stream();
      var head: seq<Byte> := [0x50, FILTER_PALETTE, 1];
      cl.Put(head);
      var dataLen := EncodeMonoRect(before, w, h, format.n, bg, fg, pixels);
      ghost var data := before[..dataLen];
      PutColours([bg, fg]);
      Regroup(was, head, TPixelsOut([bg, fg], format));
      ghost var headed := PaletteBytes(1, [bg, fg], format);
      MonoSmaller(w, h, format.n);
      ok, out := CompressData(1, dataLen);
      if ok {
        MonoGives(bg, fg, data, pixels, out, w, h, format, codec, old(past), past);
        Regroup(was, headed, out);
        out := headed + out;
        ShownFaithful(pixels, format);
      }
    }

    /** The pixels become indices, and the colours of the entries are listed. */
    method ConvertToIndices(count: nat, palette: Palette, ghost pixels: seq<int>) returns (pal: seq<int>)
      requires Valid() && |pixels| == count && PixelsFit(pixels, format.n) && Holds(before[..], 0, pixels, format.n)
      requires palette.Valid() && ColoursOf(palette.Colours(), pixels)
      requires forall k :: 0 <= k < |pixels| ==> IsPixel(pixels[k], palette.bpp)
      modifies before
      ensures |pal| == palette.numColors && PixelsFit(pal, format.n) && count <= before.Length
      ensures forall k :: 0 <= k < count ==> before[k] < |pal| && pal[before[k]] == pixels[k]
    {
      hide Lossless;
      hide Holds;
      hide IsForm;
      hide Order;
      hide Chains;
      EncodeIndexedRect(before, count, format.n, palette, pixels);
      ghost var data := before[..count];
      pal := Entries(palette, pixels, format.n);
      assert forall k :: 0 <= k < count ==> data[k] == before[k];
    }

    /** All that goes out before the data, and the data made of the pixels. */
    method PutIndexed(count: nat, palette: Palette, ghost pixels: seq<int>) returns (pal: seq<int>)
      requires Valid() && |pixels| == count && PixelsFit(pixels, format.n) && Holds(before[..], 0, pixels, format.n)
      requires palette.Valid() && 3 <= palette.numColors && ColoursOf(palette.Colours(), pixels)
      requires forall k :: 0 <= k < |pixels| ==> IsPixel(pixels[k], palette.bpp)
      requires cl.ublen + 3 + palette.numColors * format.n <= UPDATE_BUF_SIZE
      modifies cl, cl.updateBuf, before, after
      ensures Valid() && 3 <= |pal| <= 256 && |pal| == palette.numColors && PixelsFit(pal, format.n)
      ensures cl.Stream() == old(cl.Stream()) + PaletteBytes(2, pal, format)
      ensures cl.ublen <= old(cl.ublen) + 3 + palette.numColors * format.n
      ensures count <= before.Length && forall k :: 0 <= k < count ==> before[k] < |pal| && pal[before[k]] == pixels[k]
    {
      hide Lossless;
      hide Holds;
      hide IsForm;
      hide TPixelsOut;
      hide Palette.Valid;
      hide ColoursOf;
      hide PixelsFit;
      PaletteSize(palette);
      var num := palette.numColors;
      ghost var was := cl.Stream();
      var head: seq<Byte> := [0x60, FILTER_PALETTE, num - 1];
      cl.Put(head);
      pal := ConvertToIndices(count, palette, pixels);
      PutColours(pal);
      Regroup(was, head, TPixelsOut(pal, format));
    }

    /** SendIndexedRect. */
    method SendIndexedRect(w: nat, h: nat, palette: Palette, ghost pixels: seq<int>) returns (ok: bool, ghost out: seq<Byte>)
      requires Valid() && |pixels| == h * w && PixelsFit(pixels, format.n) && Holds(before[..], 0, pixels, format.n)
      requires palette.Valid() && 3 <= palette.numColors && ColoursOf(palette.Colours(), pixels)
      requires forall k :: 0 <= k < |pixels| ==> IsPixel(pixels[k], palette.bpp)
      modifies this`past, cl, cl.updateBuf, before, after
      ensures Valid()
      ensures ok ==> cl.Stream() == old(cl.Stream()) + out
      ensures ok ==> Sees(out, w, h, old(past), past, pixels, Shown(pixels, format))
      ensures cl.healthy && Roomy() && h * w <= conf.maxRectSize ==> ok
      ensures ok ==> StartsWith(out, 0x60)
    {
      hide Lossless;
      hide RectGives;
      hide DataGives;
      hide Shown;
      hide Holds;
      hide IsForm;
      hide PaletteBytes;
      hide Roomy;
      hide Palette.Valid;
      hide ColoursOf;
      hide PixelsFit;
      PaletteSize(palette);
      ok := cl.MakeRoom(MIN_TO_COMPRESS + 6 + palette.numColors * format.n);
      if !ok { return ok, []; }
      ghost var was := cl.Stream();
      var pal := PutIndexed(h * w, palette, pixels);
      ghost var data, headed := before[..h * w], PaletteBytes(2, pal, format);
      MulMonotone(1, format.n, h * w);
      ok, out := CompressData(2, h * w);
      if ok {
        IndexedGives(pal, data, pixels, out, w, h, format, codec, old(past), past);
        FirstOfPalette(2, pal, format);
        Regroup(was, headed, out);
        out := headed + out;
        ShownFaithful(pixels, format);
      }
    }

    /** SendFullColorRect. */
    method SendFullColorRect(w: nat, h: nat, ghost pixels: seq<int>) returns (ok: bool, ghost out: seq<Byte>)
      requires Valid() && |pixels| == h * w && PixelsFit(pixels, format.n) && Holds(before[..], 0, pixels, format.n)
      modifies this`past, cl, cl.updateBuf, before
      ensures Valid()
      ensures ok ==> cl.Stream() == old(cl.Stream()) + out
      ensures ok ==> Sees(out, w, h, old(past), past, pixels, Shown(pixels, format))
      ensures cl.healthy && Roomy() && h * w <= conf.maxRectSize ==> ok
      ensures ok ==> StartsWith(out, 0)
    {
      hide Lossless;
      hide RectGives;
      hide DataGives;
      hide Shown;
      hide Holds;
      hide IsForm;
      hide TPixelsOut;
      hide Roomy;
      ok := cl.MakeRoom(MIN_TO_COMPRESS + 1);
      if !ok { return ok, []; }
      ghost var was := cl.Stream();
      cl.Put([0]);
      PackIfNeeded(before, h * w, format, pixels);
      ghost var data := before[..h * w * Width(format)];
      WidthSmaller(h * w, format, conf.maxRectSize);
      ok, out := CompressData(0, h * w * Width(format));
      if ok {
        CopyGives(pixels, out, w, h, format, codec, old(past), past);
        Regroup(was, [0], out);
        out := [0] + out;
        ShownFaithful(pixels, format);
      }
    }

    /** SendGradientRect. data holds the pixels that are in the before-buffer. */
    method SendGradientRect(w: nat, h: nat, data: array<int>, ghost pixels: seq<int>)
      returns (ok: bool, ghost out: seq<Byte>, ghost seen: seq<int>)
      requires Valid() && |pixels| == h * w && PixelsFit(pixels, format.n) && Holds(before[..], 0, pixels, format.n)
      requires data[..] == pixels && data != prevRowBuf && w <= 2048 && h * w <= conf.maxRectSize
      modifies this`past, cl, cl.updateBuf, before, data, prevRowBuf
      ensures Valid()
      ensures ok ==> cl.Stream() == old(cl.Stream()) + out
      ensures ok ==> Sees(out, w, h, old(past), past, pixels, seen)
      ensures cl.healthy && Roomy() ==> ok
      ensures ok ==> StartsWith(out, if format.n == 1 then 0 else 0x70)
    {
      hide Lossless;
      hide RectGives;
      hide DataGives;
      hide Shown;
      hide Holds;
      hide IsForm;
      hide Roomy;
      hide AllPlain;
      out := [];
      if format.n == 1 {
        seen := Shown(pixels, format);
        ok, out := SendFullColorRect(w, h, pixels);
        return;
      }
      seen := AllPlain(pixels, format);
      ok := cl.MakeRoom(MIN_TO_COMPRESS + 2);
      if !ok { return; }
      ghost var was := cl.Stream();
      var head: seq<Byte> := [0x70, FILTER_GRADIENT];
      cl.Put(head);
      ghost var ds := FilterInPlace(w, h, data, pixels);
      WidthSmaller(h * w, format, conf.maxRectSize);
      var dataLen: nat := h * w * Width(format);
      ok, out := CompressData(3, dataLen);
      if ok {
        GradientGives(before[..dataLen], ds, pixels, out, w, h, format, codec, old(past), past);
        Regroup(was, head, out);
        out := head + out;
      }
    }

    /** The filter for the format at hand. */
    method FilterInPlace(w: nat, h: nat, data: array<int>, ghost pixels: seq<int>) returns (ghost ds: seq<Row>)
      requires Valid() && format.n > 1 && |pixels| == h * w && PixelsFit(pixels, format.n)
      requires Holds(before[..], 0, pixels, format.n)
      requires data[..] == pixels && data != prevRowBuf && w <= 2048 && h * w <= conf.maxRectSize
      modifies before, data, prevRowBuf
      ensures h * w * Width(format) <= before.Length
      ensures DifferenceRows(before[..h * w * Width(format)], w, h, format) == Some(ds)
      ensures (forall j :: 0 <= j < |ds| ==> |ds[j]| == 3 * w) && UndoGradient(ds, w, format) == AllPlain(pixels, format)
    {
      hide Lossless;
      hide Holds;
      hide UnfilteredRows;
      hide FilteredRows;
      hide RowsOf;
      hide SampleRows;
      hide AllPlain;
      hide UndoGradient;
      MaximumIs(format);
      WidthSmaller(h * w, format, conf.maxRectSize);
      if format.packed.Some? {
        FilterGradient24(before, w, h, format.packed.value, prevRowBuf, pixels);
        ds := Cut(before[..3 * (h * w)], 3 * w, h);
        assert h * w * Width(format) == 3 * (h * w);
      } else {
        MulMonotone(h * w, conf.maxRectSize, format.n);
        FilterGradient(data, w, h, format.form, prevRowBuf);
        Store(data[..], format.n, before);
        ds := RowsOf(data[..], w, h, format.form);
        StoredRows(before[..], data[..], w, h, format);
      }
      UndoneShowPlain(ds, pixels, w, h, format);
    }

    /** SendSubrect, for a client without JPEG. smooth is what DetectSmoothImage finds. */
    method SendSubrect(s: Screen, x: int, y: int, w: nat, h: nat, sw: nat, sh: nat, smooth: bool)
      returns (ok: bool, ghost out: seq<Byte>, ghost seen: seq<int>)
      requires Valid() && IsScreen(s, sw, sh, format.n) && OnScreen(Box(x, y, x + w, y + h), sw, sh)
      requires w <= 2048 && h * w <= conf.maxRectSize
      modifies this`past, cl, cl.updateBuf, before, after, prevRowBuf
      ensures Valid()
      ensures ok ==> cl.Stream() == old(cl.Stream()) + HeaderBytes(x, y, w, h, ENCODING_TIGHT) + out
      ensures ok ==> Sees(out, w, h, old(past), past, Flat(Area(s, x, y, w, h)), seen)
      ensures cl.healthy && Roomy() ==> ok
      ensures ok ==> RightWay(out, Flat(Area(s, x, y, w, h)), smooth)
    {
      hide Lossless;
      hide RectGives;
      hide Holds;
      hide IsForm;
      hide Roomy;
      hide RightWay;
      hide Faithful;
      out, seen := [], [];
      if cl.ublen > 128 {
        ok := cl.SendUpdateBuf();
        if !ok { return; }
      }
      ok := SendTightHeader(x, y, w, h, sw, sh);
      if !ok { return; }
      var data := FetchPixels(s, x, y, w, h, sw, sh);
      ok, out, seen := SendPixels(w, h, data, smooth);
    }

    /** SendTightHeader. */
    method SendTightHeader(x: int, y: int, w: nat, h: nat, sw: nat, sh: nat) returns (ok: bool)
      requires Valid() && sw < 0x1_0000 && sh < 0x1_0000 && OnScreen(Box(x, y, x + w, y + h), sw, sh)
      modifies cl, cl.updateBuf
      ensures Valid()
      ensures ok ==> cl.Stream() == old(cl.Stream()) + HeaderBytes(x, y, w, h, ENCODING_TIGHT)
      ensures cl.healthy ==> ok
    {
      hide Lossless;
      hide IsForm;
      ok := cl.MakeRoom(SZ_RECT_HEADER);
      if !ok { return; }
      cl.Put(HeaderBytes(x, y, w, h, ENCODING_TIGHT));
    }

    /** The pixels of a rectangle of the screen, translated into the before-buffer. */
    method FetchPixels(s: Screen, x: int, y: int, w: nat, h: nat, sw: nat, sh: nat) returns (data: array<int>)
      requires Valid() && IsScreen(s, sw, sh, format.n) && OnScreen(Box(x, y, x + w, y + h), sw, sh)
      requires h * w <= conf.maxRectSize
      modifies before
      ensures fresh(data) && data[..] == Flat(Area(s, x, y, w, h)) && data.Length == h * w
      ensures PixelsFit(data[..], format.n) && Holds(before[..], 0, data[..], format.n)
    {
      hide Lossless;
      hide IsForm;
      AreaFits(s, sw, sh, format.n, Box(x, y, x + w, y + h));
      data := new int[h * w];
      ZrleRect.TranslateInto(s, x, y, w, h, data);
      assert data[..] == data[..w * h];
      FlatFits(Area(s, x, y, w, h), format.n);
      MulMonotone(h * w, conf.maxRectSize, format.n);
      Store(data[..], format.n, before);
    }

    /** The count of colours decides how the pixels are sent. */
    method SendPixels(w: nat, h: nat, data: array<int>, smooth: bool) returns (ok: bool, ghost out: seq<Byte>, ghost seen: seq<int>)
      requires Valid() && 0 < w <= 2048 && 0 < h && data.Length == h * w <= conf.maxRectSize && data != prevRowBuf
      requires PixelsFit(data[..], format.n) && Holds(before[..], 0, data[..], format.n)
      modifies this`past, cl, cl.updateBuf, before, after, prevRowBuf, data
      ensures Valid()
      ensures ok ==> cl.Stream() == old(cl.Stream()) + out
      ensures ok ==> Sees(out, w, h, old(past), past, old(data[..]), seen)
      ensures cl.healthy && Roomy() ==> ok
      ensures ok ==> RightWay(out, old(data[..]), smooth)
    {
      hide Lossless;
      hide RectGives;
      hide Holds;
      hide IsForm;
      hide Roomy;
      hide Faithful;
      hide Shown;
      hide PixelsFit;
      hide Order;
      hide Chains;
      hide NumColours;
      ghost var pixels := data[..];
      MulMonotone(1, h, w);
      var paletteMaxColors := w * h / conf.idxMaxColorsDivisor;
      if paletteMaxColors < 2 && w * h >= conf.monoMinRectSize {
        paletteMaxColors := 2;
      }
      assert |pixels| == w * h;
      assert paletteMaxColors == PaletteMaxColors(|pixels|, conf);
      var palette := new Palette(if format.n == 2 then 16 else 32, paletteMaxColors);
      var num, bg, fg := CountColours(data, palette);
      if num == 0 {
        if smooth {
          ok, out, seen := SendGradientRect(w, h, data, pixels);
        } else {
          ok, out := SendFullColorRect(w, h, pixels);
          seen := Shown(pixels, format);
        }
      } else if num == 1 {
        HoldsFirst(before[..], pixels, format.n);
        OneColourOnly(pixels, palette.maxColors);
        ok, out := SendSolidRect(w, h, pixels[0]);
        seen := Shown(pixels, format);
      } else if num == 2 {
        MonoFits(pixels, bg, fg, format.n);
        ok, out := SendMonoRect(w, h, bg, fg, pixels);
        seen := Shown(pixels, format);
      } else {
        ok, out := SendIndexedRect(w, h, palette, pixels);
        seen := Shown(pixels, format);
      }
    }

    /** FillPalette8, 16 or 32. */
    method CountColours(data: array<int>, palette: Palette) returns (num: int, bg: int, fg: int)
      requires IsFormat(format) && data.Length > 0 && PixelsFit(data[..], format.n) && palette.Separate()
      requires palette.bpp == if format.n == 2 then 16 else 32
      requires data != palette.node && data != palette.numPixels && data != palette.hash
      requires data != palette.next && data != palette.idx && data != palette.rgb
      modifies palette, palette.node, palette.numPixels, palette.hash, palette.next, palette.idx, palette.rgb
      ensures num == NumColours(data[..], palette.maxColors, if format.n == 1 then 2 else 256)
      ensures num >= 0 && (num == 2 ==> Mono(data[..], bg, fg))
      ensures forall k :: 0 <= k < data.Length ==> IsPixel(data[k], palette.bpp)
      ensures num > 2 ==> palette.Valid() && palette.numColors == num && ColoursOf(palette.Colours(), data[..])
    {
      hide NumColours;
      hide Mono;
      hide IsForm;
      RangeValues();
      assert Range(4) == 0x1_0000_0000;
      assert data[..data.Length] == data[..];
      assert forall k :: 0 <= k < data.Length ==> data[..][k] == data[k];
      if format.n == 1 {
        num, bg, fg := FillPalette8(data, data.Length, palette.maxColors);
        SmallCount(data[..], palette.maxColors);
      } else {
        num, bg, fg := FillPalette(data, data.Length, palette);
      }
      CountPositive(data[..], palette.maxColors, if format.n == 1 then 2 else 256);
    }
  }

  lemma CountPositive(s: seq<int>, maxColors: int, limit: int)
    ensures NumColours(s, maxColors, limit) >= 0
  {
  }

  lemma SmallCount(s: seq<int>, maxColors: int)
    requires |s| > 0
    ensures NumColours(s, maxColors, 2) <= 2
  {
  }

  lemma MonoFits(pixels: seq<int>, bg: int, fg: int, n: nat)
    requires Mono(pixels, bg, fg) && PixelsFit(pixels, n)
    ensures PixelsFit([bg, fg], n) && forall i :: 0 <= i < |pixels| ==> pixels[i] == bg || pixels[i] == fg
  {
    assert [bg, fg][0] in pixels && [bg, fg][1] in pixels;
  }

  lemma OneColourOnly(pixels: seq<int>, maxColors: int)
    requires |pixels| > 0 && exists limit :: NumColours(pixels, maxColors, limit) == 1
    ensures pixels == Repeat(pixels[0], |pixels|)
  {
    forall k | 0 <= k < |pixels|
      ensures pixels[k] == pixels[0]
    {
      var pair := {pixels[0], pixels[k]};
      assert pair <= ColourSet(pixels);
      CardinalitySubset(pair, ColourSet(pixels));
    }
  }

  lemma {:induction false} FlatFits(img: Image, n: nat)
    requires PictureFits(img, n)
    ensures PixelsFit(Flat(img), n)
    decreases |img|
  {
    if img != [] {
      FlatFits(img[1..], n);
    }
  }

  /** The differences left in pixels, read from their bytes. */
  lemma StoredRows(s: seq<Byte>, pixels: seq<int>, w: nat, h: nat, f: Format)
    requires IsFormat(f) && f.n > 1 && f.packed.None? && |pixels| == h * w && PixelsFit(pixels, f.n) && Holds(s, 0, pixels, f.n)
    ensures h * w * Width(f) <= |s|
    ensures DifferenceRows(s[..h * w * Width(f)], w, h, f) == Some(RowsOf(pixels, w, h, f.form))
  {
    hide RowsOf;
    hide IsForm;
    var data := s[..h * w * f.n];
    assert data == s[0..0 + |pixels| * f.n];
    RowRoundTrip(pixels, f.n, []);
    assert data + [] == data;
  }

  lemma FirstOfPalette(id: nat, pal: seq<int>, f: Format)
    requires IsFormat(f) && id < 4 && 1 <= |pal| <= 256
    ensures StartsWith(PaletteBytes(id, pal, f), 16 * (id + 4))
  {
  }

  lemma PaletteSize(palette: Palette)
    requires palette.Valid()
    ensures palette.numColors <= 256
  {
  }

  lemma MonoSmaller(w: nat, h: nat, n: nat)
    requires n >= 1
    ensures h * ((w + 7) / 8) <= h * w * n
  {
    var r := (w + 7) / 8;
    assert 0 <= r <= w;
    MulMonotone(r, w, h);
    MulMonotone(1, n, h * w);
  }

  lemma WidthSmaller(k: nat, f: Format, max: nat)
    requires IsFormat(f)
    ensures 0 <= k * Width(f) && (k <= max ==> k * Width(f) <= max * f.n)
  {
    MulMonotone(0, k, Width(f));
    if k <= max {
      MulMonotone(Width(f), f.n, k);
      MulMonotone(k, max, f.n);
    }
  }

  /** The colours of the entries, in their order. */
  method Entries(palette: Palette, ghost pixels: seq<int>, ghost n: nat) returns (pal: seq<int>)
    requires palette.Valid() && ColoursOf(palette.Colours(), pixels) && PixelsFit(pixels, n)
    ensures |pal| == palette.numColors && PixelsFit(pal, n)
    ensures forall e :: 0 <= e < |pal| ==> 0 <= palette.node[e] < SIZE && pal[e] == palette.Entry(e)
  {
    hide Chains;
    pal := [];
    var e := 0;
    while e < palette.numColors
      invariant 0 <= e <= palette.numColors && |pal| == e && PixelsFit(pal, n)
      invariant forall k :: 0 <= k < e ==> 0 <= palette.node[k] < SIZE && pal[k] == palette.Entry(k)
    {
      assert palette.Entry(e) == palette.Colours()[palette.node[e]];
      assert palette.Entry(e) in pixels;
      pal := pal + [palette.Entry(e)];
      e := e + 1;
    }
  }
}
