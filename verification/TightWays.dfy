/** What the five ways of sending a Tight rectangle decode to. */
module TightWays {
  import opened Basics
  import opened Bytes
  import opened ZrleFormat
  import opened TightBuffer
  import opened TightGradient
  import opened TightGradientFields
  import opened TightFormat

  /** Reading out finds the data, and leaves the streams as st'. */
  ghost predicate DataGives(out: seq<Byte>, data: seq<Byte>, id: nat, c: Codec, st: Streams, st': Streams)
    requires id < 4
  {
    forall rest :: ReadData(out + rest, |data|, id, c, st) == Some((data, st', rest))
  }

  /** Decoding out finds the pixels of the rectangle. */
  ghost predicate RectGives(out: seq<Byte>, w: nat, h: nat, f: Format, c: Codec, st: Streams, st': Streams, pixels: seq<int>)
    requires IsFormat(f)
  {
    forall rest :: DecodeRect(out + rest, w, h, f, c, st) == Some((pixels, st', rest))
  }

  lemma ShortDataGives(data: seq<Byte>, id: nat, c: Codec, st: Streams)
    requires id < 4 && |data| < MIN_TO_COMPRESS
    ensures DataGives(data, data, id, c, st, st)
  {
    forall rest
      ensures ReadData(data + rest, |data|, id, c, st) == Some((data, st, rest))
    {
      Parts(data, rest);
    }
  }

  /** The length of compressed data is right because the after-buffer is not that large. */
  lemma LongDataGives(data: seq<Byte>, id: nat, level: nat, c: Codec, st: Streams)
    requires id < 4 && |data| >= MIN_TO_COMPRESS && Lossless(c)
    requires |c.deflate(level, st[id], data)| < 0x40_0000
    ensures var z := c.deflate(level, st[id], data);
      DataGives(TightData.CompactLength(|z|) + z, data, id, c, st, st[id := st[id] + [data]])
  {
    var z := c.deflate(level, st[id], data);
    var len := TightData.CompactLength(|z|);
    forall rest
      ensures ReadData((len + z) + rest, |data|, id, c, st) == Some((data, st[id := st[id] + [data]], rest))
    {
      Regroup(len, z, rest);
      TightData.LengthRoundTrip(|z|, z + rest);
      Parts(z, rest);
      assert c.inflate(st[id], z) == data;
    }
  }

  lemma FillGives(v: int, w: nat, h: nat, f: Format, c: Codec, st: Streams)
    requires IsFormat(f) && PixelsFit([v], f.n)
    ensures RectGives([0x80] + TPixelsOut([v], f), w, h, f, c, st, st, Repeat(Shown([v], f)[0], h * w))
  {
    hide ParseTPixels;
    hide TPixelsOut;
    hide Shown;
    forall rest
      ensures DecodeRect(([0x80] + TPixelsOut([v], f)) + rest, w, h, f, c, st) == Some((Repeat(Shown([v], f)[0], h * w), st, rest))
    {
      TPixelsRoundTrip([v], f, rest);
      HeadAndTail([0x80], TPixelsOut([v], f), rest);
    }
  }

  /** The first bytes, and what is left after them. */
  lemma HeadAndTail(head: seq<Byte>, out: seq<Byte>, rest: seq<Byte>)
    ensures var s := (head + out) + rest;
      |s| >= |head| && s[..|head|] == head && s[|head|..] == out + rest && forall k :: 0 <= k < |head| ==> s[k] == head[k]
  {
    Regroup(head, out, rest);
    Parts(head, out + rest);
  }

  lemma CopyGives(pixels: seq<int>, out: seq<Byte>, w: nat, h: nat, f: Format, c: Codec, st: Streams, st': Streams)
    requires IsFormat(f) && PixelsFit(pixels, f.n) && |pixels| == h * w
    requires DataGives(out, TPixelsOut(pixels, f), 0, c, st, st')
    ensures RectGives([0] + out, w, h, f, c, st, st', Shown(pixels, f))
  {
    hide ParseTPixels;
    hide TPixelsOut;
    hide Shown;
    hide ReadData;
    var data := TPixelsOut(pixels, f);
    TPixelsRoundTrip(pixels, f, []);
    assert data + [] == data;
    forall rest
      ensures DecodeRect(([0] + out) + rest, w, h, f, c, st) == Some((Shown(pixels, f), st', rest))
    {
      HeadAndTail([0], out, rest);
      assert ReadData(out + rest, |data|, 0, c, st) == Some((data, st', rest));
    }
  }

  // ---- Palettes ----

  /** One more step of a palette: the colours of the indices, plain or not. */
  lemma ShownColours(indices: seq<int>, pal: seq<int>, f: Format)
    requires IsFormat(f) && AreIndices(indices, |pal|)
    ensures Colours(indices, Shown(pal, f)) == Shown(Colours(indices, pal), f)
  {
  }

  function ShownParsed(r: Parsed, f: Format): Parsed
    requires IsFormat(f)
  {
    if r.None? then None else Some((Shown(r.value.0, f), r.value.1))
  }

  lemma ShownConcat(a: seq<int>, b: seq<int>, f: Format)
    requires IsFormat(f)
    ensures Shown(a + b, f) == Shown(a, f) + Shown(b, f)
  {
  }

  lemma ShownPrepend(pre: seq<int>, r: Parsed, f: Format)
    requires IsFormat(f)
    ensures ShownParsed(Prepend(pre, r), f) == Prepend(Shown(pre, f), ShownParsed(r, f))
  {
    if r.Some? {
      ShownConcat(pre, r.value.0, f);
    }
  }

  /** A palette of plain colours gives plain pixels. */
  lemma {:induction false} PackedRowShown(s: seq<Byte>, k: nat, bits: nat, pal: seq<int>, f: Format)
    requires IsFormat(f) && IsPackSize(bits)
    ensures DecodePackedRow(s, k, bits, Shown(pal, f)) == ShownParsed(DecodePackedRow(s, k, bits, pal), f)
    decreases k
  {
    hide Plain;
    if k > 0 && s != [] {
      var m := if k < 8 / bits then k else 8 / bits;
      var indices := Unpack(s[0], m, bits);
      if AreIndices(indices, |pal|) {
        ShownColours(indices, pal, f);
        PackedRowShown(s[1..], k - m, bits, pal, f);
        ShownPrepend(Colours(indices, pal), DecodePackedRow(s[1..], k - m, bits, pal), f);
      }
    }
  }

  lemma {:induction false} PackedShown(s: seq<Byte>, w: nat, h: nat, bits: nat, pal: seq<int>, f: Format)
    requires IsFormat(f) && IsPackSize(bits)
    ensures DecodePacked(s, w, h, bits, Shown(pal, f)) == ShownParsed(DecodePacked(s, w, h, bits, pal), f)
    decreases h
  {
    hide Plain;
    if h > 0 {
      PackedRowShown(s, w, bits, pal, f);
      match DecodePackedRow(s, w, bits, pal)
      case None =>
      case Some((row, tail)) =>
        PackedShown(tail, w, h - 1, bits, pal, f);
        ShownPrepend(row, DecodePacked(tail, w, h - 1, bits, pal), f);
    }
  }

  /** The control byte, the filter, the palette, and the data. */
  function PaletteBytes(id: nat, pal: seq<int>, f: Format): (s: seq<Byte>)
    requires IsFormat(f) && id < 4 && 1 <= |pal| <= 256
  {
    [16 * (id + EXPLICIT_FILTER), FILTER_PALETTE, |pal| - 1] + TPixelsOut(pal, f)
  }

  /** How a rectangle with a palette is taken apart up to its data. */
  lemma PaletteRead(id: nat, pal: seq<int>, out: seq<Byte>, w: nat, h: nat, f: Format, c: Codec, st: Streams, rest: seq<Byte>)
    requires IsFormat(f) && id < 4 && 1 <= |pal| <= 256 && PixelsFit(pal, f.n)
    ensures var s := (PaletteBytes(id, pal, f) + out) + rest;
      && |s| >= 3 && DecodeRect(s, w, h, f, c, st) == DecodePalette(s[2..], w, h, id, f, c, st)
      && s[2..] != [] && s[2..][0] as int + 1 == |pal|
      && ParseTPixels(s[2..][1..], |pal|, f) == Some((Shown(pal, f), out + rest))
  {
    hide ParseTPixels;
    hide TPixelsOut;
    hide DecodePalette;
    hide Shown;
    var head: seq<Byte>, colours := [16 * (id + EXPLICIT_FILTER), FILTER_PALETTE, |pal| - 1], TPixelsOut(pal, f);
    var s := (PaletteBytes(id, pal, f) + out) + rest;
    Regroup(head + colours, out, rest);
    HeadAndTail(head, colours, out + rest);
    assert s == (head + colours) + (out + rest);
    assert s[2..][1..] == s[3..];
    TPixelsRoundTrip(pal, f, out + rest);
  }

  lemma MonoGives(bg: int, fg: int, data: seq<Byte>, pixels: seq<int>, out: seq<Byte>, w: nat, h: nat, f: Format, c: Codec,
                  st: Streams, st': Streams)
    requires IsFormat(f) && PixelsFit([bg, fg], f.n) && |data| == h * ((w + 7) / 8)
    requires forall rest :: DecodePacked(data + rest, w, h, 1, [bg, fg]) == Some((pixels, rest))
    requires DataGives(out, data, 1, c, st, st')
    ensures RectGives(PaletteBytes(1, [bg, fg], f) + out, w, h, f, c, st, st', Shown(pixels, f))
  {
    hide ParseTPixels;
    hide PaletteBytes;
    hide Shown;
    hide ReadData;
    hide DecodeRect;
    hide DecodePacked;
    var pal := [bg, fg];
    assert data + [] == data;
    PackedShown(data, w, h, 1, pal, f);
    forall rest
      ensures DecodeRect((PaletteBytes(1, pal, f) + out) + rest, w, h, f, c, st) == Some((Shown(pixels, f), st', rest))
    {
      PaletteRead(1, pal, out, w, h, f, c, st, rest);
      assert ReadData(out + rest, |data|, 1, c, st) == Some((data, st', rest));
    }
  }

  lemma LooksUpShown(pal: seq<int>, data: seq<Byte>, pixels: seq<int>, f: Format)
    requires IsFormat(f) && |data| == |pixels|
    requires forall k :: 0 <= k < |data| ==> data[k] < |pal| && pal[data[k]] == pixels[k]
    ensures LookUp(data, Shown(pal, f)) == Some(Shown(pixels, f))
  {
    hide Plain;
    var shown := Shown(pal, f);
    assert forall k :: 0 <= k < |data| ==> data[k] < |shown| && shown[data[k]] == Shown(pixels, f)[k];
    assert !exists k :: 0 <= k < |data| && data[k] >= |shown|;
    assert LookUp(data, shown).value == Shown(pixels, f);
  }

  lemma IndexedGives(pal: seq<int>, data: seq<Byte>, pixels: seq<int>, out: seq<Byte>, w: nat, h: nat, f: Format, c: Codec,
                     st: Streams, st': Streams)
    requires IsFormat(f) && PixelsFit(pal, f.n) && 3 <= |pal| <= 256 && |data| == |pixels| == h * w
    requires forall k :: 0 <= k < |data| ==> data[k] < |pal| && pal[data[k]] == pixels[k]
    requires DataGives(out, data, 2, c, st, st')
    ensures RectGives(PaletteBytes(2, pal, f) + out, w, h, f, c, st, st', Shown(pixels, f))
  {
    hide ParseTPixels;
    hide PaletteBytes;
    hide ReadData;
    hide DecodeRect;
    hide Plain;
    LooksUpShown(pal, data, pixels, f);
    hide LookUp;
    hide Shown;
    forall rest
      ensures DecodeRect((PaletteBytes(2, pal, f) + out) + rest, w, h, f, c, st) == Some((Shown(pixels, f), st', rest))
    {
      PaletteRead(2, pal, out, w, h, f, c, st, rest);
      assert ReadData(out + rest, |data|, 2, c, st) == Some((data, st', rest));
    }
  }

  // ---- The gradient filter ----

  /** The rows of samples of the pixels. */
  ghost function RowsIn(pixels: seq<int>, w: nat, h: nat, f: Format): (rows: seq<Row>)
    requires IsFormat(f) && f.n > 1 && |pixels| == h * w
    ensures |rows| == h && forall j :: 0 <= j < h ==> |rows[j]| == 3 * w
  {
    if f.packed.Some? then SampleRows(pixels, w, h, f.packed.value) else RowsOf(pixels, w, h, f.form)
  }

  lemma RowShowsPlain(row: Row, pixels: seq<int>, f: Format)
    requires IsFormat(f) && f.n > 1 && |row| == 3 * |pixels|
    requires forall x :: 0 <= x < |pixels| ==> Triple(row, x) == SamplesIn(pixels[x], f)
    ensures RowPixels(row, |pixels|, f) == AllPlain(pixels, f)
  {
  }

  lemma PlainConcat(a: seq<int>, b: seq<int>, f: Format)
    requires IsFormat(f) && f.n > 1
    ensures AllPlain(a + b, f) == AllPlain(a, f) + AllPlain(b, f)
  {
  }

  lemma PackedRowShowsPlain(row: seq<int>, f: Format)
    requires IsFormat(f) && f.packed.Some?
    ensures RowPixels(AllSamples(row, f.packed.value), |row|, f) == AllPlain(row, f)
  {
    hide AllSamples;
    hide Samples;
    hide RowPixels;
    hide AllPlain;
    forall x | 0 <= x < |row|
      ensures Triple(AllSamples(row, f.packed.value), x) == SamplesIn(row[x], f)
    {
      SamplesAt(row, f.packed.value, x);
    }
    RowShowsPlain(AllSamples(row, f.packed.value), row, f);
  }

  lemma {:induction false} PackedRowsShowPlain(pixels: seq<int>, w: nat, h: nat, f: Format)
    requires IsFormat(f) && f.packed.Some? && |pixels| == h * w
    ensures AllRowPixels(SampleRows(pixels, w, h, f.packed.value), w, f) == AllPlain(pixels, f)
    decreases h
  {
    hide RowPixels;
    hide AllSamples;
    hide AllPlain;
    hide IsForm;
    if h == 0 {
      NoPixels(pixels, f);
    } else {
      TightGradient.NextRow(pixels, w, h, f.packed.value);
      PackedRowShowsPlain(pixels[..w], f);
      PackedRowsShowPlain(pixels[w..], w, h - 1, f);
      PlainConcat(pixels[..w], pixels[w..], f);
      assert pixels[..w] + pixels[w..] == pixels;
    }
  }

  lemma NoPixels(pixels: seq<int>, f: Format)
    requires IsFormat(f) && f.n > 1 && |pixels| == 0
    ensures AllPlain(pixels, f) == []
  {
  }

  lemma {:induction false} AllRowPixelsSnoc(rows: seq<Row>, row: Row, w: nat, f: Format)
    requires IsFormat(f) && f.n > 1 && |row| == 3 * w && forall j :: 0 <= j < |rows| ==> |rows[j]| == 3 * w
    ensures AllRowPixels(rows + [row], w, f) == AllRowPixels(rows, w, f) + RowPixels(row, w, f)
    decreases |rows|
  {
    hide RowPixels;
    if rows == [] {
      assert (rows + [row])[1..] == [];
    } else {
      AllRowPixelsSnoc(rows[1..], row, w, f);
      assert (rows + [row])[1..] == rows[1..] + [row];
    }
  }

  lemma FieldRowShowsPlain(row: seq<int>, f: Format)
    requires IsFormat(f) && f.n > 1 && f.packed.None?
    ensures RowPixels(RowSamples(row, f.form), |row|, f) == AllPlain(row, f)
  {
    hide RowSamples;
    hide PixelSamples;
    hide RowPixels;
    hide AllPlain;
    forall x | 0 <= x < |row|
      ensures Triple(RowSamples(row, f.form), x) == SamplesIn(row[x], f)
    {
      RowSamplesAt(row, f.form, x);
    }
    RowShowsPlain(RowSamples(row, f.form), row, f);
  }

  lemma {:induction false} FieldRowsShowPlain(pixels: seq<int>, w: nat, h: nat, f: Format)
    requires IsFormat(f) && f.n > 1 && f.packed.None? && |pixels| == h * w
    ensures AllRowPixels(RowsOf(pixels, w, h, f.form), w, f) == AllPlain(pixels, f)
    decreases h
  {
    hide RowPixels;
    hide RowSamples;
    hide AllPlain;
    hide IsForm;
    if h == 0 {
      NoPixels(pixels, f);
    } else {
      OneMore(h - 1, w);
      MulMonotone(0, h - 1, w);
      var front, last := pixels[..(h - 1) * w], pixels[(h - 1) * w..];
      FieldRowShowsPlain(last, f);
      FieldRowsShowPlain(front, w, h - 1, f);
      AllRowPixelsSnoc(RowsOf(front, w, h - 1, f.form), RowSamples(last, f.form), w, f);
      PlainConcat(front, last, f);
      assert front + last == pixels;
    }
  }

  /** Rows of differences that undo to the samples of the pixels. */
  lemma UndoneShowPlain(ds: seq<Row>, pixels: seq<int>, w: nat, h: nat, f: Format)
    requires IsFormat(f) && f.n > 1 && |pixels| == h * w && forall j :: 0 <= j < |ds| ==> |ds[j]| == 3 * w
    requires IsMax(Maximum(f)) && UnfilteredRows(ds, Zeros(3 * w), Maximum(f)) == RowsIn(pixels, w, h, f)
    ensures UndoGradient(ds, w, f) == AllPlain(pixels, f)
  {
    if f.packed.Some? {
      PackedRowsShowPlain(pixels, w, h, f);
    } else {
      FieldRowsShowPlain(pixels, w, h, f);
    }
  }

  lemma GradientGives(data: seq<Byte>, ds: seq<Row>, pixels: seq<int>, out: seq<Byte>, w: nat, h: nat, f: Format, c: Codec,
                      st: Streams, st': Streams)
    requires IsFormat(f) && f.n > 1 && |pixels| == h * w && |data| == h * w * Width(f)
    requires DifferenceRows(data, w, h, f) == Some(ds)
    requires (forall j :: 0 <= j < |ds| ==> |ds[j]| == 3 * w) && UndoGradient(ds, w, f) == AllPlain(pixels, f)
    requires DataGives(out, data, 3, c, st, st')
    ensures RectGives([0x70, FILTER_GRADIENT] + out, w, h, f, c, st, st', AllPlain(pixels, f))
  {
    hide ReadData;
    hide DifferenceRows;
    hide UndoGradient;
    hide AllPlain;
    forall rest
      ensures DecodeRect(([0x70, FILTER_GRADIENT] + out) + rest, w, h, f, c, st) == Some((AllPlain(pixels, f), st', rest))
    {
      HeadAndTail([0x70, FILTER_GRADIENT], out, rest);
      assert ReadData(out + rest, |data|, 3, c, st) == Some((data, st', rest));
    }
  }
}
