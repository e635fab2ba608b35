/** The client's side of the Tight encoding, as rfbproto.h and the encoder lay it out: a
    rectangle is a fill, or data of one of four zlib streams under one of three filters. */
module TightFormat {
  import opened Bytes
  import opened Images
  import opened ZrleFormat
  import opened PixelFields
  import opened TightBuffer
  import opened TightGradient
  import opened TightGradientFields
  import TightData

  const EXPLICIT_FILTER := 4
  const FILL := 8
  const FILTER_COPY := 0
  const FILTER_PALETTE := 1
  const FILTER_GRADIENT := 2
  const MIN_TO_COMPRESS := 12

  /** A pixel of n bytes. With a layout it is cut down to three bytes; otherwise the form
      says where its samples are. */
  datatype Format = Format(n: nat, packed: Option<Layout>, form: PixelForm)

  ghost predicate IsFormat(f: Format) {
    && (f.n == 1 || f.n == 2 || f.n == 4)
    && (f.packed.Some? ==> f.n == 4 && Fine(f.packed.value))
    && (f.n > 1 ==> IsForm(f.form) && f.form.bytes == f.n)
  }

  /** The bytes of a pixel on the wire. */
  function Width(f: Format): nat {
    if f.packed.Some? then 3 else f.n
  }

  // ---- Pixels made of samples alone ----

  function SamplesIn(v: int, f: Format): (s: seq<int>)
    requires IsFormat(f) && f.n > 1
    ensures |s| == 3
  {
    if f.packed.Some? then Samples(v, f.packed.value) else PixelSamples(v, f.form)
  }

  function FromSamples(s: seq<int>, f: Format): int
    requires IsFormat(f) && f.n > 1 && |s| == 3
  {
    if f.packed.Some? then Rebuilt(s[0], s[1], s[2], f.packed.value) else Native(Joined(s, f.form.fields), f.form)
  }

  /** A pixel without the bits that belong to no colour. */
  function Plain(v: int, f: Format): int
    requires IsFormat(f) && f.n > 1
  {
    FromSamples(SamplesIn(v, f), f)
  }

  function AllPlain(pixels: seq<int>, f: Format): (r: seq<int>)
    requires IsFormat(f) && f.n > 1
    ensures |r| == |pixels|
  {
    seq(|pixels|, i requires 0 <= i < |pixels| => Plain(pixels[i], f))
  }

  /** What the client makes of pixels that are sent as such. */
  function Shown(pixels: seq<int>, f: Format): (r: seq<int>)
    requires IsFormat(f)
    ensures |r| == |pixels|
  {
    if f.packed.Some? then AllPlain(pixels, f) else pixels
  }

  /** A plain pixel has the samples of the pixel it was made of. */
  lemma PlainKeepsSamples(v: int, f: Format)
    requires IsFormat(f) && f.n > 1
    ensures SamplesIn(Plain(v, f), f) == SamplesIn(v, f)
  {
    var s := SamplesIn(v, f);
    match f.packed
    case Some(l) =>
      hide ByteOf;
      BytesFound(s[0], s[1], s[2], l);
    case None =>
      DifferencePixel(s, f.form);
  }

  /** Three bytes put where the layout has them are found there. */
  lemma BytesFound(r: int, g: int, b: int, l: Layout)
    requires Fine(l) && 0 <= r < 256 && 0 <= g < 256 && 0 <= b < 256
    ensures Samples(Rebuilt(r, g, b, l), l) == [r, g, b]
  {
    var f := Fields([Range(l.r), Range(l.g), Range(l.b)], [255, 255, 255]);
    LayersApart(l.r, l.g);
    LayersApart(l.r, l.b);
    LayersApart(l.g, l.b);
    FieldsRoundTrip([r, g, b], f);
  }

  lemma LayersApart(i: nat, j: nat)
    requires i < 4 && j < 4 && i != j
    ensures if i < j then Range(j) % (Range(i) * 256) == 0 else Range(i) % (Range(j) * 256) == 0
  {
    RangeValues();
  }

  // ---- Pixels on the wire ----

  function TPixelsOut(pixels: seq<int>, f: Format): seq<Byte>
    requires IsFormat(f)
  {
    if f.packed.Some? then AllSamples(pixels, f.packed.value) else RowBytes(pixels, f.n)
  }

  function ParsePacked(s: seq<Byte>, k: nat, l: Layout): Parsed
    decreases k
  {
    if k == 0 then Some(([], s))
    else if |s| < 3 then None
    else Prepend([Rebuilt(s[0], s[1], s[2], l)], ParsePacked(s[3..], k - 1, l))
  }

  function ParseTPixels(s: seq<Byte>, k: nat, f: Format): Parsed {
    if f.packed.Some? then ParsePacked(s, k, f.packed.value) else ParseRow(s, k, f.n)
  }

  lemma {:induction false} AllSamplesCons(pixels: seq<int>, l: Layout)
    requires Fine(l) && pixels != []
    ensures AllSamples(pixels, l) == Samples(pixels[0], l) + AllSamples(pixels[1..], l)
    decreases |pixels|
  {
    if |pixels| > 1 {
      var front, last := pixels[..|pixels| - 1], pixels[|pixels| - 1];
      AllSamplesCons(front, l);
      assert front[1..] == pixels[1..][..|pixels| - 2];
      Regroup(Samples(pixels[0], l), AllSamples(front[1..], l), Samples(last, l));
    } else {
      assert pixels[1..] == [] && pixels[..0] == [];
    }
  }

  lemma {:induction false} PackedRoundTrip(pixels: seq<int>, f: Format, rest: seq<Byte>)
    requires IsFormat(f) && f.packed.Some?
    ensures ParsePacked(AllSamples(pixels, f.packed.value) + rest, |pixels|, f.packed.value) == Some((AllPlain(pixels, f), rest))
    decreases |pixels|
  {
    var l := f.packed.value;
    hide Samples;
    if pixels == [] {
      assert AllSamples(pixels, l) + rest == rest;
    } else {
      AllSamplesCons(pixels, l);
      PackedRoundTrip(pixels[1..], f, rest);
      var t := Samples(pixels[0], l);
      Regroup(t, AllSamples(pixels[1..], l), rest);
      var s := AllSamples(pixels, l) + rest;
      assert s == t + (AllSamples(pixels[1..], l) + rest);
      assert s[3..] == AllSamples(pixels[1..], l) + rest && s[0] == t[0] && s[1] == t[1] && s[2] == t[2];
      assert [Plain(pixels[0], f)] + AllPlain(pixels[1..], f) == AllPlain(pixels, f);
    }
  }

  lemma TPixelsRoundTrip(pixels: seq<int>, f: Format, rest: seq<Byte>)
    requires IsFormat(f) && PixelsFit(pixels, f.n)
    ensures |TPixelsOut(pixels, f)| == |pixels| * Width(f)
    ensures ParseTPixels(TPixelsOut(pixels, f) + rest, |pixels|, f) == Some((Shown(pixels, f), rest))
  {
    if f.packed.Some? {
      PackedRoundTrip(pixels, f, rest);
    } else {
      RowRoundTrip(pixels, f.n, rest);
    }
  }

  // ---- Compressed data ----

  /** zlib, as far as it matters: what a stream makes of data depends on the level and on the
      blocks it has had before. */
  datatype Codec = Codec(deflate: (nat, seq<seq<Byte>>, seq<Byte>) -> seq<Byte>,
                         inflate: (seq<seq<Byte>>, seq<Byte>) -> seq<Byte>)

  ghost predicate Lossless(c: Codec) {
    forall level, past, data :: c.inflate(past, c.deflate(level, past, data)) == data
  }

  /** The blocks that have gone through each of the four streams. */
  type Streams = s: seq<seq<seq<Byte>>> | |s| == 4 witness [[], [], [], []]

  /** Data of a known size; what is short is not compressed. */
  function ReadData(s: seq<Byte>, size: nat, id: nat, c: Codec, st: Streams): Option<(seq<Byte>, Streams, seq<Byte>)>
    requires id < 4
  {
    if size < MIN_TO_COMPRESS then
      if |s| < size then None else Some((s[..size], st, s[size..]))
    else
      match TightData.DecodeLength(s)
      case None => None
      case Some((len, t)) =>
        if |t| < len then None
        else
          var data := c.inflate(st[id], t[..len]);
          if |data| != size then None else Some((data, st[id := st[id] + [data]], t[len..]))
  }

  // ---- A rectangle ----

  type Rectangle = Option<(seq<int>, Streams, seq<Byte>)>

  function DecodeCopy(s: seq<Byte>, w: nat, h: nat, id: nat, f: Format, c: Codec, st: Streams): Rectangle
    requires id < 4
  {
    match ReadData(s, h * w * Width(f), id, c, st)
    case None => None
    case Some((data, st', rest)) =>
      match ParseTPixels(data, h * w, f)
      case None => None
      case Some((pixels, _)) => Some((pixels, st', rest))
  }

  function LookUp(indices: seq<Byte>, pal: seq<int>): Option<seq<int>> {
    if exists k :: 0 <= k < |indices| && indices[k] >= |pal| then None
    else Some(seq(|indices|, k requires 0 <= k < |indices| => if indices[k] < |pal| then pal[indices[k]] else 0))
  }

  /** One bit to a pixel for two colours, one byte for more. */
  function DecodePalette(s: seq<Byte>, w: nat, h: nat, id: nat, f: Format, c: Codec, st: Streams): Rectangle
    requires id < 4
  {
    if s == [] then None
    else
      match ParseTPixels(s[1..], s[0] as int + 1, f)
      case None => None
      case Some((pal, s1)) =>
        var mono := |pal| == 2;
        match ReadData(s1, if mono then h * ((w + 7) / 8) else h * w, id, c, st)
        case None => None
        case Some((data, st', rest)) =>
          if mono then
            match DecodePacked(data, w, h, 1, pal)
            case None => None
            case Some((pixels, _)) => Some((pixels, st', rest))
          else
            match LookUp(data, pal)
            case None => None
            case Some(pixels) => Some((pixels, st', rest))
  }

  function RowPixels(row: Row, w: nat, f: Format): (r: seq<int>)
    requires IsFormat(f) && f.n > 1 && |row| == 3 * w
    ensures |r| == w
  {
    seq(w, x requires 0 <= x < w => FromSamples(Triple(row, x), f))
  }

  function AllRowPixels(rows: seq<Row>, w: nat, f: Format): seq<int>
    requires IsFormat(f) && f.n > 1 && forall j :: 0 <= j < |rows| ==> |rows[j]| == 3 * w
  {
    if rows == [] then [] else RowPixels(rows[0], w, f) + AllRowPixels(rows[1..], w, f)
  }

  /** The differences in the data, three to a pixel. */
  function DifferenceRows(data: seq<Byte>, w: nat, h: nat, f: Format): Option<seq<Row>>
    requires IsFormat(f) && f.n > 1
  {
    if f.packed.Some? then
      if |data| == h * (3 * w) then Some(Cut(data, 3 * w, h)) else None
    else
      match ParseRow(data, h * w, f.n)
      case None => None
      case Some((pixels, _)) => Some(RowsOf(pixels, w, h, f.form))
  }

  function Maximum(f: Format): seq<int> {
    if f.packed.Some? then Max24() else f.form.fields.max
  }

  lemma MaximumIs(f: Format)
    requires IsFormat(f) && f.n > 1
    ensures IsMax(Maximum(f))
  {
    if f.packed.None? {
      Maxima(f.form);
    }
  }

  lemma {:induction false} UnfilteredSizes(ds: seq<Row>, prev: Row, max: seq<int>)
    requires IsMax(max) && forall j :: 0 <= j < |ds| ==> |ds[j]| == |prev|
    ensures forall j :: 0 <= j < |UnfilteredRows(ds, prev, max)| ==> |UnfilteredRows(ds, prev, max)[j]| == |prev|
    decreases |ds|
  {
    if ds != [] {
      UnfilteredSizes(ds[1..], Unfiltered(ds[0], prev, |prev|, max), max);
    }
  }

  function UndoGradient(ds: seq<Row>, w: nat, f: Format): seq<int>
    requires IsFormat(f) && f.n > 1 && forall j :: 0 <= j < |ds| ==> |ds[j]| == 3 * w
  {
    MaximumIs(f);
    UnfilteredSizes(ds, Zeros(3 * w), Maximum(f));
    AllRowPixels(UnfilteredRows(ds, Zeros(3 * w), Maximum(f)), w, f)
  }

  function DecodeGradient(s: seq<Byte>, w: nat, h: nat, id: nat, f: Format, c: Codec, st: Streams): Rectangle
    requires id < 4 && IsFormat(f)
  {
    if f.n == 1 then None
    else
      match ReadData(s, h * w * Width(f), id, c, st)
      case None => None
      case Some((data, st', rest)) =>
        match DifferenceRows(data, w, h, f)
        case None => None
        case Some(ds) => Some((UndoGradient(ds, w, f), st', rest))
  }

  /** The pixels of a rectangle, row after row. The encoder never resets a stream, so the low
      four bits of the first byte are zero; JPEG is not decoded. */
  function DecodeRect(s: seq<Byte>, w: nat, h: nat, f: Format, c: Codec, st: Streams): Rectangle
    requires IsFormat(f)
  {
    if s == [] || s[0] % 16 != 0 then None
    else
      var sub := s[0] / 16;
      if sub == FILL then
        match ParseTPixels(s[1..], 1, f)
        case None => None
        case Some((colour, rest)) => Some((Repeat(colour[0], h * w), st, rest))
      else if sub > FILL then None
      else if sub < EXPLICIT_FILTER then DecodeCopy(s[1..], w, h, sub, f, c, st)
      else if |s| < 2 then None
      else if s[1] == FILTER_COPY then DecodeCopy(s[2..], w, h, sub - EXPLICIT_FILTER, f, c, st)
      else if s[1] == FILTER_PALETTE then DecodePalette(s[2..], w, h, sub - EXPLICIT_FILTER, f, c, st)
      else if s[1] == FILTER_GRADIENT then DecodeGradient(s[2..], w, h, sub - EXPLICIT_FILTER, f, c, st)
      else None
  }
}
