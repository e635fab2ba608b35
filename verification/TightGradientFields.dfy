/** The gradient filter for pixels of two or four bytes: the samples are fields of a pixel,
    and the differences take their place. */
module TightGradientFields {
  import opened Basics
  import opened Bytes
  import opened Images
  import opened PixelFields
  import opened TightGradient

  /** How samples lie in a pixel: its fields, and whether client and server differ in the
      order of the bytes. */
  datatype PixelForm = PixelForm(fields: Fields, swap: bool, bytes: nat)

  predicate IsForm(f: PixelForm) {
    IsFields(f.fields) && PixelFields.Within(f.fields, Range(f.bytes))
  }

  function Native(v: int, f: PixelForm): int {
    if f.swap then Swapped(v, f.bytes) else v
  }

  function PixelSamples(v: int, f: PixelForm): (s: seq<int>)
    requires IsForm(f)
    ensures |s| == 3
  {
    FieldsOf(Native(v, f), f.fields)
  }

  function RowSamples(pixels: seq<int>, f: PixelForm): (s: Row)
    requires IsForm(f)
    ensures |s| == 3 * |pixels|
    decreases |pixels|
  {
    if pixels == [] then [] else RowSamples(pixels[..|pixels| - 1], f) + PixelSamples(pixels[|pixels| - 1], f)
  }

  lemma {:induction false} RowSamplesAt(pixels: seq<int>, f: PixelForm, x: nat)
    requires IsForm(f) && x < |pixels|
    ensures Triple(RowSamples(pixels, f), x) == PixelSamples(pixels[x], f)
    decreases |pixels|
  {
    var last := |pixels| - 1;
    if x < last {
      RowSamplesAt(pixels[..last], f, x);
    }
  }

  lemma {:induction false} RowSamplesRange(pixels: seq<int>, f: PixelForm)
    requires IsForm(f)
    ensures InRange(RowSamples(pixels, f), f.fields.max)
    decreases |pixels|
  {
    if pixels != [] {
      var last := |pixels| - 1;
      RowSamplesRange(pixels[..last], f);
      var s, t := RowSamples(pixels[..last], f), PixelSamples(pixels[last], f);
      forall p | |s| <= p < |s| + 3
        ensures 0 <= (s + t)[p] <= f.fields.max[p % 3]
      {
        assert p % 3 == p - |s|;
      }
    }
  }

  /** A pixel made of differences gives them back. */
  lemma DifferencePixel(d: seq<int>, f: PixelForm)
    requires IsForm(f) && Fitting(d, f.fields)
    ensures PixelSamples(Native(Joined(d, f.fields), f), f) == d
    ensures 0 <= Native(Joined(d, f.fields), f) < Range(f.bytes)
  {
    FieldsRoundTrip(d, f.fields);
    JoinedWithin(d, f.fields, Range(f.bytes));
    SwappedTwice(Joined(d, f.fields), f.bytes);
  }

  /** One row, in place. */
  method FilterRow(buf: array<int>, from: nat, w: nat, f: PixelForm, prevRow: array<int>, ghost prev: Row)
    requires IsForm(f) && from + w <= buf.Length && buf != prevRow
    requires 3 * w == |prev| <= prevRow.Length && prevRow[..3 * w] == prev
    modifies buf, prevRow
    ensures prevRow[..3 * w] == RowSamples(old(buf[from..from + w]), f)
    ensures RowSamples(buf[from..from + w], f) == Filtered(RowSamples(old(buf[from..from + w]), f), prev, f.fields.max)
    ensures buf[..from] == old(buf[..from]) && buf[from + w..] == old(buf[from + w..])
    ensures PixelsFit(buf[from..from + w], f.bytes)
  {
    hide Range;
    hide InRow;
    hide PixelSamples;
    hide IsForm;
    ghost var pixels, row := buf[from..from + w], RowSamples(buf[from..from + w], f);
    var max := f.fields.max;
    var here, upper := [0, 0, 0], [0, 0, 0];
    ghost var out: Row := [];
    Maxima(f);
    InRowStart(row, prev, max, prevRow[..]);
    assert buf[from..from] == [] && RowSamples([], f) == [];
    hide RowSamples;
    hide Filtered;
    hide DifferencesIn;
    hide SamplesOf;
    var x := 0;
    while x < w
      invariant 0 <= x <= w && |here| == 3 && |upper| == 3 && |out| == 3 * x
      invariant InRow(row, prev, max, x, prevRow[..], here, upper, out)
      invariant RowSamples(buf[from..from + x], f) == out && PixelsFit(buf[from..from + x], f.bytes)
      invariant buf[..][from + x..] == old(buf[..])[from + x..] && buf[..][..from] == old(buf[..])[..from]
    {
      RowSamplesAt(pixels, f, x);
      assert buf[from + x] == buf[..][from + x..][0] == old(buf[..])[from + x..][0] == pixels[x];
      var diffs;
      ghost var was := buf[..];
      assert was[from..from + x] == buf[from..from + x];
      diffs, here, upper := FilterStep(SamplesOf(buf[from + x], f), max, prevRow, x, here, upper, row, prev, out);
      buf[from + x] := DifferencesIn(diffs, f);
      assert buf[..] == was[from + x := buf[from + x]];
      RowWritten(old(buf[..]), was, buf[..], from, x, buf[from + x], f, diffs);
      out := out + diffs;
      x := x + 1;
    }
    InRowDone(row, prev, max, w, prevRow[..], here, upper, out);
  }

  /** The pixel at from + x has been written. */
  lemma RowWritten(start: seq<int>, was: seq<int>, now: seq<int>, from: nat, x: nat, v: int, f: PixelForm, diffs: seq<int>)
    requires IsForm(f) && |start| == |was| && from + x < |was| && now == was[from + x := v]
    requires was[from + x..] == start[from + x..] && was[..from] == start[..from]
    requires PixelsFit(was[from..from + x], f.bytes) && PixelSamples(v, f) == diffs && 0 <= v < Range(f.bytes)
    ensures RowSamples(now[from..from + x + 1], f) == RowSamples(was[from..from + x], f) + diffs
    ensures PixelsFit(now[from..from + x + 1], f.bytes)
    ensures now[from + x + 1..] == start[from + x + 1..] && now[..from] == start[..from]
  {
    hide Range;
    hide IsForm;
    hide PixelSamples;
    assert now[from..from + x + 1] == was[from..from + x] + [v];
    RowSamplesSnoc(was[from..from + x], v, f);
    assert now[from + x + 1..] == was[from + x..][1..] && start[from + x + 1..] == start[from + x..][1..];
    assert now[..from] == was[..from];
  }

  lemma Maxima(f: PixelForm)
    requires IsForm(f)
    ensures IsMax(f.fields.max)
  {
  }

  lemma RowSamplesSnoc(pixels: seq<int>, v: int, f: PixelForm)
    requires IsForm(f)
    ensures RowSamples(pixels + [v], f) == RowSamples(pixels, f) + PixelSamples(v, f)
  {
    assert (pixels + [v])[..|pixels|] == pixels;
  }

  function SamplesOf(v: int, f: PixelForm): (s: seq<int>)
    requires IsForm(f)
    ensures s == PixelSamples(v, f)
  {
    var pix := if f.swap then Swapped(v, f.bytes) else v;
    FieldsOf(pix, f.fields)
  }

  /** diff, with its bytes swapped back if need be. */
  function DifferencesIn(diffs: seq<int>, f: PixelForm): (v: int)
    requires IsForm(f) && |diffs| == 3 && forall c :: 0 <= c < 3 ==> 0 <= diffs[c] <= f.fields.max[c]
    ensures PixelSamples(v, f) == diffs && 0 <= v < Range(f.bytes)
  {
    DifferencePixel(diffs, f);
    Native(Joined(diffs, f.fields), f)
  }

  // ---- All rows ----

  function RowsOf(pixels: seq<int>, w: nat, h: nat, f: PixelForm): (rows: seq<Row>)
    requires IsForm(f) && |pixels| == h * w
    ensures |rows| == h && forall j :: 0 <= j < h ==> |rows[j]| == 3 * w
    decreases h
  {
    if h == 0 then []
    else
      OneMore(h - 1, w);
      MulMonotone(0, h - 1, w);
      RowsOf(pixels[..(h - 1) * w], w, h - 1, f) + [RowSamples(pixels[(h - 1) * w..], f)]
  }

  lemma {:induction false} RowsOfRange(pixels: seq<int>, w: nat, h: nat, f: PixelForm)
    requires IsForm(f) && |pixels| == h * w
    ensures forall j :: 0 <= j < h ==> InRange(RowsOf(pixels, w, h, f)[j], f.fields.max)
    decreases h
  {
    if h > 0 {
      OneMore(h - 1, w);
      MulMonotone(0, h - 1, w);
      RowsOfRange(pixels[..(h - 1) * w], w, h - 1, f);
      RowSamplesRange(pixels[(h - 1) * w..], f);
    }
  }

  /** A row is filtered against the one before it. */
  lemma {:induction false} FilteredRowsSnoc(rows: seq<Row>, row: Row, prev: Row, max: seq<int>)
    requires IsMax(max) && |row| == |prev| && forall j :: 0 <= j < |rows| ==> |rows[j]| == |prev|
    ensures FilteredRows(rows + [row], prev, max)
      == FilteredRows(rows, prev, max) + [Filtered(row, if rows == [] then prev else rows[|rows| - 1], max)]
    decreases |rows|
  {
    var all := rows + [row];
    if rows == [] {
      assert all[1..] == [];
    } else {
      assert all[1..] == rows[1..] + [row];
      FilteredRowsSnoc(rows[1..], row, rows[0], max);
      if |rows| > 1 {
        assert rows[1..][|rows| - 2] == rows[|rows| - 1];
      }
    }
  }

  /** One more row of the loop over the rows. */
  method NextRow(buf: array<int>, at: nat, w: nat, ghost y: nat, f: PixelForm, prevRow: array<int>, ghost prev: Row, ghost pixels: seq<int>)
    requires IsForm(f) && at + w <= buf.Length == |pixels| && buf != prevRow && buf[at..] == pixels[at..]
    requires 3 * w == |prev| <= prevRow.Length && prevRow[..3 * w] == prev
    requires Progress(pixels[..at], buf[..at], w, y, f, prev)
    modifies buf, prevRow
    ensures prevRow[..3 * w] == RowSamples(pixels[at..at + w], f) && buf[at + w..] == pixels[at + w..]
    ensures Progress(pixels[..at + w], buf[..at + w], w, y + 1, f, RowSamples(pixels[at..at + w], f))
  {
    hide RowSamples;
    hide Filtered;
    hide Progress;
    hide PixelsFit;
    hide IsForm;
    ghost var done, row := buf[..at], buf[at..at + w];
    FilterRow(buf, at, w, f, prevRow, prev);
    assert row == pixels[at..][..w] == pixels[at..at + w];
    ProgressStep(pixels[..at], done, w, y, f, prev, row, buf[at..at + w]);
    assert pixels[..at] + row == pixels[..at + w] && done + buf[at..at + w] == buf[..at + w];
    assert buf[at + w..] == pixels[at..][w..] == pixels[at + w..];
  }

  /** FilterGradient16 and 32, in place. Undoing it gives back every sample. */
  method FilterGradient(buf: array<int>, w: nat, h: nat, f: PixelForm, prevRowBuf: array<int>)
    requires IsForm(f) && buf.Length == h * w && 3 * w <= prevRowBuf.Length && buf != prevRowBuf
    modifies buf, prevRowBuf
    ensures RowsOf(buf[..], w, h, f) == FilteredRows(RowsOf(old(buf[..]), w, h, f), Zeros(3 * w), f.fields.max)
    ensures UnfilteredRows(RowsOf(buf[..], w, h, f), Zeros(3 * w), f.fields.max) == RowsOf(old(buf[..]), w, h, f)
    ensures PixelsFit(buf[..], f.bytes)
  {
    hide PixelsFit;
    hide RowsOf;
    hide RowSamples;
    hide FilteredRows;
    hide UnfilteredRows;
    hide Filtered;
    hide Progress;
    hide IsForm;
    ghost var pixels := buf[..];
    Maxima(f);
    Clear(prevRowBuf, 3 * w);
    ghost var prev := Zeros(3 * w);
    var y, at := 0, 0;
    RowsStart(pixels, buf[..0], w, f);
    while y < h
      invariant 0 <= y <= h && at == y * w && at <= buf.Length
      invariant |prev| == 3 * w && prevRowBuf[..3 * w] == prev && buf[at..] == pixels[at..]
      invariant Progress(pixels[..at], buf[..at], w, y, f, prev)
    {
      OneMore(y, w);
      MulMonotone(y + 1, h, w);
      NextRow(buf, at, w, y, f, prevRowBuf, prev, pixels);
      prev := RowSamples(pixels[at..at + w], f);
      at := at + w;
      y := y + 1;
    }
    assert pixels[..at] == pixels && buf[..at] == buf[..];
    ProgressEnd(pixels, buf[..], w, h, f, prev);
  }

  /** The first y rows are filtered; prev is the last of them. */
  ghost predicate Progress(pixels: seq<int>, now: seq<int>, w: nat, y: nat, f: PixelForm, prev: Row) {
    && IsForm(f) && IsMax(f.fields.max) && |pixels| == y * w && |now| == y * w && PixelsFit(now, f.bytes)
    && RowsOf(now, w, y, f) == FilteredRows(RowsOf(pixels, w, y, f), Zeros(3 * w), f.fields.max)
    && prev == if y == 0 then Zeros(3 * w) else RowsOf(pixels, w, y, f)[y - 1]
  }

  lemma RowsStart(pixels: seq<int>, now: seq<int>, w: nat, f: PixelForm)
    requires IsForm(f) && now == []
    ensures Progress(pixels[..0], now, w, 0, f, Zeros(3 * w))
  {
    assert 0 * w == 0;
  }

  lemma ProgressStep(pixels: seq<int>, now: seq<int>, w: nat, y: nat, f: PixelForm, prev: Row, row: seq<int>, row': seq<int>)
    requires Progress(pixels, now, w, y, f, prev) && |row| == w && |row'| == w && |prev| == 3 * w
    requires RowSamples(row', f) == Filtered(RowSamples(row, f), prev, f.fields.max) && PixelsFit(row', f.bytes)
    ensures Progress(pixels + row, now + row', w, y + 1, f, RowSamples(row, f))
  {
    RowsOfSnoc(pixels, row, w, y, f);
    RowsOfSnoc(now, row', w, y, f);
    FilteredRowsSnoc(RowsOf(pixels, w, y, f), RowSamples(row, f), Zeros(3 * w), f.fields.max);
  }

  lemma RowsOfSnoc(pixels: seq<int>, row: seq<int>, w: nat, y: nat, f: PixelForm)
    requires IsForm(f) && |pixels| == y * w && |row| == w
    ensures |pixels + row| == (y + 1) * w
    ensures RowsOf(pixels + row, w, y + 1, f) == RowsOf(pixels, w, y, f) + [RowSamples(row, f)]
  {
    OneMore(y, w);
    assert (pixels + row)[..y * w] == pixels && (pixels + row)[y * w..] == row;
  }

  lemma ProgressEnd(pixels: seq<int>, now: seq<int>, w: nat, h: nat, f: PixelForm, prev: Row)
    requires Progress(pixels, now, w, h, f, prev)
    ensures RowsOf(now, w, h, f) == FilteredRows(RowsOf(pixels, w, h, f), Zeros(3 * w), f.fields.max)
    ensures UnfilteredRows(RowsOf(now, w, h, f), Zeros(3 * w), f.fields.max) == RowsOf(pixels, w, h, f)
    ensures PixelsFit(now, f.bytes)
  {
    RowsOfRange(pixels, w, h, f);
    GradientRoundTrip(RowsOf(pixels, w, h, f), Zeros(3 * w), f.fields.max);
  }
}
