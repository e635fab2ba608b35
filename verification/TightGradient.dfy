/** The gradient filter of the Tight encoder: every sample is replaced by its difference
    from a prediction out of its left, upper and upper left neighbours. A decoder that
    predicts from what it has decoded so far finds every sample again. */
module TightGradient {
  import opened Basics
  import opened Bytes
  import opened Images
  import opened TightBuffer

  /** Samples of a row, three to a pixel, and the greatest value of each of the three. */
  type Row = seq<int>

  predicate IsMax(max: seq<int>) {
    |max| == 3 && max[0] >= 0 && max[1] >= 0 && max[2] >= 0
  }

  ghost predicate InRange(row: Row, max: seq<int>) {
    IsMax(max) && forall p :: 0 <= p < |row| ==> 0 <= row[p] <= max[p % 3]
  }

  function Gap(a: int, b: int): int {
    if a < b then b - a else a - b
  }

  /** No sample is nearer to v than q. */
  ghost predicate Closest(q: int, v: int, max: int) {
    0 <= q <= max && forall t :: 0 <= t <= max ==> Gap(q, v) <= Gap(t, v)
  }

  lemma OnlyOneClosest(p: int, q: int, v: int, max: int)
    requires Closest(p, v, max) && Closest(q, v, max)
    ensures p == q
  {
    assert Gap(p, v) == Gap(q, v);
    assert 0 <= v <= max ==> Gap(p, v) <= Gap(v, v);
  }

  /** d is what a sample differs by from the prediction for v. */
  ghost predicate DiffersBy(d: int, sample: int, v: int, max: int)
    requires max >= 0
  {
    exists q :: Closest(q, v, max) && d == (sample - q) % (max + 1)
  }

  function At(row: Row, p: int): int
    requires p < |row|
  {
    if p < 0 then 0 else row[p]
  }

  /** From the pixel to the left, the one above and the one above to the left. */
  function Prediction(row: Row, prev: Row, p: nat, max: seq<int>): (q: int)
    requires IsMax(max) && p < |prev| && p <= |row|
    ensures Closest(q, At(row, p - 3) + prev[p] - At(prev, p - 3), max[p % 3])
  {
    var v := At(row, p - 3) + prev[p] - At(prev, p - 3);
    if v < 0 then 0 else if v > max[p % 3] then max[p % 3] else v
  }

  /** (sample - prediction) & max, for a max that is one less than a power of two. */
  function Difference(row: Row, prev: Row, p: nat, max: seq<int>): int
    requires IsMax(max) && p < |prev| && p < |row|
  {
    (row[p] - Prediction(row, prev, p, max)) % (max[p % 3] + 1)
  }

  function Filtered(row: Row, prev: Row, max: seq<int>): (d: Row)
    requires IsMax(max) && |row| <= |prev|
    ensures |d| == |row|
  {
    seq(|row|, p requires 0 <= p < |row| => Difference(row, prev, p, max))
  }

  /** The decoder: the first k samples of a row. */
  function Unfiltered(d: Row, prev: Row, k: nat, max: seq<int>): (row: Row)
    requires IsMax(max) && k <= |d| <= |prev|
    ensures |row| == k
    decreases k
  {
    if k == 0 then []
    else
      var row := Unfiltered(d, prev, k - 1, max);
      row + [(d[k - 1] + Prediction(row, prev, k - 1, max)) % (max[(k - 1) % 3] + 1)]
  }

  lemma AddBack(v: int, q: int, m: int)
    requires 0 <= v < m
    ensures ((v - q) % m + q) % m == v
  {
    var t := (v - q) / m;
    assert (v - q) % m + q == v - t * m;
    QuotientUnique(v - t * m, m, -t, v);
  }

  lemma PredictionPrefix(row: Row, prev: Row, p: nat, max: seq<int>)
    requires IsMax(max) && p < |row| <= |prev|
    ensures Prediction(row[..p], prev, p, max) == Prediction(row, prev, p, max)
  {
  }

  lemma {:induction false} UnfilterRow(row: Row, prev: Row, k: nat, max: seq<int>)
    requires InRange(row, max) && k <= |row| <= |prev|
    ensures Unfiltered(Filtered(row, prev, max), prev, k, max) == row[..k]
    decreases k
  {
    hide Prediction;
    hide Difference;
    hide Closest;
    if k > 0 {
      UnfilterRow(row, prev, k - 1, max);
      var p := k - 1;
      PredictionPrefix(row, prev, p, max);
      DecodedSample(row, prev, p, max);
      assert Filtered(row, prev, max)[p] == Difference(row, prev, p, max);
      assert row[..k] == row[..p] + [row[p]];
    }
  }

  lemma DecodedSample(row: Row, prev: Row, p: nat, max: seq<int>)
    requires InRange(row, max) && p < |row| <= |prev|
    ensures (Difference(row, prev, p, max) + Prediction(row, prev, p, max)) % (max[p % 3] + 1) == row[p]
  {
    AddBack(row[p], Prediction(row, prev, p, max), max[p % 3] + 1);
  }

  /** All rows; above the first one there are only zeros. */
  function FilteredRows(rows: seq<Row>, prev: Row, max: seq<int>): (ds: seq<Row>)
    requires IsMax(max) && forall j :: 0 <= j < |rows| ==> |rows[j]| == |prev|
    ensures |ds| == |rows| && forall j :: 0 <= j < |ds| ==> |ds[j]| == |prev|
    decreases |rows|
  {
    if rows == [] then [] else [Filtered(rows[0], prev, max)] + FilteredRows(rows[1..], rows[0], max)
  }

  function UnfilteredRows(ds: seq<Row>, prev: Row, max: seq<int>): seq<Row>
    requires IsMax(max) && forall j :: 0 <= j < |ds| ==> |ds[j]| == |prev|
    decreases |ds|
  {
    if ds == [] then []
    else
      var row := Unfiltered(ds[0], prev, |prev|, max);
      [row] + UnfilteredRows(ds[1..], row, max)
  }

  lemma {:induction false} GradientRoundTrip(rows: seq<Row>, prev: Row, max: seq<int>)
    requires IsMax(max) && forall j :: 0 <= j < |rows| ==> |rows[j]| == |prev| && InRange(rows[j], max)
    ensures UnfilteredRows(FilteredRows(rows, prev, max), prev, max) == rows
    decreases |rows|
  {
    if rows != [] {
      UnfilterRow(rows[0], prev, |prev|, max);
      assert rows[0][..|prev|] == rows[0];
      GradientRoundTrip(rows[1..], rows[0], max);
      assert FilteredRows(rows, prev, max)[1..] == FilteredRows(rows[1..], rows[0], max);
      assert [rows[0]] + rows[1..] == rows;
    }
  }

  // ---- One pixel ----

  /** The three samples at x, or zeros left of the row. */
  function Triple(row: Row, x: int): (t: seq<int>)
    requires -1 <= x && 3 * x + 3 <= |row|
    ensures |t| == 3
  {
    if x < 0 then [0, 0, 0] else [row[3 * x], row[3 * x + 1], row[3 * x + 2]]
  }

  /** The loop over the three colours that all versions of the filter share: prevRow is
      overtaken sample by sample. */
  method FilterPixel(samples: seq<int>, max: seq<int>, prevRow: array<int>, x: nat, here: seq<int>, upper: seq<int>)
    returns (diffs: seq<int>, pixHere: seq<int>, pixUpper: seq<int>)
    requires |samples| == 3 && IsMax(max) && 3 * x + 3 <= prevRow.Length && |here| == 3 && |upper| == 3
    modifies prevRow
    ensures |diffs| == 3 && pixHere == samples && pixUpper == old(prevRow[3 * x..3 * x + 3])
    ensures forall c :: 0 <= c < 3 ==> DiffersBy(diffs[c], samples[c], here[c] + old(prevRow[3 * x + c]) - upper[c], max[c])
    ensures forall i :: 0 <= i < prevRow.Length ==>
      prevRow[i] == if 3 * x <= i < 3 * x + 3 then samples[i - 3 * x] else old(prevRow[i])
  {
    diffs, pixHere, pixUpper := [0, 0, 0], here, upper;
    var c := 0;
    while c < 3
      invariant 0 <= c <= 3 && |diffs| == 3 && |pixHere| == 3 && |pixUpper| == 3
      invariant forall k :: 0 <= k < 3 ==>
        && pixHere[k] == (if k < c then samples[k] else here[k])
        && pixUpper[k] == (if k < c then old(prevRow[3 * x + k]) else upper[k])
      invariant forall k :: 0 <= k < c ==> DiffersBy(diffs[k], samples[k], here[k] + old(prevRow[3 * x + k]) - upper[k], max[k])
      invariant forall i :: 0 <= i < prevRow.Length ==>
        prevRow[i] == if 3 * x <= i < 3 * x + c then samples[i - 3 * x] else old(prevRow[i])
    {
      var pixUpperLeft, pixLeft := pixUpper[c], pixHere[c];
      pixUpper := pixUpper[c := prevRow[3 * x + c]];
      pixHere := pixHere[c := samples[c]];
      prevRow[3 * x + c] := pixHere[c];
      var prediction := pixLeft + pixUpper[c] - pixUpperLeft;
      if prediction < 0 {
        prediction := 0;
      } else if prediction > max[c] {
        prediction := max[c];
      }
      assert Closest(prediction, here[c] + old(prevRow[3 * x + c]) - upper[c], max[c]);
      diffs := diffs[c := (pixHere[c] - prediction) % (max[c] + 1)];
      c := c + 1;
    }
  }

  /** Where the filter stands in a row: the differences so far, what prevRow holds and what
      is remembered of the last pixel. */
  ghost predicate InRow(row: Row, prev: Row, max: seq<int>, x: nat, prevRow: seq<int>, here: seq<int>, upper: seq<int>, out: Row) {
    && IsMax(max) && |row| == |prev| && 3 * x <= |row| && |row| <= |prevRow| && |row| % 3 == 0
    && (forall i :: 0 <= i < |row| ==> prevRow[i] == if i < 3 * x then row[i] else prev[i])
    && here == Triple(row, x - 1) && upper == Triple(prev, x - 1)
    && |out| == 3 * x && forall p :: 0 <= p < 3 * x ==> out[p] == Difference(row, prev, p, max)
  }

  lemma InRowStart(row: Row, prev: Row, max: seq<int>, prevRow: seq<int>)
    requires IsMax(max) && |row| == |prev| && |row| % 3 == 0 && |row| <= |prevRow| && prevRow[..|row|] == prev
    ensures InRow(row, prev, max, 0, prevRow, [0, 0, 0], [0, 0, 0], [])
  {
    assert forall i :: 0 <= i < |row| ==> prevRow[i] == prevRow[..|row|][i];
  }

  lemma InRowStep(row: Row, prev: Row, max: seq<int>, x: nat, prevRow: seq<int>, here: seq<int>, upper: seq<int>, out: Row,
                  samples: seq<int>, diffs: seq<int>, prevRow': seq<int>)
    requires InRow(row, prev, max, x, prevRow, here, upper, out) && 3 * x + 3 <= |row|
    requires samples == Triple(row, x) && |diffs| == 3 && |here| == 3 && |upper| == 3
    requires forall c :: 0 <= c < 3 ==> DiffersBy(diffs[c], samples[c], here[c] + Triple(prevRow, x)[c] - upper[c], max[c])
    requires |prevRow'| == |prevRow|
    requires forall i :: 0 <= i < |prevRow| ==> prevRow'[i] == if 3 * x <= i < 3 * x + 3 then samples[i - 3 * x] else prevRow[i]
    ensures InRow(row, prev, max, x + 1, prevRow', samples, Triple(prev, x), out + diffs)
  {
    hide Difference;
    DifferenceAt(row, prev, max, x, prevRow, here, upper, out, samples, 0, diffs[0]);
    DifferenceAt(row, prev, max, x, prevRow, here, upper, out, samples, 1, diffs[1]);
    DifferenceAt(row, prev, max, x, prevRow, here, upper, out, samples, 2, diffs[2]);
    var out' := out + diffs;
    forall p | 0 <= p < 3 * (x + 1)
      ensures out'[p] == Difference(row, prev, p, max)
    {
      assert p >= 3 * x ==> p == 3 * x || p == 3 * x + 1 || p == 3 * x + 2;
    }
  }

  lemma DifferenceAt(row: Row, prev: Row, max: seq<int>, x: nat, prevRow: seq<int>, here: seq<int>, upper: seq<int>, out: Row,
                     samples: seq<int>, c: nat, d: int)
    requires InRow(row, prev, max, x, prevRow, here, upper, out) && 3 * x + 3 <= |row| && c < 3
    requires samples == Triple(row, x) && |here| == 3 && |upper| == 3
    requires DiffersBy(d, samples[c], here[c] + Triple(prevRow, x)[c] - upper[c], max[c])
    ensures d == Difference(row, prev, 3 * x + c, max)
  {
    TripleAt(row, prev, prevRow, x, c);
    assert (3 * x + c) % 3 == c;
    assert prevRow[3 * x + c] == prev[3 * x + c];
    var v := here[c] + Triple(prevRow, x)[c] - upper[c];
    var q :| Closest(q, v, max[c]) && d == (samples[c] - q) % (max[c] + 1);
    OnlyOneClosest(q, Prediction(row, prev, 3 * x + c, max), v, max[c]);
  }

  lemma TripleAt(row: Row, prev: Row, prevRow: seq<int>, x: nat, c: nat)
    requires c < 3 && 3 * x + 3 <= |row| == |prev| && |row| <= |prevRow|
    ensures Triple(row, x)[c] == row[3 * x + c] && Triple(prevRow, x)[c] == prevRow[3 * x + c]
    ensures Triple(row, x - 1)[c] == At(row, 3 * x + c - 3) && Triple(prev, x - 1)[c] == At(prev, 3 * x + c - 3)
  {
  }

  lemma InRowDone(row: Row, prev: Row, max: seq<int>, x: nat, prevRow: seq<int>, here: seq<int>, upper: seq<int>, out: Row)
    requires InRow(row, prev, max, x, prevRow, here, upper, out) && 3 * x == |row|
    ensures out == Filtered(row, prev, max) && prevRow[..|row|] == row
  {
  }

  lemma UpperIs(row: Row, prev: Row, max: seq<int>, x: nat, prevRow: seq<int>, here: seq<int>, upper: seq<int>, out: Row)
    requires InRow(row, prev, max, x, prevRow, here, upper, out) && 3 * x + 3 <= |row|
    ensures prevRow[3 * x..3 * x + 3] == Triple(prev, x) == Triple(prevRow, x)
  {
  }

  /** One pixel of a row. */
  method FilterStep(samples: seq<int>, max: seq<int>, prevRow: array<int>, x: nat, here: seq<int>, upper: seq<int>,
                    ghost row: Row, ghost prev: Row, ghost out: Row)
    returns (diffs: seq<int>, pixHere: seq<int>, pixUpper: seq<int>)
    requires |here| == 3 && |upper| == 3 && 3 * x + 3 <= |row|
    requires InRow(row, prev, max, x, prevRow[..], here, upper, out) && samples == Triple(row, x)
    modifies prevRow
    ensures |diffs| == 3 && |pixHere| == 3 && |pixUpper| == 3
    ensures forall c :: 0 <= c < 3 ==> 0 <= diffs[c] <= max[c]
    ensures InRow(row, prev, max, x + 1, prevRow[..], pixHere, pixUpper, out + diffs)
  {
    ghost var was := prevRow[..];
    UpperIs(row, prev, max, x, was, here, upper, out);
    diffs, pixHere, pixUpper := FilterPixel(samples, max, prevRow, x, here, upper);
    InRowStep(row, prev, max, x, was, here, upper, out, samples, diffs, prevRow[..]);
  }

  /** The next pixel of the buffer. */
  method NextPixel(buf: array<Byte>, q: nat, n: nat, ghost rest: seq<int>) returns (pix: int)
    requires n >= 1 && rest != [] && PixelsFit(rest, n) && Holds(buf[..], q, rest, n)
    ensures q + n <= buf.Length && pix == rest[0] && Holds(buf[..], q + n, rest[1..], n)
  {
    HoldsHead(buf[..], q, rest, n);
    assert buf[..][q..q + n] == buf[q..q + n];
    pix := PixelOf(buf[q..q + n]);
  }

  // ---- Pixels of three bytes ----

  function Max24(): seq<int> {
    [0xFF, 0xFF, 0xFF]
  }

  lemma SamplesAt(pixels: seq<int>, l: Layout, x: nat)
    requires Fine(l) && x < |pixels|
    ensures |AllSamples(pixels, l)| == 3 * |pixels| && Triple(AllSamples(pixels, l), x) == Samples(pixels[x], l)
    decreases |pixels|
  {
    var last := |pixels| - 1;
    if x < last {
      SamplesAt(pixels[..last], l, x);
    }
  }

  /** One pixel of the row: it is read, and its differences are written. */
  method FilterNext24(buf: array<Byte>, q: nat, d: nat, l: Layout, max: seq<int>, prevRow: array<int>, x: nat, here0: seq<int>,
                      upper0: seq<int>, ghost rest: seq<int>, ghost row: Row, ghost prev: Row, ghost out: Row)
    returns (here: seq<int>, upper: seq<int>, ghost diffs: seq<int>)
    requires Fine(l) && max == Max24() && rest != [] && PixelsFit(rest, 4) && Holds(buf[..], q, rest, 4) && d <= q
    requires |here0| == 3 && |upper0| == 3 && 3 * x + 3 <= |row| && Triple(row, x) == Samples(rest[0], l)
    requires InRow(row, prev, max, x, prevRow[..], here0, upper0, out)
    modifies buf, prevRow
    ensures |here| == 3 && |upper| == 3 && |diffs| == 3 && d + 3 <= buf.Length
    ensures InRow(row, prev, max, x + 1, prevRow[..], here, upper, out + diffs)
    ensures forall c :: 0 <= c < 3 ==> 0 <= diffs[c] < 256
    ensures buf[..d + 3] == old(buf[..d]) + diffs && Holds(buf[..], q + 4, rest[1..], 4)
  {
    hide InRow;
    hide Holds;
    hide PixelsFit;
    hide Samples;
    var pix := NextPixel(buf, q, 4, rest);
    var ds;
    ds, here, upper := FilterStep(Samples(pix, l), max, prevRow, x, here0, upper0, row, prev, out);
    diffs := ds;
    PutThree(buf, d, ds[0], ds[1], ds[2], q + 4, rest[1..], 4);
    assert diffs == [ds[0], ds[1], ds[2]];
  }

  /** One row of FilterGradient24, in place: three bytes are written for every pixel of four
      that is read. */
  method FilterRow24(buf: array<Byte>, p: nat, d: nat, w: nat, l: Layout, prevRow: array<int>, ghost prev: Row, ghost rest: seq<int>)
    requires Fine(l) && w <= |rest| && d <= p && PixelsFit(rest, 4) && Holds(buf[..], p, rest, 4)
    requires 3 * w == |prev| <= prevRow.Length && prevRow[..3 * w] == prev
    modifies buf, prevRow
    ensures d + 3 * w <= buf.Length && prevRow[..3 * w] == AllSamples(rest[..w], l)
    ensures buf[..d + 3 * w] == old(buf[..d]) + Filtered(AllSamples(rest[..w], l), prev, Max24())
    ensures Holds(buf[..], p + 4 * w, rest[w..], 4)
  {
    hide InRow;
    hide Holds;
    hide PixelsFit;
    hide Samples;
    hide Filtered;
    hide Triple;
    hide AllSamples;
    ghost var row: Row := AllSamples(rest[..w], l);
    var max := Max24();
    var here, upper := [0, 0, 0], [0, 0, 0];
    ghost var out: Row := [];
    SuffixesFit(rest, 4);
    HoldsBound(buf[..], p, rest, 4);
    InRowStart(row, prev, max, prevRow[..]);
    assert rest[0..] == rest;
    var x := 0;
    while x < w
      invariant 0 <= x <= w && d + 3 * x <= buf.Length && |here| == 3 && |upper| == 3
      invariant InRow(row, prev, max, x, prevRow[..], here, upper, out)
      invariant Holds(buf[..], p + 4 * x, rest[x..], 4)
      invariant (forall k :: 0 <= k < |out| ==> 0 <= out[k] < 256) && |out| == 3 * x
      invariant buf[..d + 3 * x] == old(buf[..d]) + out
    {
      assert rest[x..][1..] == rest[x + 1..];
      ghost var diffs;
      SamplesAt(rest[..w], l, x);
      here, upper, diffs := FilterNext24(buf, p + 4 * x, d + 3 * x, l, max, prevRow, x, here, upper, rest[x..], row, prev, out);
      out := out + diffs;
      x := x + 1;
    }
    InRowDone(row, prev, max, w, prevRow[..], here, upper, out);
  }

  /** The samples of h rows of w pixels. */
  function SampleRows(pixels: seq<int>, w: nat, h: nat, l: Layout): (rows: seq<Row>)
    requires Fine(l) && |pixels| == h * w
    ensures |rows| == h && forall j :: 0 <= j < h ==> |rows[j]| == 3 * w
    decreases h
  {
    if h == 0 then []
    else
      OneMore(h - 1, w);
      MulMonotone(0, h - 1, w);
      [AllSamples(pixels[..w], l)] + SampleRows(pixels[w..], w, h - 1, l)
  }

  function Zeros(k: nat): (r: Row)
    ensures |r| == k
  {
    seq(k, _ => 0)
  }

  lemma {:induction false} SampleRange(pixels: seq<int>, l: Layout)
    requires Fine(l)
    ensures InRange(AllSamples(pixels, l), Max24())
  {
    var s := AllSamples(pixels, l);
    assert forall p :: 0 <= p < |s| ==> 0 <= s[p] < 256;
  }

  lemma {:induction false} SampleRowsRange(pixels: seq<int>, w: nat, h: nat, l: Layout)
    requires Fine(l) && |pixels| == h * w
    ensures forall j :: 0 <= j < h ==> InRange(SampleRows(pixels, w, h, l)[j], Max24())
    decreases h
  {
    if h > 0 {
      OneMore(h - 1, w);
      MulMonotone(0, h - 1, w);
      SampleRange(pixels[..w], l);
      SampleRowsRange(pixels[w..], w, h - 1, l);
    }
  }

  /** The loop over the rows: what is written, and what the rows to come will add. */
  ghost predicate RowsTo(all: seq<int>, done: seq<int>, rest: seq<Row>, prev: Row)
    requires forall j :: 0 <= j < |rest| ==> |rest[j]| == |prev|
  {
    all == done + Flat(FilteredRows(rest, prev, Max24()))
  }

  lemma RowsToStep(all: seq<int>, done: seq<int>, rest: seq<Row>, prev: Row)
    requires (forall j :: 0 <= j < |rest| ==> |rest[j]| == |prev|) && rest != [] && RowsTo(all, done, rest, prev)
    ensures RowsTo(all, done + Filtered(rest[0], prev, Max24()), rest[1..], rest[0])
  {
    var f := FilteredRows(rest, prev, Max24());
    assert f[1..] == FilteredRows(rest[1..], rest[0], Max24());
    assert done + (f[0] + Flat(f[1..])) == (done + f[0]) + Flat(f[1..]);
  }

  /** The memset of prevRowBuf. */
  method Clear(a: array<int>, k: nat)
    requires k <= a.Length
    modifies a
    ensures a[..k] == Zeros(k)
  {
    var i := 0;
    while i < k
      invariant 0 <= i <= k && forall j :: 0 <= j < i ==> a[j] == 0
    {
      a[i] := 0;
      i := i + 1;
    }
  }

  /** FilterGradient24, in place. Undoing it gives back every sample. */
  method FilterGradient24(buf: array<Byte>, w: nat, h: nat, l: Layout, prevRowBuf: array<int>, ghost pixels: seq<int>)
    requires Fine(l) && |pixels| == h * w && PixelsFit(pixels, 4) && Holds(buf[..], 0, pixels, 4)
    requires 3 * w <= prevRowBuf.Length
    modifies buf, prevRowBuf
    ensures 3 * (h * w) <= buf.Length
    ensures 3 * (h * w) == h * (3 * w)
    ensures UnfilteredRows(Cut(buf[..3 * (h * w)], 3 * w, h), Zeros(3 * w), Max24()) == SampleRows(pixels, w, h, l)
  {
    hide Holds;
    hide PixelsFit;
    hide SampleRows;
    hide RowsTo;
    hide AllSamples;
    Clear(prevRowBuf, 3 * w);
    ghost var rows, prev := SampleRows(pixels, w, h, l), Zeros(3 * w);
    ghost var all := Flat(FilteredRows(rows, prev, Max24()));
    SuffixesFit(pixels, 4);
    HoldsAll(buf[..], pixels, 4);
    RowsToStart(all, rows, prev);
    assert prevRowBuf[..3 * w] == prev && buf[..0] == [] && pixels[0..] == pixels;
    var y, read := 0, 0;
    while y < h
      invariant 0 <= y <= h && read == y * w && read <= |pixels| && |pixels| - read == (h - y) * w
      invariant |prev| == 3 * w && prevRowBuf[..3 * w] == prev && 3 * read <= buf.Length
      invariant |rows| == h - y && rows == SampleRows(pixels[read..], w, h - y, l)
      invariant Holds(buf[..], 4 * read, pixels[read..], 4) && RowsTo(all, buf[..3 * read], rows, prev)
    {
      NextRow(pixels[read..], w, h - y, l);
      OneMore(y, w);
      ghost var done := buf[..3 * read];
      FilterRow24(buf, 4 * read, 3 * read, w, l, prevRowBuf, prev, pixels[read..]);
      RowsToStep(all, done, rows, prev);
      assert pixels[read..][w..] == pixels[read + w..];
      prev, rows := rows[0], rows[1..];
      read := read + w;
      y := y + 1;
    }
    RowsToEnd(all, buf[..3 * read], rows, prev);
    Undone(pixels, w, h, l);
  }

  lemma RowsToStart(all: seq<int>, rows: seq<Row>, prev: Row)
    requires (forall j :: 0 <= j < |rows| ==> |rows[j]| == |prev|) && all == Flat(FilteredRows(rows, prev, Max24()))
    ensures RowsTo(all, [], rows, prev)
  {
    assert [] + all == all;
  }

  lemma RowsToEnd(all: seq<int>, done: seq<int>, rest: seq<Row>, prev: Row)
    requires rest == [] && RowsTo(all, done, rest, prev)
    ensures all == done
  {
    assert done + [] == done;
  }

  lemma NextRow(pixels: seq<int>, w: nat, h: nat, l: Layout)
    requires Fine(l) && |pixels| == h * w && h > 0
    ensures w <= |pixels| && |pixels[w..]| == (h - 1) * w
    ensures SampleRows(pixels, w, h, l)[0] == AllSamples(pixels[..w], l)
    ensures SampleRows(pixels, w, h, l)[1..] == SampleRows(pixels[w..], w, h - 1, l)
  {
    OneMore(h - 1, w);
    MulMonotone(0, h - 1, w);
  }

  lemma Thrice(h: nat, w: nat)
    ensures 3 * (h * w) == h * (3 * w)
  {
  }

  lemma Undone(pixels: seq<int>, w: nat, h: nat, l: Layout)
    requires Fine(l) && |pixels| == h * w
    ensures 3 * (h * w) == h * (3 * w)
    ensures var all := Flat(FilteredRows(SampleRows(pixels, w, h, l), Zeros(3 * w), Max24()));
      |all| == h * (3 * w) && UnfilteredRows(Cut(all, 3 * w, h), Zeros(3 * w), Max24()) == SampleRows(pixels, w, h, l)
  {
    Thrice(h, w);
    var rows := SampleRows(pixels, w, h, l);
    SampleRowsRange(pixels, w, h, l);
    hide SampleRows;
    hide FilteredRows;
    hide UnfilteredRows;
    hide InRange;
    hide Cut;
    GradientRoundTrip(rows, Zeros(3 * w), Max24());
    CutFlat(FilteredRows(rows, Zeros(3 * w), Max24()), 3 * w, h);
    FlatLength(FilteredRows(rows, Zeros(3 * w), Max24()), 3 * w, h);
  }
}
