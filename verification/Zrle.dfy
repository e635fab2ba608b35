/** The ZRLE encoder of one tile: one pass finds the palette and counts the runs, the
    cheapest way is chosen by estimate, and the pixels are written that way. */
module Zrle {
  import opened Basics
  import opened Bytes
  import opened ZrleFormat
  import opened ZrlePalette

  /** The stream in front of the compressor: bytes are only ever appended. */
  class OutStream {
    var bytes: seq<Byte>

    constructor ()
      ensures bytes == []
    {
      bytes := [];
    }

    method WriteU8(b: Byte)
      modifies this
      ensures bytes == old(bytes) + [b]
    {
      bytes := bytes + [b];
    }

    method WritePixel(v: int, f: Cpixel)
      modifies this
      ensures bytes == old(bytes) + PixelOut(v, f)
    {
      bytes := bytes + PixelOut(v, f);
    }
  }

  // ---- Runs ----

  /** The end of the run that starts at i. */
  function RunEnd(s: seq<int>, i: nat): (e: nat)
    requires i < |s|
    ensures i < e <= |s| && (forall k :: i <= k < e ==> s[k] == s[i]) && (e < |s| ==> s[e] != s[i])
    decreases |s| - i
  {
    if i + 1 < |s| && s[i + 1] == s[i] then RunEnd(s, i + 1) else i + 1
  }

  /** How many runs of one pixel, and how many longer ones, there are from i on. */
  function Singles(s: seq<int>, i: nat): nat
    requires i <= |s|
    decreases |s| - i
  {
    if i == |s| then 0 else (if RunEnd(s, i) == i + 1 then 1 else 0) + Singles(s, RunEnd(s, i))
  }

  function Runs(s: seq<int>, i: nat): nat
    requires i <= |s|
    decreases |s| - i
  {
    if i == |s| then 0 else (if RunEnd(s, i) == i + 1 then 0 else 1) + Runs(s, RunEnd(s, i))
  }

  lemma {:induction false} RunEndUnique(s: seq<int>, i: nat, e: nat)
    requires i < e <= |s| && (forall k :: i <= k < e ==> s[k] == s[i]) && (e < |s| ==> s[e] != s[i])
    ensures RunEnd(s, i) == e
    decreases e - i
  {
    if i + 1 < |s| && s[i + 1] == s[i] {
      RunEndUnique(s, i + 1, e);
    }
  }

  // ---- The first pass ----

  /** What the palette holds: the different colours of s while they fit; with more of them
      it is full. */
  ghost predicate PaletteOf(colours: seq<int>, size: int, s: seq<int>) {
    && (forall k :: 0 <= k < |colours| ==> colours[k] in s)
    && (size <= MAX_SIZE ==> |colours| == size && forall k :: 0 <= k < |s| ==> s[k] in colours)
    && (size > MAX_SIZE ==> |colours| == MAX_SIZE)
  }

  lemma PaletteStart()
    ensures PaletteOf([], 0, [])
  {
  }

  lemma PaletteGrows(c: seq<int>, size: int, s: seq<int>, v: int, len: nat, c': seq<int>, size': int)
    requires PaletteOf(c, size, s) && len >= 1
    requires size >= MAX_SIZE ==> size' == size + 1 && c' == c
    requires size < MAX_SIZE && v in c ==> size' == size && c' == c
    requires size < MAX_SIZE && v !in c ==> size' == size + 1 && c' == c + [v]
    ensures PaletteOf(c', size', s + Repeat(v, len))
  {
    var s' := s + Repeat(v, len);
    assert s'[|s|] == v;
    forall k | 0 <= k < |c'|
      ensures c'[k] in s'
    {
      if k < |c| {
        assert c'[k] == c[k] && c[k] in s;
      }
    }
    if size' <= MAX_SIZE {
      assert v in c' by {
        if v !in c {
          assert c'[|c|] == v;
        }
      }
      forall k | 0 <= k < |s'|
        ensures s'[k] in c'
      {
        if k < |s| {
          assert s'[k] == s[k] && s[k] in c;
        }
      }
    }
  }

  /** The sentinel: one past the end is different, so that the scan of a run stops. */
  function Complement(v: int, pixelBytes: nat): int {
    Range(pixelBytes) - 1 - v
  }

  lemma ComplementDiffers(v: int, pixelBytes: nat)
    requires 1 <= pixelBytes
    ensures Complement(v, pixelBytes) != v
  {
    assert Range(pixelBytes) == 256 * Range(pixelBytes - 1);
  }

  /** The run at start: where it ends, and whether it is of a single pixel. */
  method ScanRun(data: array<int>, start: nat, n: nat) returns (ptr: nat, single: bool)
    requires start < n < data.Length && data[n] != data[n - 1]
    ensures ptr == RunEnd(data[..n], start) && (single <==> ptr == start + 1)
  {
    var pix := data[start];
    ptr := start + 1;
    single := data[ptr] != pix;
    if !single {
      ptr := ptr + 1;
      while data[ptr] == pix
        invariant start + 1 < ptr <= n
        invariant forall k :: start <= k < ptr ==> data[k] == pix
        decreases n - ptr
      {
        ptr := ptr + 1;
      }
    }
    RunEndUnique(data[..n], start, ptr);
  }

  method FindPalette(data: array<int>, n: nat, pixelBytes: nat) returns (ph: PaletteHelper, runs: nat, singlePixels: nat)
    requires 0 < n < data.Length && 1 <= pixelBytes <= 4
    requires forall k :: 0 <= k < n ==> 0 <= data[k] < Range(pixelBytes)
    modifies data
    ensures data[..n] == old(data[..n]) && data[n] != data[n - 1]
    ensures fresh(ph) && ph.Valid() && fresh(ph.palette) && fresh(ph.index) && fresh(ph.key)
    ensures PaletteOf(ph.Colours(), ph.size, data[..n])
    ensures runs == Runs(data[..n], 0) && singlePixels == Singles(data[..n], 0)
  {
    hide Table;
    hide Distinct;
    hide PaletteOf;
    hide Runs;
    hide Singles;
    hide RunEnd;
    ph := new PaletteHelper();
    PaletteStart();
    runs, singlePixels := 0, 0;
    ComplementDiffers(data[n - 1], pixelBytes);
    ghost var s := data[..n];
    data[n] := Complement(data[n - 1], pixelBytes);
    assert data[..n] == s;
    SmallRange(pixelBytes);
    assert s[..0] == [];
    var ptr := 0;
    while ptr < n
      invariant 0 <= ptr <= n && data[..n] == s && data[n] != data[n - 1]
      invariant ph.Valid() && fresh(ph.palette) && fresh(ph.index) && fresh(ph.key)
      invariant PaletteOf(ph.Colours(), ph.size, s[..ptr])
      invariant runs + Runs(s, ptr) == Runs(s, 0) && singlePixels + Singles(s, ptr) == Singles(s, 0)
    {
      ghost var start := ptr;
      var pix, single := data[ptr], false;
      RunsStep(s, start);
      ptr, single := ScanRun(data, ptr, n);
      assert s[start] == pix;
      if single {
        singlePixels := singlePixels + 1;
      } else {
        runs := runs + 1;
      }
      ghost var c, size := ph.Colours(), ph.size;
      ph.Insert(pix);
      PaletteGrows(c, size, s[..start], pix, ptr - start, ph.Colours(), ph.size);
      assert s[..start] + Repeat(pix, ptr - start) == s[..ptr];
    }
    assert s[..ptr] == s;
    RunsStep(s, n);
  }

  lemma RunsStep(s: seq<int>, i: nat)
    requires i <= |s|
    ensures i == |s| ==> Runs(s, i) == 0 && Singles(s, i) == 0
    ensures i < |s| ==>
      && Runs(s, i) == Runs(s, RunEnd(s, i)) + (if RunEnd(s, i) == i + 1 then 0 else 1)
      && Singles(s, i) == Singles(s, RunEnd(s, i)) + (if RunEnd(s, i) == i + 1 then 1 else 0)
  {
  }

  lemma SmallRange(pixelBytes: nat)
    requires pixelBytes <= 4
    ensures Range(pixelBytes) <= 0x1_0000_0000
  {
    assert Range(0) == 1 && Range(1) == 256 && Range(2) == 0x1_0000;
  }

  // ---- The choice ----

  /** What each way is estimated to cost, in bytes. */
  function RawCost(n: nat, bytes: nat): int {
    n * bytes
  }

  function PlainRleCost(runs: nat, singlePixels: nat, bytes: nat): int {
    (bytes + 1) * (runs + singlePixels)
  }

  function PaletteRleCost(size: int, runs: nat, singlePixels: nat, bytes: nat): int {
    bytes * size + 2 * runs + singlePixels
  }

  function PackedCost(size: int, n: nat, bytes: nat): int
    requires 2 <= size <= 16
  {
    bytes * size + n * BitsPerPackedPixel(size) / 8
  }

  /** The estimate of the way chosen. */
  function Cost(useRle: bool, usePalette: bool, size: int, n: nat, runs: nat, singlePixels: nat, bytes: nat): int
    requires usePalette && !useRle ==> 2 <= size <= 16
  {
    if useRle then
      if usePalette then PaletteRleCost(size, runs, singlePixels, bytes) else PlainRleCost(runs, singlePixels, bytes)
    else if usePalette then PackedCost(size, n, bytes)
    else RawCost(n, bytes)
  }

  /** No way that is open to the tile is estimated cheaper than the one chosen. */
  method Choose(size: int, n: nat, runs: nat, singlePixels: nat, bytes: nat) returns (useRle: bool, usePalette: bool)
    requires size >= 2
    ensures usePalette ==> size < 128 && (!useRle ==> size <= 16)
    ensures var cost := Cost(useRle, usePalette, size, n, runs, singlePixels, bytes);
      && cost <= RawCost(n, bytes) && cost <= PlainRleCost(runs, singlePixels, bytes)
      && (size < 128 ==> cost <= PaletteRleCost(size, runs, singlePixels, bytes))
      && (size <= 16 ==> cost <= PackedCost(size, n, bytes))
  {
    useRle, usePalette := false, false;
    var estimatedBytes := n * bytes;
    var plainRleBytes := (bytes + 1) * (runs + singlePixels);
    if plainRleBytes < estimatedBytes {
      useRle := true;
      estimatedBytes := plainRleBytes;
    }
    if size < 128 {
      var paletteRleBytes := bytes * size + 2 * runs + singlePixels;
      if paletteRleBytes < estimatedBytes {
        useRle, usePalette := true, true;
        estimatedBytes := paletteRleBytes;
      }
      if size < 17 {
        var packedBytes := bytes * size + n * BitsPerPackedPixel(size) / 8;
        if packedBytes < estimatedBytes {
          useRle, usePalette := false, true;
        }
      }
    }
  }

  // ---- Writing the pixels ----

  method WriteLength(os: OutStream, length: nat)
    modifies os
    ensures os.bytes == old(os.bytes) + LengthBytes(length)
  {
    var len := length;
    ghost var done: seq<Byte> := [];
    while len >= 255
      invariant len >= 0 && os.bytes == old(os.bytes) + done
      invariant done + LengthBytes(len) == LengthBytes(length)
    {
      os.WriteU8(255);
      Regroup(old(os.bytes), done, [255]);
      Regroup(done, [255], LengthBytes(len - 255));
      done := done + [255];
      len := len - 255;
    }
    os.WriteU8(len);
    Regroup(old(os.bytes), done, [len]);
  }

  /** The palette to look pixels up in, if one is used. */
  ghost predicate Serves(ph: PaletteHelper, usePalette: bool, f: Cpixel, s: seq<int>, pal: Option<seq<int>>)
    reads ph, ph.palette, ph.index, ph.key
  {
    && ph.Valid() && (forall k :: 0 <= k < |s| ==> IsPixel(s[k]))
    && (usePalette <==> pal.Some?)
    && (usePalette ==> ph.size <= MAX_SIZE && pal.value == AllKept(ph.Colours(), f) && forall k :: 0 <= k < |s| ==> s[k] in ph.Colours())
  }

  /** One run. */
  method WriteRun(os: OutStream, ph: PaletteHelper, pix: int, len: nat, usePalette: bool, f: Cpixel)
    returns (ghost index: int)
    requires len >= 1 && ph.Valid() && IsPixel(pix)
    requires usePalette ==> ph.size <= MAX_SIZE && pix in ph.Colours()
    modifies os
    ensures InPalette(Kept(pix, f), index, f, if usePalette then Some(AllKept(ph.Colours(), f)) else None)
    ensures usePalette ==> 0 <= index < 127
    ensures os.bytes == old(os.bytes) + RunBytes(Kept(pix, f), index, len, f, usePalette)
  {
    KeptFits(pix, f);
    index := 0;
    if usePalette {
      var i := ph.Lookup(pix);
      index := i;
      if len <= 2 {
        if len == 2 { os.WriteU8(i); }
        os.WriteU8(i);
        return;
      }
      os.WriteU8(i + 128);
      Regroup(old(os.bytes), [i + 128], LengthBytes(len - 1));
    } else {
      os.WritePixel(pix, f);
      Regroup(old(os.bytes), PixelOut(pix, f), LengthBytes(len - 1));
    }
    WriteLength(os, len - 1);
  }

  /** What the runs from i on take. */
  function RunsSize(s: seq<int>, i: nat, bytes: nat, usePalette: bool): nat
    requires i <= |s|
    decreases |s| - i
  {
    if i == |s| then 0 else RunSize(RunEnd(s, i) - i, bytes, usePalette) + RunsSize(s, RunEnd(s, i), bytes, usePalette)
  }

  /** What the estimates leave out: a byte for every 255 pixels that a run goes on. */
  function LongRuns(s: seq<int>, i: nat): nat
    requires i <= |s|
    decreases |s| - i
  {
    if i == |s| then 0 else (RunEnd(s, i) - i - 1) / 255 + LongRuns(s, RunEnd(s, i))
  }

  /** The runs take what was estimated, and the bytes of the long ones. */
  lemma {:induction false} RunsSizeIs(s: seq<int>, i: nat, bytes: nat, usePalette: bool)
    requires i <= |s|
    ensures RunsSize(s, i, bytes, usePalette) == LongRuns(s, i) +
      if usePalette then PaletteRleCost(0, Runs(s, i), Singles(s, i), bytes) else PlainRleCost(Runs(s, i), Singles(s, i), bytes)
    decreases |s| - i
  {
    hide Runs;
    hide Singles;
    hide PaletteRleCost;
    hide PlainRleCost;
    RunsStep(s, i);
    if i < |s| {
      var e := RunEnd(s, i);
      RunsSizeIs(s, e, bytes, usePalette);
      hide RunEnd;
      CostStep(Runs(s, e), Singles(s, e), e - i, bytes);
    } else {
      NoCost(bytes);
    }
  }

  lemma NoCost(bytes: nat)
    ensures PlainRleCost(0, 0, bytes) == 0 && PaletteRleCost(0, 0, 0, bytes) == 0
  {
  }

  /** One more run of this length. */
  lemma CostStep(runs: nat, singles: nat, len: nat, bytes: nat)
    requires len >= 1
    ensures var r, s := runs + (if len == 1 then 0 else 1), singles + (if len == 1 then 1 else 0);
      && PlainRleCost(r, s, bytes) == PlainRleCost(runs, singles, bytes) + RunSize(len, bytes, false) - (len - 1) / 255
      && PaletteRleCost(0, r, s, bytes) == PaletteRleCost(0, runs, singles, bytes) + RunSize(len, bytes, true) - (len - 1) / 255
  {
    assert (bytes + 1) * (runs + singles + 1) == (bytes + 1) * (runs + singles) + (bytes + 1);
    assert bytes * 0 == 0;
  }

  lemma {:induction false} LongRunsBound(s: seq<int>, i: nat)
    requires i <= |s|
    ensures LongRuns(s, i) <= (|s| - i) / 255
    decreases |s| - i
  {
    if i < |s| {
      LongRunsBound(s, RunEnd(s, i));
    }
  }

  /** Run-length encoding. */
  method WriteRuns(os: OutStream, data: array<int>, n: nat, ph: PaletteHelper, usePalette: bool, f: Cpixel, ghost pal: Option<seq<int>>)
    returns (ghost body: seq<Byte>)
    requires 0 < n < data.Length && data[n] != data[n - 1] && Serves(ph, usePalette, f, data[..n], pal)
    modifies os
    ensures os.bytes == old(os.bytes) + body && RunsGive(body, AllKept(data[..n], f), f, pal)
    ensures |body| == RunsSize(data[..n], 0, f.bytes, usePalette)
  {
    hide RunsGive;
    hide RunBytes;
    hide RunEnd;
    hide RunSize;
    hide RunsSize;
    hide InPalette;
    hide Kept;
    ghost var s := AllKept(data[..n], f);
    body := [];
    RunsGiveNothing(f, pal);
    assert s[..0] == [];
    var ptr := 0;
    while ptr < n
      invariant 0 <= ptr <= n && os.bytes == old(os.bytes) + body
      invariant RunsGive(body, s[..ptr], f, pal)
      invariant |body| + RunsSize(data[..n], ptr, f.bytes, usePalette) == RunsSize(data[..n], 0, f.bytes, usePalette)
    {
      var runStart := ptr;
      var pix := data[ptr];
      ptr := ptr + 1;
      while data[ptr] == pix && ptr < n
        invariant runStart < ptr <= n
        invariant forall k :: runStart <= k < ptr ==> data[k] == pix
        decreases n - ptr
      {
        ptr := ptr + 1;
      }
      var len := ptr - runStart;
      ghost var v := Kept(pix, f);
      assert data[..n][runStart] == pix;
      ghost var index := WriteRun(os, ph, pix, len, usePalette, f);
      RunsGiveStep(body, s[..runStart], v, index, len, f, pal);
      RunSizeIs(v, index, len, f, usePalette);
      RunEndUnique(data[..n], runStart, ptr);
      RunsSizeStep(data[..n], runStart, f.bytes, usePalette);
      Regroup(old(os.bytes), body, RunBytes(v, index, len, f, usePalette));
      body := body + RunBytes(v, index, len, f, usePalette);
      assert forall k :: runStart <= k < ptr ==> s[k] == v;
      assert s[..runStart] + Repeat(v, len) == s[..ptr];
    }
    assert s[..ptr] == s;
    RunsSizeStep(data[..n], n, f.bytes, usePalette);
  }

  lemma RunsSizeStep(s: seq<int>, i: nat, bytes: nat, usePalette: bool)
    requires i <= |s|
    ensures RunsSize(s, i, bytes, usePalette) == if i == |s| then 0
      else RunSize(RunEnd(s, i) - i, bytes, usePalette) + RunsSize(s, RunEnd(s, i), bytes, usePalette)
  {
  }

  /** Stale bits above those that are in use are shifted out of the byte: m is 2 to the
      number of bits in use, p of those of an index, and k of those left after both. */
  lemma ShiftIn(byte: int, m: int, p: int, k: int, index: int, pk: int)
    requires 1 <= m && 1 <= p && 1 <= k && (m * p) * k == 256
    requires 0 <= byte && 0 <= index < p && byte % m == pk
    ensures var b := byte * p % 256 + index;
      0 <= b < 256 && b % (m * p) == pk * p + index
  {
    var q, n := byte / m, m * p;
    var x := byte * p;
    var t := x / 256;
    assert byte == q * m + pk;
    assert x == q * n + pk * p by { Associate(q, m, p); }
    assert x % 256 == x - t * (n * k);
    assert t * (n * k) == (t * k) * n;
    var z := q - t * k;
    assert x % 256 == z * n + pk * p;
    MulMonotone(pk, m - 1, p);
    assert pk * p + index < n;
    QuotientUnique(x % 256 + index, n, z, pk * p + index);
    BelowMultiple(x % 256, z * m + pk, p, m * k);
  }

  /** A multiple of p below another one is at least p below it. */
  lemma BelowMultiple(a: int, b: int, p: int, c: int)
    requires p >= 1 && a < 256 == c * p && a == b * p
    ensures a + p <= 256
  {
    assert b * p < c * p;
    assert b >= c ==> (b - c) * p >= 0;
    MulMonotone(b + 1, c, p);
  }

  lemma PackStep(byte: int, nbits: nat, bits: nat, index: int, pk: int)
    requires IsPackSize(bits) && nbits + bits <= 8 && 0 <= byte < 256
    requires 0 <= index < Pow2(bits) && byte % Pow2(nbits) == pk
    ensures var b := byte * Pow2(bits) % 256 + index;
      0 <= b < 256 && b % Pow2(nbits + bits) == pk * Pow2(bits) + index
  {
    Pow2Sum(nbits, bits);
    Pow2Sum(nbits + bits, 8 - (nbits + bits));
    PowersOfTwo();
    ShiftIn(byte, Pow2(nbits), Pow2(bits), Pow2(8 - (nbits + bits)), index, pk);
  }

  lemma PackEnd(byte: int, nbits: nat, pk: int)
    requires 0 < nbits <= 8 && 0 <= byte < 256 && byte % Pow2(nbits) == pk
    ensures byte * Pow2(8 - nbits) % 256 == pk * Pow2(8 - nbits)
  {
    Pow2Sum(nbits, 8 - nbits);
    PowersOfTwo();
    ShiftIn(byte, Pow2(nbits), Pow2(8 - nbits), 1, 0, pk);
  }

  /** The indices pending in the byte, and what was written before them. */
  ghost predicate Pending(out: seq<Byte>, row: seq<int>, at: nat, cur: seq<int>, byte: int, nbits: nat, bits: nat, pal: seq<int>)
    requires IsPackSize(bits)
  {
    && |cur| <= at <= |row| && AreIndices(cur, |pal|) && |cur| < 8 / bits
    && nbits == bits * |cur| && 0 <= byte < 256 && byte % Pow2(nbits) == Pack(cur, bits)
    && Colours(cur, pal) == row[at - |cur|..at]
    && RowGives(out, |row|, row[..at - |cur|], bits, pal)
  }

  lemma PendingStart(row: seq<int>, bits: nat, pal: seq<int>)
    requires IsPackSize(bits)
    ensures Pending([], row, 0, [], 0, 0, bits, pal)
  {
    RowGivesNothing(|row|, bits, pal);
    assert bits * 0 == 0 && row[..0] == [];
  }

  lemma PendingStep(out: seq<Byte>, row: seq<int>, at: nat, cur: seq<int>, byte: int, nbits: nat, bits: nat, pal: seq<int>,
                    index: int, byte': int)
    requires IsPackSize(bits) && Pending(out, row, at, cur, byte, nbits, bits, pal) && at < |row|
    requires 0 <= index < |pal| <= Pow2(bits) && pal[index] == row[at] && byte' == byte * Pow2(bits) % 256 + index
    ensures nbits + bits <= 8
    ensures var cur' := cur + [index];
      if nbits + bits < 8 then Pending(out, row, at + 1, cur', byte', nbits + bits, bits, pal)
      else 0 <= byte' < 256 && Pending(out + [byte'], row, at + 1, [], byte', 0, bits, pal)
  {
    hide RowGives;
    hide Pack;
    var cur' := cur + [index];
    IndexShifted(cur, byte, nbits, bits, index, |pal|, byte');
    ColoursSnoc(cur, index, pal, row, at);
    if nbits + bits == 8 {
      PowersOfTwo();
      assert Top(cur', bits) == Pack(cur', bits) * Pow2(8 - bits * |cur'|) == byte' % 256;
      RowGivesStep(out, |row|, row[..at - |cur|], bits, pal, cur');
      assert row[..at - |cur|] + row[at - |cur|..at + 1] == row[..at + 1];
      NothingPending(out + [byte'], row, at + 1, byte', bits, pal);
    }
  }

  lemma NothingPending(out: seq<Byte>, row: seq<int>, at: nat, byte: int, bits: nat, pal: seq<int>)
    requires IsPackSize(bits) && at <= |row| && 0 <= byte < 256 && RowGives(out, |row|, row[..at], bits, pal)
    ensures Pending(out, row, at, [], byte, 0, bits, pal)
  {
    assert bits * 0 == 0 && row[at..at] == [];
  }

  lemma IndexShifted(cur: seq<int>, byte: int, nbits: nat, bits: nat, index: int, n: nat, byte': int)
    requires IsPackSize(bits) && AreIndices(cur, n) && 0 <= index < n <= Pow2(bits)
    requires |cur| < 8 / bits && nbits == bits * |cur| && 0 <= byte < 256 && byte % Pow2(nbits) == Pack(cur, bits)
    requires byte' == byte * Pow2(bits) % 256 + index
    ensures var cur' := cur + [index];
      && AreIndices(cur', n) && bits * |cur'| == nbits + bits <= 8 && 0 <= byte' < 256
      && (|cur'| == 8 / bits <==> nbits + bits == 8)
      && byte' % Pow2(nbits + bits) == Pack(cur', bits)
  {
    hide Pow2;
    var cur' := cur + [index];
    assert cur'[..|cur|] == cur;
    assert bits * |cur'| == nbits + bits;
    assert nbits + bits <= 8 && (|cur'| == 8 / bits <==> nbits + bits == 8) by {
      assert bits == 1 || bits == 2 || bits == 4;
    }
    PackStep(byte, nbits, bits, index, Pack(cur, bits));
  }

  lemma ColoursSnoc(cur: seq<int>, index: int, pal: seq<int>, row: seq<int>, at: nat)
    requires AreIndices(cur, |pal|) && 0 <= index < |pal| && |cur| <= at < |row|
    requires Colours(cur, pal) == row[at - |cur|..at] && pal[index] == row[at]
    ensures Colours(cur + [index], pal) == row[at - |cur|..at + 1]
  {
    assert Colours(cur + [index], pal) == Colours(cur, pal) + [pal[index]];
  }

  lemma PendingEnd(out: seq<Byte>, row: seq<int>, cur: seq<int>, byte: int, nbits: nat, bits: nat, pal: seq<int>)
    requires IsPackSize(bits) && Pending(out, row, |row|, cur, byte, nbits, bits, pal) && |pal| <= Pow2(bits)
    ensures nbits == 0 ==> RowGives(out, |row|, row, bits, pal)
    ensures nbits > 0 ==> nbits < 8
    ensures nbits > 0 ==> RowGives(out + [byte * Pow2(8 - nbits) % 256], |row|, row, bits, pal)
  {
    hide RowGives;
    assert row[..|row|] == row;
    if nbits > 0 {
      PackEnd(byte, nbits, Pack(cur, bits));
      RowGivesStep(out, |row|, row[..|row| - |cur|], bits, pal, cur);
      assert row[..|row| - |cur|] + row[|row| - |cur|..|row|] == row;
    } else {
      assert |cur| == 0;
    }
  }

  /** One row of packed indices. */
  method WritePackedRow(os: OutStream, data: array<int>, from: nat, w: nat, ph: PaletteHelper, bits: nat, ghost f: Cpixel)
    returns (ghost out: seq<Byte>)
    requires from + w <= data.Length && ph.Valid() && ph.size <= MAX_SIZE
    requires IsPackSize(bits) && ph.size <= Pow2(bits)
    requires forall k :: from <= k < from + w ==> IsPixel(data[k]) && data[k] in ph.Colours()
    modifies os
    ensures os.bytes == old(os.bytes) + out && RowGives(out, w, AllKept(data[from..from + w], f), bits, AllKept(ph.Colours(), f))
    ensures |out| == PackedRowSize(w, bits)
  {
    hide Pending;
    hide Table;
    hide RowGives;
    hide Kept;
    ghost var row, pal := AllKept(data[from..from + w], f), AllKept(ph.Colours(), f);
    var nbits: nat, byte := 0, 0;
    ghost var cur: seq<int> := [];
    out := [];
    PendingStart(row, bits, pal);
    var ptr, eol := from, from + w;
    while ptr < eol
      invariant from <= ptr <= eol && os.bytes == old(os.bytes) + out
      invariant Pending(out, row, ptr - from, cur, byte, nbits, bits, pal)
      invariant 8 * |out| + nbits == (ptr - from) * bits
    {
      var pix := data[ptr];
      var index := ph.Lookup(pix);
      assert row[ptr - from] == Kept(pix, f) == pal[index];
      PendingStep(out, row, ptr - from, cur, byte, nbits, bits, pal, index, byte * Pow2(bits) % 256 + index);
      OneMore(ptr - from, bits);
      cur := cur + [index];
      byte := byte * Pow2(bits) % 256 + index;
      nbits := nbits + bits;
      if nbits >= 8 {
        os.WriteU8(byte);
        Regroup(old(os.bytes), out, [byte]);
        out, cur := out + [byte], [];
        nbits := 0;
      }
      ptr := ptr + 1;
    }
    PendingEnd(out, row, cur, byte, nbits, bits, pal);
    if nbits > 0 {
      byte := byte * Pow2(8 - nbits) % 256;
      os.WriteU8(byte);
      Regroup(old(os.bytes), out, [byte]);
      out := out + [byte];
    }
  }

  lemma RowStart(i: nat, w: nat, h: nat)
    requires i < h
    ensures (i + 1) * w == i * w + w && (i + 1) * w <= w * h
  {
    MulMonotone(i + 1, h, w);
  }

  lemma KeptRow(s: seq<int>, ptr: nat, w: nat, f: Cpixel)
    requires ptr + w <= |s|
    ensures AllKept(s[..ptr], f) + AllKept(s[ptr..ptr + w], f) == AllKept(s[..ptr + w], f)
  {
    hide Kept;
  }

  /** w indices in whole bytes. */
  function PackedRowSize(w: nat, bits: nat): nat {
    MulMonotone(0, w, bits);
    (w * bits + 7) / 8
  }

  /** The first i rows of s, ptr pixels, are written. */
  ghost predicate PackedTo(body: seq<Byte>, s: seq<int>, w: nat, h: nat, i: nat, ptr: nat, bits: nat, pal: seq<int>, f: Cpixel)
    requires IsPackSize(bits) && |s| == w * h
  {
    && i <= h && ptr == i * w <= |s| && |body| == i * PackedRowSize(w, bits)
    && RowsGive(body, w, h, i, AllKept(s[..ptr], f), bits, pal)
  }

  lemma PackedStart(s: seq<int>, w: nat, h: nat, bits: nat, pal: seq<int>, f: Cpixel)
    requires IsPackSize(bits) && |s| == w * h
    ensures PackedTo([], s, w, h, 0, 0, bits, pal, f)
  {
    RowsGiveNothing(w, h, bits, pal);
    assert AllKept(s[..0], f) == [];
  }

  lemma PackedStep(body: seq<Byte>, s: seq<int>, w: nat, h: nat, i: nat, ptr: nat, bits: nat, pal: seq<int>, f: Cpixel, out: seq<Byte>)
    requires IsPackSize(bits) && |s| == w * h && PackedTo(body, s, w, h, i, ptr, bits, pal, f) && i < h
    requires ptr + w <= |s| && RowGives(out, w, AllKept(s[ptr..ptr + w], f), bits, pal) && |out| == PackedRowSize(w, bits)
    ensures PackedTo(body + out, s, w, h, i + 1, ptr + w, bits, pal, f)
  {
    hide RowsGive;
    hide RowGives;
    hide PackedRowSize;
    hide Kept;
    RowStart(i, w, h);
    OneMore(i, PackedRowSize(w, bits));
    KeptRow(s, ptr, w, f);
    RowsGiveStep(body, w, h, i, AllKept(s[..ptr], f), bits, pal, out, AllKept(s[ptr..ptr + w], f));
  }

  lemma PackedRoom(body: seq<Byte>, s: seq<int>, w: nat, h: nat, i: nat, ptr: nat, bits: nat, pal: seq<int>, f: Cpixel)
    requires IsPackSize(bits) && |s| == w * h && PackedTo(body, s, w, h, i, ptr, bits, pal, f)
    ensures i < h ==> ptr + w <= w * h
    ensures i == h ==> ptr == w * h
  {
    if i < h {
      RowStart(i, w, h);
    }
  }

  /** Packed palette indices, row by row. */
  method WritePacked(os: OutStream, data: array<int>, w: nat, h: nat, ph: PaletteHelper, ghost f: Cpixel)
    returns (ghost body: seq<Byte>)
    requires w * h <= data.Length && ph.Valid() && 2 <= ph.size <= 16
    requires forall k :: 0 <= k < w * h ==> IsPixel(data[k]) && data[k] in ph.Colours()
    modifies os
    ensures IsPackSize(BitsPerPackedPixel(ph.size)) && os.bytes == old(os.bytes) + body
    ensures RowsGive(body, w, h, h, AllKept(data[..w * h], f), BitsPerPackedPixel(ph.size), AllKept(ph.Colours(), f))
    ensures |body| == h * PackedRowSize(w, BitsPerPackedPixel(ph.size))
  {
    hide Table;
    hide RowGives;
    hide RowsGive;
    hide Kept;
    hide Distinct;
    hide AllKept;
    hide PackedRowSize;
    var bppp := BitsPerPackedPixel(ph.size);
    hide BitsPerPackedPixel;
    body := [];
    ghost var pal, s := AllKept(ph.Colours(), f), data[..w * h];
    PackedStart(s, w, h, bppp, pal, f);
    var ptr, i := 0, 0;
    while i < h
      invariant 0 <= i <= h && 0 <= ptr && os.bytes == old(os.bytes) + body
      invariant PackedTo(body, s, w, h, i, ptr, bppp, pal, f)
    {
      PackedRoom(body, s, w, h, i, ptr, bppp, pal, f);
      ghost var out := WritePackedRow(os, data, ptr, w, ph, bppp, f);
      assert s[ptr..ptr + w] == data[ptr..ptr + w];
      PackedStep(body, s, w, h, i, ptr, bppp, pal, f, out);
      Regroup(old(os.bytes), body, out);
      body := body + out;
      ptr := ptr + w;
      i := i + 1;
    }
    PackedRoom(body, s, w, h, i, ptr, bppp, pal, f);
    assert s[..ptr] == s;
  }

  /** Pixels as they are: the palette, or a raw tile. */
  method WritePixels(os: OutStream, data: array<int>, n: nat, f: Cpixel)
    requires n <= data.Length
    modifies os
    ensures os.bytes == old(os.bytes) + PixelsOut(data[..n], f)
  {
    var i := 0;
    while i < n
      invariant 0 <= i <= n && os.bytes == old(os.bytes) + PixelsOut(data[..i], f)
    {
      os.WritePixel(data[i], f);
      PixelsOutSnoc(data[..i], data[i], f);
      Regroup(old(os.bytes), PixelsOut(data[..i], f), PixelOut(data[i], f));
      assert data[..i + 1] == data[..i] + [data[i]];
      i := i + 1;
    }
  }

  // ---- A tile ----

  /** What is known once the palette of the pixels s has been found. */
  lemma PaletteFacts(ph: PaletteHelper, s: seq<int>, f: Cpixel)
    requires ph.Valid() && PaletteOf(ph.Colours(), ph.size, s) && |s| > 0
    requires forall k :: 0 <= k < |s| ==> IsPixel(s[k])
    ensures ph.size >= 1
    ensures ph.size == 1 ==> AllKept(s, f) == Repeat(Kept(ph.palette[0], f), |s|)
    ensures Serves(ph, false, f, s, None)
    ensures ph.size <= MAX_SIZE ==> Serves(ph, true, f, s, Some(AllKept(ph.Colours(), f)))
  {
    hide Kept;
    var c := ph.Colours();
    assert ph.size <= MAX_SIZE ==> s[0] in c;
    if ph.size == 1 {
      assert c == [ph.palette[0]];
      assert forall k :: 0 <= k < |s| ==> s[k] in c;
    }
  }

  /** How many bytes a tile takes that is not of one colour. */
  function Written(useRle: bool, usePalette: bool, size: nat, s: seq<int>, w: nat, h: nat, bytes: nat): int
    requires usePalette && !useRle ==> 2 <= size <= 16
  {
    1 + (if usePalette then bytes * size else 0) +
    (if useRle then RunsSize(s, 0, bytes, usePalette)
     else if usePalette then h * PackedRowSize(w, BitsPerPackedPixel(size))
     else |s| * bytes)
  }

  /** What the estimates do not count. */
  function Slack(n: nat, h: nat): nat {
    n / 255 + h
  }

  /** The estimate of a way is what it takes but for the first byte and the slack. */
  lemma EstimateIs(useRle: bool, usePalette: bool, size: nat, s: seq<int>, w: nat, h: nat, bytes: nat)
    requires (usePalette && !useRle ==> 2 <= size <= 16) && |s| == w * h
    ensures var cost, n := Cost(useRle, usePalette, size, |s|, Runs(s, 0), Singles(s, 0), bytes), Written(useRle, usePalette, size, s, w, h, bytes);
      cost + 1 <= n <= cost + 1 + Slack(|s|, h)
  {
    hide RunsSize;
    hide LongRuns;
    hide Runs;
    hide Singles;
    RunsSizeIs(s, 0, bytes, usePalette);
    LongRunsBound(s, 0);
    if usePalette && !useRle {
      PackedEstimate(size, w, h, bytes);
    }
    assert bytes * 0 == 0;
  }

  lemma PackedEstimate(size: nat, w: nat, h: nat, bytes: nat)
    requires 2 <= size <= 16
    ensures PackedCost(size, w * h, bytes) <= bytes * size + h * PackedRowSize(w, BitsPerPackedPixel(size))
    ensures bytes * size + h * PackedRowSize(w, BitsPerPackedPixel(size)) <= PackedCost(size, w * h, bytes) + h
  {
    var bits := BitsPerPackedPixel(size);
    var row, part := PackedRowSize(w, bits), w * bits;
    hide BitsPerPackedPixel;
    assert part <= 8 * row <= part + 7;
    hide PackedRowSize;
    RowsEstimate(part, row, h);
    Associate(w, h, bits);
    Associate(w, bits, h);
    Turn(h, bits);
  }

  lemma RowsEstimate(part: int, row: int, h: nat)
    requires part <= 8 * row <= part + 7
    ensures part * h / 8 <= h * row <= part * h / 8 + h
  {
    MulMonotone(part, 8 * row, h);
    MulMonotone(8 * row, part + 7, h);
    assert (8 * row) * h == 8 * (h * row);
    assert (part + 7) * h == part * h + 7 * h;
  }

  lemma Turn(a: int, b: int)
    ensures a * b == b * a
  {
  }

  /** ZRLE_ENCODE_TILE. It takes at most the slack more than any way that is open to it. */
  method EncodeTile(os: OutStream, data: array<int>, w: nat, h: nat, pixelBytes: nat, f: Cpixel)
    returns (ghost out: seq<Byte>)
    requires 0 < w && 0 < h && w * h < data.Length && 1 <= pixelBytes <= 4
    requires forall k :: 0 <= k < w * h ==> 0 <= data[k] < Range(pixelBytes)
    modifies os, data
    ensures os.bytes == old(os.bytes) + out
    ensures TileGives(out, w, h, f, AllKept(old(data[..w * h]), f))
    ensures |out| <= 1 + RawCost(w * h, f.bytes) + Slack(w * h, h)
    ensures |old(data[..w * h])| == w * h
    ensures var s := old(data[..w * h]); |out| <= 1 + PlainRleCost(Runs(s, 0), Singles(s, 0), f.bytes) + Slack(w * h, h)
  {
    hide Runs;
    hide Singles;
    hide RunsSize;
    hide RunEnd;
    hide BitsPerPackedPixel;
    hide PackedRowSize;
    hide Table;
    hide Distinct;
    hide PaletteOf;
    hide TileGives;
    hide RunsGive;
    hide RowsGive;
    hide AllFit;
    hide Kept;
    hide Serves;
    var n := w * h;
    assert n >= 1;
    ghost var s, before := data[..n], os.bytes;
    SmallRange(pixelBytes);
    var ph, runs, singlePixels := FindPalette(data, n, pixelBytes);
    PaletteFacts(ph, s, f);
    if ph.size == 1 {
      os.WriteU8(1);
      os.WritePixel(ph.palette[0], f);
      out := [1] + PixelOut(ph.palette[0], f);
      Regroup(before, [1], PixelOut(ph.palette[0], f));
      KeptFits(ph.palette[0], f);
      SolidGives(w, h, f, Kept(ph.palette[0], f));
      SolidIsShort(s, f.bytes);
      return;
    }
    hide RawCost;
    hide PlainRleCost;
    var useRle, usePalette := Choose(ph.size, n, runs, singlePixels, f.bytes);
    EstimateIs(useRle, usePalette, ph.size, s, w, h, f.bytes);
    PixelsOutSize(s, f);
    hide Cost;
    if usePalette {
      out := WriteWithPalette(os, data, w, h, ph, useRle, f);
    } else {
      os.WriteU8(if useRle then 128 else 0);
      if useRle {
        ghost var body := WriteRuns(os, data, n, ph, false, f, None);
        Regroup(before, [128], body);
        PlainRunsGive(w, h, f, body, AllKept(s, f));
        out := [128] + body;
      } else {
        WritePixels(os, data, n, f);
        Regroup(before, [0], PixelsOut(s, f));
        AllKeptFit(s, f);
        PixelsOutKept(s, f);
        RawGives(w, h, f, AllKept(s, f));
        out := [0] + PixelsOut(s, f);
      }
    }
  }

  lemma SolidIsShort(s: seq<int>, bytes: nat)
    requires s != []
    ensures bytes <= RawCost(|s|, bytes) && bytes <= PlainRleCost(Runs(s, 0), Singles(s, 0), bytes)
  {
    hide RunEnd;
    RunsStep(s, 0);
    MulMonotone(1, |s|, bytes);
    MulMonotone(1, Runs(s, 0) + Singles(s, 0), bytes + 1);
  }

  /** The ways that start with the palette. */
  method WriteWithPalette(os: OutStream, data: array<int>, w: nat, h: nat, ph: PaletteHelper, useRle: bool, f: Cpixel)
    returns (ghost out: seq<Byte>)
    requires 0 < w * h < data.Length && data[w * h] != data[w * h - 1]
    requires ph.Valid() && 2 <= ph.size <= MAX_SIZE && (!useRle ==> ph.size <= 16)
    requires Serves(ph, true, f, data[..w * h], Some(AllKept(ph.Colours(), f)))
    modifies os
    ensures os.bytes == old(os.bytes) + out
    ensures TileGives(out, w, h, f, AllKept(data[..w * h], f))
    ensures |out| == Written(useRle, true, ph.size, data[..w * h], w, h, f.bytes)
  {
    hide RunsSize;
    hide BitsPerPackedPixel;
    hide PackedRowSize;
    hide Table;
    hide Distinct;
    hide TileGives;
    hide RunsGive;
    hide RowsGive;
    hide AllFit;
    hide Kept;
    hide PixelsOut;
    PixelsOutSize(AllKept(ph.Colours(), f), f);
    Turn(f.bytes, ph.size);
    ghost var s, pal, before := AllKept(data[..w * h], f), AllKept(ph.Colours(), f), os.bytes;
    AllKeptFit(ph.Colours(), f);
    PixelsOutKept(ph.Colours(), f);
    var first: Byte := if useRle then 128 + ph.size else ph.size;
    os.WriteU8(first);
    assert ph.palette[..ph.size] == ph.Colours();
    WritePixels(os, ph.palette, ph.size, f);
    ghost var head: seq<Byte> := [first] + PixelsOut(pal, f);
    Regroup(before, [first], PixelsOut(pal, f));
    ghost var body;
    if useRle {
      body := WriteRuns(os, data, w * h, ph, true, f, Some(pal));
      PaletteRunsGive(w, h, f, pal, body, s);
    } else {
      assert forall k :: 0 <= k < w * h ==> data[..w * h][k] == data[k];
      body := WritePacked(os, data, w, h, ph, f);
      PackedGives(w, h, f, pal, body, s);
    }
    Regroup(before, head, body);
    out := head + body;
  }
}
