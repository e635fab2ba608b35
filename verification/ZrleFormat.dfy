/** A ZRLE tile before compression, section 7.7.6 of RFC 6143: raw pixels, one colour, a
    packed palette, or runs with or without a palette. */
module ZrleFormat {
  import opened Basics
  import opened Bytes

  /** How a pixel is written: a number of bytes, and for pixels whose colour lies in the
      upper three bytes the lowest one dropped. */
  datatype Cpixel = Cpixel(bytes: nat, dropLow: bool)

  predicate Fits(v: int, f: Cpixel) {
    0 <= v && if f.dropLow then v % 256 == 0 && v / 256 < Range(f.bytes) else v < Range(f.bytes)
  }

  function PixelOut(v: int, f: Cpixel): (s: seq<Byte>)
    ensures |s| == f.bytes
  {
    PixelBytes(if f.dropLow then v / 256 else v, f.bytes)
  }

  function PixelIn(s: seq<Byte>, f: Cpixel): int {
    if f.dropLow then 256 * PixelOf(s) else PixelOf(s)
  }

  lemma PixelInOut(v: int, f: Cpixel)
    requires Fits(v, f)
    ensures PixelIn(PixelOut(v, f), f) == v
  {
    PixelRoundTrip(if f.dropLow then v / 256 else v, f.bytes);
  }

  /** What arrives of a pixel: a form with fewer bytes than the pixel cuts it. */
  function Kept(v: int, f: Cpixel): int {
    PixelIn(PixelOut(v, f), f)
  }

  lemma {:induction false} LowBytes(v: int, n: nat)
    ensures PixelOf(PixelBytes(v, n)) == v % Range(n)
    decreases n
  {
    if n > 0 {
      LowBytes(v / 256, n - 1);
      assert PixelBytes(v, n)[1..] == PixelBytes(v / 256, n - 1);
      hide PixelBytes;
      ByteAndRest(v, Range(n - 1));
    }
  }

  lemma ByteAndRest(v: int, r: int)
    requires r >= 1
    ensures v % (256 * r) == v % 256 + 256 * (v / 256 % r)
  {
    var q := v / 256 / r;
    assert v / 256 == q * r + v / 256 % r;
    assert q * (256 * r) == 256 * (q * r);
    QuotientUnique(v, 256 * r, q, v % 256 + 256 * (v / 256 % r));
  }

  /** A cut pixel fits the form and is written as the pixel is. */
  lemma KeptFits(v: int, f: Cpixel)
    ensures Fits(Kept(v, f), f) && PixelOut(Kept(v, f), f) == PixelOut(v, f)
    ensures Kept(v, f) == if f.dropLow then 256 * (v / 256 % Range(f.bytes)) else v % Range(f.bytes)
  {
    hide Range;
    hide PixelBytes;
    hide PixelOf;
    var u := if f.dropLow then v / 256 else v;
    var s := PixelBytes(u, f.bytes);
    LowBytes(u, f.bytes);
    PixelOfRange(s);
    BytesRoundTrip(s);
    if f.dropLow {
      DropLow(PixelOf(s));
    }
  }

  lemma DropLow(low: int)
    ensures 256 * low % 256 == 0 && 256 * low / 256 == low
  {
  }

  /** Nothing is cut exactly when the bytes that are not sent are zero. */
  lemma KeptExact(v: int, f: Cpixel)
    ensures Kept(v, f) == v <==> Fits(v, f)
  {
    KeptFits(v, f);
    if Fits(v, f) {
      PixelInOut(v, f);
    }
  }

  function AllKept(row: seq<int>, f: Cpixel): (r: seq<int>)
    ensures |r| == |row| && forall i :: 0 <= i < |row| ==> r[i] == Kept(row[i], f)
  {
    seq(|row|, i requires 0 <= i < |row| => Kept(row[i], f))
  }

  lemma AllKeptFit(row: seq<int>, f: Cpixel)
    ensures AllFit(AllKept(row, f), f)
  {
    forall i | 0 <= i < |row|
      ensures Fits(AllKept(row, f)[i], f)
    {
      KeptFits(row[i], f);
    }
  }

  lemma {:induction false} PixelsOutKept(row: seq<int>, f: Cpixel)
    ensures PixelsOut(AllKept(row, f), f) == PixelsOut(row, f)
    decreases |row|
  {
    if row != [] {
      KeptFits(row[0], f);
      PixelsOutKept(row[1..], f);
      assert AllKept(row, f)[1..] == AllKept(row[1..], f);
    }
  }

  /** Some pixels, and the input after them. */
  type Parsed = Option<(seq<int>, seq<Byte>)>

  function Prepend(pre: seq<int>, r: Parsed): Parsed {
    if r.None? then None else Some((pre + r.value.0, r.value.1))
  }

  lemma PrependTwice(a: seq<int>, b: seq<int>, r: Parsed)
    ensures Prepend(a, Prepend(b, r)) == Prepend(a + b, r)
  {
    if r.Some? {
      assert a + (b + r.value.0) == (a + b) + r.value.0;
    }
  }

  lemma PrependNone(r: Parsed)
    ensures Prepend([], r) == r
  {
    if r.Some? {
      assert [] + r.value.0 == r.value.0;
    }
  }

  // ---- Pixels one after the other ----

  function PixelsOut(row: seq<int>, f: Cpixel): seq<Byte> {
    if row == [] then [] else PixelOut(row[0], f) + PixelsOut(row[1..], f)
  }

  lemma {:induction false} PixelsOutSize(row: seq<int>, f: Cpixel)
    ensures |PixelsOut(row, f)| == |row| * f.bytes
    decreases |row|
  {
    if row != [] {
      PixelsOutSize(row[1..], f);
      OneMore(|row| - 1, f.bytes);
    }
  }

  function ParsePixels(s: seq<Byte>, k: nat, f: Cpixel): Parsed
    decreases k
  {
    if k == 0 then Some(([], s))
    else if |s| < f.bytes then None
    else Prepend([PixelIn(s[..f.bytes], f)], ParsePixels(s[f.bytes..], k - 1, f))
  }

  ghost predicate AllFit(row: seq<int>, f: Cpixel) {
    forall i :: 0 <= i < |row| ==> Fits(row[i], f)
  }

  lemma {:induction false} PixelsRoundTrip(row: seq<int>, f: Cpixel, rest: seq<Byte>)
    requires AllFit(row, f)
    ensures ParsePixels(PixelsOut(row, f) + rest, |row|, f) == Some((row, rest))
    decreases |row|
  {
    if row == [] {
      assert [] + rest == rest;
    } else {
      Regroup(PixelOut(row[0], f), PixelsOut(row[1..], f), rest);
      Parts(PixelOut(row[0], f), PixelsOut(row[1..], f) + rest);
      PixelInOut(row[0], f);
      PixelsRoundTrip(row[1..], f, rest);
      assert [row[0]] + row[1..] == row;
    }
  }

  lemma {:induction false} PixelsOutSnoc(row: seq<int>, v: int, f: Cpixel)
    ensures PixelsOut(row + [v], f) == PixelsOut(row, f) + PixelOut(v, f)
    decreases |row|
  {
    var all := row + [v];
    if row == [] {
      assert all[1..] == [];
    } else {
      assert all[1..] == row[1..] + [v];
      PixelsOutSnoc(row[1..], v, f);
      Regroup(PixelOut(row[0], f), PixelsOut(row[1..], f), PixelOut(v, f));
    }
  }

  // ---- Runs ----

  function Repeat(v: int, k: nat): (s: seq<int>)
    ensures |s| == k && forall i :: 0 <= i < k ==> s[i] == v
  {
    seq(k, _ => v)
  }

  /** A length is the sum of its bytes; a byte of 255 says that more follow. */
  function LengthBytes(len: nat): seq<Byte> {
    if len >= 255 then [255] + LengthBytes(len - 255) else [len]
  }

  lemma {:induction false} LengthSize(len: nat)
    ensures |LengthBytes(len)| == len / 255 + 1
    decreases len
  {
    if len >= 255 {
      LengthSize(len - 255);
    }
  }

  function DecodeLength(s: seq<Byte>): Option<(nat, seq<Byte>)> {
    if s == [] then None
    else if s[0] == 255 then
      match DecodeLength(s[1..])
      case None => None
      case Some((len, rest)) => Some((len + 255, rest))
    else Some((s[0], s[1..]))
  }

  lemma {:induction false} LengthRoundTrip(len: nat, rest: seq<Byte>)
    ensures DecodeLength(LengthBytes(len) + rest) == Some((len, rest))
  {
    if len >= 255 {
      Regroup([255], LengthBytes(len - 255), rest);
      Parts([255], LengthBytes(len - 255) + rest);
      LengthRoundTrip(len - 255, rest);
    } else {
      Parts([len], rest);
    }
  }

  /** The colour at the start of a run, and whether a length follows: with a palette the
      top bit of the index says so. */
  function DecodeRunColour(s: seq<Byte>, f: Cpixel, pal: Option<seq<int>>): Option<(int, bool, seq<Byte>)> {
    match pal
    case None =>
      if |s| < f.bytes then None else Some((PixelIn(s[..f.bytes], f), true, s[f.bytes..]))
    case Some(p) =>
      if s == [] then None
      else
        var i := s[0] % 128;
        if i >= |p| then None else Some((p[i], s[0] >= 128, s[1..]))
  }

  function DecodeRunLength(s: seq<Byte>, more: bool): Option<(nat, seq<Byte>)> {
    if !more then Some((1, s))
    else
      match DecodeLength(s)
      case None => None
      case Some((len, rest)) => Some((len + 1, rest))
  }

  /** Runs until there are k pixels. */
  function DecodeRuns(s: seq<Byte>, k: nat, f: Cpixel, pal: Option<seq<int>>): Parsed
    decreases k
  {
    if k == 0 then Some(([], s))
    else
      match DecodeRunColour(s, f, pal)
      case None => None
      case Some((v, more, tail)) =>
        match DecodeRunLength(tail, more)
        case None => None
        case Some((len, rest)) =>
          if len > k || len == 0 then None else Prepend(Repeat(v, len), DecodeRuns(rest, k - len, f, pal))
  }

  /** What is written for a run; with a palette, index is that of its colour. */
  function RunBytes(v: int, index: int, len: nat, f: Cpixel, usePalette: bool): seq<Byte>
    requires len >= 1 && (usePalette ==> 0 <= index < 127)
  {
    if !usePalette then PixelOut(v, f) + LengthBytes(len - 1)
    else if len == 1 then [index]
    else if len == 2 then [index, index]
    else [index + 128] + LengthBytes(len - 1)
  }

  /** How many bytes a run takes. */
  function RunSize(len: nat, bytes: nat, usePalette: bool): nat
    requires len >= 1
  {
    (if !usePalette then bytes + 1 else if len == 1 then 1 else 2) + (len - 1) / 255
  }

  lemma RunSizeIs(v: int, index: int, len: nat, f: Cpixel, usePalette: bool)
    requires len >= 1 && (usePalette ==> 0 <= index < 127)
    ensures |RunBytes(v, index, len, f, usePalette)| == RunSize(len, f.bytes, usePalette)
  {
    LengthSize(len - 1);
  }

  ghost predicate InPalette(v: int, index: int, f: Cpixel, pal: Option<seq<int>>) {
    if pal.None? then Fits(v, f) else |pal.value| <= 127 && 0 <= index < |pal.value| && pal.value[index] == v
  }

  lemma OneByteRun(v: int, index: int, f: Cpixel, p: seq<int>, rest: seq<Byte>, m: nat)
    requires InPalette(v, index, f, Some(p))
    ensures DecodeRuns([index] + rest, 1 + m, f, Some(p)) == Prepend([v], DecodeRuns(rest, m, f, Some(p)))
  {
    var b: seq<Byte> := [index];
    Parts(b, rest);
    assert Repeat(v, 1) == [v];
  }

  /** A colour, a length, and on with the next run. */
  lemma OneRun(s: seq<Byte>, k: nat, v: int, more: bool, tail: seq<Byte>, len: nat, rest: seq<Byte>, f: Cpixel, pal: Option<seq<int>>)
    requires DecodeRunColour(s, f, pal) == Some((v, more, tail)) && DecodeRunLength(tail, more) == Some((len, rest))
    requires 1 <= len <= k
    ensures DecodeRuns(s, k, f, pal) == Prepend(Repeat(v, len), DecodeRuns(rest, k - len, f, pal))
  {
  }

  lemma PlainRun(v: int, len: nat, f: Cpixel, rest: seq<Byte>, m: nat)
    requires len >= 1 && Fits(v, f)
    ensures DecodeRuns(RunBytes(v, 0, len, f, false) + rest, len + m, f, None)
      == Prepend(Repeat(v, len), DecodeRuns(rest, m, f, None))
  {
    hide DecodeRuns;
    var p, l := PixelOut(v, f), LengthBytes(len - 1);
    Regroup(p, l, rest);
    Parts(p, l + rest);
    PixelInOut(v, f);
    LengthRoundTrip(len - 1, rest);
    OneRun(p + (l + rest), len + m, v, true, l + rest, len, rest, f, None);
  }

  lemma PaletteRun(v: int, index: int, len: nat, f: Cpixel, p: seq<int>, rest: seq<Byte>, m: nat)
    requires len >= 3 && InPalette(v, index, f, Some(p))
    ensures DecodeRuns(RunBytes(v, index, len, f, true) + rest, len + m, f, Some(p))
      == Prepend(Repeat(v, len), DecodeRuns(rest, m, f, Some(p)))
  {
    hide DecodeRuns;
    var b: seq<Byte>, l := [index + 128], LengthBytes(len - 1);
    Regroup(b, l, rest);
    Parts(b, l + rest);
    LengthRoundTrip(len - 1, rest);
    OneRun(b + (l + rest), len + m, v, true, l + rest, len, rest, f, Some(p));
  }

  lemma TwoByteRun(v: int, index: int, f: Cpixel, p: seq<int>, rest: seq<Byte>, m: nat)
    requires InPalette(v, index, f, Some(p))
    ensures DecodeRuns([index, index] + rest, 2 + m, f, Some(p)) == Prepend(Repeat(v, 2), DecodeRuns(rest, m, f, Some(p)))
  {
    hide DecodeRuns;
    var b: seq<Byte> := [index];
    assert [index, index] + rest == b + (b + rest);
    OneByteRun(v, index, f, p, b + rest, 1 + m);
    OneByteRun(v, index, f, p, rest, m);
    PrependTwice([v], [v], DecodeRuns(rest, m, f, Some(p)));
    assert Repeat(v, 2) == [v] + [v];
  }

  lemma RunDecodes(v: int, index: int, len: nat, f: Cpixel, pal: Option<seq<int>>, rest: seq<Byte>, m: nat)
    requires len >= 1 && InPalette(v, index, f, pal)
    ensures DecodeRuns(RunBytes(v, index, len, f, pal.Some?) + rest, len + m, f, pal)
      == Prepend(Repeat(v, len), DecodeRuns(rest, m, f, pal))
  {
    hide DecodeRuns;
    if pal.None? {
      PlainRun(v, len, f, rest, m);
    } else if len == 1 {
      OneByteRun(v, index, f, pal.value, rest, m);
      assert Repeat(v, 1) == [v];
    } else if len == 2 {
      TwoByteRun(v, index, f, pal.value, rest, m);
    } else {
      PaletteRun(v, index, len, f, pal.value, rest, m);
    }
  }

  /** Decoding out gives the pixels pre, and goes on with what follows. */
  ghost predicate RunsGive(out: seq<Byte>, pre: seq<int>, f: Cpixel, pal: Option<seq<int>>) {
    forall rest, m: nat :: DecodeRuns(out + rest, |pre| + m, f, pal) == Prepend(pre, DecodeRuns(rest, m, f, pal))
  }

  lemma RunsGiveNothing(f: Cpixel, pal: Option<seq<int>>)
    ensures RunsGive([], [], f, pal)
  {
    forall rest: seq<Byte>, m: nat
      ensures DecodeRuns([] + rest, m, f, pal) == Prepend([], DecodeRuns(rest, m, f, pal))
    {
      assert [] + rest == rest;
      PrependNone(DecodeRuns(rest, m, f, pal));
    }
  }

  lemma RunsGiveStep(out: seq<Byte>, pre: seq<int>, v: int, index: int, len: nat, f: Cpixel, pal: Option<seq<int>>)
    requires RunsGive(out, pre, f, pal) && len >= 1 && InPalette(v, index, f, pal)
    ensures RunsGive(out + RunBytes(v, index, len, f, pal.Some?), pre + Repeat(v, len), f, pal)
  {
    hide DecodeRuns;
    hide RunBytes;
    var b := RunBytes(v, index, len, f, pal.Some?);
    forall rest, m: nat
      ensures DecodeRuns((out + b) + rest, |pre + Repeat(v, len)| + m, f, pal)
        == Prepend(pre + Repeat(v, len), DecodeRuns(rest, m, f, pal))
    {
      Regroup(out, b, rest);
      RunDecodes(v, index, len, f, pal, rest, m);
      assert DecodeRuns(out + (b + rest), |pre| + (len + m), f, pal) == Prepend(pre, DecodeRuns(b + rest, len + m, f, pal));
      PrependTwice(pre, Repeat(v, len), DecodeRuns(rest, m, f, pal));
    }
  }

  // ---- Packed palette indices ----

  predicate IsPackSize(bits: int) {
    bits == 1 || bits == 2 || bits == 4
  }

  const BITS_PER_PACKED_PIXEL: seq<int> := [0, 1, 2, 2, 4, 4, 4, 4, 4, 4, 4, 4, 4, 4, 4, 4]

  /** The bits of an index in a palette of this size: the least that the format allows. */
  function BitsPerPackedPixel(size: int): (bits: int)
    requires 2 <= size <= 16
    ensures IsPackSize(bits) && size <= Pow2(bits)
    ensures forall b: int :: IsPackSize(b) && size <= Pow2(b) ==> bits <= b
  {
    PowersOfTwo();
    BITS_PER_PACKED_PIXEL[size - 1]
  }

  /** The three widths of section 7.7.6 of RFC 6143. */
  lemma PackSizeIs(size: int)
    requires 2 <= size <= 16
    ensures BitsPerPackedPixel(size) == if size == 2 then 1 else if size <= 4 then 2 else 4
  {
    PowersOfTwo();
  }

  /** The first m indices of a byte, the first one in its top bits. */
  function Unpack(b: int, m: nat, bits: nat): (s: seq<int>)
    requires IsPackSize(bits) && 0 <= b
    ensures |s| == m
    decreases m
  {
    if m == 0 then [] else [b / Pow2(8 - bits)] + Unpack(b * Pow2(bits) % 256, m - 1, bits)
  }

  predicate AreIndices(s: seq<int>, n: int) {
    forall i :: 0 <= i < |s| ==> 0 <= s[i] < n
  }

  function Colours(s: seq<int>, pal: seq<int>): (r: seq<int>)
    requires AreIndices(s, |pal|)
    ensures |r| == |s|
  {
    seq(|s|, i requires 0 <= i < |s| => pal[s[i]])
  }

  /** k more pixels of a row, 8 / bits to a byte. */
  function DecodePackedRow(s: seq<Byte>, k: nat, bits: nat, pal: seq<int>): Parsed
    requires IsPackSize(bits)
    decreases k
  {
    if k == 0 then Some(([], s))
    else if s == [] then None
    else
      var m := if k < 8 / bits then k else 8 / bits;
      var indices := Unpack(s[0], m, bits);
      if !AreIndices(indices, |pal|) then None
      else Prepend(Colours(indices, pal), DecodePackedRow(s[1..], k - m, bits, pal))
  }

  /** h rows, each starting with a byte of its own. */
  function DecodePacked(s: seq<Byte>, w: nat, h: nat, bits: nat, pal: seq<int>): Parsed
    requires IsPackSize(bits)
    decreases h
  {
    if h == 0 then Some(([], s))
    else
      match DecodePackedRow(s, w, bits, pal)
      case None => None
      case Some((row, tail)) => Prepend(row, DecodePacked(tail, w, h - 1, bits, pal))
  }

  /** The indices shifted into a byte from the right. */
  function Pack(s: seq<int>, bits: nat): int
    decreases |s|
  {
    if s == [] then 0 else Pack(s[..|s| - 1], bits) * Pow2(bits) + s[|s| - 1]
  }

  lemma {:induction false} PackFirst(s: seq<int>, bits: nat)
    requires s != []
    ensures Pack(s, bits) == s[0] * Pow2(bits * (|s| - 1)) + Pack(s[1..], bits)
    decreases |s|
  {
    var last := |s| - 1;
    if last == 0 {
      assert bits * 0 == 0;
    } else {
      var front, mid := s[..last], s[1..last];
      PackFirst(front, bits);
      assert front[1..] == mid && s[1..][..last - 1] == mid;
      Pow2Sum(bits, bits * (last - 1));
      assert bits + bits * (last - 1) == bits * last;
      Shift(s[0], Pow2(bits * (last - 1)), Pack(mid, bits), Pow2(bits));
    }
  }

  lemma Shift(a: int, p: int, q: int, r: int)
    ensures (a * p + q) * r == a * (r * p) + q * r
  {
    assert (a * p) * r == a * (r * p);
  }

  /** The indices moved up to the top of the byte. */
  function Top(s: seq<int>, bits: nat): int
    requires bits * |s| <= 8
  {
    Pack(s, bits) * Pow2(8 - bits * |s|)
  }

  /** The first index is in the top bits, and shifting it out leaves the others. */
  lemma TopFirst(s: seq<int>, bits: nat)
    requires IsPackSize(bits) && s != [] && bits * |s| <= 8
    ensures bits * |s[1..]| <= 8
    ensures Top(s, bits) * Pow2(bits) == s[0] * 256 + Top(s[1..], bits)
  {
    hide Pack;
    var n := |s|;
    assert bits * (n - 1) == bits * n - bits;
    PackFirst(s, bits);
    Powers(bits, bits * (n - 1));
    Distribute(s[0], Pow2(bits * (n - 1)), Pack(s[1..], bits), Pow2(8 - bits * n), Pow2(bits));
  }

  lemma Powers(bits: nat, below: nat)
    requires below + bits <= 8
    ensures Pow2(8 - below) == Pow2(8 - (below + bits)) * Pow2(bits)
    ensures Pow2(below) * Pow2(8 - below) == 256
  {
    Pow2Sum(8 - (below + bits), bits);
    Pow2Sum(below, 8 - below);
    PowersOfTwo();
  }

  lemma Distribute(a: int, p: int, q: int, t: int, r: int)
    ensures ((a * p + q) * t) * r == a * (p * (t * r)) + q * (t * r)
  {
    assert ((a * p + q) * t) * r == (a * p + q) * (t * r);
    assert (a * p + q) * (t * r) == (a * p) * (t * r) + q * (t * r);
    assert (a * p) * (t * r) == a * (p * (t * r));
  }

  lemma {:induction false} UnpackTop(s: seq<int>, bits: nat)
    requires IsPackSize(bits) && bits * |s| <= 8 && AreIndices(s, Pow2(bits))
    ensures 0 <= Top(s, bits) < 256 && Unpack(Top(s, bits), |s|, bits) == s
    decreases |s|
  {
    PowersOfTwo();
    if s == [] {
      assert bits * 0 == 0;
    } else {
      TopFirst(s, bits);
      UnpackTop(s[1..], bits);
      var b, t := Top(s, bits), Top(s[1..], bits);
      assert b * Pow2(bits) == s[0] * 256 + t;
      ShiftOut(b, s[0], t, bits);
      assert [s[0]] + s[1..] == s;
    }
  }

  lemma ShiftOut(b: int, a: int, t: int, bits: nat)
    requires IsPackSize(bits) && 0 <= a < Pow2(bits) && 0 <= t < 256
    requires b * Pow2(bits) == a * 256 + t
    ensures 0 <= b < 256 && b / Pow2(8 - bits) == a && b * Pow2(bits) % 256 == t
  {
    PowersOfTwo();
    if bits == 1 {
    } else if bits == 2 {
    } else {
    }
  }

  /** out gives the first pixels, pre, of a row of k pixels. */
  ghost predicate RowGives(out: seq<Byte>, k: nat, pre: seq<int>, bits: nat, pal: seq<int>)
    requires IsPackSize(bits)
  {
    |pre| <= k && forall rest :: DecodePackedRow(out + rest, k, bits, pal) == Prepend(pre, DecodePackedRow(rest, k - |pre|, bits, pal))
  }

  lemma RowGivesNothing(k: nat, bits: nat, pal: seq<int>)
    requires IsPackSize(bits)
    ensures RowGives([], k, [], bits, pal)
  {
    hide DecodePackedRow;
    forall rest: seq<Byte>
      ensures DecodePackedRow([] + rest, k, bits, pal) == Prepend([], DecodePackedRow(rest, k, bits, pal))
    {
      assert [] + rest == rest;
      PrependNone(DecodePackedRow(rest, k, bits, pal));
    }
  }

  /** One more byte, which is full unless the row ends in it. */
  lemma RowGivesStep(out: seq<Byte>, k: nat, pre: seq<int>, bits: nat, pal: seq<int>, cur: seq<int>)
    requires IsPackSize(bits) && RowGives(out, k, pre, bits, pal) && |pre| < k && |pal| <= Pow2(bits)
    requires AreIndices(cur, |pal|) && |cur| == if k - |pre| < 8 / bits then k - |pre| else 8 / bits
    ensures bits * |cur| <= 8 && 0 <= Top(cur, bits) < 256
    ensures RowGives(out + [Top(cur, bits)], k, pre + Colours(cur, pal), bits, pal)
  {
    assert bits * |cur| <= 8;
    UnpackTop(cur, bits);
    hide Top;
    hide Unpack;
    var b: seq<Byte> := [Top(cur, bits)];
    var now := pre + Colours(cur, pal);
    forall rest
      ensures DecodePackedRow((out + b) + rest, k, bits, pal) == Prepend(now, DecodePackedRow(rest, k - |now|, bits, pal))
    {
      Regroup(out, b, rest);
      Parts(b, rest);
      var r := DecodePackedRow(rest, k - |now|, bits, pal);
      assert DecodePackedRow(b + rest, k - |pre|, bits, pal) == Prepend(Colours(cur, pal), r);
      PrependTwice(pre, Colours(cur, pal), r);
    }
  }

  /** out gives the first j of h rows. */
  ghost predicate RowsGive(out: seq<Byte>, w: nat, h: nat, j: nat, pre: seq<int>, bits: nat, pal: seq<int>)
    requires IsPackSize(bits)
  {
    j <= h && forall rest :: DecodePacked(out + rest, w, h, bits, pal) == Prepend(pre, DecodePacked(rest, w, h - j, bits, pal))
  }

  lemma RowsGiveNothing(w: nat, h: nat, bits: nat, pal: seq<int>)
    requires IsPackSize(bits)
    ensures RowsGive([], w, h, 0, [], bits, pal)
  {
    forall rest: seq<Byte>
      ensures DecodePacked([] + rest, w, h, bits, pal) == Prepend([], DecodePacked(rest, w, h, bits, pal))
    {
      assert [] + rest == rest;
      PrependNone(DecodePacked(rest, w, h, bits, pal));
    }
  }

  lemma RowsGiveStep(out: seq<Byte>, w: nat, h: nat, j: nat, pre: seq<int>, bits: nat, pal: seq<int>, more: seq<Byte>, row: seq<int>)
    requires IsPackSize(bits) && RowsGive(out, w, h, j, pre, bits, pal) && j < h
    requires RowGives(more, w, row, bits, pal) && |row| == w
    ensures RowsGive(out + more, w, h, j + 1, pre + row, bits, pal)
  {
    forall rest
      ensures DecodePacked((out + more) + rest, w, h, bits, pal) == Prepend(pre + row, DecodePacked(rest, w, h - (j + 1), bits, pal))
    {
      Regroup(out, more, rest);
      assert DecodePackedRow(more + rest, w, bits, pal) == Prepend(row, Some(([], rest)));
      assert row + [] == row;
      PrependTwice(pre, row, DecodePacked(rest, w, h - (j + 1), bits, pal));
    }
  }

  // ---- A tile ----

  function DecodeTile(s: seq<Byte>, w: nat, h: nat, f: Cpixel): Parsed {
    if s == [] then None
    else if s[0] == 0 then ParsePixels(s[1..], w * h, f)
    else if s[0] == 1 then
      if |s| < 1 + f.bytes then None
      else Some((Repeat(PixelIn(s[1..1 + f.bytes], f), w * h), s[1 + f.bytes..]))
    else if 2 <= s[0] <= 16 then
      match ParsePixels(s[1..], s[0], f)
      case None => None
      case Some((pal, rest)) => DecodePacked(rest, w, h, if s[0] == 2 then 1 else if s[0] <= 4 then 2 else 4, pal)
    else if s[0] == 128 then DecodeRuns(s[1..], w * h, f, None)
    else if s[0] >= 130 then
      match ParsePixels(s[1..], s[0] - 128, f)
      case None => None
      case Some((pal, rest)) => DecodeRuns(rest, w * h, f, Some(pal))
    else None
  }

  /** Decoding out gives all the pixels of the tile. */
  ghost predicate TileGives(out: seq<Byte>, w: nat, h: nat, f: Cpixel, pix: seq<int>) {
    forall rest :: DecodeTile(out + rest, w, h, f) == Some((pix, rest))
  }

  lemma RawGives(w: nat, h: nat, f: Cpixel, pix: seq<int>)
    requires |pix| == w * h && AllFit(pix, f)
    ensures TileGives([0] + PixelsOut(pix, f), w, h, f, pix)
  {
    var b: seq<Byte> := [0];
    forall rest
      ensures DecodeTile((b + PixelsOut(pix, f)) + rest, w, h, f) == Some((pix, rest))
    {
      Regroup(b, PixelsOut(pix, f), rest);
      Parts(b, PixelsOut(pix, f) + rest);
      PixelsRoundTrip(pix, f, rest);
    }
  }

  lemma SolidGives(w: nat, h: nat, f: Cpixel, v: int)
    requires Fits(v, f)
    ensures TileGives([1] + PixelOut(v, f), w, h, f, Repeat(v, w * h))
  {
    var b: seq<Byte> := [1];
    forall rest
      ensures DecodeTile((b + PixelOut(v, f)) + rest, w, h, f) == Some((Repeat(v, w * h), rest))
    {
      var s := b + (PixelOut(v, f) + rest);
      Regroup(b, PixelOut(v, f), rest);
      assert s[1..1 + f.bytes] == PixelOut(v, f) && s[1 + f.bytes..] == rest;
      PixelInOut(v, f);
    }
  }

  lemma PackedGives(w: nat, h: nat, f: Cpixel, pal: seq<int>, body: seq<Byte>, pix: seq<int>)
    requires 2 <= |pal| <= 16 && AllFit(pal, f)
    requires RowsGive(body, w, h, h, pix, BitsPerPackedPixel(|pal|), pal)
    ensures TileGives(([|pal|] + PixelsOut(pal, f)) + body, w, h, f, pix)
  {
    var b: seq<Byte>, p := [|pal|], PixelsOut(pal, f);
    PackSizeIs(|pal|);
    hide BitsPerPackedPixel;
    forall rest
      ensures DecodeTile(((b + p) + body) + rest, w, h, f) == Some((pix, rest))
    {
      Regroup(b + p, body, rest);
      Regroup(b, p, body + rest);
      Parts(b, p + (body + rest));
      PixelsRoundTrip(pal, f, body + rest);
      assert DecodePacked(rest, w, 0, BitsPerPackedPixel(|pal|), pal) == Some(([], rest));
      assert pix + [] == pix;
    }
  }

  lemma PlainRunsGive(w: nat, h: nat, f: Cpixel, body: seq<Byte>, pix: seq<int>)
    requires RunsGive(body, pix, f, None) && |pix| == w * h
    ensures TileGives([128] + body, w, h, f, pix)
  {
    var b: seq<Byte> := [128];
    forall rest
      ensures DecodeTile((b + body) + rest, w, h, f) == Some((pix, rest))
    {
      Regroup(b, body, rest);
      Parts(b, body + rest);
      RunsEnd(body, pix, f, None, rest);
    }
  }

  lemma RunsEnd(body: seq<Byte>, pix: seq<int>, f: Cpixel, pal: Option<seq<int>>, rest: seq<Byte>)
    requires RunsGive(body, pix, f, pal)
    ensures DecodeRuns(body + rest, |pix|, f, pal) == Some((pix, rest))
  {
    assert DecodeRuns(body + rest, |pix| + 0, f, pal) == Prepend(pix, DecodeRuns(rest, 0, f, pal));
    assert pix + [] == pix;
  }

  lemma PaletteRunsGive(w: nat, h: nat, f: Cpixel, pal: seq<int>, body: seq<Byte>, pix: seq<int>)
    requires 2 <= |pal| <= 127 && AllFit(pal, f)
    requires RunsGive(body, pix, f, Some(pal)) && |pix| == w * h
    ensures TileGives(([128 + |pal|] + PixelsOut(pal, f)) + body, w, h, f, pix)
  {
    hide DecodeRuns;
    var b: seq<Byte>, p := [128 + |pal|], PixelsOut(pal, f);
    forall rest
      ensures DecodeTile(((b + p) + body) + rest, w, h, f) == Some((pix, rest))
    {
      Regroup(b + p, body, rest);
      Regroup(b, p, body + rest);
      Parts(b, p + (body + rest));
      PixelsRoundTrip(pal, f, body + rest);
      RunsEnd(body, pix, f, Some(pal), rest);
    }
  }
}
