/** RRE and CoRRE: a background pixel and single-colour subrectangles. The two differ in
    how wide the coordinates are written, and CoRRE first splits large rectangles. */
module Rre {
  import opened Bytes
  import opened Images
  import opened Subrects

  /** RRE writes coordinates in two bytes each, CoRRE in one. */
  datatype Format = RRE | CoRRE

  function CoordLimit(f: Format): int {
    if f.RRE? then 0x1_0000 else 0x100
  }

  /** sz_rfbRectangle and sz_rfbCoRRERectangle. */
  function RectangleSize(f: Format): int {
    if f.RRE? then 8 else 4
  }

  predicate InRange(s: Subrect, f: Format) {
    && 0 <= s.x < CoordLimit(f) && 0 <= s.y < CoordLimit(f)
    && 0 <= s.w < CoordLimit(f) && 0 <= s.h < CoordLimit(f)
  }

  function RectangleBytes(s: Subrect, f: Format): (r: seq<Byte>)
    requires InRange(s, f)
    ensures |r| == RectangleSize(f)
  {
    if f.RRE? then Big16(s.x) + Big16(s.y) + Big16(s.w) + Big16(s.h) else [s.x, s.y, s.w, s.h]
  }

  function SubBytes(s: Subrect, f: Format, n: nat): (r: seq<Byte>)
    requires InRange(s, f)
    ensures |r| == n + RectangleSize(f)
  {
    PixelBytes(s.colour, n) + RectangleBytes(s, f)
  }

  function AllSubBytes(subs: seq<Subrect>, f: Format, n: nat): seq<Byte>
    requires forall k :: 0 <= k < |subs| ==> InRange(subs[k], f)
    decreases |subs|
  {
    if subs == [] then [] else SubBytes(subs[0], f, n) + AllSubBytes(subs[1..], f, n)
  }

  // ---- The decoder: section 7.7.3 of RFC 6143 for RRE ----

  /** The coordinates of a subrectangle, and what follows them. */
  function ParseRectangle(s: seq<Byte>, colour: int, f: Format): Subrect
    requires |s| >= RectangleSize(f)
  {
    if f.RRE? then Subrect(colour, Of16(s[0..2]), Of16(s[2..4]), Of16(s[4..6]), Of16(s[6..8]))
    else Subrect(colour, s[0], s[1], s[2], s[3])
  }

  predicate Inside(s: Subrect, img: Image) {
    s.y + s.h <= |img| && forall j :: 0 <= j < |img| ==> s.x + s.w <= |img[j]|
  }

  /** k subrectangles are read and painted over img one after the other. */
  function DecodeSubs(s: seq<Byte>, k: nat, img: Image, f: Format, n: nat): Option<(Image, seq<Byte>)>
    decreases k
  {
    if k == 0 then Some((img, s))
    else if |s| < n + RectangleSize(f) then None
    else
      var sub := ParseRectangle(s[n..], PixelOf(s[..n]), f);
      if !Inside(sub, img) then None
      else DecodeSubs(s[n + RectangleSize(f)..], k - 1, PaintSub(img, sub), f, n)
  }

  /** The background, then the subrectangles. */
  function Decode(s: seq<Byte>, k: nat, w: nat, h: nat, f: Format, n: nat): Option<(Image, seq<Byte>)> {
    if |s| < n then None else DecodeSubs(s[n..], k, Solid(w, h, PixelOf(s[..n])), f, n)
  }

  // ---- Decoding gives back what was encoded ----

  lemma RectangleRoundTrip(s: Subrect, f: Format, rest: seq<Byte>)
    requires InRange(s, f)
    ensures ParseRectangle(RectangleBytes(s, f) + rest, s.colour, f) == s
  {
    var r := RectangleBytes(s, f) + rest;
    if f.RRE? {
      assert r[0..2] == Big16(s.x) && r[2..4] == Big16(s.y) && r[4..6] == Big16(s.w) && r[6..8] == Big16(s.h);
      Big16RoundTrip(s.x);
      Big16RoundTrip(s.y);
      Big16RoundTrip(s.w);
      Big16RoundTrip(s.h);
    }
  }

  lemma SubRoundTrip(sub: Subrect, f: Format, n: nat, tail: seq<Byte>)
    requires InRange(sub, f) && 0 <= sub.colour < Range(n)
    ensures var s := SubBytes(sub, f, n) + tail;
      ParseRectangle(s[n..], PixelOf(s[..n]), f) == sub && s[n + RectangleSize(f)..] == tail
  {
    var s, p, r := SubBytes(sub, f, n) + tail, PixelBytes(sub.colour, n), RectangleBytes(sub, f);
    assert s == p + (r + tail);
    assert s[..n] == p && s[n..] == r + tail;
    PixelRoundTrip(sub.colour, n);
    RectangleRoundTrip(sub, f, tail);
  }

  lemma {:induction false} SubsRoundTrip(subs: seq<Subrect>, img: Image, w: nat, h: nat, f: Format, n: nat, rest: seq<Byte>)
    requires IsImage(img, w, h)
    requires forall k :: 0 <= k < |subs| ==>
      InRange(subs[k], f) && 0 <= subs[k].colour < Range(n) && subs[k].x + subs[k].w <= w && subs[k].y + subs[k].h <= h
    ensures DecodeSubs(AllSubBytes(subs, f, n) + rest, |subs|, img, f, n) == Some((PaintAll(img, subs), rest))
    decreases |subs|
  {
    var s := AllSubBytes(subs, f, n) + rest;
    if subs == [] {
      assert s == rest;
    } else {
      var sub, tail := subs[0], AllSubBytes(subs[1..], f, n) + rest;
      Regroup(SubBytes(sub, f, n), AllSubBytes(subs[1..], f, n), rest);
      SubRoundTrip(sub, f, n, tail);
      assert Inside(sub, img);
      SubsRoundTrip(subs[1..], PaintSub(img, sub), w, h, f, n, rest);
    }
  }

  lemma {:induction false} AllSubBytesSnoc(subs: seq<Subrect>, s: Subrect, f: Format, n: nat)
    requires (forall k :: 0 <= k < |subs| ==> InRange(subs[k], f)) && InRange(s, f)
    ensures AllSubBytes(subs + [s], f, n) == AllSubBytes(subs, f, n) + SubBytes(s, f, n)
    decreases |subs|
  {
    var all := subs + [s];
    if subs == [] {
      assert all[1..] == [];
    } else {
      assert all[1..] == subs[1..] + [s];
      AllSubBytesSnoc(subs[1..], s, f, n);
    }
  }

  // ---- The encoder ----

  /** out is the encoding of the subrectangles emitted so far. */
  ghost predicate Emitted(bg: int, f: Format, n: nat, subs: seq<Subrect>, out: seq<Byte>) {
    && (forall k :: 0 <= k < |subs| ==> InRange(subs[k], f) && 0 <= subs[k].colour < Range(n))
    && out == PixelBytes(bg, n) + AllSubBytes(subs, f, n)
    && |out| == n + |subs| * (n + RectangleSize(f))
  }

  lemma EmittedStep(bg: int, f: Format, n: nat, subs: seq<Subrect>, out: seq<Byte>, s: Subrect)
    requires Emitted(bg, f, n, subs, out) && InRange(s, f) && 0 <= s.colour < Range(n)
    ensures Emitted(bg, f, n, subs + [s], out + SubBytes(s, f, n))
  {
    AllSubBytesSnoc(subs, s, f, n);
    Regroup(PixelBytes(bg, n), AllSubBytes(subs, f, n), SubBytes(s, f, n));
    assert (|subs| + 1) * (n + RectangleSize(f)) == |subs| * (n + RectangleSize(f)) + (n + RectangleSize(f));
  }

  /** Some foreground is in none of the subrectangles. */
  ghost predicate LeavesOut(subs: seq<Subrect>, img: Image, w: nat, h: nat, bg: int)
    requires IsImage(img, w, h)
  {
    exists j, i :: 0 <= j < h && 0 <= i < w && img[j][i] != bg && !Covered(subs, i, j)
  }

  function LengthWithOneMore(subs: seq<Subrect>, f: Format, n: nat): int {
    n + (|subs| + 1) * (n + RectangleSize(f))
  }

  /** The list is not complete, and with one more it is longer than the pixels themselves. */
  ghost predicate TooLong(img: Image, w: nat, h: nat, n: nat, f: Format, bg: int, subs: seq<Subrect>)
    requires IsImage(img, w, h)
  {
    GoodSubs(subs, img, w, h, bg) && LeavesOut(subs, img, w, h, bg) && LengthWithOneMore(subs, f, n) > w * h * n
  }

  /** What is known when subrectEncode gives up. */
  ghost predicate Failed(subs: seq<Subrect>, img: Image, w: nat, h: nat, n: nat, f: Format, bg: int, afterBufSize: int)
    requires IsImage(img, w, h)
  {
    LeavesOut(subs, img, w, h, bg)
    && (LengthWithOneMore(subs, f, n) > w * h * n || LengthWithOneMore(subs, f, n) > afterBufSize)
  }

  /** What is known when it does not: all of the foreground is covered, the output is no
      longer than the pixels unless it is the background alone, and it decodes. */
  ghost predicate Coded(out: seq<Byte>, subs: seq<Subrect>, img: Image, w: nat, h: nat, n: nat, f: Format, bg: int, afterBufSize: int)
    requires IsImage(img, w, h)
  {
    && (forall j, i :: 0 <= j < h && 0 <= i < w ==> (Covered(subs, i, j) <==> img[j][i] != bg))
    && |out| == n + |subs| * (n + RectangleSize(f))
    && (|subs| > 0 ==> |out| <= w * h * n && |out| <= afterBufSize)
    && forall rest :: Decode(out + rest, |subs|, w, h, f, n) == Some((img, rest))
  }

  /** subrectEncode. The result is the number of subrectangles, or -1 when the encoding
      would be longer than the raw pixels or than the buffer for it. */
  method SubrectEncode(data: array2<int>, f: Format, n: nat, bg: int, afterBufSize: int)
    returns (numsubs: int, out: seq<Byte>, ghost subs: seq<Subrect>)
    requires data.Length0 < CoordLimit(f) && data.Length1 < CoordLimit(f)
    requires PictureFits(Picture(data), n) && 0 <= bg < Range(n)
    modifies data
    ensures var w, h, img := data.Length1, data.Length0, old(Picture(data));
      && GoodSubs(subs, img, w, h, bg)
      && (numsubs == -1 || numsubs == |subs|)
      && (numsubs == -1 ==> Failed(subs, img, w, h, n, f, bg, afterBufSize))
      && (numsubs >= 0 ==> Coded(out, subs, img, w, h, n, f, bg, afterBufSize))
  {
    hide Progress;
    hide Emitted;
    var w, h := data.Length1, data.Length0;
    ghost var img := Picture(data);
    numsubs, out, subs := 0, PixelBytes(bg, n), [];
    ProgressStart(img, w, h, bg);
    EmittedStart(bg, f, n);
    var y := 0;
    while y < h
      invariant 0 <= y <= h && numsubs == |subs|
      invariant Progress(img, Picture(data), w, h, bg, subs) && Emitted(bg, f, n, subs, out)
      invariant DoneTo(Picture(data), w, h, bg, y, 0)
      invariant numsubs > 0 ==> |out| <= w * h * n && |out| <= afterBufSize
    {
      var x := 0;
      while x < w
        invariant 0 <= x <= w && numsubs == |subs|
        invariant Progress(img, Picture(data), w, h, bg, subs) && Emitted(bg, f, n, subs, out)
        invariant DoneTo(Picture(data), w, h, bg, y, x)
        invariant numsubs > 0 ==> |out| <= w * h * n && |out| <= afterBufSize
      {
        if data[y, x] != bg {
          var newLen := |out| + n + RectangleSize(f);
          if newLen > w * h * n || newLen > afterBufSize {
            ProgressGood(img, Picture(data), w, h, bg, subs);
            ProgressLeaves(img, Picture(data), w, h, bg, subs, x, y);
            EmittedLength(bg, f, n, subs, out);
            numsubs := -1;
            return;
          }
          ColourFits(img, Picture(data), w, h, bg, subs, n, x, y);
          numsubs := numsubs + 1;
          var s := CutOut(data, x, y, bg, img, subs);
          EmittedStep(bg, f, n, subs, out, s);
          out, subs := out + SubBytes(s, f, n), subs + [s];
        }
        x := x + 1;
      }
      y := y + 1;
    }
    ProgressDone(img, Picture(data), w, h, bg, subs);
    ProgressGood(img, Picture(data), w, h, bg, subs);
    EmittedLength(bg, f, n, subs, out);
    forall rest
      ensures Decode(out + rest, numsubs, w, h, f, n) == Some((img, rest))
    {
      EncodedDecodes(img, w, h, bg, f, n, subs, out, rest);
    }
  }

  /** A pixel that is still foreground is in no subrectangle. */
  lemma ProgressLeaves(img: Image, now: Image, w: nat, h: nat, bg: int, subs: seq<Subrect>, x: nat, y: nat)
    requires Progress(img, now, w, h, bg, subs) && x < w && y < h && now[y][x] != bg
    ensures LeavesOut(subs, img, w, h, bg)
  {
    assert img[y][x] != bg && !Covered(subs, x, y);
  }

  lemma EmittedStart(bg: int, f: Format, n: nat)
    ensures Emitted(bg, f, n, [], PixelBytes(bg, n))
  {
    assert PixelBytes(bg, n) + [] == PixelBytes(bg, n);
  }

  lemma EmittedLength(bg: int, f: Format, n: nat, subs: seq<Subrect>, out: seq<Byte>)
    requires Emitted(bg, f, n, subs, out)
    ensures |out| == n + |subs| * (n + RectangleSize(f))
    ensures |out| + n + RectangleSize(f) == n + (|subs| + 1) * (n + RectangleSize(f))
  {
  }

  /** A pixel that is not background is still as it was. */
  lemma ColourFits(img: Image, now: Image, w: nat, h: nat, bg: int, subs: seq<Subrect>, n: nat, x: nat, y: nat)
    requires Progress(img, now, w, h, bg, subs) && PictureFits(img, n) && x < w && y < h
    ensures |now| == h && |now[y]| == w
    ensures now[y][x] != bg ==> 0 <= now[y][x] < Range(n)
  {
  }

  lemma EncodedDecodes(img: Image, w: nat, h: nat, bg: int, f: Format, n: nat, subs: seq<Subrect>, out: seq<Byte>,
                       rest: seq<Byte>)
    requires IsImage(img, w, h) && GoodSubs(subs, img, w, h, bg) && Emitted(bg, f, n, subs, out)
    requires PaintAll(Solid(w, h, bg), subs) == img && 0 <= bg < Range(n)
    ensures Decode(out + rest, |subs|, w, h, f, n) == Some((img, rest))
  {
    var b, a := PixelBytes(bg, n), AllSubBytes(subs, f, n);
    Regroup(b, a, rest);
    Parts(b, a + rest);
    PixelRoundTrip(bg, n);
    SubsFit(subs, img, w, h, bg, f, n);
    SubsRoundTrip(subs, Solid(w, h, bg), w, h, f, n, rest);
  }

  lemma SubsFit(subs: seq<Subrect>, img: Image, w: nat, h: nat, bg: int, f: Format, n: nat)
    requires IsImage(img, w, h) && GoodSubs(subs, img, w, h, bg)
    ensures forall k :: 0 <= k < |subs| ==> subs[k].x + subs[k].w <= w && subs[k].y + subs[k].h <= h
  {
  }
}
