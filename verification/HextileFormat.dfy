/** The Hextile format of section 7.7.4 of RFC 6143: tiles of at most 16 by 16 pixels that
    carry a background and a foreground colour from one to the next. */
module HextileFormat {
  import opened Bytes
  import opened Images
  import opened Subrects

  const RAW := 1
  const BACKGROUND_SPECIFIED := 2
  const FOREGROUND_SPECIFIED := 4
  const ANY_SUBRECTS := 8
  const SUBRECTS_COLOURED := 16

  /** What a tile may rely on from the tiles before it. */
  datatype Colours = Colours(bg: Option<int>, fg: Option<int>)

  /** What is written for one tile. Without subs the tile is all background. */
  datatype Tile =
    | RawTile(rows: Image)
    | PaintTile(bg: Option<int>, fg: Option<int>, subs: Option<seq<Subrect>>, coloured: bool)

  // ---- Bytes ----

  function Flag(present: bool, bit: int): int {
    if present then bit else 0
  }

  function MaskOf(t: Tile): (m: Byte)
  {
    match t
    case RawTile(_) => RAW
    case PaintTile(bg, fg, subs, coloured) =>
      Flag(bg.Some?, BACKGROUND_SPECIFIED) + Flag(fg.Some?, FOREGROUND_SPECIFIED)
      + Flag(subs.Some?, ANY_SUBRECTS) + Flag(coloured, SUBRECTS_COLOURED)
  }

  predicate HasBit(m: Byte, bit: int)
    requires bit > 0
  {
    (m as int / bit) % 2 == 1
  }

  function OptionalPixel(p: Option<int>, n: nat): seq<Byte> {
    if p.Some? then PixelBytes(p.value, n) else []
  }

  predicate FitsTile(s: Subrect) {
    0 <= s.x < 16 && 0 <= s.y < 16 && 1 <= s.w <= 16 && 1 <= s.h <= 16
  }

  /** rfbHextilePackXY and rfbHextilePackWH, after the pixel of a coloured one. */
  function SubBytes(s: Subrect, coloured: bool, n: nat): seq<Byte>
    requires FitsTile(s)
  {
    (if coloured then PixelBytes(s.colour, n) else []) + [16 * s.x + s.y, 16 * (s.w - 1) + (s.h - 1)]
  }

  function AllSubBytes(subs: seq<Subrect>, coloured: bool, n: nat): seq<Byte>
    requires forall k :: 0 <= k < |subs| ==> FitsTile(subs[k])
    decreases |subs|
  {
    if subs == [] then [] else SubBytes(subs[0], coloured, n) + AllSubBytes(subs[1..], coloured, n)
  }

  function SubsPart(subs: Option<seq<Subrect>>, coloured: bool, n: nat): seq<Byte>
    requires subs.Some? ==> |subs.value| < 256 && forall k :: 0 <= k < |subs.value| ==> FitsTile(subs.value[k])
  {
    if subs.Some? then [|subs.value|] + AllSubBytes(subs.value, coloured, n) else []
  }

  predicate Writable(t: Tile) {
    t.PaintTile? && t.subs.Some? ==>
      |t.subs.value| < 256 && forall k :: 0 <= k < |t.subs.value| ==> FitsTile(t.subs.value[k])
  }

  function TileBytes(t: Tile, n: nat): seq<Byte>
    requires Writable(t)
  {
    match t
    case RawTile(rows) => [RAW] + RowsBytes(rows, n)
    case PaintTile(bg, fg, subs, coloured) =>
      [MaskOf(t)] + (OptionalPixel(bg, n) + (OptionalPixel(fg, n) + SubsPart(subs, coloured, n)))
  }

  // ---- The decoder ----

  predicate Inside(s: Subrect, img: Image) {
    s.y + s.h <= |img| && forall j :: 0 <= j < |img| ==> s.x + s.w <= |img[j]|
  }

  /** The pixel that precedes a subrectangle, if there is one. */
  function PixelSize(coloured: bool, n: nat): nat {
    if coloured then n else 0
  }

  function ParseSub(s: seq<Byte>, coloured: bool, fg: int, n: nat): Subrect
    requires |s| >= PixelSize(coloured, n) + 2
  {
    var m := PixelSize(coloured, n);
    var xy, wh := s[m] as int, s[m + 1] as int;
    Subrect(if coloured then PixelOf(s[..n]) else fg, xy / 16, xy % 16, wh / 16 + 1, wh % 16 + 1)
  }

  /** k subrectangles; fg is the colour of those that come without one. */
  function DecodeSubs(s: seq<Byte>, k: nat, img: Image, coloured: bool, fg: Option<int>, n: nat): Option<(Image, seq<Byte>)>
    decreases k
  {
    if k == 0 then Some((img, s))
    else if |s| < PixelSize(coloured, n) + 2 || (!coloured && fg.None?) then None
    else
      var sub := ParseSub(s, coloured, if coloured then 0 else fg.value, n);
      if !Inside(sub, img) then None
      else DecodeSubs(s[PixelSize(coloured, n) + 2..], k - 1, PaintSub(img, sub), coloured, fg, n)
  }

  /** The end of a tile that is not raw, once its background and foreground are known. */
  function DecodeEnd(s: seq<Byte>, any: bool, img: Image, coloured: bool, fg: Option<int>, n: nat): Option<(Image, seq<Byte>)> {
    if !any then Some((img, s))
    else if s == [] then None
    else DecodeSubs(s[1..], s[0], img, coloured, fg, n)
  }

  /** A pixel that is there only if its bit is set; else the colour is carried over. */
  function DecodePixel(s: seq<Byte>, present: bool, carried: Option<int>, n: nat): Option<(Option<int>, seq<Byte>)> {
    if !present then Some((carried, s))
    else if |s| < n then None
    else Some((Some(PixelOf(s[..n])), s[n..]))
  }

  /** One tile of w by h pixels. The decoder is strict: no colour is carried over a raw
      tile, no foreground over a tile with coloured subrectangles, and a tile with
      coloured subrectangles must not specify a foreground. */
  function DecodeTile(s: seq<Byte>, w: nat, h: nat, n: nat, st: Colours): Option<(Image, Colours, seq<Byte>)> {
    if s == [] then None
    else if HasBit(s[0], RAW) then
      match ParseRows(s[1..], w, h, n)
      case None => None
      case Some((rows, rest)) => Some((rows, Colours(None, None), rest))
    else
      var coloured := HasBit(s[0], SUBRECTS_COLOURED);
      if coloured && HasBit(s[0], FOREGROUND_SPECIFIED) then None
      else
        match DecodePixel(s[1..], HasBit(s[0], BACKGROUND_SPECIFIED), st.bg, n)
        case None => None
        case Some((bg, s1)) =>
          match DecodePixel(s1, HasBit(s[0], FOREGROUND_SPECIFIED), st.fg, n)
          case None => None
          case Some((fg, s2)) =>
            var st' := Colours(bg, if coloured then None else fg);
            if bg.None? then None
            else
              match DecodeEnd(s2, HasBit(s[0], ANY_SUBRECTS), Solid(w, h, bg.value), coloured, fg, n)
              case None => None
              case Some((img, rest)) => Some((img, st', rest))
  }

  // ---- What a tile means, and that decoding finds it ----

  function Specified(p: Option<int>, carried: Option<int>): Option<int> {
    if p.Some? then p else carried
  }

  function After(t: Tile, st: Colours): Colours {
    match t
    case RawTile(_) => Colours(None, None)
    case PaintTile(bg, fg, _, coloured) =>
      Colours(Specified(bg, st.bg), if coloured then None else Specified(fg, st.fg))
  }

  /** t is a right description of img after tiles that left st. */
  ghost predicate Describes(t: Tile, img: Image, w: nat, h: nat, n: nat, st: Colours) {
    && IsImage(img, w, h) && Writable(t)
    && match t
       case RawTile(rows) => rows == img && forall j :: 0 <= j < h ==> PixelsFit(img[j], n)
       case PaintTile(bg, fg, subs, coloured) =>
         var bg', fg' := Specified(bg, st.bg), Specified(fg, st.fg);
         && (bg.Some? ==> 0 <= bg.value < Range(n)) && (fg.Some? ==> 0 <= fg.value < Range(n))
         && bg'.Some? && (coloured ==> fg.None?)
         && match subs
            case None => img == Solid(w, h, bg'.value)
            case Some(ss) =>
              && PaintAll(Solid(w, h, bg'.value), ss) == img
              && forall k :: 0 <= k < |ss| ==>
                   && ss[k].x + ss[k].w <= w && ss[k].y + ss[k].h <= h
                   && (if coloured then 0 <= ss[k].colour < Range(n) else fg' == Some(ss[k].colour))
  }

  lemma MaskBits(t: Tile)
    ensures HasBit(MaskOf(t), RAW) <==> t.RawTile?
    ensures t.PaintTile? ==>
      && (HasBit(MaskOf(t), BACKGROUND_SPECIFIED) <==> t.bg.Some?)
      && (HasBit(MaskOf(t), FOREGROUND_SPECIFIED) <==> t.fg.Some?)
      && (HasBit(MaskOf(t), ANY_SUBRECTS) <==> t.subs.Some?)
      && (HasBit(MaskOf(t), SUBRECTS_COLOURED) <==> t.coloured)
  {
  }

  lemma OptionalPixelRoundTrip(p: Option<int>, carried: Option<int>, n: nat, rest: seq<Byte>)
    requires p.Some? ==> 0 <= p.value < Range(n)
    ensures DecodePixel(OptionalPixel(p, n) + rest, p.Some?, carried, n) == Some((Specified(p, carried), rest))
  {
    if p.Some? {
      Parts(PixelBytes(p.value, n), rest);
      PixelRoundTrip(p.value, n);
    } else {
      assert [] + rest == rest;
    }
  }

  lemma {:induction false} SubsRoundTrip(subs: seq<Subrect>, img: Image, w: nat, h: nat, coloured: bool, fg: Option<int>,
                                         n: nat, rest: seq<Byte>)
    requires IsImage(img, w, h)
    requires forall k :: 0 <= k < |subs| ==>
      && FitsTile(subs[k]) && subs[k].x + subs[k].w <= w && subs[k].y + subs[k].h <= h
      && (if coloured then 0 <= subs[k].colour < Range(n) else fg == Some(subs[k].colour))
    ensures DecodeSubs(AllSubBytes(subs, coloured, n) + rest, |subs|, img, coloured, fg, n) == Some((PaintAll(img, subs), rest))
    decreases |subs|
  {
    if subs == [] {
      assert [] + rest == rest;
    } else {
      var sub, tail := subs[0], AllSubBytes(subs[1..], coloured, n) + rest;
      Regroup(SubBytes(sub, coloured, n), AllSubBytes(subs[1..], coloured, n), rest);
      SubRoundTrip(sub, coloured, n, tail);
      assert Inside(sub, img);
      SubsRoundTrip(subs[1..], PaintSub(img, sub), w, h, coloured, fg, n, rest);
    }
  }

  lemma SubRoundTrip(sub: Subrect, coloured: bool, n: nat, tail: seq<Byte>)
    requires FitsTile(sub) && (coloured ==> 0 <= sub.colour < Range(n))
    ensures var s, m := SubBytes(sub, coloured, n) + tail, PixelSize(coloured, n);
      |s| >= m + 2 && s[m + 2..] == tail && forall fg :: (coloured || fg == sub.colour) ==> ParseSub(s, coloured, fg, n) == sub
  {
    var p: seq<Byte> := if coloured then PixelBytes(sub.colour, n) else [];
    var q: seq<Byte> := [16 * sub.x + sub.y, 16 * (sub.w - 1) + (sub.h - 1)];
    var s := SubBytes(sub, coloured, n) + tail;
    Regroup(p, q, tail);
    Parts(p, q + tail);
    assert s[|p|] == q[0] && s[|p| + 1] == q[1];
    assert s[|p| + 2..] == tail;
    Nibbles(sub.x, sub.y);
    Nibbles(sub.w - 1, sub.h - 1);
    if coloured {
      PixelRoundTrip(sub.colour, n);
    }
  }

  lemma Nibbles(hi: int, lo: int)
    requires 0 <= hi < 16 && 0 <= lo < 16
    ensures (16 * hi + lo) / 16 == hi && (16 * hi + lo) % 16 == lo
  {
  }

  lemma RawRoundTrip(img: Image, w: nat, h: nat, n: nat, st: Colours, rest: seq<Byte>)
    requires IsImage(img, w, h) && forall j :: 0 <= j < h ==> PixelsFit(img[j], n)
    ensures DecodeTile(TileBytes(RawTile(img), n) + rest, w, h, n, st) == Some((img, Colours(None, None), rest))
  {
    Regroup([RAW], RowsBytes(img, n), rest);
    Parts([RAW], RowsBytes(img, n) + rest);
    RowsRoundTrip(img, w, n, rest);
  }

  lemma EndRoundTrip(subs: Option<seq<Subrect>>, img: Image, w: nat, h: nat, coloured: bool, fg: Option<int>,
                     n: nat, rest: seq<Byte>)
    requires IsImage(img, w, h)
    requires subs.Some? ==> |subs.value| < 256 && forall k :: 0 <= k < |subs.value| ==>
      var s := subs.value[k];
      && FitsTile(s) && s.x + s.w <= w && s.y + s.h <= h
      && (if coloured then 0 <= s.colour < Range(n) else fg == Some(s.colour))
    ensures DecodeEnd(SubsPart(subs, coloured, n) + rest, subs.Some?, img, coloured, fg, n)
      == Some((if subs.Some? then PaintAll(img, subs.value) else img, rest))
  {
    if subs.Some? {
      var all := AllSubBytes(subs.value, coloured, n);
      Regroup([|subs.value|], all, rest);
      Parts([|subs.value|], all + rest);
      SubsRoundTrip(subs.value, img, w, h, coloured, fg, n, rest);
    } else {
      assert [] + rest == rest;
    }
  }

  /** The steps of DecodeTile put together. */
  lemma DecodeSteps(t: Tile, s: seq<Byte>, s1: seq<Byte>, s2: seq<Byte>, rest: seq<Byte>, img: Image,
                    w: nat, h: nat, n: nat, st: Colours)
    requires t.PaintTile? && (t.coloured ==> t.fg.None?) && Specified(t.bg, st.bg).Some?
    requires |s| > 0 && s[0] == MaskOf(t)
    requires DecodePixel(s[1..], t.bg.Some?, st.bg, n) == Some((Specified(t.bg, st.bg), s1))
    requires DecodePixel(s1, t.fg.Some?, st.fg, n) == Some((Specified(t.fg, st.fg), s2))
    requires DecodeEnd(s2, t.subs.Some?, Solid(w, h, Specified(t.bg, st.bg).value), t.coloured, Specified(t.fg, st.fg), n)
      == Some((img, rest))
    ensures DecodeTile(s, w, h, n, st) == Some((img, After(t, st), rest))
  {
    hide DecodeEnd;
    hide DecodePixel;
    MaskBits(t);
    hide HasBit;
    hide MaskOf;
  }

  lemma PaintRoundTrip(t: Tile, img: Image, w: nat, h: nat, n: nat, st: Colours, rest: seq<Byte>)
    requires t.PaintTile? && Describes(t, img, w, h, n, st)
    ensures DecodeTile(TileBytes(t, n) + rest, w, h, n, st) == Some((img, After(t, st), rest))
  {
    hide DecodeTile;
    hide DecodeEnd;
    hide DecodePixel;
    var m: seq<Byte> := [MaskOf(t)];
    var p, q, r := OptionalPixel(t.bg, n), OptionalPixel(t.fg, n), SubsPart(t.subs, t.coloured, n);
    Regroup(m, p + (q + r), rest);
    Regroup(p, q + r, rest);
    Regroup(q, r, rest);
    var tail := p + (q + (r + rest));
    Parts(m, tail);
    OptionalPixelRoundTrip(t.bg, st.bg, n, q + (r + rest));
    OptionalPixelRoundTrip(t.fg, st.fg, n, r + rest);
    EndRoundTrip(t.subs, Solid(w, h, Specified(t.bg, st.bg).value), w, h, t.coloured, Specified(t.fg, st.fg), n, rest);
    DecodeSteps(t, m + tail, q + (r + rest), r + rest, rest, img, w, h, n, st);
  }

  lemma TileRoundTrip(t: Tile, img: Image, w: nat, h: nat, n: nat, st: Colours, rest: seq<Byte>)
    requires Describes(t, img, w, h, n, st)
    ensures DecodeTile(TileBytes(t, n) + rest, w, h, n, st) == Some((img, After(t, st), rest))
  {
    if t.RawTile? {
      RawRoundTrip(img, w, h, n, st, rest);
    } else {
      PaintRoundTrip(t, img, w, h, n, st, rest);
    }
  }

  // ---- A rectangle of tiles ----

  function TileExtent(size: int, at: int): int {
    if size - at < 16 then size - at else 16
  }

  /** The tiles of a w by h rectangle from (x, y) on, left to right and top to bottom,
      drawn on canvas. */
  function DecodeTiles(s: seq<Byte>, x: nat, y: nat, w: nat, h: nat, n: nat, st: Colours, canvas: Image): Option<(Image, seq<Byte>)>
    decreases h - y, w - x
  {
    if y >= h then Some((canvas, s))
    else if x >= w then DecodeTiles(s, 0, y + 16, w, h, n, st, canvas)
    else
      match DecodeTile(s, TileExtent(w, x), TileExtent(h, y), n, st)
      case None => None
      case Some((img, st', rest)) => DecodeTiles(rest, x + 16, y, w, h, n, st', Place(canvas, img, x, y))
  }

  /** Section 7.7.4 of RFC 6143, with no colours known at the start. */
  function Decode(s: seq<Byte>, w: nat, h: nat, n: nat): Option<(Image, seq<Byte>)> {
    DecodeTiles(s, 0, 0, w, h, n, Colours(None, None), Solid(w, h, 0))
  }

  /** Reading s brings the decoder from the start of a rectangle to the tile at (x, y). */
  ghost predicate Leads(s: seq<Byte>, x: nat, y: nat, w: nat, h: nat, n: nat, st: Colours, canvas: Image) {
    forall rest :: Decode(s + rest, w, h, n) == DecodeTiles(rest, x, y, w, h, n, st, canvas)
  }

  /** The tiles before (x, y) are drawn. */
  ghost predicate Drawn(canvas: Image, img: Image, w: nat, h: nat, x: nat, y: nat) {
    && IsImage(canvas, w, h) && IsImage(img, w, h)
    && forall j, i :: 0 <= j < h && 0 <= i < w && (j < y || (j < y + 16 && i < x)) ==> canvas[j][i] == img[j][i]
  }

  lemma LeadsStart(w: nat, h: nat, n: nat)
    ensures Leads([], 0, 0, w, h, n, Colours(None, None), Solid(w, h, 0))
  {
    forall rest: seq<Byte>
      ensures Decode([] + rest, w, h, n) == DecodeTiles(rest, 0, 0, w, h, n, Colours(None, None), Solid(w, h, 0))
    {
      assert [] + rest == rest;
    }
  }

  lemma LeadsRow(s: seq<Byte>, x: nat, y: nat, w: nat, h: nat, n: nat, st: Colours, canvas: Image)
    requires Leads(s, x, y, w, h, n, st, canvas) && x >= w && y < h
    ensures Leads(s, 0, y + 16, w, h, n, st, canvas)
  {
    forall rest
      ensures Decode(s + rest, w, h, n) == DecodeTiles(rest, 0, y + 16, w, h, n, st, canvas)
    {
      assert DecodeTiles(rest, x, y, w, h, n, st, canvas) == DecodeTiles(rest, 0, y + 16, w, h, n, st, canvas);
    }
  }

  lemma LeadsStep(s: seq<Byte>, x: nat, y: nat, w: nat, h: nat, n: nat, st: Colours, canvas: Image, t: Tile, img: Image)
    requires Leads(s, x, y, w, h, n, st, canvas) && x < w && y < h
    requires Describes(t, img, TileExtent(w, x), TileExtent(h, y), n, st)
    ensures Leads(s + TileBytes(t, n), x + 16, y, w, h, n, After(t, st), Place(canvas, img, x, y))
  {
    hide TileBytes;
    hide After;
    hide DecodeTile;
    var b := TileBytes(t, n);
    forall rest
      ensures Decode((s + b) + rest, w, h, n) == DecodeTiles(rest, x + 16, y, w, h, n, After(t, st), Place(canvas, img, x, y))
    {
      Regroup(s, b, rest);
      TileRoundTrip(t, img, TileExtent(w, x), TileExtent(h, y), n, st, rest);
      assert DecodeTiles(b + rest, x, y, w, h, n, st, canvas)
        == DecodeTiles(rest, x + 16, y, w, h, n, After(t, st), Place(canvas, img, x, y));
    }
  }

  lemma DrawnStep(canvas: Image, img: Image, part: Image, w: nat, h: nat, x: nat, y: nat)
    requires Drawn(canvas, img, w, h, x, y) && x < w && y < h
    requires IsImage(part, TileExtent(w, x), TileExtent(h, y))
    requires PartOf(part, img, x, y)
    ensures Drawn(Place(canvas, part, x, y), img, w, h, x + 16, y)
  {
    var r := Place(canvas, part, x, y);
    forall j, i | 0 <= j < h && 0 <= i < w && (j < y || (j < y + 16 && i < x + 16))
      ensures r[j][i] == img[j][i]
    {
      if y <= j < y + |part| && x <= i < x + TileExtent(w, x) {
        assert InPlace(part, img, x, y, j - y, i - x);
      }
    }
  }

  /** After the last tile the whole rectangle is there. */
  lemma LeadsDone(s: seq<Byte>, y: nat, w: nat, h: nat, n: nat, st: Colours, canvas: Image, img: Image)
    requires Leads(s, 0, y, w, h, n, st, canvas) && Drawn(canvas, img, w, h, 0, y) && y >= h
    ensures forall rest :: Decode(s + rest, w, h, n) == Some((img, rest))
  {
    SameImage(canvas, img, w, h);
  }
}
