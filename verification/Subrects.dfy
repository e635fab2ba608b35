/** The greedy choice of single-colour subrectangles that RRE, CoRRE and Hextile share:
    at each pixel that differs from the background, the larger of two rectangles of its
    colour is cut out and marked as done by overwriting it with the background. */
module Subrects {
  import opened Basics
  import opened Images

  datatype Subrect = Subrect(colour: int, x: int, y: int, w: int, h: int)

  predicate InSub(s: Subrect, x: int, y: int) {
    s.x <= x < s.x + s.w && s.y <= y < s.y + s.h
  }

  predicate Apart(s: Subrect, t: Subrect) {
    s.x + s.w <= t.x || t.x + t.w <= s.x || s.y + s.h <= t.y || t.y + t.h <= s.y
  }

  function PaintSub(img: Image, s: Subrect): (r: Image)
    ensures |r| == |img| && forall j :: 0 <= j < |img| ==> |r[j]| == |img[j]|
  {
    Paint(img, s.x, s.y, s.w, s.h, s.colour)
  }

  /** The subrectangles painted over img in turn. */
  function PaintAll(img: Image, subs: seq<Subrect>): (r: Image)
    ensures |r| == |img| && forall j :: 0 <= j < |img| ==> |r[j]| == |img[j]|
    decreases |subs|
  {
    if subs == [] then img else PaintAll(PaintSub(img, subs[0]), subs[1..])
  }

  lemma {:induction false} PaintSnoc(img: Image, subs: seq<Subrect>, s: Subrect)
    ensures PaintAll(img, subs + [s]) == PaintSub(PaintAll(img, subs), s)
    decreases |subs|
  {
    var all := subs + [s];
    if subs == [] {
      assert all[1..] == [];
    } else {
      assert all[1..] == subs[1..] + [s];
      PaintSnoc(PaintSub(img, subs[0]), subs[1..], s);
    }
  }

  ghost predicate Covered(subs: seq<Subrect>, x: int, y: int) {
    exists k :: 0 <= k < |subs| && InSub(subs[k], x, y)
  }

  /** The subrectangles lie in the image, each is of one colour other than the background
      there, and no two share a pixel. */
  ghost predicate GoodSubs(subs: seq<Subrect>, img: Image, w: nat, h: nat, bg: int)
    requires IsImage(img, w, h)
  {
    && (forall k :: 0 <= k < |subs| ==>
          && 0 <= subs[k].x && 0 < subs[k].w && subs[k].x + subs[k].w <= w
          && 0 <= subs[k].y && 0 < subs[k].h && subs[k].y + subs[k].h <= h
          && subs[k].colour != bg)
    && (forall k, j, i :: 0 <= k < |subs| && 0 <= j < h && 0 <= i < w && InSub(subs[k], i, j) ==>
          img[j][i] == subs[k].colour)
    && (forall k, m :: 0 <= k < m < |subs| ==> Apart(subs[k], subs[m]))
  }

  /** The pixels of img that differ from the background. */
  ghost function Foreground(img: Image, w: nat, h: nat, bg: int): set<(int, int)>
    requires IsImage(img, w, h)
  {
    set i, j | 0 <= i < w && 0 <= j < h && img[j][i] != bg :: (i, j)
  }

  /** A pixel is either done, painted and overwritten, or still as it was. */
  ghost predicate Tracked(img: Image, now: Image, painted: Image, w: nat, h: nat, bg: int, subs: seq<Subrect>)
    requires IsImage(img, w, h) && IsImage(now, w, h) && IsImage(painted, w, h)
  {
    forall j, i :: 0 <= j < h && 0 <= i < w ==>
      if Covered(subs, i, j) then painted[j][i] == img[j][i] && now[j][i] == bg
      else painted[j][i] == bg && now[j][i] == img[j][i]
  }

  ghost predicate Progress(img: Image, now: Image, w: nat, h: nat, bg: int, subs: seq<Subrect>) {
    && IsImage(img, w, h) && IsImage(now, w, h)
    && GoodSubs(subs, img, w, h, bg)
    && Tracked(img, now, PaintAll(Solid(w, h, bg), subs), w, h, bg, subs)
    && |subs| + |Foreground(now, w, h, bg)| <= |Foreground(img, w, h, bg)|
  }

  lemma ProgressStart(img: Image, w: nat, h: nat, bg: int)
    requires IsImage(img, w, h)
    ensures Progress(img, img, w, h, bg, [])
  {
  }

  /** One more subrectangle: a rectangle of one colour, now marked as done. */
  lemma ProgressStep(img: Image, now: Image, now': Image, w: nat, h: nat, bg: int, subs: seq<Subrect>, s: Subrect)
    requires Progress(img, now, w, h, bg, subs) && IsImage(now', w, h)
    requires 0 <= s.x && 0 < s.w && s.x + s.w <= w && 0 <= s.y && 0 < s.h && s.y + s.h <= h && s.colour != bg
    requires forall j, i :: 0 <= j < h && 0 <= i < w && InSub(s, i, j) ==> now[j][i] == s.colour
    requires forall j, i :: 0 <= j < h && 0 <= i < w ==> now'[j][i] == if InSub(s, i, j) then bg else now[j][i]
    ensures Progress(img, now', w, h, bg, subs + [s])
  {
    PaintSnoc(Solid(w, h, bg), subs, s);
    TrackedSnoc(img, now, now', PaintAll(Solid(w, h, bg), subs), w, h, bg, subs, s);
    forall k | 0 <= k < |subs|
      ensures Apart(subs[k], s)
    {
      StepApart(img, now, w, h, bg, subs, s, k);
    }
    StepColour(img, now, w, h, bg, subs, s);
    GoodSnoc(subs, img, w, h, bg, s);
    ForegroundShrinks(now, now', w, h, bg, s.x, s.y);
  }

  lemma StepColour(img: Image, now: Image, w: nat, h: nat, bg: int, subs: seq<Subrect>, s: Subrect)
    requires Progress(img, now, w, h, bg, subs) && s.colour != bg
    requires forall j, i :: 0 <= j < h && 0 <= i < w && InSub(s, i, j) ==> now[j][i] == s.colour
    ensures forall j, i :: 0 <= j < h && 0 <= i < w && InSub(s, i, j) ==> img[j][i] == s.colour
  {
  }

  lemma GoodSnoc(subs: seq<Subrect>, img: Image, w: nat, h: nat, bg: int, s: Subrect)
    requires IsImage(img, w, h) && GoodSubs(subs, img, w, h, bg)
    requires 0 <= s.x && 0 < s.w && s.x + s.w <= w && 0 <= s.y && 0 < s.h && s.y + s.h <= h && s.colour != bg
    requires forall j, i :: 0 <= j < h && 0 <= i < w && InSub(s, i, j) ==> img[j][i] == s.colour
    requires forall k :: 0 <= k < |subs| ==> Apart(subs[k], s)
    ensures GoodSubs(subs + [s], img, w, h, bg)
  {
  }

  lemma TrackedSnoc(img: Image, now: Image, now': Image, painted: Image, w: nat, h: nat, bg: int,
                    subs: seq<Subrect>, s: Subrect)
    requires IsImage(img, w, h) && IsImage(now, w, h) && IsImage(painted, w, h) && IsImage(now', w, h)
    requires Tracked(img, now, painted, w, h, bg, subs) && s.colour != bg
    requires forall j, i :: 0 <= j < h && 0 <= i < w && InSub(s, i, j) ==> now[j][i] == s.colour
    requires forall j, i :: 0 <= j < h && 0 <= i < w ==> now'[j][i] == if InSub(s, i, j) then bg else now[j][i]
    ensures Tracked(img, now', PaintSub(painted, s), w, h, bg, subs + [s])
  {
    forall j, i | 0 <= j < h && 0 <= i < w
      ensures var p := PaintSub(painted, s);
        if Covered(subs + [s], i, j) then p[j][i] == img[j][i] && now'[j][i] == bg
        else p[j][i] == bg && now'[j][i] == img[j][i]
    {
      CoveredSnoc(subs, s, i, j);
    }
  }

  lemma CoveredSnoc(subs: seq<Subrect>, s: Subrect, i: int, j: int)
    ensures Covered(subs + [s], i, j) <==> Covered(subs, i, j) || InSub(s, i, j)
  {
    var subs' := subs + [s];
    assert subs'[|subs|] == s;
    if Covered(subs, i, j) {
      var k :| 0 <= k < |subs| && InSub(subs[k], i, j);
      assert subs'[k] == subs[k];
    }
  }

  /** A rectangle that is not yet done shares no pixel with those that are. */
  lemma StepApart(img: Image, now: Image, w: nat, h: nat, bg: int, subs: seq<Subrect>, s: Subrect, k: int)
    requires Progress(img, now, w, h, bg, subs) && 0 <= k < |subs|
    requires 0 <= s.x && 0 < s.w && s.x + s.w <= w && 0 <= s.y && 0 < s.h && s.y + s.h <= h && s.colour != bg
    requires forall j, i :: 0 <= j < h && 0 <= i < w && InSub(s, i, j) ==> now[j][i] == s.colour
    ensures Apart(subs[k], s)
  {
    var t := subs[k];
    var i, j := if s.x <= t.x then t.x else s.x, if s.y <= t.y then t.y else s.y;
    assert InSub(t, i, j) ==> Covered(subs, i, j);
    assert 0 <= j < h && 0 <= i < w && InSub(s, i, j) ==> now[j][i] == s.colour;
  }

  lemma ForegroundShrinks(now: Image, now': Image, w: nat, h: nat, bg: int, x: int, y: int)
    requires IsImage(now, w, h) && IsImage(now', w, h) && 0 <= x < w && 0 <= y < h
    requires now[y][x] != bg && now'[y][x] == bg
    requires forall j, i :: 0 <= j < h && 0 <= i < w ==> now'[j][i] == bg || now'[j][i] == now[j][i]
    ensures |Foreground(now', w, h, bg)| + 1 <= |Foreground(now, w, h, bg)|
  {
    var f, f' := Foreground(now, w, h, bg), Foreground(now', w, h, bg);
    assert (x, y) in f;
    assert f' <= f - {(x, y)};
    CardinalitySubset(f', f - {(x, y)});
  }

  /** Once nothing but background is left, painting the subrectangles gives back the
      image, and they cover exactly what differs from the background. */
  lemma ProgressDone(img: Image, now: Image, w: nat, h: nat, bg: int, subs: seq<Subrect>)
    requires Progress(img, now, w, h, bg, subs)
    requires forall j, i :: 0 <= j < h && 0 <= i < w ==> now[j][i] == bg
    ensures PaintAll(Solid(w, h, bg), subs) == img
    ensures forall j, i :: 0 <= j < h && 0 <= i < w ==> (Covered(subs, i, j) <==> img[j][i] != bg)
  {
    SameImage(PaintAll(Solid(w, h, bg), subs), img, w, h);
  }

  /** A rectangle at (x, y) of the colour found there. */
  ghost predicate OneColour(data: array2<int>, x: nat, y: nat, w: int, h: int)
    requires y < data.Length0 && x < data.Length1
    reads data
  {
    && 0 < w && x + w <= data.Length1 && 0 < h && y + h <= data.Length0
    && forall j, i :: y <= j < y + h && x <= i < x + w ==> data[j, i] == data[y, x]
  }

  ghost predicate RowBreaks(data: array2<int>, j: int, x1: int, x2: int, c: int)
    requires 0 <= j < data.Length0 && 0 <= x1 && x2 <= data.Length1
    reads data
  {
    exists i :: x1 <= i < x2 && data[j, i] != c
  }

  ghost predicate ColumnBreaks(data: array2<int>, i: int, y1: int, y2: int, c: int)
    requires 0 <= i < data.Length1 && 0 <= y1 && y2 <= data.Length0
    reads data
  {
    exists j :: y1 <= j < y2 && data[j, i] != c
  }

  /** As wide as its first row allows, and then as high as that width allows. */
  ghost predicate Widest(data: array2<int>, x: nat, y: nat, w: int, h: int)
    requires y < data.Length0 && x < data.Length1
    reads data
  {
    && OneColour(data, x, y, w, h)
    && (x + w < data.Length1 ==> data[y, x + w] != data[y, x])
    && (y + h < data.Length0 ==> RowBreaks(data, y + h, x, x + w, data[y, x]))
  }

  /** As high as its first column allows, and then as wide as that height allows. */
  ghost predicate Tallest(data: array2<int>, x: nat, y: nat, w: int, h: int)
    requires y < data.Length0 && x < data.Length1
    reads data
  {
    && OneColour(data, x, y, w, h)
    && (y + h < data.Length0 ==> data[y + h, x] != data[y, x])
    && (x + w < data.Length1 ==> ColumnBreaks(data, x + w, y, y + h, data[y, x]))
  }

  /** The last pixel of the run of colour cl that starts at (x, j). */
  method RunEnd(data: array2<int>, x: nat, j: nat, cl: int) returns (i: int)
    requires j < data.Length0 && x < data.Length1 && data[j, x] == cl
    ensures x <= i < data.Length1 && (forall k :: x <= k <= i ==> data[j, k] == cl)
    ensures i + 1 < data.Length1 ==> data[j, i + 1] != cl
  {
    i := x;
    while i < data.Length1 && data[j, i] == cl
      invariant x <= i <= data.Length1
      invariant forall k :: x <= k < i ==> data[j, k] == cl
    {
      i := i + 1;
    }
    i := i - 1;
  }

  /** The larger of the widest and the tallest rectangle of one colour at (x, y). */
  method FindSubrect(data: array2<int>, x: nat, y: nat)
    returns (thew: int, theh: int, ghost hw: int, ghost hh: int, ghost vw: int, ghost vh: int)
    requires y < data.Length0 && x < data.Length1
    ensures Widest(data, x, y, hw, hh) && Tallest(data, x, y, vw, vh)
    ensures if hw * hh > vw * vh then thew == hw && theh == hh else thew == vw && theh == vh
    ensures OneColour(data, x, y, thew, theh)
  {
    var h, w := data.Length0, data.Length1;
    var cl := data[y, x];
    var hx, vx := 0, 0;
    var hy := y - 1;
    var hyflag := 1;
    var j := y;
    while j < h
      invariant y <= j <= h
      invariant j > y ==> x <= vx <= hx < w && y <= hy < j
      invariant j == y ==> hy == y - 1 && hyflag == 1
      invariant hyflag > 0 ==> hy == j - 1
      invariant forall r, i :: y <= r < j && x <= i <= vx ==> data[r, i] == cl
      invariant forall r, i :: y <= r <= hy && x <= i <= hx ==> data[r, i] == cl
      invariant j > y && hx + 1 < w ==> data[y, hx + 1] != cl
      invariant hyflag <= 0 ==> hy + 1 < j && RowBreaks(data, hy + 1, x, hx + 1, cl)
      invariant j > y && vx + 1 < w ==> ColumnBreaks(data, vx + 1, y, j, cl)
    {
      if data[j, x] != cl { break; }
      var i := RunEnd(data, x, j, cl);
      if j == y {
        hx := i;
        vx := i;
      }
      if i < vx { vx := i; }
      if hyflag > 0 && i >= hx {
        hy := hy + 1;
      } else {
        hyflag := 0;
      }
      j := j + 1;
    }
    var vy := j - 1;
    var w1, h1, w2, h2 := hx - x + 1, hy - y + 1, vx - x + 1, vy - y + 1;
    hw, hh, vw, vh := w1, h1, w2, h2;
    if w1 * h1 > w2 * h2 {
      thew, theh := w1, h1;
    } else {
      thew, theh := w2, h2;
    }
  }

  /** The subrectangle is marked as done. */
  method MarkDone(data: array2<int>, x: nat, y: nat, thew: nat, theh: nat, bg: int)
    requires x + thew <= data.Length1 && y + theh <= data.Length0
    modifies data
    ensures forall j, i :: 0 <= j < data.Length0 && 0 <= i < data.Length1 ==>
      data[j, i] == if x <= i < x + thew && y <= j < y + theh then bg else old(data[j, i])
  {
    var j := y;
    while j < y + theh
      invariant y <= j <= y + theh
      invariant forall r, i :: 0 <= r < data.Length0 && 0 <= i < data.Length1 ==>
        data[r, i] == if x <= i < x + thew && y <= r < j then bg else old(data[r, i])
    {
      var i := x;
      while i < x + thew
        invariant x <= i <= x + thew
        invariant forall r, k :: 0 <= r < data.Length0 && 0 <= k < data.Length1 ==>
          data[r, k] == if x <= k < x + thew && y <= r && (r < j || (r == j && k < i)) then bg else old(data[r, k])
      {
        data[j, i] := bg;
        i := i + 1;
      }
      j := j + 1;
    }
  }

  /** The pixels before (x, y) in reading order are background by now. */
  ghost predicate DoneTo(now: Image, w: nat, h: nat, bg: int, y: int, x: int)
    requires IsImage(now, w, h)
  {
    forall j, i :: 0 <= j < h && 0 <= i < w && (j < y || (j == y && i < x)) ==> now[j][i] == bg
  }

  lemma DoneSteps(now: Image, w: nat, h: nat, bg: int, y: nat, x: nat)
    requires IsImage(now, w, h)
    ensures DoneTo(now, w, h, bg, 0, 0)
    ensures y < h && x < w && DoneTo(now, w, h, bg, y, x) && now[y][x] == bg ==> DoneTo(now, w, h, bg, y, x + 1)
    ensures x >= w && DoneTo(now, w, h, bg, y, x) ==> DoneTo(now, w, h, bg, y + 1, 0)
    ensures y >= h && DoneTo(now, w, h, bg, y, x) ==> forall j, i :: 0 <= j < h && 0 <= i < w ==> now[j][i] == bg
  {
  }

  /** The choice at (x, y) of a pixel that is not background: it is cut out. */
  method CutOut(data: array2<int>, x: nat, y: nat, bg: int, ghost img: Image, ghost subs: seq<Subrect>) returns (s: Subrect)
    requires y < data.Length0 && x < data.Length1 && data[y, x] != bg
    requires Progress(img, Picture(data), data.Length1, data.Length0, bg, subs)
    requires DoneTo(Picture(data), data.Length1, data.Length0, bg, y, x)
    modifies data
    ensures s.colour == old(data[y, x]) && s.x == x && s.y == y
    ensures 0 < s.w && x + s.w <= data.Length1 && 0 < s.h && y + s.h <= data.Length0
    ensures exists hw, hh, vw, vh ::
      && old(Widest(data, x, y, hw, hh)) && old(Tallest(data, x, y, vw, vh))
      && if hw * hh > vw * vh then s.w == hw && s.h == hh else s.w == vw && s.h == vh
    ensures Progress(img, Picture(data), data.Length1, data.Length0, bg, subs + [s])
    ensures DoneTo(Picture(data), data.Length1, data.Length0, bg, y, x + 1)
  {
    hide Progress;
    ghost var now := Picture(data);
    var thew, theh, hw, hh, vw, vh := FindSubrect(data, x, y);
    s := Subrect(data[y, x], x, y, thew, theh);
    MarkDone(data, x, y, thew, theh, bg);
    ProgressStep(img, now, Picture(data), data.Length1, data.Length0, bg, subs, s);
  }

  lemma ProgressGood(img: Image, now: Image, w: nat, h: nat, bg: int, subs: seq<Subrect>)
    requires Progress(img, now, w, h, bg, subs)
    ensures IsImage(img, w, h) && GoodSubs(subs, img, w, h, bg)
  {
  }
}
