/** Rectangles of pixels, row by row. */
module Images {
  import opened Basics

  type Image = seq<seq<int>>

  ghost predicate IsImage(img: Image, w: nat, h: nat) {
    |img| == h && forall j :: 0 <= j < h ==> |img[j]| == w
  }

  function Solid(w: nat, h: nat, c: int): (img: Image)
    ensures |img| == h && forall j :: 0 <= j < h ==> |img[j]| == w
    ensures forall j, i :: 0 <= j < h && 0 <= i < w ==> img[j][i] == c
  {
    seq(h, _ => seq(w, _ => c))
  }

  /** img with a rectangle of one colour painted over it. */
  function Paint(img: Image, x: int, y: int, w: int, h: int, c: int): (r: Image)
    ensures |r| == |img| && forall j :: 0 <= j < |img| ==> |r[j]| == |img[j]|
    ensures forall j, i :: 0 <= j < |img| && 0 <= i < |img[j]| ==>
      r[j][i] == if x <= i < x + w && y <= j < y + h then c else img[j][i]
  {
    seq(|img|, j requires 0 <= j < |img| =>
      seq(|img[j]|, i requires 0 <= i < |img[j]| =>
        if x <= i < x + w && y <= j < y + h then c else img[j][i]))
  }

  /** The contents of a pixel buffer of width w and height h. */
  function Picture(data: array2<int>): (img: Image)
    reads data
    ensures IsImage(img, data.Length1, data.Length0)
    ensures forall j, i :: 0 <= j < data.Length0 && 0 <= i < data.Length1 ==> img[j][i] == data[j, i]
  {
    seq(data.Length0, j requires 0 <= j < data.Length0 reads data =>
      seq(data.Length1, i requires 0 <= i < data.Length1 reads data => data[j, i]))
  }

  lemma SameImage(a: Image, b: Image, w: nat, h: nat)
    requires IsImage(a, w, h) && IsImage(b, w, h)
    requires forall j, i :: 0 <= j < h && 0 <= i < w ==> a[j][i] == b[j][i]
    ensures a == b
  {
    forall j | 0 <= j < h
      ensures a[j] == b[j]
    {
      assert forall i :: 0 <= i < w ==> a[j][i] == b[j][i];
    }
  }

  /** part is what img has at (x, y). */
  ghost predicate PartOf(part: Image, img: Image, x: int, y: int) {
    forall j, i :: 0 <= j < |part| && 0 <= i < |part[j]| ==> InPlace(part, img, x, y, j, i)
  }

  ghost predicate InPlace(part: Image, img: Image, x: int, y: int, j: int, i: int) {
    && 0 <= j < |part| && 0 <= i < |part[j]|
    && 0 <= y + j < |img| && 0 <= x + i < |img[y + j]| && part[j][i] == img[y + j][x + i]
  }

  /** canvas with img drawn over it at (x, y). */
  function Place(canvas: Image, img: Image, x: int, y: int): (r: Image)
    ensures |r| == |canvas| && forall j :: 0 <= j < |canvas| ==> |r[j]| == |canvas[j]|
    ensures forall j, i :: 0 <= j < |canvas| && 0 <= i < |canvas[j]| ==>
      r[j][i] == if y <= j < y + |img| && x <= i < x + |img[j - y]| then img[j - y][i - x] else canvas[j][i]
  {
    seq(|canvas|, j requires 0 <= j < |canvas| =>
      seq(|canvas[j]|, i requires 0 <= i < |canvas[j]| =>
        if y <= j < y + |img| && x <= i < x + |img[j - y]| then img[j - y][i - x] else canvas[j][i]))
  }

  // ---- Rows laid end to end ----

  function Flat(rows: Image): seq<int> {
    if rows == [] then [] else rows[0] + Flat(rows[1..])
  }

  /** Rows of w pixels cut from s. */
  function Cut(s: seq<int>, w: nat, h: nat): (img: Image)
    ensures |img| == h
    ensures |s| == h * w ==> forall j :: 0 <= j < h ==> |img[j]| == w
    decreases h
  {
    OneMore(h - 1, w);
    MulMonotone(0, if h == 0 then 0 else h - 1, w);
    if h == 0 then []
    else if |s| < w then [s] + Cut([], w, h - 1)
    else [s[..w]] + Cut(s[w..], w, h - 1)
  }

  lemma {:induction false} CutFlat(img: Image, w: nat, h: nat)
    requires IsImage(img, w, h)
    ensures Cut(Flat(img), w, h) == img
    decreases h
  {
    if h > 0 {
      var tail := img[1..];
      CutFlat(tail, w, h - 1);
      assert Flat(img)[..w] == img[0] && Flat(img)[w..] == Flat(tail);
      assert [img[0]] + tail == img;
    }
  }

  lemma {:induction false} FlatLength(img: Image, w: nat, h: nat)
    requires IsImage(img, w, h)
    ensures |Flat(img)| == h * w
    decreases h
  {
    if h > 0 {
      FlatLength(img[1..], w, h - 1);
      OneMore(h - 1, w);
    }
  }

  lemma {:induction false} FlatSnoc(rows: Image, row: seq<int>)
    ensures Flat(rows + [row]) == Flat(rows) + row
    decreases |rows|
  {
    var all := rows + [row];
    if rows == [] {
      assert all[1..] == [];
      assert Flat(all) == row + [];
    } else {
      assert all[1..] == rows[1..] + [row];
      FlatSnoc(rows[1..], row);
      assert (rows[0] + Flat(rows[1..])) + row == rows[0] + (Flat(rows[1..]) + row);
    }
  }

  /** The framebuffer, and the translation of its pixels to the client's format. */
  datatype Screen = Screen(pixels: Image, translate: int -> int)

  predicate Within(s: Screen, x: int, y: int, w: int, h: int) {
    && 0 <= x && 0 <= y && 0 <= w && 0 <= h && y + h <= |s.pixels|
    && forall j :: 0 <= j < |s.pixels| ==> x + w <= |s.pixels[j]|
  }

  /** What the client is to see of a rectangle of the screen. */
  function Area(s: Screen, x: int, y: int, w: int, h: int): (img: Image)
    requires Within(s, x, y, w, h)
    ensures |img| == h && forall j :: 0 <= j < h ==> |img[j]| == w
    ensures forall j, i :: 0 <= j < h && 0 <= i < w ==> img[j][i] == s.translate(s.pixels[y + j][x + i])
  {
    seq(h, j requires 0 <= j < h => seq(w, i requires 0 <= i < w => s.translate(s.pixels[y + j][x + i])))
  }

  /** A rectangle of the screen translated into a buffer of its own. */
  method Translate(s: Screen, x: int, y: int, w: int, h: int) returns (data: array2<int>)
    requires Within(s, x, y, w, h)
    ensures fresh(data) && data.Length0 == h && data.Length1 == w
    ensures Picture(data) == Area(s, x, y, w, h)
  {
    data := new int[h, w];
    var j := 0;
    while j < h
      invariant 0 <= j <= h
      invariant forall r, k :: 0 <= r < j && 0 <= k < w ==> data[r, k] == s.translate(s.pixels[y + r][x + k])
    {
      var i := 0;
      while i < w
        invariant 0 <= i <= w
        invariant forall r, k :: 0 <= r < h && 0 <= k < w && (r < j || (r == j && k < i)) ==>
          data[r, k] == s.translate(s.pixels[y + r][x + k])
      {
        data[j, i] := s.translate(s.pixels[y + j][x + i]);
        i := i + 1;
      }
      j := j + 1;
    }
    SameImage(Picture(data), Area(s, x, y, w, h), w, h);
  }
}
