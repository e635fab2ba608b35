/** A ZRLE rectangle: tiles of at most 64 by 64 pixels, each translated into one buffer and
    encoded there. */
module ZrleRect {
  import opened Basics
  import opened Bytes
  import opened Images
  import opened Zrle
  import opened ZrleFormat

  const TILE := 64

  /** What arrives of the pixels. */
  function KeptRows(img: Image, f: Cpixel): (r: Image)
    ensures |r| == |img| && forall j :: 0 <= j < |img| ==> r[j] == AllKept(img[j], f)
  {
    seq(|img|, j requires 0 <= j < |img| => AllKept(img[j], f))
  }

  lemma {:induction false} FlatKept(img: Image, f: Cpixel)
    ensures Flat(KeptRows(img, f)) == AllKept(Flat(img), f)
    decreases |img|
  {
    hide Kept;
    if img != [] {
      FlatKept(img[1..], f);
      assert KeptRows(img, f)[1..] == KeptRows(img[1..], f);
    }
  }

  lemma KeptPart(part: Image, img: Image, x: int, y: int, f: Cpixel)
    requires PartOf(part, img, x, y)
    ensures PartOf(KeptRows(part, f), KeptRows(img, f), x, y)
  {
    hide Kept;
    var kept, all := KeptRows(part, f), KeptRows(img, f);
    forall j, i | 0 <= j < |kept| && 0 <= i < |kept[j]|
      ensures InPlace(kept, all, x, y, j, i)
    {
      assert InPlace(part, img, x, y, j, i);
    }
  }

  lemma {:induction false} FlatFits(img: Image, pixelBytes: nat)
    requires PictureFits(img, pixelBytes)
    ensures forall k :: 0 <= k < |Flat(img)| ==> 0 <= Flat(img)[k] < Range(pixelBytes)
    decreases |img|
  {
    if img != [] {
      FlatFits(img[1..], pixelBytes);
      assert PixelsFit(img[0], pixelBytes);
    }
  }

  // ---- The decoder ----

  function TileExtent(size: int, at: int): int {
    if size - at < TILE then size - at else TILE
  }

  /** The tiles of a w by h rectangle from (x, y) on, drawn on canvas. */
  function DecodeTiles(s: seq<Byte>, x: nat, y: nat, w: nat, h: nat, f: Cpixel, canvas: Image): Option<(Image, seq<Byte>)>
    decreases h - y, w - x
  {
    if y >= h then Some((canvas, s))
    else if x >= w then DecodeTiles(s, 0, y + TILE, w, h, f, canvas)
    else
      var tw, th := TileExtent(w, x), TileExtent(h, y);
      match DecodeTile(s, tw, th, f)
      case None => None
      case Some((pix, rest)) => DecodeTiles(rest, x + TILE, y, w, h, f, Place(canvas, Cut(pix, tw, th), x, y))
  }

  function Decode(s: seq<Byte>, w: nat, h: nat, f: Cpixel): Option<(Image, seq<Byte>)> {
    DecodeTiles(s, 0, 0, w, h, f, Solid(w, h, 0))
  }

  /** Reading s brings the decoder to the tile at (x, y), with the tiles before it drawn. */
  ghost predicate Leads(s: seq<Byte>, x: nat, y: nat, img: Image, w: nat, h: nat, f: Cpixel, canvas: Image) {
    && IsImage(canvas, w, h) && IsImage(img, w, h)
    && (forall rest :: Decode(s + rest, w, h, f) == DecodeTiles(rest, x, y, w, h, f, canvas))
    && forall j, i :: 0 <= j < h && 0 <= i < w && (j < y || (j < y + TILE && i < x)) ==> canvas[j][i] == img[j][i]
  }

  lemma LeadsStart(img: Image, w: nat, h: nat, f: Cpixel)
    requires IsImage(img, w, h)
    ensures Leads([], 0, 0, img, w, h, f, Solid(w, h, 0))
  {
    forall rest: seq<Byte>
      ensures Decode([] + rest, w, h, f) == DecodeTiles(rest, 0, 0, w, h, f, Solid(w, h, 0))
    {
      assert [] + rest == rest;
    }
  }

  lemma LeadsRow(s: seq<Byte>, x: nat, y: nat, img: Image, w: nat, h: nat, f: Cpixel, canvas: Image)
    requires Leads(s, x, y, img, w, h, f, canvas) && x >= w && y < h
    ensures Leads(s, 0, y + TILE, img, w, h, f, canvas)
  {
    forall rest
      ensures Decode(s + rest, w, h, f) == DecodeTiles(rest, 0, y + TILE, w, h, f, canvas)
    {
      assert DecodeTiles(rest, x, y, w, h, f, canvas) == DecodeTiles(rest, 0, y + TILE, w, h, f, canvas);
    }
  }

  lemma LeadsStep(s: seq<Byte>, x: nat, y: nat, img: Image, w: nat, h: nat, f: Cpixel, canvas: Image, out: seq<Byte>, part: Image)
    requires Leads(s, x, y, img, w, h, f, canvas) && x < w && y < h
    requires IsImage(part, TileExtent(w, x), TileExtent(h, y)) && PartOf(part, img, x, y)
    requires TileGives(out, TileExtent(w, x), TileExtent(h, y), f, Flat(part))
    ensures Leads(s + out, x + TILE, y, img, w, h, f, Place(canvas, part, x, y))
  {
    hide DecodeTile;
    var tw, th := TileExtent(w, x), TileExtent(h, y);
    var now := Place(canvas, part, x, y);
    CutFlat(part, tw, th);
    forall rest
      ensures Decode((s + out) + rest, w, h, f) == DecodeTiles(rest, x + TILE, y, w, h, f, now)
    {
      Regroup(s, out, rest);
      assert DecodeTile(out + rest, tw, th, f) == Some((Flat(part), rest));
      assert DecodeTiles(out + rest, x, y, w, h, f, canvas) == DecodeTiles(rest, x + TILE, y, w, h, f, now);
    }
    DrawnStep(x, y, img, w, h, canvas, part);
  }

  lemma DrawnStep(x: nat, y: nat, img: Image, w: nat, h: nat, canvas: Image, part: Image)
    requires IsImage(canvas, w, h) && IsImage(img, w, h) && x < w && y < h
    requires forall j, i :: 0 <= j < h && 0 <= i < w && (j < y || (j < y + TILE && i < x)) ==> canvas[j][i] == img[j][i]
    requires IsImage(part, TileExtent(w, x), TileExtent(h, y)) && PartOf(part, img, x, y)
    ensures var now := Place(canvas, part, x, y);
      forall j, i :: 0 <= j < h && 0 <= i < w && (j < y || (j < y + TILE && i < x + TILE)) ==> now[j][i] == img[j][i]
  {
    var now := Place(canvas, part, x, y);
    forall j, i | 0 <= j < h && 0 <= i < w && (j < y || (j < y + TILE && i < x + TILE))
      ensures now[j][i] == img[j][i]
    {
      if y <= j < y + |part| && x <= i < x + TileExtent(w, x) {
        assert InPlace(part, img, x, y, j - y, i - x);
      }
    }
  }

  lemma LeadsDone(s: seq<Byte>, y: nat, img: Image, w: nat, h: nat, f: Cpixel, canvas: Image)
    requires Leads(s, 0, y, img, w, h, f, canvas) && y >= h
    ensures forall rest :: Decode(s + rest, w, h, f) == Some((img, rest))
  {
    SameImage(canvas, img, w, h);
  }

  // ---- The encoder ----

  /** One row of a tile, from position p of the buffer on. */
  method TranslateRow(s: Screen, x: int, y: int, w: int, buf: array<int>, p: nat)
    requires Within(s, x, y, w, 1) && p + w <= buf.Length
    modifies buf
    ensures buf[..p + w] == old(buf[..p]) + Area(s, x, y, w, 1)[0]
  {
    ghost var row := Area(s, x, y, w, 1)[0];
    assert row[..0] == [];
    var i := 0;
    while i < w
      invariant 0 <= i <= w && buf[..p + i] == old(buf[..p]) + row[..i]
    {
      buf[p + i] := s.translate(s.pixels[y][x + i]);
      assert buf[..p + i + 1] == buf[..p + i] + [row[i]];
      assert row[..i + 1] == row[..i] + [row[i]];
      i := i + 1;
    }
    assert row[..w] == row;
  }

  /** GET_IMAGE_INTO_BUF: the pixels of a tile, row after row. */
  method TranslateInto(s: Screen, x: int, y: int, w: int, h: int, buf: array<int>)
    requires Within(s, x, y, w, h) && w * h <= buf.Length
    modifies buf
    ensures |Flat(Area(s, x, y, w, h))| == w * h && buf[..w * h] == Flat(Area(s, x, y, w, h))
  {
    hide Flat;
    ghost var img := Area(s, x, y, w, h);
    NoRowsFlat();
    var p, j := 0, 0;
    assert img[..0] == [] && buf[..0] == [];
    while j < h
      invariant 0 <= j <= h && p == j * w && p <= w * h
      invariant buf[..p] == Flat(img[..j])
    {
      RowStart(j, w, h);
      TranslateRow(s, x, y + j, w, buf, p);
      RowOf(s, x, y, w, h, j);
      FlatSnoc(img[..j], img[j]);
      p := p + w;
      j := j + 1;
    }
    assert img[..h] == img;
    FlatLength(img, w, h);
  }

  lemma NoRowsFlat()
    ensures Flat([]) == []
  {
  }

  lemma RowOf(s: Screen, x: int, y: int, w: int, h: int, j: int)
    requires Within(s, x, y, w, h) && 0 <= j < h
    ensures Within(s, x, y + j, w, 1) && Area(s, x, y + j, w, 1)[0] == Area(s, x, y, w, h)[j]
    ensures Area(s, x, y, w, h)[..j + 1] == Area(s, x, y, w, h)[..j] + [Area(s, x, y, w, h)[j]]
  {
    assert forall i :: 0 <= i < w ==> Area(s, x, y + j, w, 1)[0][i] == Area(s, x, y, w, h)[j][i];
  }

  lemma TileOf(s: Screen, rx: int, ry: int, rw: nat, rh: nat, x: nat, y: nat, pixelBytes: nat)
    requires Within(s, rx, ry, rw, rh) && x < rw && y < rh && PictureFits(Area(s, rx, ry, rw, rh), pixelBytes)
    ensures var w, h := TileExtent(rw, x), TileExtent(rh, y);
      && 1 <= w <= TILE && 1 <= h <= TILE && w * h <= TILE * TILE && w * h >= 1
      && Within(s, rx + x, ry + y, w, h) && PictureFits(Area(s, rx + x, ry + y, w, h), pixelBytes)
      && PartOf(Area(s, rx + x, ry + y, w, h), Area(s, rx, ry, rw, rh), x, y)
  {
    var w, h := TileExtent(rw, x), TileExtent(rh, y);
    MulMonotone(w, TILE, h);
    MulMonotone(1, w, h);
    var a, b := Area(s, rx + x, ry + y, w, h), Area(s, rx, ry, rw, rh);
    forall j | 0 <= j < h
      ensures PixelsFit(a[j], pixelBytes)
    {
      assert PixelsFit(b[y + j], pixelBytes);
      assert forall i :: 0 <= i < w ==> a[j][i] == b[y + j][x + i];
    }
  }

  /** The same for what arrives of a tile. */
  lemma KeptTile(s: Screen, rx: int, ry: int, rw: nat, rh: nat, x: nat, y: nat, pixelBytes: nat, f: Cpixel)
    requires Within(s, rx, ry, rw, rh) && x < rw && y < rh && PictureFits(Area(s, rx, ry, rw, rh), pixelBytes)
    ensures var w, h := TileExtent(rw, x), TileExtent(rh, y);
      && 1 <= w <= TILE && 1 <= h <= TILE && w * h <= TILE * TILE && w * h >= 1
      && Within(s, rx + x, ry + y, w, h) && PictureFits(Area(s, rx + x, ry + y, w, h), pixelBytes)
      && IsImage(KeptRows(Area(s, rx + x, ry + y, w, h), f), w, h)
      && PartOf(KeptRows(Area(s, rx + x, ry + y, w, h), f), KeptRows(Area(s, rx, ry, rw, rh), f), x, y)
  {
    hide PictureFits;
    hide PartOf;
    hide Kept;
    var w, h := TileExtent(rw, x), TileExtent(rh, y);
    TileOf(s, rx, ry, rw, rh, x, y, pixelBytes);
    KeptPart(Area(s, rx + x, ry + y, w, h), Area(s, rx, ry, rw, rh), x, y, f);
  }

  ghost predicate Underway(before: seq<Byte>, now: seq<Byte>, x: nat, y: nat, img: Image, w: nat, h: nat, f: Cpixel) {
    exists out, canvas :: now == before + out && Leads(out, x, y, img, w, h, f, canvas)
  }

  lemma UnderwayStart(before: seq<Byte>, img: Image, w: nat, h: nat, f: Cpixel)
    requires IsImage(img, w, h)
    ensures Underway(before, before, 0, 0, img, w, h, f)
  {
    LeadsStart(img, w, h, f);
    assert before == before + [];
  }

  lemma UnderwayRow(before: seq<Byte>, now: seq<Byte>, x: nat, y: nat, img: Image, w: nat, h: nat, f: Cpixel)
    requires Underway(before, now, x, y, img, w, h, f) && x >= w && y < h
    ensures Underway(before, now, 0, y + TILE, img, w, h, f)
  {
    var out, canvas :| now == before + out && Leads(out, x, y, img, w, h, f, canvas);
    LeadsRow(out, x, y, img, w, h, f, canvas);
  }

  lemma UnderwayStep(before: seq<Byte>, now: seq<Byte>, x: nat, y: nat, img: Image, w: nat, h: nat, f: Cpixel,
                     more: seq<Byte>, part: Image)
    requires Underway(before, now, x, y, img, w, h, f) && x < w && y < h
    requires IsImage(part, TileExtent(w, x), TileExtent(h, y)) && PartOf(part, img, x, y)
    requires TileGives(more, TileExtent(w, x), TileExtent(h, y), f, Flat(part))
    ensures Underway(before, now + more, x + TILE, y, img, w, h, f)
  {
    hide TileGives;
    var out, canvas :| now == before + out && Leads(out, x, y, img, w, h, f, canvas);
    LeadsStep(out, x, y, img, w, h, f, canvas, more, part);
    Regroup(before, out, more);
  }

  lemma UnderwayDone(before: seq<Byte>, now: seq<Byte>, y: nat, img: Image, w: nat, h: nat, f: Cpixel) returns (out: seq<Byte>)
    requires Underway(before, now, 0, y, img, w, h, f) && y >= h
    ensures now == before + out && forall rest :: Decode(out + rest, w, h, f) == Some((img, rest))
  {
    var canvas;
    out, canvas :| now == before + out && Leads(out, 0, y, img, w, h, f, canvas);
    LeadsDone(out, y, img, w, h, f, canvas);
  }

  /** One tile goes through the buffer. */
  method TranslateAndEncode(os: OutStream, s: Screen, x: int, y: int, w: int, h: int, pixelBytes: nat, f: Cpixel, buf: array<int>)
    returns (ghost out: seq<Byte>)
    requires Within(s, x, y, w, h) && 1 <= w && 1 <= h && 1 <= w * h < buf.Length && 1 <= pixelBytes <= 4
    requires PictureFits(Area(s, x, y, w, h), pixelBytes)
    modifies os, buf
    ensures os.bytes == old(os.bytes) + out
    ensures TileGives(out, w, h, f, Flat(KeptRows(Area(s, x, y, w, h), f)))
  {
    hide TileGives;
    hide PictureFits;
    hide Kept;
    TranslateInto(s, x, y, w, h, buf);
    ghost var part := Area(s, x, y, w, h);
    FlatFits(part, pixelBytes);
    FlatKept(part, f);
    assert forall k :: 0 <= k < w * h ==> buf[k] == Flat(part)[k];
    out := EncodeTile(os, buf, w, h, pixelBytes, f);
  }

  /** ZRLE_ENCODE. The buffer has room for the largest tile and one pixel more. What the
      client decodes is every pixel, cut to the bytes that its form sends. */
  method EncodeRect(os: OutStream, s: Screen, rx: int, ry: int, rw: int, rh: int, pixelBytes: nat, f: Cpixel, buf: array<int>)
    returns (ghost out: seq<Byte>)
    requires Within(s, rx, ry, rw, rh) && buf.Length == TILE * TILE + 1 && 1 <= pixelBytes <= 4
    requires PictureFits(Area(s, rx, ry, rw, rh), pixelBytes)
    modifies os, buf
    ensures os.bytes == old(os.bytes) + out
    ensures forall rest :: Decode(out + rest, rw, rh, f) == Some((KeptRows(Area(s, rx, ry, rw, rh), f), rest))
  {
    hide Underway;
    hide PictureFits;
    hide TileGives;
    hide PartOf;
    hide Kept;
    ghost var img, before := KeptRows(Area(s, rx, ry, rw, rh), f), os.bytes;
    UnderwayStart(before, img, rw, rh, f);
    var ty := ry;
    while ty < ry + rh
      invariant ry <= ty && Underway(before, os.bytes, 0, ty - ry, img, rw, rh, f)
    {
      var th := TILE;
      if th > ry + rh - ty { th := ry + rh - ty; }
      var tx := rx;
      while tx < rx + rw
        invariant rx <= tx && Underway(before, os.bytes, tx - rx, ty - ry, img, rw, rh, f)
      {
        var tw := TILE;
        if tw > rx + rw - tx { tw := rx + rw - tx; }
        KeptTile(s, rx, ry, rw, rh, tx - rx, ty - ry, pixelBytes, f);
        ghost var part, now := KeptRows(Area(s, tx, ty, tw, th), f), os.bytes;
        ghost var more := TranslateAndEncode(os, s, tx, ty, tw, th, pixelBytes, f, buf);
        UnderwayStep(before, now, tx - rx, ty - ry, img, rw, rh, f, more, part);
        tx := tx + TILE;
      }
      UnderwayRow(before, os.bytes, tx - rx, ty - ry, img, rw, rh, f);
      ty := ty + TILE;
    }
    out := UnderwayDone(before, os.bytes, ty - ry, img, rw, rh, f);
  }
}
