/** Runs of Tight rectangles: the client decodes one after the other, with its four streams,
    and draws each where its header says. */
module TightWire {
  import opened Basics
  import opened Bytes
  import opened Images
  import opened RegionForm
  import opened Rectangles
  import opened TightGradientFields
  import opened TightFormat
  import opened TightWays
  import opened TightRect

  type Read = Option<(seq<Placed>, Streams, seq<Byte>)>

  /** k rectangles. */
  function DecodeTightList(s: seq<Byte>, k: nat, f: Format, c: Codec, st: Streams): Read
    requires IsFormat(f)
    decreases k
  {
    if k == 0 then Some(([], st, s))
    else if |s| < SZ_RECT_HEADER || ParseHeader(s).encoding != ENCODING_TIGHT then None
    else
      var hdr := ParseHeader(s);
      match DecodeRect(s[SZ_RECT_HEADER..], hdr.w, hdr.h, f, c, st)
      case None => None
      case Some((pixels, st', rest)) =>
        AheadOf(Placed(Cut(pixels, hdr.w, hdr.h), BoxOf(hdr), ENCODING_TIGHT), DecodeTightList(rest, k - 1, f, c, st'))
  }

  function AheadOf(r: Placed, more: Read): Read {
    if more.None? then None else Some(([r] + more.value.0, more.value.1, more.value.2))
  }

  /** Rectangles up to the LastRect marker. */
  function DecodeUntilLast(s: seq<Byte>, f: Format, c: Codec, st: Streams): Read
    requires IsFormat(f)
    decreases |s|
  {
    if |s| < SZ_RECT_HEADER then None
    else if ParseHeader(s).encoding == ENCODING_LAST_RECT then Some(([], st, s[SZ_RECT_HEADER..]))
    else if ParseHeader(s).encoding != ENCODING_TIGHT then None
    else
      var hdr := ParseHeader(s);
      match DecodeRect(s[SZ_RECT_HEADER..], hdr.w, hdr.h, f, c, st)
      case None => None
      case Some((pixels, st', rest)) =>
        if |rest| >= |s| then None
        else AheadOf(Placed(Cut(pixels, hdr.w, hdr.h), BoxOf(hdr), ENCODING_TIGHT), DecodeUntilLast(rest, f, c, st'))
  }

  // ---- What is left of the input ----

  lemma {:induction false} PackedRest(s: seq<Byte>, k: nat, f: Format)
    requires IsFormat(f) && f.packed.Some?
    ensures var r := ParsePacked(s, k, f.packed.value); r.Some? ==> |r.value.1| <= |s|
    decreases k
  {
    if k > 0 && |s| >= 3 {
      PackedRest(s[3..], k - 1, f);
    }
  }

  lemma {:induction false} RowRest(s: seq<Byte>, k: nat, n: nat)
    ensures var r := ParseRow(s, k, n); r.Some? ==> |r.value.1| <= |s|
    decreases k
  {
    if k > 0 && |s| >= n {
      RowRest(s[n..], k - 1, n);
    }
  }

  lemma TPixelsRest(s: seq<Byte>, k: nat, f: Format)
    requires IsFormat(f)
    ensures var r := ParseTPixels(s, k, f); r.Some? ==> |r.value.1| <= |s|
  {
    if f.packed.Some? {
      PackedRest(s, k, f);
    } else {
      RowRest(s, k, f.n);
    }
  }

  lemma DataRest(s: seq<Byte>, size: nat, id: nat, c: Codec, st: Streams)
    requires id < 4
    ensures var r := ReadData(s, size, id, c, st); r.Some? ==> |r.value.2| <= |s|
  {
  }

  /** Decoding a rectangle leaves no more than there was. */
  lemma RectRest(s: seq<Byte>, w: nat, h: nat, f: Format, c: Codec, st: Streams)
    requires IsFormat(f)
    ensures var r := DecodeRect(s, w, h, f, c, st); r.Some? ==> |r.value.2| <= |s|
  {
    hide ParseTPixels;
    hide ReadData;
    hide DecodePalette;
    hide DecodeCopy;
    hide DecodeGradient;
    if |s| > 0 {
      TPixelsRest(s[1..], 1, f);
      forall t: seq<Byte>, id: nat | id < 4
        ensures var r := DecodeCopy(t, w, h, id, f, c, st); r.Some? ==> |r.value.2| <= |t|
        ensures var r := DecodePalette(t, w, h, id, f, c, st); r.Some? ==> |r.value.2| <= |t|
        ensures var r := DecodeGradient(t, w, h, id, f, c, st); r.Some? ==> |r.value.2| <= |t|
      {
        PartsRest(t, w, h, id, f, c, st);
      }
    }
  }

  lemma PartsRest(t: seq<Byte>, w: nat, h: nat, id: nat, f: Format, c: Codec, st: Streams)
    requires IsFormat(f) && id < 4
    ensures var r := DecodeCopy(t, w, h, id, f, c, st); r.Some? ==> |r.value.2| <= |t|
    ensures var r := DecodePalette(t, w, h, id, f, c, st); r.Some? ==> |r.value.2| <= |t|
    ensures var r := DecodeGradient(t, w, h, id, f, c, st); r.Some? ==> |r.value.2| <= |t|
  {
    hide ParseTPixels;
    hide ReadData;
    hide DifferenceRows;
    hide UndoGradient;
    DataRest(t, h * w * Width(f), id, c, st);
    if |t| > 0 {
      TPixelsRest(t[1..], t[0] as int + 1, f);
      match ParseTPixels(t[1..], t[0] as int + 1, f)
      case None =>
      case Some((pal, s1)) =>
        DataRest(s1, if |pal| == 2 then h * ((w + 7) / 8) else h * w, id, c, st);
    }
  }

  /** Reading up to the marker is reading by number, if a marker follows; without one there
      is no end. */
  lemma {:induction false} UntilLast(s: seq<Byte>, k: nat, f: Format, c: Codec, st: Streams)
    requires IsFormat(f)
    ensures var r, u := DecodeTightList(s, k, f, c, st), DecodeUntilLast(s, f, c, st);
      r.Some? ==>
        if |r.value.2| < SZ_RECT_HEADER then u == None
        else ParseHeader(r.value.2).encoding == ENCODING_LAST_RECT ==>
          u == Some((r.value.0, r.value.1, r.value.2[SZ_RECT_HEADER..]))
    decreases k
  {
    hide DecodeRect;
    hide IsForm;
    hide ParseHeader;
    if k > 0 && |s| >= SZ_RECT_HEADER && ParseHeader(s).encoding == ENCODING_TIGHT {
      var hdr := ParseHeader(s);
      RectRest(s[SZ_RECT_HEADER..], hdr.w, hdr.h, f, c, st);
      match DecodeRect(s[SZ_RECT_HEADER..], hdr.w, hdr.h, f, c, st)
      case None =>
      case Some((pixels, st', rest)) =>
        UntilLast(rest, k - 1, f, c, st');
    }
  }

  // ---- The bytes of a run of rectangles ----

  /** Decoding as many rectangles as there are in rs gives rs, takes the streams from st to
      st' and leaves what follows. */
  ghost predicate TightCarries(out: seq<Byte>, rs: seq<Placed>, st: Streams, st': Streams, f: Format, c: Codec)
    requires IsFormat(f)
  {
    forall rest :: TightCarriesOn(out, rs, st, st', f, c, rest)
  }

  ghost predicate TightCarriesOn(out: seq<Byte>, rs: seq<Placed>, st: Streams, st': Streams, f: Format, c: Codec, rest: seq<Byte>)
    requires IsFormat(f)
  {
    DecodeTightList(out + rest, |rs|, f, c, st) == Some((rs, st', rest))
  }

  lemma TightCarriesNothing(st: Streams, f: Format, c: Codec)
    requires IsFormat(f)
    ensures TightCarries([], [], st, st, f, c)
  {
    forall rest: seq<Byte>
      ensures TightCarriesOn([], [], st, st, f, c, rest)
    {
      assert [] + rest == rest;
    }
  }

  function AppendTo(rs: seq<Placed>, more: Read): Read {
    if more.None? then None else Some((rs + more.value.0, more.value.1, more.value.2))
  }

  /** Some rectangles and then some more, with the streams carried on. */
  lemma {:induction false} TightListSplit(s: seq<Byte>, k: nat, m: nat, f: Format, c: Codec, st: Streams)
    requires IsFormat(f)
    ensures DecodeTightList(s, k + m, f, c, st) ==
      (match DecodeTightList(s, k, f, c, st)
       case None => None
       case Some((rs, st', rest)) => AppendTo(rs, DecodeTightList(rest, m, f, c, st')))
    decreases k
  {
    hide DecodeRect;
    hide IsForm;
    hide ParseHeader;
    if k == 0 {
      assert forall rs: seq<Placed> :: [] + rs == rs;
    } else if |s| >= SZ_RECT_HEADER && ParseHeader(s).encoding == ENCODING_TIGHT {
      var hdr := ParseHeader(s);
      match DecodeRect(s[SZ_RECT_HEADER..], hdr.w, hdr.h, f, c, st)
      case None =>
      case Some((pixels, st', rest)) =>
        TightListSplit(rest, k - 1, m, f, c, st');
        match DecodeTightList(rest, k - 1, f, c, st')
        case None =>
        case Some((rs, st'', rest')) =>
          match DecodeTightList(rest', m, f, c, st'')
          case None =>
          case Some((qs, _, _)) =>
            var r := Placed(Cut(pixels, hdr.w, hdr.h), BoxOf(hdr), ENCODING_TIGHT);
            assert [r] + (rs + qs) == ([r] + rs) + qs;
    }
  }

  lemma {:induction false} TightListLength(s: seq<Byte>, k: nat, f: Format, c: Codec, st: Streams)
    requires IsFormat(f)
    ensures var r := DecodeTightList(s, k, f, c, st); r.Some? ==> |r.value.0| == k
    decreases k
  {
    hide DecodeRect;
    hide IsForm;
    hide ParseHeader;
    if k > 0 && |s| >= SZ_RECT_HEADER && ParseHeader(s).encoding == ENCODING_TIGHT {
      var hdr := ParseHeader(s);
      match DecodeRect(s[SZ_RECT_HEADER..], hdr.w, hdr.h, f, c, st)
      case None =>
      case Some((pixels, st', rest)) => TightListLength(rest, k - 1, f, c, st');
    }
  }

  lemma TightCarriesConcat(a: seq<Byte>, ps: seq<Placed>, st: Streams, mid: Streams, b: seq<Byte>, qs: seq<Placed>, st': Streams,
                           f: Format, c: Codec)
    requires IsFormat(f) && TightCarries(a, ps, st, mid, f, c) && TightCarries(b, qs, mid, st', f, c)
    ensures TightCarries(a + b, ps + qs, st, st', f, c)
  {
    hide DecodeTightList;
    hide IsForm;
    var all, both := a + b, ps + qs;
    forall rest
      ensures TightCarriesOn(all, both, st, st', f, c, rest)
    {
      Regroup(a, b, rest);
      assert TightCarriesOn(a, ps, st, mid, f, c, b + rest) && TightCarriesOn(b, qs, mid, st', f, c, rest);
      TightListSplit(a + (b + rest), |ps|, |qs|, f, c, st);
      assert |both| == |ps| + |qs|;
    }
  }

  /** A client that reads fewer rectangles than there are gets the first ones, and does not
      end where they end. */
  lemma TightCarriesPrefix(out: seq<Byte>, rs: seq<Placed>, m: nat, st: Streams, st': Streams, f: Format, c: Codec)
    requires IsFormat(f) && TightCarries(out, rs, st, st', f, c) && m < |rs|
    ensures var r := DecodeTightList(out, m, f, c, st); r.Some? && r.value.0 == rs[..m] && r.value.2 != []
  {
    hide IsFormat;
    var nothing: seq<Byte> := [];
    assert TightCarriesOn(out, rs, st, st', f, c, nothing) && out + nothing == out;
    hide TightCarries;
    hide TightCarriesOn;
    hide DecodeTightList;
    hide AppendTo;
    TightListSplit(out, m, |rs| - m, f, c, st);
    TightListLength(out, m, f, c, st);
    var r := DecodeTightList(out, m, f, c, st);
    NoneLeft(|rs| - m, f, c, r.value.1);
    var more := DecodeTightList(r.value.2, |rs| - m, f, c, r.value.1);
    Front(r.value.0, more, rs, st', m);
  }

  lemma Front(ps: seq<Placed>, more: Read, rs: seq<Placed>, st': Streams, m: nat)
    requires AppendTo(ps, more) == Some((rs, st', [])) && |ps| == m <= |rs|
    ensures more.Some? && rs[..m] == ps
  {
    assert rs == ps + more.value.0;
  }

  lemma NoneLeft(k: nat, f: Format, c: Codec, st: Streams)
    requires IsFormat(f) && k > 0
    ensures DecodeTightList([], k, f, c, st) == None
  {
  }

  // ---- What a rectangle shows ----

  /** The pixel, or what its colours alone make. */
  ghost predicate ShowsPixel(p: int, v: int, f: Format)
    requires IsFormat(f)
  {
    p == v || (f.n > 1 && p == Plain(v, f))
  }

  ghost predicate ShowsImage(img: Image, target: Image, w: nat, h: nat, f: Format)
    requires IsFormat(f)
  {
    && IsImage(img, w, h) && IsImage(target, w, h)
    && forall j, i :: 0 <= j < h && 0 <= i < w ==> ShowsPixel(img[j][i], target[j][i], f)
  }

  lemma {:induction false} CutPlain(s: seq<int>, w: nat, h: nat, f: Format)
    requires IsFormat(f) && f.n > 1 && |s| == h * w
    ensures forall j, i :: 0 <= j < h && 0 <= i < w ==> Cut(AllPlain(s, f), w, h)[j][i] == Plain(Cut(s, w, h)[j][i], f)
    decreases h
  {
    hide Plain;
    if h > 0 {
      OneMore(h - 1, w);
      MulMonotone(0, h - 1, w);
      CutPlain(s[w..], w, h - 1, f);
      assert AllPlain(s, f)[w..] == AllPlain(s[w..], f);
    }
  }

  /** What is seen of a rectangle, cut into rows. */
  lemma SeenRows(seen: seq<int>, target: Image, w: nat, h: nat, f: Format)
    requires IsFormat(f) && IsImage(target, w, h) && Faithful(seen, Flat(target), f)
    ensures ShowsImage(Cut(seen, w, h), target, w, h, f)
  {
    hide Plain;
    FlatLength(target, w, h);
    CutFlat(target, w, h);
    if seen != Flat(target) {
      CutPlain(Flat(target), w, h, f);
    }
  }

  /** A rectangle that shows the screen, up to bits that belong to no colour. */
  ghost predicate Alike(r: Placed, s: Screen, sw: nat, sh: nat, f: Format)
    requires IsFormat(f)
  {
    && Shaped(r, sw, sh) && Within(s, r.box.x1, r.box.y1, r.box.x2 - r.box.x1, r.box.y2 - r.box.y1)
    && ShowsImage(r.img, BoxArea(s, r.box), r.box.x2 - r.box.x1, r.box.y2 - r.box.y1, f)
  }

  ghost predicate AllAlike(rs: seq<Placed>, s: Screen, sw: nat, sh: nat, f: Format)
    requires IsFormat(f)
  {
    forall k :: 0 <= k < |rs| ==> Alike(rs[k], s, sw, sh, f)
  }

  /** One more rectangle: a header and a body that decodes to what is to be seen. */
  lemma TightCarriesStep(out: seq<Byte>, rs: seq<Placed>, st0: Streams, st: Streams, body: seq<Byte>, b: Box, st': Streams,
                         seen: seq<int>, sw: nat, sh: nat, f: Format, c: Codec)
    requires IsFormat(f) && Rectangles.OnScreen(b, sw, sh) && sw < 0x1_0000 && sh < 0x1_0000
    requires TightCarries(out, rs, st0, st, f, c)
    requires RectGives(body, b.x2 - b.x1, b.y2 - b.y1, f, c, st, st', seen)
    ensures TightCarries(out + (HeaderBytes(b.x1, b.y1, b.x2 - b.x1, b.y2 - b.y1, ENCODING_TIGHT) + body),
                         rs + [Placed(Cut(seen, b.x2 - b.x1, b.y2 - b.y1), b, ENCODING_TIGHT)], st0, st', f, c)
  {
    hide DecodeTightList;
    hide TightCarries;
    hide IsForm;
    hide RectGives;
    hide HeaderBytes;
    var w, h := b.x2 - b.x1, b.y2 - b.y1;
    TightCarriesOne(body, b, st, st', seen, sw, sh, f, c);
    TightCarriesConcat(out, rs, st0, st, HeaderBytes(b.x1, b.y1, w, h, ENCODING_TIGHT) + body, [Placed(Cut(seen, w, h), b, ENCODING_TIGHT)], st', f, c);
  }

  lemma TightCarriesOne(body: seq<Byte>, b: Box, st: Streams, st': Streams, seen: seq<int>, sw: nat, sh: nat, f: Format, c: Codec)
    requires IsFormat(f) && Rectangles.OnScreen(b, sw, sh) && sw < 0x1_0000 && sh < 0x1_0000
    requires RectGives(body, b.x2 - b.x1, b.y2 - b.y1, f, c, st, st', seen)
    ensures TightCarries(HeaderBytes(b.x1, b.y1, b.x2 - b.x1, b.y2 - b.y1, ENCODING_TIGHT) + body,
                         [Placed(Cut(seen, b.x2 - b.x1, b.y2 - b.y1), b, ENCODING_TIGHT)], st, st', f, c)
  {
    hide DecodeRect;
    hide IsForm;
    hide ParseHeader;
    hide HeaderBytes;
    hide Cut;
    var w, h := b.x2 - b.x1, b.y2 - b.y1;
    var head := HeaderBytes(b.x1, b.y1, w, h, ENCODING_TIGHT);
    var one := [Placed(Cut(seen, w, h), b, ENCODING_TIGHT)];
    forall rest: seq<Byte>
      ensures TightCarriesOn(head + body, one, st, st', f, c, rest)
    {
      Regroup(head, body, rest);
      HeaderRoundTrip(b.x1, b.y1, w, h, ENCODING_TIGHT, body + rest);
      Parts(head, body + rest);
      assert DecodeRect(body + rest, w, h, f, c, st) == Some((seen, st', rest));
      assert DecodeTightList(rest, 0, f, c, st') == Some(([], st', rest));
      assert one + [] == one;
    }
  }

  lemma SeenAlike(seen: seq<int>, s: Screen, sw: nat, sh: nat, f: Format, b: Box)
    requires IsFormat(f) && IsScreen(s, sw, sh, f.n) && Rectangles.OnScreen(b, sw, sh)
    requires Within(s, b.x1, b.y1, b.x2 - b.x1, b.y2 - b.y1) && Faithful(seen, Flat(BoxArea(s, b)), f)
    ensures Alike(Placed(Cut(seen, b.x2 - b.x1, b.y2 - b.y1), b, ENCODING_TIGHT), s, sw, sh, f)
  {
    hide IsForm;
    hide ShowsPixel;
    hide Faithful;
    SeenRows(seen, BoxArea(s, b), b.x2 - b.x1, b.y2 - b.y1, f);
  }

  // ---- The picture ----

  /** Every box is tiled with what was on the screen when its turn came. */
  ghost predicate TightDelivers(parts: seq<seq<Placed>>, shot: nat -> Screen, sw: nat, sh: nat, f: Format, boxes: seq<Box>)
    requires IsFormat(f)
  {
    Tilings(parts, sw, sh, boxes) && forall i :: 0 <= i < |boxes| ==> AllAlike(parts[i], shot(i), sw, sh, f)
  }

  /** now is the canvas with, at the points of each box, what was on the screen when its
      turn came. */
  ghost predicate TightRedrawn(canvas: Image, now: Image, shot: nat -> Screen, sw: nat, sh: nat, f: Format, boxes: seq<Box>)
    requires IsFormat(f)
  {
    && IsImage(canvas, sw, sh) && IsImage(now, sw, sh)
    && forall j, i :: 0 <= j < sh && 0 <= i < sw ==> TightRedrawnAt(canvas, now, shot, sw, sh, f, boxes, i, j)
  }

  ghost predicate TightRedrawnAt(canvas: Image, now: Image, shot: nat -> Screen, sw: nat, sh: nat, f: Format, boxes: seq<Box>,
                                 i: int, j: int)
    requires IsFormat(f) && IsImage(canvas, sw, sh) && IsImage(now, sw, sh) && 0 <= j < sh && 0 <= i < sw
  {
    && (!Covers(boxes, i, j) ==> now[j][i] == canvas[j][i])
    && forall m :: 0 <= m < |boxes| && InBox(boxes[m], i, j) ==> ShowsPixel(now[j][i], PixelAt(shot(m), i, j), f)
  }

  lemma AlikePixel(rs: seq<Placed>, s: Screen, sw: nat, sh: nat, f: Format, i: int, j: int, v: int)
    requires IsFormat(f) && AllAlike(rs, s, sw, sh, f) && AllShaped(rs, sw, sh) && PixelFrom(rs, sw, sh, i, j, v)
    ensures ShowsPixel(v, PixelAt(s, i, j), f)
  {
    hide IsForm;
    hide ShowsPixel;
    var k :| 0 <= k < |rs| && InBox(rs[k].box, i, j) && v == PixelIn(rs[k], sw, sh, i, j);
    assert Alike(rs[k], s, sw, sh, f);
  }

  /** The picture of a client that draws all that was sent. */
  lemma TightPicture(canvas: Image, parts: seq<seq<Placed>>, shot: nat -> Screen, sw: nat, sh: nat, f: Format, boxes: seq<Box>)
    requires IsFormat(f) && TightDelivers(parts, shot, sw, sh, f, boxes) && Banded(boxes) && IsImage(canvas, sw, sh)
    ensures TightRedrawn(canvas, PlaceAll(canvas, Flatten(parts)), shot, sw, sh, f, boxes)
  {
    hide PlaceAll;
    hide PixelFrom;
    hide AllAlike;
    hide IsForm;
    hide ShowsPixel;
    var now := PlaceAll(canvas, Flatten(parts));
    forall j, i | 0 <= j < sh && 0 <= i < sw
      ensures TightRedrawnAt(canvas, now, shot, sw, sh, f, boxes, i, j)
    {
      TilingsPicture(canvas, parts, sw, sh, boxes, i, j);
      forall m | 0 <= m < |boxes| && InBox(boxes[m], i, j)
        ensures ShowsPixel(now[j][i], PixelAt(shot(m), i, j), f)
      {
        AlikePixel(parts[m], shot(m), sw, sh, f, i, j, now[j][i]);
      }
    }
  }
}
