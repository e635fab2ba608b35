/** The rectangles of a framebuffer update on the wire, and what a client that decodes them
    has on its screen afterwards. */
module Rectangles {
  import opened BoxTally
  import opened Bytes
  import opened Images
  import opened RegionForm
  import Rre
  import HextileFormat

  const ENCODING_RAW := 0
  const ENCODING_RRE := 2
  const ENCODING_CORRE := 4
  const ENCODING_HEXTILE := 5
  const ENCODING_LAST_RECT := 0xFFFFFF20

  const SZ_RECT_HEADER := 12
  const SZ_RRE_HEADER := 4

  // ---- Format ----

  function HeaderBytes(x: int, y: int, w: int, h: int, encoding: int): (r: seq<Byte>)
    requires 0 <= x < 0x1_0000 && 0 <= y < 0x1_0000 && 0 <= w < 0x1_0000 && 0 <= h < 0x1_0000
    requires 0 <= encoding < 0x1_0000_0000
    ensures |r| == SZ_RECT_HEADER
  {
    Big16(x) + Big16(y) + Big16(w) + Big16(h) + Big32(encoding)
  }

  datatype Header = Header(x: int, y: int, w: int, h: int, encoding: int)

  function ParseHeader(s: seq<Byte>): (r: Header)
    requires |s| >= SZ_RECT_HEADER
    ensures r.x >= 0 && r.y >= 0 && r.w >= 0 && r.h >= 0
  {
    Header(Of16(s[0..2]), Of16(s[2..4]), Of16(s[4..6]), Of16(s[6..8]), Of32(s[8..12]))
  }

  lemma HeaderRoundTrip(x: int, y: int, w: int, h: int, encoding: int, rest: seq<Byte>)
    requires 0 <= x < 0x1_0000 && 0 <= y < 0x1_0000 && 0 <= w < 0x1_0000 && 0 <= h < 0x1_0000
    requires 0 <= encoding < 0x1_0000_0000
    ensures ParseHeader(HeaderBytes(x, y, w, h, encoding) + rest) == Header(x, y, w, h, encoding)
  {
    var s := HeaderBytes(x, y, w, h, encoding) + rest;
    assert s[0..2] == Big16(x) && s[2..4] == Big16(y) && s[4..6] == Big16(w) && s[6..8] == Big16(h);
    assert s[8..12] == Big32(encoding);
    Big16RoundTrip(x);
    Big16RoundTrip(y);
    Big16RoundTrip(w);
    Big16RoundTrip(h);
    Big32RoundTrip(encoding);
  }

  // ---- The client ----

  /** The pixels of one rectangle. */
  function DecodeBody(encoding: int, s: seq<Byte>, w: nat, h: nat, n: nat): Option<(Image, seq<Byte>)> {
    if encoding == ENCODING_RAW then ParseRows(s, w, h, n)
    else if encoding == ENCODING_HEXTILE then HextileFormat.Decode(s, w, h, n)
    else if encoding == ENCODING_RRE || encoding == ENCODING_CORRE then
      if |s| < SZ_RRE_HEADER then None
      else
        Rre.Decode(s[SZ_RRE_HEADER..], Of32(s[..SZ_RRE_HEADER]), w, h,
                   if encoding == ENCODING_RRE then Rre.RRE else Rre.CoRRE, n)
    else None
  }

  /** A rectangle as it has been decoded. */
  datatype Placed = Placed(img: Image, box: Box, encoding: int)

  /** k rectangles. */
  function DecodeList(s: seq<Byte>, k: nat, n: nat): Option<(seq<Placed>, seq<Byte>)>
    decreases k
  {
    if k == 0 then Some(([], s))
    else if |s| < SZ_RECT_HEADER then None
    else
      var hdr := ParseHeader(s);
      match DecodeBody(hdr.encoding, s[SZ_RECT_HEADER..], hdr.w, hdr.h, n)
      case None => None
      case Some((img, rest)) => Ahead(Placed(img, BoxOf(hdr), hdr.encoding), DecodeList(rest, k - 1, n))
  }

  function BoxOf(hdr: Header): Box {
    Box(hdr.x, hdr.y, hdr.x + hdr.w, hdr.y + hdr.h)
  }

  function Ahead(r: Placed, more: Option<(seq<Placed>, seq<Byte>)>): Option<(seq<Placed>, seq<Byte>)> {
    if more.None? then None else Some(([r] + more.value.0, more.value.1))
  }

  /** Rectangles drawn on the canvas one after the other, each where its header says. */
  function PlaceAll(canvas: Image, rs: seq<Placed>): (now: Image)
    ensures |now| == |canvas| && forall j :: 0 <= j < |canvas| ==> |now[j]| == |canvas[j]|
    decreases |rs|
  {
    if rs == [] then canvas
    else
      var r := rs[|rs| - 1];
      Place(PlaceAll(canvas, rs[..|rs| - 1]), r.img, r.box.x1, r.box.y1)
  }

  function Where(rs: seq<Placed>): (boxes: seq<Box>)
    ensures |boxes| == |rs| && forall k :: 0 <= k < |rs| ==> boxes[k] == rs[k].box
  {
    seq(|rs|, k requires 0 <= k < |rs| => rs[k].box)
  }

  // ---- The bytes of a run of rectangles ----

  /** Decoding as many rectangles as there are in rs gives rs, and leaves what follows. */
  ghost predicate Carries(out: seq<Byte>, rs: seq<Placed>, n: nat) {
    forall rest :: CarriesOn(out, rs, n, rest)
  }

  ghost predicate CarriesOn(out: seq<Byte>, rs: seq<Placed>, n: nat, rest: seq<Byte>) {
    DecodeList(out + rest, |rs|, n) == Some((rs, rest))
  }

  lemma CarriesNothing(n: nat)
    ensures Carries([], [], n)
  {
    forall rest: seq<Byte>
      ensures CarriesOn([], [], n, rest)
    {
      assert [] + rest == rest;
    }
  }

  function Append(rs: seq<Placed>, more: Option<(seq<Placed>, seq<Byte>)>): Option<(seq<Placed>, seq<Byte>)> {
    if more.None? then None else Some((rs + more.value.0, more.value.1))
  }

  /** Some rectangles and then some more. */
  lemma {:induction false} DecodeListSplit(s: seq<Byte>, k: nat, m: nat, n: nat)
    ensures DecodeList(s, k + m, n) ==
      (match DecodeList(s, k, n)
       case None => None
       case Some((rs, rest)) => Append(rs, DecodeList(rest, m, n)))
    decreases k
  {
    hide DecodeBody;
    hide ParseHeader;
    if k == 0 {
      assert forall rs: seq<Placed> :: [] + rs == rs;
    } else if |s| >= SZ_RECT_HEADER {
      var hdr := ParseHeader(s);
      match DecodeBody(hdr.encoding, s[SZ_RECT_HEADER..], hdr.w, hdr.h, n)
      case None =>
      case Some((img, rest)) =>
        DecodeListSplit(rest, k - 1, m, n);
        var r := Placed(img, BoxOf(hdr), hdr.encoding);
        match DecodeList(rest, k - 1, n)
        case None =>
        case Some((rs, rest')) =>
          match DecodeList(rest', m, n)
          case None =>
          case Some((qs, _)) => assert [r] + (rs + qs) == ([r] + rs) + qs;
    }
  }

  lemma {:induction false} DecodeListLength(s: seq<Byte>, k: nat, n: nat)
    ensures var r := DecodeList(s, k, n); r.Some? ==> |r.value.0| == k
    decreases k
  {
    hide DecodeBody;
    hide ParseHeader;
    if k > 0 && |s| >= SZ_RECT_HEADER {
      var hdr := ParseHeader(s);
      match DecodeBody(hdr.encoding, s[SZ_RECT_HEADER..], hdr.w, hdr.h, n)
      case None =>
      case Some((img, rest)) => DecodeListLength(rest, k - 1, n);
    }
  }

  /** One run of rectangles after another. */
  lemma CarriesConcat(a: seq<Byte>, ps: seq<Placed>, b: seq<Byte>, qs: seq<Placed>, n: nat)
    requires Carries(a, ps, n) && Carries(b, qs, n)
    ensures Carries(a + b, ps + qs, n)
  {
    hide DecodeList;
    var all, both := a + b, ps + qs;
    forall rest
      ensures CarriesOn(all, both, n, rest)
    {
      Regroup(a, b, rest);
      assert CarriesOn(a, ps, n, b + rest) && CarriesOn(b, qs, n, rest);
      DecodeListSplit(a + (b + rest), |ps|, |qs|, n);
      assert |both| == |ps| + |qs|;
    }
  }

  /** A client that reads fewer rectangles than there are gets the first ones, and does not
      end where they end. */
  lemma CarriesPrefix(out: seq<Byte>, rs: seq<Placed>, m: nat, n: nat, rest: seq<Byte>)
    requires Carries(out, rs, n) && m < |rs|
    ensures var r := DecodeList(out + rest, m, n);
      r.Some? && r.value.0 == rs[..m] && (rest == [] ==> r.value.1 != rest)
  {
    assert CarriesOn(out, rs, n, rest);
    DecodeListSplit(out + rest, m, |rs| - m, n);
    DecodeListLength(out + rest, m, n);
    var r := DecodeList(out + rest, m, n);
    assert Append(r.value.0, DecodeList(r.value.1, |rs| - m, n)) == Some((rs, rest));
    assert (r.value.0 + DecodeList(r.value.1, |rs| - m, n).value.0)[..m] == r.value.0;
  }

  /** A rectangle whose pixels decode. */
  lemma CarriesOne(body: seq<Byte>, encoding: int, b: Box, img: Image, sw: nat, sh: nat, n: nat)
    requires OnScreen(b, sw, sh) && sw < 0x1_0000 && sh < 0x1_0000 && 0 <= encoding < 0x1_0000_0000
    requires forall rest :: DecodeBody(encoding, body + rest, b.x2 - b.x1, b.y2 - b.y1, n) == Some((img, rest))
    ensures Carries(HeaderBytes(b.x1, b.y1, b.x2 - b.x1, b.y2 - b.y1, encoding) + body, [Placed(img, b, encoding)], n)
  {
    var w, h := b.x2 - b.x1, b.y2 - b.y1;
    var hdr := HeaderBytes(b.x1, b.y1, w, h, encoding);
    forall rest
      ensures CarriesOn(hdr + body, [Placed(img, b, encoding)], n, rest)
    {
      hide DecodeBody;
      hide ParseHeader;
      Regroup(hdr, body, rest);
      Parts(hdr, body + rest);
      HeaderRoundTrip(b.x1, b.y1, w, h, encoding, body + rest);
      assert DecodeBody(encoding, body + rest, w, h, n) == Some((img, rest));
      assert DecodeList(rest, 0, n) == Some(([], rest));
      assert [Placed(img, b, encoding)] + [] == [Placed(img, b, encoding)];
    }
  }

  // ---- What it draws ----

  /** A screen of sw by sh pixels whose translated pixels have n bytes. */
  ghost predicate IsScreen(s: Screen, sw: nat, sh: nat, n: nat) {
    && IsImage(s.pixels, sw, sh) && sw < 0x1_0000 && sh < 0x1_0000 && 1 <= n <= 4
    && forall j, i :: 0 <= j < sh && 0 <= i < sw ==> 0 <= s.translate(s.pixels[j][i]) < Range(n)
  }

  predicate OnScreen(b: Box, sw: nat, sh: nat) {
    0 <= b.x1 < b.x2 <= sw && 0 <= b.y1 < b.y2 <= sh
  }

  /** What b shows of the screen. */
  function BoxArea(s: Screen, b: Box): Image
    requires Within(s, b.x1, b.y1, b.x2 - b.x1, b.y2 - b.y1)
  {
    Area(s, b.x1, b.y1, b.x2 - b.x1, b.y2 - b.y1)
  }

  lemma AreaFits(s: Screen, sw: nat, sh: nat, n: nat, b: Box)
    requires IsScreen(s, sw, sh, n) && OnScreen(b, sw, sh)
    ensures Within(s, b.x1, b.y1, b.x2 - b.x1, b.y2 - b.y1) && PictureFits(BoxArea(s, b), n)
  {
  }

  /** A rectangle on the screen, with as many pixels as it should have. */
  ghost predicate Shaped(r: Placed, sw: nat, sh: nat) {
    OnScreen(r.box, sw, sh) && IsImage(r.img, r.box.x2 - r.box.x1, r.box.y2 - r.box.y1)
  }

  ghost predicate AllShaped(rs: seq<Placed>, sw: nat, sh: nat) {
    forall k :: 0 <= k < |rs| ==> Shaped(rs[k], sw, sh)
  }

  /** The last rectangle of a list is drawn last. */
  lemma PlacedLast(canvas: Image, rs: seq<Placed>, r: Placed, sw: nat, sh: nat, i: int, j: int)
    requires IsImage(canvas, sw, sh) && Shaped(r, sw, sh) && 0 <= i < sw && 0 <= j < sh
    ensures PlaceAll(canvas, rs + [r])[j][i] ==
      if InBox(r.box, i, j) then r.img[j - r.box.y1][i - r.box.x1] else PlaceAll(canvas, rs)[j][i]
  {
    assert (rs + [r])[..|rs|] == rs;
    assert InBox(r.box, i, j) <==>
      r.box.y1 <= j < r.box.y1 + |r.img| && r.box.x1 <= i < r.box.x1 + |r.img[j - r.box.y1]|;
  }

  /** A point outside of all rectangles keeps its pixel. */
  lemma {:induction false} PlacedOutside(canvas: Image, rs: seq<Placed>, sw: nat, sh: nat, i: int, j: int)
    requires IsImage(canvas, sw, sh) && AllShaped(rs, sw, sh) && 0 <= i < sw && 0 <= j < sh
    requires Mult(Where(rs), i, j) == 0
    ensures PlaceAll(canvas, rs)[j][i] == canvas[j][i]
    decreases |rs|
  {
    if rs != [] {
      var rs', r := rs[..|rs| - 1], rs[|rs| - 1];
      WhereSnoc(rs', r, i, j);
      assert rs == rs' + [r];
      PlacedOutside(canvas, rs', sw, sh, i, j);
      PlacedLast(canvas, rs', r, sw, sh, i, j);
    }
  }

  lemma WhereSnoc(rs: seq<Placed>, r: Placed, x: int, y: int)
    ensures Where(rs + [r]) == Where(rs) + [r.box]
    ensures Mult(Where(rs + [r]), x, y) == Mult(Where(rs), x, y) + if InBox(r.box, x, y) then 1 else 0
  {
    assert Where(rs + [r]) == Where(rs) + [r.box];
    MultSnoc(Where(rs), r.box, x, y);
  }

  lemma WhereConcat(ps: seq<Placed>, qs: seq<Placed>, x: int, y: int)
    ensures Mult(Where(ps + qs), x, y) == Mult(Where(ps), x, y) + Mult(Where(qs), x, y)
  {
    assert Where(ps + qs) == Where(ps) + Where(qs);
    MultConcat(Where(ps), Where(qs), x, y);
  }

  // ---- What is sent for the boxes of a region ----

  /** Rectangles that hold every point of b once, and no other. */
  ghost predicate Tiling(rs: seq<Placed>, sw: nat, sh: nat, b: Box) {
    AllShaped(rs, sw, sh) && forall x, y :: Mult(Where(rs), x, y) == if InBox(b, x, y) then 1 else 0
  }

  /** Box i has become the rectangles of part i. */
  ghost predicate Tilings(parts: seq<seq<Placed>>, sw: nat, sh: nat, boxes: seq<Box>) {
    |parts| == |boxes| && forall i :: 0 <= i < |boxes| ==> Tiling(parts[i], sw, sh, boxes[i])
  }

  /** All parts, one after the other. */
  function Flatten(parts: seq<seq<Placed>>): seq<Placed> {
    if parts == [] then [] else Flatten(parts[..|parts| - 1]) + parts[|parts| - 1]
  }

  lemma FlattenSnoc(parts: seq<seq<Placed>>, part: seq<Placed>)
    ensures Flatten(parts + [part]) == Flatten(parts) + part
  {
    assert (parts + [part])[..|parts|] == parts;
  }

  lemma TilingsInit(parts: seq<seq<Placed>>, sw: nat, sh: nat, boxes: seq<Box>)
    requires Tilings(parts, sw, sh, boxes) && boxes != []
    ensures Tilings(parts[..|parts| - 1], sw, sh, boxes[..|boxes| - 1])
    ensures Tiling(parts[|parts| - 1], sw, sh, boxes[|boxes| - 1])
  {
    hide Tiling;
  }

  /** Every point goes out as often as the boxes hold it. */
  lemma {:induction false} TilingsMult(parts: seq<seq<Placed>>, sw: nat, sh: nat, boxes: seq<Box>, x: int, y: int)
    requires Tilings(parts, sw, sh, boxes)
    ensures Mult(Where(Flatten(parts)), x, y) == Mult(boxes, x, y)
    decreases |boxes|
  {
    if boxes == [] {
      assert Where(Flatten(parts)) == [];
    } else {
      var l := |boxes| - 1;
      TilingsInit(parts, sw, sh, boxes);
      TilingsMult(parts[..l], sw, sh, boxes[..l], x, y);
      WhereConcat(Flatten(parts[..l]), parts[l], x, y);
    }
  }

  /** Every point of a banded list goes out once. */
  lemma SentOnce(parts: seq<seq<Placed>>, sw: nat, sh: nat, boxes: seq<Box>)
    requires Tilings(parts, sw, sh, boxes) && Banded(boxes)
    ensures forall x, y :: Mult(Where(Flatten(parts)), x, y) == if Covers(boxes, x, y) then 1 else 0
  {
    forall x, y
      ensures Mult(Where(Flatten(parts)), x, y) == if Covers(boxes, x, y) then 1 else 0
    {
      TilingsMult(parts, sw, sh, boxes, x, y);
      BandedMult(boxes, x, y);
    }
  }

  lemma {:induction false} TilingsShaped(parts: seq<seq<Placed>>, sw: nat, sh: nat, boxes: seq<Box>)
    requires Tilings(parts, sw, sh, boxes)
    ensures AllShaped(Flatten(parts), sw, sh)
    decreases |boxes|
  {
    if boxes != [] {
      TilingsInit(parts, sw, sh, boxes);
      TilingsShaped(parts[..|parts| - 1], sw, sh, boxes[..|boxes| - 1]);
    }
  }

  // ---- The picture after a whole region ----

  lemma {:induction false} PlaceAllConcat(canvas: Image, ps: seq<Placed>, qs: seq<Placed>)
    ensures PlaceAll(canvas, ps + qs) == PlaceAll(PlaceAll(canvas, ps), qs)
    decreases |qs|
  {
    if qs == [] {
      assert ps + qs == ps;
    } else {
      var qs', r := qs[..|qs| - 1], qs[|qs| - 1];
      assert (ps + qs)[..|ps + qs| - 1] == ps + qs';
      PlaceAllConcat(canvas, ps, qs');
    }
  }

  /** v is what one of the rectangles has at the point. */
  ghost predicate PixelFrom(rs: seq<Placed>, sw: nat, sh: nat, i: int, j: int, v: int)
    requires AllShaped(rs, sw, sh)
  {
    exists k :: 0 <= k < |rs| && InBox(rs[k].box, i, j) && v == PixelIn(rs[k], sw, sh, i, j)
  }

  ghost function PixelIn(r: Placed, sw: nat, sh: nat, i: int, j: int): int
    requires Shaped(r, sw, sh) && InBox(r.box, i, j)
  {
    r.img[j - r.box.y1][i - r.box.x1]
  }

  lemma {:induction false} PlacedInside(canvas: Image, rs: seq<Placed>, sw: nat, sh: nat, i: int, j: int)
    requires IsImage(canvas, sw, sh) && AllShaped(rs, sw, sh) && 0 <= i < sw && 0 <= j < sh
    requires Mult(Where(rs), i, j) > 0
    ensures PixelFrom(rs, sw, sh, i, j, PlaceAll(canvas, rs)[j][i])
    decreases |rs|
  {
    hide PixelFrom;
    hide Shaped;
    hide PlaceAll;
    hide Mult;
    LastOfAll(canvas, rs, sw, sh, i, j);
    var rs', r := rs[..|rs| - 1], rs[|rs| - 1];
    var v := PlaceAll(canvas, rs)[j][i];
    if !InBox(r.box, i, j) {
      PlacedInside(canvas, rs', sw, sh, i, j);
      assert PixelFrom(rs', sw, sh, i, j, v);
    }
    PixelFromSnoc(rs', r, sw, sh, i, j, v);
    assert rs == rs' + [r];
  }

  /** The last rectangle has the point, or those before it show it. */
  lemma LastOfAll(canvas: Image, rs: seq<Placed>, sw: nat, sh: nat, i: int, j: int)
    requires IsImage(canvas, sw, sh) && AllShaped(rs, sw, sh) && 0 <= i < sw && 0 <= j < sh
    requires Mult(Where(rs), i, j) > 0
    ensures rs != []
    ensures var rs', r := rs[..|rs| - 1], rs[|rs| - 1];
      if InBox(r.box, i, j) then PlaceAll(canvas, rs)[j][i] == PixelIn(r, sw, sh, i, j)
      else Mult(Where(rs'), i, j) > 0 && PlaceAll(canvas, rs)[j][i] == PlaceAll(canvas, rs')[j][i]
  {
    assert rs != [];
    var rs', r := rs[..|rs| - 1], rs[|rs| - 1];
    assert rs == rs' + [r];
    WhereSnoc(rs', r, i, j);
    hide Mult;
    hide PlaceAll;
    PlacedLast(canvas, rs', r, sw, sh, i, j);
  }

  lemma PixelFromSnoc(rs: seq<Placed>, r: Placed, sw: nat, sh: nat, i: int, j: int, v: int)
    requires AllShaped(rs, sw, sh) && Shaped(r, sw, sh)
    requires if InBox(r.box, i, j) then v == PixelIn(r, sw, sh, i, j) else PixelFrom(rs, sw, sh, i, j, v)
    ensures AllShaped(rs + [r], sw, sh) && PixelFrom(rs + [r], sw, sh, i, j, v)
  {
    hide Shaped;
    var all := rs + [r];
    if InBox(r.box, i, j) {
      assert all[|rs|] == r;
    } else {
      var k :| 0 <= k < |rs| && InBox(rs[k].box, i, j) && v == PixelIn(rs[k], sw, sh, i, j);
      assert all[k] == rs[k];
    }
  }

  /** What a point shows once everything is drawn: outside of the boxes what it showed
      before, in box m what a rectangle of part m has there. */
  ghost predicate DrawnAt(canvas: Image, now: Image, parts: seq<seq<Placed>>, sw: nat, sh: nat, boxes: seq<Box>, i: int, j: int)
    requires IsImage(canvas, sw, sh) && IsImage(now, sw, sh) && 0 <= j < sh && 0 <= i < sw
    requires |parts| == |boxes| && forall m :: 0 <= m < |boxes| ==> AllShaped(parts[m], sw, sh)
  {
    && (!Covers(boxes, i, j) ==> now[j][i] == canvas[j][i])
    && forall m :: 0 <= m < |boxes| && InBox(boxes[m], i, j) ==> PixelFrom(parts[m], sw, sh, i, j, now[j][i])
  }

  lemma {:induction false} TilingsPicture(canvas: Image, parts: seq<seq<Placed>>, sw: nat, sh: nat, boxes: seq<Box>, i: int, j: int)
    requires Tilings(parts, sw, sh, boxes) && Banded(boxes) && IsImage(canvas, sw, sh) && 0 <= j < sh && 0 <= i < sw
    ensures DrawnAt(canvas, PlaceAll(canvas, Flatten(parts)), parts, sw, sh, boxes, i, j)
    decreases |boxes|
  {
    hide PlaceAll;
    hide PixelFrom;
    hide Shaped;
    hide Mult;
    if boxes == [] {
      NothingPlaced(canvas);
    } else {
      var l := |boxes| - 1;
      TilingsInit(parts, sw, sh, boxes);
      TilingsPicture(canvas, parts[..l], sw, sh, boxes[..l], i, j);
      PlaceAllConcat(canvas, Flatten(parts[..l]), parts[l]);
      var mid := PlaceAll(canvas, Flatten(parts[..l]));
      LastBox(boxes, i, j);
      if InBox(boxes[l], i, j) {
        PlacedInside(mid, parts[l], sw, sh, i, j);
      } else {
        PlacedOutside(mid, parts[l], sw, sh, i, j);
      }
      assert DrawnAt(canvas, mid, parts[..l], sw, sh, boxes[..l], i, j);
    }
  }

  lemma NothingPlaced(canvas: Image)
    ensures PlaceAll(canvas, []) == canvas
  {
  }

  /** No other box of a banded list holds a point of the last one. */
  lemma LastBox(boxes: seq<Box>, i: int, j: int)
    requires Banded(boxes) && boxes != []
    ensures var l := |boxes| - 1;
      && (Covers(boxes, i, j) <==> Covers(boxes[..l], i, j) || InBox(boxes[l], i, j))
      && (InBox(boxes[l], i, j) ==> forall m :: 0 <= m < l ==> !InBox(boxes[m], i, j))
  {
    var l := |boxes| - 1;
    assert boxes == boxes[..l] + [boxes[l]];
    CoversConcat(boxes[..l], [boxes[l]], i, j);
    CoversOne(boxes[l], i, j);
    forall m | 0 <= m < l
      ensures InBox(boxes[l], i, j) ==> !InBox(boxes[m], i, j)
    {
      assert Before(boxes[m], boxes[l]);
    }
  }

  // ---- Rectangles that show the screen pixel by pixel ----

  ghost predicate Exact(r: Placed, s: Screen, sw: nat, sh: nat) {
    && Shaped(r, sw, sh) && Within(s, r.box.x1, r.box.y1, r.box.x2 - r.box.x1, r.box.y2 - r.box.y1)
    && r.img == BoxArea(s, r.box)
  }

  ghost predicate AllExact(rs: seq<Placed>, s: Screen, sw: nat, sh: nat) {
    forall k :: 0 <= k < |rs| ==> Exact(rs[k], s, sw, sh)
  }

  lemma TilesOne(s: Screen, sw: nat, sh: nat, n: nat, b: Box, encoding: int)
    requires IsScreen(s, sw, sh, n) && OnScreen(b, sw, sh)
    ensures Within(s, b.x1, b.y1, b.x2 - b.x1, b.y2 - b.y1)
    ensures var rs := [Placed(BoxArea(s, b), b, encoding)]; AllExact(rs, s, sw, sh) && Tiling(rs, sw, sh, b)
  {
    var r := Placed(BoxArea(s, b), b, encoding);
    forall x, y
      ensures Mult(Where([r]), x, y) == if InBox(b, x, y) then 1 else 0
    {
      assert [] + [r] == [r];
      WhereSnoc([], r, x, y);
    }
  }

  /** Every box is tiled with what was on the screen when its turn came. */
  ghost predicate Delivers(parts: seq<seq<Placed>>, shot: nat -> Screen, sw: nat, sh: nat, boxes: seq<Box>) {
    Tilings(parts, sw, sh, boxes) && forall i :: 0 <= i < |boxes| ==> AllExact(parts[i], shot(i), sw, sh)
  }

  lemma DeliversSnoc(parts: seq<seq<Placed>>, part: seq<Placed>, shot: nat -> Screen, sw: nat, sh: nat, boxes: seq<Box>, b: Box)
    requires Delivers(parts, shot, sw, sh, boxes) && AllExact(part, shot(|boxes|), sw, sh) && Tiling(part, sw, sh, b)
    ensures Delivers(parts + [part], shot, sw, sh, boxes + [b])
  {
    hide Tiling;
    hide AllExact;
  }

  /** The translated pixel at a point of the screen. */
  function PixelAt(s: Screen, i: int, j: int): int {
    if 0 <= j < |s.pixels| && 0 <= i < |s.pixels[j]| then s.translate(s.pixels[j][i]) else 0
  }

  /** now is the canvas with, at the points of each box, what was on the screen when its
      turn came. */
  ghost predicate Redrawn(canvas: Image, now: Image, shot: nat -> Screen, sw: nat, sh: nat, boxes: seq<Box>) {
    && IsImage(canvas, sw, sh) && IsImage(now, sw, sh)
    && forall j, i :: 0 <= j < sh && 0 <= i < sw ==> RedrawnAt(canvas, now, shot, sw, sh, boxes, i, j)
  }

  ghost predicate RedrawnAt(canvas: Image, now: Image, shot: nat -> Screen, sw: nat, sh: nat, boxes: seq<Box>, i: int, j: int)
    requires IsImage(canvas, sw, sh) && IsImage(now, sw, sh) && 0 <= j < sh && 0 <= i < sw
  {
    && (!Covers(boxes, i, j) ==> now[j][i] == canvas[j][i])
    && forall m :: 0 <= m < |boxes| && InBox(boxes[m], i, j) ==> now[j][i] == PixelAt(shot(m), i, j)
  }

  lemma ExactPixel(rs: seq<Placed>, s: Screen, sw: nat, sh: nat, i: int, j: int, v: int)
    requires AllExact(rs, s, sw, sh) && AllShaped(rs, sw, sh) && PixelFrom(rs, sw, sh, i, j, v)
    ensures v == PixelAt(s, i, j)
  {
    var k :| 0 <= k < |rs| && InBox(rs[k].box, i, j) && v == PixelIn(rs[k], sw, sh, i, j);
    assert Exact(rs[k], s, sw, sh);
  }

  /** The picture of a client that draws all that was sent. */
  lemma DeliveredPicture(canvas: Image, parts: seq<seq<Placed>>, shot: nat -> Screen, sw: nat, sh: nat, boxes: seq<Box>)
    requires Delivers(parts, shot, sw, sh, boxes) && Banded(boxes) && IsImage(canvas, sw, sh)
    ensures Redrawn(canvas, PlaceAll(canvas, Flatten(parts)), shot, sw, sh, boxes)
  {
    hide PlaceAll;
    hide PixelFrom;
    hide AllExact;
    var now := PlaceAll(canvas, Flatten(parts));
    forall j, i | 0 <= j < sh && 0 <= i < sw
      ensures RedrawnAt(canvas, now, shot, sw, sh, boxes, i, j)
    {
      TilingsPicture(canvas, parts, sw, sh, boxes, i, j);
      forall m | 0 <= m < |boxes| && InBox(boxes[m], i, j)
        ensures now[j][i] == PixelAt(shot(m), i, j)
      {
        ExactPixel(parts[m], shot(m), sw, sh, i, j, now[j][i]);
      }
    }
  }
}
