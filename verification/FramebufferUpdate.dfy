/** A whole framebuffer update message: the header that announces how many rectangles
    follow, and the rectangles. */
module FramebufferUpdate {
  import opened Basics
  import opened BoxTally
  import opened Bytes
  import opened Images
  import opened RegionForm
  import opened Rectangles
  import opened Senders
  import opened UpdateBuffer
  import Regions
  import Rre
  import TightLevels
  import TightSplit
  import ZlibLines

  /** The client's preferred encoding, with the limits that matter for the count. */
  datatype Encoding =
    | Raw
    | RRE
    | CoRRE(maxWidth: int, maxHeight: int)
    | Hextile
    | Zlib
    | ZlibHex
    | ZRLE
    | Tight(conf: TightLevels.Conf, enableLastRect: bool)

  predicate Supported(e: Encoding) {
    && (e.CoRRE? ==> 0 < e.maxWidth < 256 && 0 < e.maxHeight < 256)
    && (e.Tight? ==> 0 < e.conf.maxRectWidth <= e.conf.maxRectSize)
  }

  /** The encodings whose messages are followed down to the bytes. */
  predicate Followed(e: Encoding) {
    e.Raw? || e.RRE? || e.CoRRE? || e.Hextile?
  }

  /** The encodings that make one rectangle of every box. */
  predicate OneForOne(e: Encoding) {
    !e.CoRRE? && !e.Zlib? && !e.Tight?
  }

  const SZ_UPDATE_MSG := 4

  /** How many rectangles one box becomes; 0 when Tight does not know. */
  function CodedRects(e: Encoding, b: Box): int
    requires Supported(e) && NonEmpty(b)
  {
    match e
    case CoRRE(maxWidth, maxHeight) => CoRRERects(b.x2 - b.x1, b.y2 - b.y1, maxWidth, maxHeight)
    case Zlib => ZlibLines.ZlibRects(b.x2 - b.x1, b.y2 - b.y1)
    case Tight(conf, enableLastRect) => TightSplit.NumCodedRects(b.x2 - b.x1, b.y2 - b.y1, conf, enableLastRect)
    case _ => 1
  }

  ghost predicate AllNonEmpty(boxes: seq<Box>) {
    forall k :: 0 <= k < |boxes| ==> NonEmpty(boxes[k])
  }

  function TotalRects(e: Encoding, boxes: seq<Box>): int
    requires Supported(e) && AllNonEmpty(boxes)
    decreases |boxes|
  {
    if boxes == [] then 0 else TotalRects(e, boxes[..|boxes| - 1]) + CodedRects(e, boxes[|boxes| - 1])
  }

  /** Some box becomes a number of rectangles that is not known beforehand. */
  ghost predicate Unknown(e: Encoding, boxes: seq<Box>)
    requires Supported(e) && AllNonEmpty(boxes)
  {
    e.Tight? && exists k :: 0 <= k < |boxes| && CodedRects(e, boxes[k]) == 0
  }

  /** The client's side: section 7.6.1 of RFC 6143. */
  function DecodeMessage(s: seq<Byte>, n: nat, canvas: Image): Option<(Image, seq<Byte>)> {
    if |s| < SZ_UPDATE_MSG || s[0] != 0 then None
    else Drawn(canvas, DecodeList(s[SZ_UPDATE_MSG..], Of16(s[2..4]), n))
  }

  function Drawn(canvas: Image, r: Option<(seq<Placed>, seq<Byte>)>): Option<(Image, seq<Byte>)> {
    if r.None? then None else Some((PlaceAll(canvas, r.value.0), r.value.1))
  }

  /** The counting loops at the start of rfbSendFramebufferUpdate. */
  method CountRects(boxes: seq<Box>, e: Encoding) returns (count: int)
    requires Supported(e) && AllNonEmpty(boxes)
    ensures count == if Unknown(e, boxes) then 0xFFFF else TotalRects(e, boxes)
  {
    hide CoRRERects;
    hide ZlibLines.ZlibRects;
    hide TightSplit.NumCodedRects;
    if !OneForOne(e) {
      count := 0;
      var i := 0;
      while i < |boxes|
        invariant 0 <= i <= |boxes| && count == TotalRects(e, boxes[..i])
        invariant e.Tight? ==> forall k :: 0 <= k < i ==> CodedRects(e, boxes[k]) != 0
      {
        var w, h := boxes[i].x2 - boxes[i].x1, boxes[i].y2 - boxes[i].y1;
        assert boxes[..i + 1][..i] == boxes[..i];
        if e.CoRRE? {
          count := count + CoRRERects(w, h, e.maxWidth, e.maxHeight);
        } else if e.Zlib? {
          count := count + ZlibLines.ZlibRects(w, h);
        } else {
          var n := TightSplit.NumCodedRects(w, h, e.conf, e.enableLastRect);
          if n == 0 {
            assert CodedRects(e, boxes[i]) == 0;
            return 0xFFFF;
          }
          count := count + n;
        }
        i := i + 1;
      }
      assert boxes[..i] == boxes;
    } else {
      count := |boxes|;
      OneEach(e, boxes);
    }
  }

  lemma {:induction false} OneEach(e: Encoding, boxes: seq<Box>)
    requires Supported(e) && OneForOne(e) && AllNonEmpty(boxes)
    ensures TotalRects(e, boxes) == |boxes|
    decreases |boxes|
  {
    if boxes != [] {
      OneEach(e, boxes[..|boxes| - 1]);
    }
  }

  /** The rectangle is in an encoding that goes with the one the client prefers. */
  ghost predicate InEncoding(r: Placed, e: Encoding, n: nat) {
    && (e.Raw? ==> r.encoding == ENCODING_RAW)
    && (e.RRE? ==> AsSubrects(r, Rre.RRE, n))
    && (e.CoRRE? ==> AsSubrects(r, Rre.CoRRE, n))
    && (e.Hextile? ==> r.encoding == ENCODING_HEXTILE)
  }

  /** A box has become as many rectangles as were counted for it, in the encoding the client
      prefers. */
  ghost predicate AsAnnounced(rs: seq<Placed>, e: Encoding, b: Box, n: nat)
    requires Supported(e) && NonEmpty(b)
  {
    |rs| == CodedRects(e, b) && forall k :: 0 <= k < |rs| ==> InEncoding(rs[k], e, n)
  }

  /** One box in the client's preferred encoding. */
  method SendRect(cl: UpdateBuf, s: Screen, sw: nat, sh: nat, n: nat, b: Box, e: Encoding)
    returns (ok: bool, ghost out: seq<Byte>, ghost rs: seq<Placed>)
    requires cl.Valid() && IsScreen(s, sw, sh, n) && OnScreen(b, sw, sh) && Supported(e) && Followed(e)
    modifies cl, cl.updateBuf
    ensures cl.Valid()
    ensures ok ==> AsAnnounced(rs, e, b, n) && Sent(old(cl.Stream()), cl.Stream(), out, rs, s, sw, sh, n, b)
    ensures cl.healthy && (b.x2 - b.x1) * n <= UPDATE_BUF_SIZE ==> ok
  {
    hide IsScreen;
    hide Sent;
    match e {
      case Raw =>
        ok, out, rs := SendRectEncodingRaw(cl, s, sw, sh, n, b);
      case RRE =>
        ScreenLimits(s, sw, sh, n);
        ok, out, rs := SendSubrects(cl, s, sw, sh, n, b, Rre.RRE);
      case CoRRE(maxWidth, maxHeight) =>
        ok, out, rs := SendRectEncodingCoRRE(cl, s, sw, sh, n, b, maxWidth, maxHeight);
      case Hextile =>
        ok, out, rs := SendRectEncodingHextile(cl, s, sw, sh, n, b);
    }
  }

  /** Box i has become what the client may expect of it. */
  ghost predicate AsCounted(parts: seq<seq<Placed>>, boxes: seq<Box>, e: Encoding, n: nat)
    requires Supported(e) && AllNonEmpty(boxes)
  {
    |parts| == |boxes| && forall i :: 0 <= i < |boxes| ==> AsAnnounced(parts[i], e, boxes[i], n)
  }

  lemma {:induction false} CountedTotal(parts: seq<seq<Placed>>, boxes: seq<Box>, e: Encoding)
    requires Supported(e) && AllNonEmpty(boxes) && |parts| == |boxes|
    requires forall i :: 0 <= i < |boxes| ==> |parts[i]| == CodedRects(e, boxes[i])
    ensures |Flatten(parts)| == TotalRects(e, boxes)
    decreases |boxes|
  {
    hide CodedRects;
    if boxes != [] {
      CountedTotal(parts[..|parts| - 1], boxes[..|boxes| - 1], e);
    }
  }

  lemma AnnouncedTotal(parts: seq<seq<Placed>>, boxes: seq<Box>, e: Encoding, n: nat)
    requires Supported(e) && AllNonEmpty(boxes) && AsCounted(parts, boxes, e, n)
    ensures |Flatten(parts)| == TotalRects(e, boxes)
  {
    hide CodedRects;
    hide InEncoding;
    forall i | 0 <= i < |boxes|
      ensures |parts[i]| == CodedRects(e, boxes[i])
    {
      assert AsAnnounced(parts[i], e, boxes[i], n);
    }
    CountedTotal(parts, boxes, e);
  }

  /** What the loop over the rectangles has sent. */
  ghost predicate SentSoFar(before: seq<Byte>, now: seq<Byte>, out: seq<Byte>, parts: seq<seq<Placed>>, shot: nat -> Screen,
                            sw: nat, sh: nat, n: nat, boxes: seq<Box>, e: Encoding)
    requires Supported(e) && AllNonEmpty(boxes)
  {
    && now == before + out && Carries(out, Flatten(parts), n)
    && Delivers(parts, shot, sw, sh, boxes) && AsCounted(parts, boxes, e, n)
  }

  lemma SentStart(before: seq<Byte>, shot: nat -> Screen, sw: nat, sh: nat, n: nat, e: Encoding)
    requires Supported(e)
    ensures SentSoFar(before, before, [], [], shot, sw, sh, n, [], e)
  {
    CarriesNothing(n);
  }

  lemma SentStep(before: seq<Byte>, mid: seq<Byte>, now: seq<Byte>, out: seq<Byte>, parts: seq<seq<Placed>>, more: seq<Byte>,
                 part: seq<Placed>, shot: nat -> Screen, sw: nat, sh: nat, n: nat, boxes: seq<Box>, b: Box, e: Encoding)
    requires Supported(e) && NonEmpty(b) && AllNonEmpty(boxes)
    requires SentSoFar(before, mid, out, parts, shot, sw, sh, n, boxes, e)
    requires Sent(mid, now, more, part, shot(|boxes|), sw, sh, n, b) && AsAnnounced(part, e, b, n)
    ensures SentSoFar(before, now, out + more, parts + [part], shot, sw, sh, n, boxes + [b], e)
  {
    hide Carries;
    hide Delivers;
    hide Tiling;
    hide AllExact;
    hide CodedRects;
    Regroup(before, out, more);
    CarriesConcat(out, Flatten(parts), more, part, n);
    FlattenSnoc(parts, part);
    DeliveredTilings(parts, shot, sw, sh, boxes);
    DeliversSnoc(parts, part, shot, sw, sh, boxes, b);
  }

  lemma DeliveredTilings(parts: seq<seq<Placed>>, shot: nat -> Screen, sw: nat, sh: nat, boxes: seq<Box>)
    requires Delivers(parts, shot, sw, sh, boxes)
    ensures |parts| == |boxes| && Tilings(parts, sw, sh, boxes)
  {
  }

  /** A client's picture, of pixels of n bytes. */
  ghost predicate IsCanvas(canvas: Image, sw: nat, sh: nat, n: nat) {
    IsImage(canvas, sw, sh) && PictureFits(canvas, n)
  }

  /** A client that reads the announced number of rectangles has, at the points of each box
      and no other, what was on the screen when the box was sent. */
  ghost predicate Updates(msg: seq<Byte>, shot: nat -> Screen, sw: nat, sh: nat, n: nat, boxes: seq<Box>) {
    forall canvas, rest :: IsCanvas(canvas, sw, sh, n) ==> UpdatesOn(msg, shot, sw, sh, n, boxes, canvas, rest)
  }

  ghost predicate UpdatesOn(msg: seq<Byte>, shot: nat -> Screen, sw: nat, sh: nat, n: nat, boxes: seq<Box>, canvas: Image,
                            rest: seq<Byte>) {
    var r := DecodeMessage(msg + rest, n, canvas);
    r.Some? && Redrawn(canvas, r.value.0, shot, sw, sh, boxes)
  }

  /** Such a client also stops where the message ends. */
  ghost predicate InStep(msg: seq<Byte>, n: nat, canvas: Image) {
    forall rest :: InStepOn(msg, n, canvas, rest)
  }

  ghost predicate InStepOn(msg: seq<Byte>, n: nat, canvas: Image, rest: seq<Byte>) {
    var r := DecodeMessage(msg + rest, n, canvas);
    r.Some? && r.value.1 == rest
  }

  /** All rectangles are read. */
  ghost predicate Draws(msg: seq<Byte>, rs: seq<Placed>, n: nat) {
    forall canvas, rest :: DrawsOn(msg, rs, n, canvas, rest)
  }

  ghost predicate DrawsOn(msg: seq<Byte>, rs: seq<Placed>, n: nat, canvas: Image, rest: seq<Byte>) {
    var r := DecodeMessage(msg + rest, n, canvas);
    r.Some? && r.value.0 == PlaceAll(canvas, rs)
  }

  predicate IsHead(head: seq<Byte>, count: int)
    requires 0 <= count
  {
    |head| == SZ_UPDATE_MSG && head[0] == 0 && head[2..4] == Big16(count % 0x1_0000)
  }

  lemma Announced(head: seq<Byte>, out: seq<Byte>, last: seq<Byte>, count: int, n: nat, canvas: Image, rest: seq<Byte>)
    requires 0 <= count && IsHead(head, count)
    ensures DecodeMessage(((head + out) + last) + rest, n, canvas)
      == Drawn(canvas, DecodeList(out + (last + rest), count % 0x1_0000, n))
  {
    hide DecodeList;
    hide PlaceAll;
    Regroup(head + out, last, rest);
    Regroup(head, out, last + rest);
    Parts(head, out + (last + rest));
    assert (head + (out + (last + rest)))[2..4] == head[2..4];
    Big16RoundTrip(count % 0x1_0000);
  }

  /** A number that fits is read back: the client draws every rectangle. */
  lemma CountFits(head: seq<Byte>, out: seq<Byte>, last: seq<Byte>, rs: seq<Placed>, n: nat, canvas: Image, rest: seq<Byte>)
    requires IsHead(head, |rs|) && Carries(out, rs, n) && |rs| <= 0xFFFF
    ensures DecodeMessage(((head + out) + last) + rest, n, canvas) == Some((PlaceAll(canvas, rs), last + rest))
  {
    hide DecodeList;
    hide PlaceAll;
    Announced(head, out, last, |rs|, n, canvas, rest);
    assert CarriesOn(out, rs, n, last + rest);
  }

  /** A number that does not fit: some rectangles are left in the input. */
  lemma CountTooLarge(head: seq<Byte>, out: seq<Byte>, rs: seq<Placed>, n: nat, canvas: Image)
    requires IsHead(head, |rs|) && Carries(out, rs, n) && |rs| > 0xFFFF
    ensures var r := DecodeMessage(((head + out) + []) + [], n, canvas);
      r.Some? && r.value.0 == PlaceAll(canvas, rs[..|rs| % 0x1_0000]) && r.value.1 != []
  {
    hide DecodeList;
    hide PlaceAll;
    var nothing: seq<Byte> := [];
    Announced(head, out, nothing, |rs|, n, canvas, nothing);
    assert nothing + nothing == nothing;
    CarriesPrefix(out, rs, |rs| % 0x1_0000, n, nothing);
  }

  /** A point of rectangle m is in one of the boxes, and in none of the rectangles before. */
  lemma NotYetSent(rs: seq<Placed>, m: nat, sw: nat, sh: nat, boxes: seq<Box>, i: int, j: int) returns (c: nat)
    requires AllShaped(rs, sw, sh) && m < |rs| && InBox(rs[m].box, i, j)
    requires forall x, y :: Mult(Where(rs), x, y) == if Covers(boxes, x, y) then 1 else 0
    ensures c < |boxes| && InBox(boxes[c], i, j) && Mult(Where(rs[..m]), i, j) == 0
  {
    assert rs == rs[..m] + rs[m..];
    WhereConcat(rs[..m], rs[m..], i, j);
    BoxCovers(Where(rs[m..]), 0, i, j);
    MultCovers(Where(rs[m..]), i, j);
    c :| 0 <= c < |boxes| && InBox(boxes[c], i, j);
  }

  /** Without the last rectangles the picture is not right: on this canvas a point of the
      region keeps the wrong pixel. */
  lemma SomethingMissing(rs: seq<Placed>, m: nat, shot: nat -> Screen, sw: nat, sh: nat, n: nat, boxes: seq<Box>)
    returns (canvas: Image)
    requires AllShaped(rs, sw, sh) && m < |rs| && n > 0
    requires forall x, y :: Mult(Where(rs), x, y) == if Covers(boxes, x, y) then 1 else 0
    ensures IsCanvas(canvas, sw, sh, n) && !Redrawn(canvas, PlaceAll(canvas, rs[..m]), shot, sw, sh, boxes)
  {
    var b := rs[m].box;
    var i, j := b.x1, b.y1;
    assert Shaped(rs[m], sw, sh);
    var c := NotYetSent(rs, m, sw, sh, boxes, i, j);
    canvas := Solid(sw, sh, if PixelAt(shot(c), i, j) == 0 then 1 else 0);
    TwoPixels(n);
    var now := PlaceAll(canvas, rs[..m]);
    PlacedOutside(canvas, rs[..m], sw, sh, i, j);
    assert !RedrawnAt(canvas, now, shot, sw, sh, boxes, i, j);
  }

  lemma TwoPixels(n: nat)
    requires n > 0
    ensures Range(n) >= 256
  {
    if n > 1 {
      TwoPixels(n - 1);
    }
  }

  function LastRectBytes(): seq<Byte> {
    HeaderBytes(0, 0, 0, 0, ENCODING_LAST_RECT)
  }

  /** What follows the last rectangle. */
  function Marker(count: int): seq<Byte> {
    if count == 0xFFFF then LastRectBytes() else []
  }

  /** The picture of the client is right exactly when the number of rectangles fits the
      header, and it stops at the end of the message exactly when, besides, no marker
      follows. */
  lemma MessageUpdates(head: seq<Byte>, out: seq<Byte>, parts: seq<seq<Placed>>, shot: nat -> Screen, sw: nat, sh: nat, n: nat,
                       boxes: seq<Box>, canvas: Image)
    requires var rs := Flatten(parts); IsHead(head, |rs|) && Carries(out, rs, n)
    requires Delivers(parts, shot, sw, sh, boxes) && Banded(boxes) && n > 0
    ensures var msg, count := (head + out) + Marker(|Flatten(parts)|), |Flatten(parts)|;
      && (Updates(msg, shot, sw, sh, n, boxes) <==> count <= 0xFFFF)
      && (InStep(msg, n, canvas) <==> count < 0xFFFF)
      && (count <= 0xFFFF ==> Draws(msg, Flatten(parts), n))
  {
    hide DecodeMessage;
    hide Carries;
    hide Delivers;
    hide Redrawn;
    hide PlaceAll;
    hide LastRectBytes;
    hide IsHead;
    var rs := Flatten(parts);
    var last := Marker(|rs|);
    var msg := (head + out) + last;
    if |rs| <= 0xFFFF {
      forall canvas', rest: seq<Byte>
        ensures DrawsOn(msg, rs, n, canvas', rest)
        ensures IsCanvas(canvas', sw, sh, n) ==> UpdatesOn(msg, shot, sw, sh, n, boxes, canvas', rest)
        ensures InStepOn(msg, n, canvas', rest) <==> last + rest == rest
      {
        CountFits(head, out, last, rs, n, canvas', rest);
        if IsCanvas(canvas', sw, sh, n) {
          DeliveredPicture(canvas', parts, shot, sw, sh, boxes);
        }
      }
      MarkerLength();
      var nothing: seq<Byte> := [];
      assert InStepOn(msg, n, canvas, nothing) <==> last + nothing == nothing;
      assert |rs| < 0xFFFF ==> forall rest :: last + rest == rest;
    } else {
      DeliveredTilings(parts, shot, sw, sh, boxes);
      TilingsShaped(parts, sw, sh, boxes);
      SentOnce(parts, sw, sh, boxes);
      var wrong := SomethingMissing(rs, |rs| % 0x1_0000, shot, sw, sh, n, boxes);
      CountTooLarge(head, out, rs, n, wrong);
      CountTooLarge(head, out, rs, n, canvas);
      assert !UpdatesOn(msg, shot, sw, sh, n, boxes, wrong, []);
      assert !InStepOn(msg, n, canvas, []);
    }
  }

  lemma MarkerLength()
    ensures |LastRectBytes()| == SZ_RECT_HEADER
  {
  }

  /** rfbSendLastRectMarker. */
  method SendLastRectMarker(cl: UpdateBuf) returns (ok: bool)
    requires cl.Valid()
    modifies cl, cl.updateBuf
    ensures cl.Valid()
    ensures ok ==> cl.Stream() == old(cl.Stream()) + LastRectBytes()
    ensures cl.healthy ==> ok
  {
    ok := cl.MakeRoom(SZ_RECT_HEADER);
    if ok {
      cl.Put(HeaderBytes(0, 0, 0, 0, ENCODING_LAST_RECT));
    }
  }

  /** The marker, if the number of rectangles says so, and the last flush. */
  method EndMessage(cl: UpdateBuf, count: int) returns (ok: bool)
    requires cl.Valid()
    modifies cl, cl.updateBuf
    ensures cl.Valid()
    ensures ok ==> cl.ublen == 0 && cl.wire == old(cl.Stream()) + Marker(count)
    ensures cl.healthy ==> ok
  {
    ok := true;
    if count == 0xFFFF {
      ok := SendLastRectMarker(cl);
      if !ok { return; }
    }
    ok := cl.SendUpdateBuf();
    if ok {
      assert cl.Stream() == cl.wire;
    }
  }

  /** The loop over the rectangles of the region. The framebuffer is refreshed before each,
      so that every box has a screen of its own. */
  method SendBoxes(cl: UpdateBuf, shot: nat -> Screen, sw: nat, sh: nat, n: nat, boxes: seq<Box>, e: Encoding)
    returns (ok: bool, ghost out: seq<Byte>, ghost parts: seq<seq<Placed>>)
    requires cl.Valid() && (forall i :: IsScreen(shot(i), sw, sh, n)) && Supported(e) && Followed(e)
    requires AllNonEmpty(boxes) && forall j :: 0 <= j < |boxes| ==> OnScreen(boxes[j], sw, sh)
    modifies cl, cl.updateBuf
    ensures cl.Valid()
    ensures ok ==> SentSoFar(old(cl.Stream()), cl.Stream(), out, parts, shot, sw, sh, n, boxes, e)
    ensures cl.healthy && sw * n <= UPDATE_BUF_SIZE ==> ok
  {
    hide IsScreen;
    hide Sent;
    hide SentSoFar;
    ghost var headed := cl.Stream();
    ghost var more: seq<Byte>, part: seq<Placed> := [], [];
    ok, out, parts := true, [], [];
    SentStart(headed, shot, sw, sh, n, e);
    assert boxes[..0] == [];
    var i := 0;
    while i < |boxes|
      invariant 0 <= i <= |boxes| && cl.Valid() && ok
      invariant SentSoFar(headed, cl.Stream(), out, parts, shot, sw, sh, n, boxes[..i], e)
    {
      ghost var mid := cl.Stream();
      Narrow(boxes[i], sw, sh, n);
      ok, more, part := SendRect(cl, shot(i), sw, sh, n, boxes[i], e);
      if !ok { return; }
      SentStep(headed, mid, cl.Stream(), out, parts, more, part, shot, sw, sh, n, boxes[..i], boxes[i], e);
      assert boxes[..i] + [boxes[i]] == boxes[..i + 1];
      out, parts := out + more, parts + [part];
      i := i + 1;
    }
    assert boxes[..i] == boxes;
  }

  /** rfbSendFramebufferUpdate. Every point of the region goes out once, no other does. The
      header holds the low 16 bits of the number of rectangles, so that the client ends with
      the right picture exactly while that number fits. A number that happens to be 0xFFFF
      is taken for an unknown one, and a marker follows that the client does not expect. What
      is read as a screen of sw by sh pixels holds the region; the code does not clip it to
      the real screen. */
  method SendFramebufferUpdate(cl: UpdateBuf, shot: nat -> Screen, sw: nat, sh: nat, n: nat, updateRegion: Regions.Region, e: Encoding)
    returns (ok: bool, ghost msg: seq<Byte>, ghost parts: seq<seq<Placed>>)
    requires cl.Valid() && cl.ublen == 0 && (forall i :: IsScreen(shot(i), sw, sh, n)) && Supported(e) && Followed(e)
    requires updateRegion.Valid() && forall k :: 0 <= k < |updateRegion.Boxes()| ==> OnScreen(updateRegion.Boxes()[k], sw, sh)
    modifies cl, cl.updateBuf
    ensures cl.Valid()
    ensures ok ==> cl.ublen == 0 && cl.wire == old(cl.wire) + msg
    ensures ok ==> Delivers(parts, shot, sw, sh, updateRegion.Boxes()) && AsCounted(parts, updateRegion.Boxes(), e, n)
    ensures ok ==> forall x, y :: Mult(Where(Flatten(parts)), x, y) == if updateRegion.Has(x, y) then 1 else 0
    ensures ok ==> var count := TotalRects(e, updateRegion.Boxes());
      && (Updates(msg, shot, sw, sh, n, updateRegion.Boxes()) <==> count <= 0xFFFF)
      && (forall canvas :: InStep(msg, n, canvas) <==> count < 0xFFFF)
      && (count <= 0xFFFF ==> Draws(msg, Flatten(parts), n))
    ensures cl.healthy && sw * n <= UPDATE_BUF_SIZE ==> ok
  {
    hide IsScreen;
    hide SentSoFar;
    hide Carries;
    hide Delivers;
    hide AsCounted;
    hide TotalRects;
    hide Updates;
    hide InStep;
    hide Draws;
    hide Coalesced;
    hide IsExtents;
    hide HeaderBytes;
    hide Banded;
    hide Covers;
    msg, parts := [], [];
    var boxes := updateRegion.Boxes();
    var nUpdateRegionRects := CountRects(boxes, e);
    CountIsNat(boxes, e);
    ghost var wire := cl.wire;
    var head := [0, cl.updateBuf[1]] + Big16(nUpdateRegionRects % 0x1_0000);
    assert IsHead(head, nUpdateRegionRects);
    assert cl.Stream() == wire;
    cl.Put(head);
    ghost var out;
    ok, out, parts := SendBoxes(cl, shot, sw, sh, n, boxes, e);
    if !ok { return; }
    SentParts(wire + head, cl.Stream(), out, parts, shot, sw, sh, n, boxes, e);
    ok := EndMessage(cl, nUpdateRegionRects);
    if !ok { return; }
    Regroup(wire, head, out);
    Regroup(wire, head + out, Marker(nUpdateRegionRects));
    msg := (head + out) + Marker(nUpdateRegionRects);
    DeliveredTilings(parts, shot, sw, sh, boxes);
    SentOnce(parts, sw, sh, boxes);
    ScreenLimits(shot(0), sw, sh, n);
    forall canvas
      ensures InStep(msg, n, canvas) <==> nUpdateRegionRects < 0xFFFF
      ensures Updates(msg, shot, sw, sh, n, boxes) <==> nUpdateRegionRects <= 0xFFFF
      ensures nUpdateRegionRects <= 0xFFFF ==> Draws(msg, Flatten(parts), n)
    {
      MessageUpdates(head, out, parts, shot, sw, sh, n, boxes, canvas);
    }
    MessageUpdates(head, out, parts, shot, sw, sh, n, boxes, []);
  }

  lemma {:induction false} CountIsNat(boxes: seq<Box>, e: Encoding)
    requires Supported(e) && Followed(e) && AllNonEmpty(boxes)
    ensures TotalRects(e, boxes) >= 0
    decreases |boxes|
  {
    if boxes != [] {
      CountIsNat(boxes[..|boxes| - 1], e);
      CodedIsNat(e, boxes[|boxes| - 1]);
      hide CodedRects;
    }
  }

  lemma CodedIsNat(e: Encoding, b: Box)
    requires Supported(e) && Followed(e) && NonEmpty(b)
    ensures CodedRects(e, b) >= 0
  {
    if e.CoRRE? {
      MulMonotone(0, (b.x2 - b.x1 - 1) / e.maxWidth + 1, (b.y2 - b.y1 - 1) / e.maxHeight + 1);
    }
  }

  lemma Narrow(b: Box, sw: nat, sh: nat, n: nat)
    requires OnScreen(b, sw, sh)
    ensures (b.x2 - b.x1) * n <= sw * n
  {
    MulMonotone(b.x2 - b.x1, sw, n);
  }

  lemma SentParts(before: seq<Byte>, now: seq<Byte>, out: seq<Byte>, parts: seq<seq<Placed>>, shot: nat -> Screen,
                  sw: nat, sh: nat, n: nat, boxes: seq<Box>, e: Encoding)
    requires Supported(e) && AllNonEmpty(boxes) && SentSoFar(before, now, out, parts, shot, sw, sh, n, boxes, e)
    ensures now == before + out && Carries(out, Flatten(parts), n) && Delivers(parts, shot, sw, sh, boxes)
    ensures AsCounted(parts, boxes, e, n) && |Flatten(parts)| == TotalRects(e, boxes)
  {
    AnnouncedTotal(parts, boxes, e, n);
  }

  // ---- Regions of very many rectangles ----

  /** count boxes of one pixel, every other pixel of every other row. */
  function Dots(count: nat): seq<Box> {
    seq(count, k requires 0 <= k < count =>
      Box(2 * (k % 256), 2 * (k / 256), 2 * (k % 256) + 1, 2 * (k / 256) + 1))
  }

  /** A valid region of a screen of 512 by 512 pixels can have any number of rectangles up to
      0x10000, in every encoding. */
  lemma ManyRects(count: nat, e: Encoding)
    requires count <= 0x1_0000 && Supported(e)
    ensures Canonical(Dots(count)) && TotalRects(e, Dots(count)) == count && !Unknown(e, Dots(count))
    ensures forall k :: 0 <= k < count ==> OnScreen(Dots(count)[k], 512, 512)
  {
    DotsBanded(count);
    DotsCounted(count, e);
  }

  lemma {:induction false} DotsCounted(count: nat, e: Encoding)
    requires Supported(e)
    ensures AllNonEmpty(Dots(count)) && TotalRects(e, Dots(count)) == count && !Unknown(e, Dots(count))
    decreases count
  {
    hide CodedRects;
    forall k | 0 <= k < count
      ensures CodedRects(e, Dots(count)[k]) == 1
    {
      OnePixel(e, Dots(count)[k]);
    }
    if count > 0 {
      DotsCounted(count - 1, e);
      assert Dots(count)[..count - 1] == Dots(count - 1);
    }
  }

  lemma OnePixel(e: Encoding, b: Box)
    requires Supported(e) && b.x2 == b.x1 + 1 && b.y2 == b.y1 + 1
    ensures CodedRects(e, b) == 1
  {
    if e.CoRRE? {
      SmallCount(1, 1, e.maxWidth, e.maxHeight);
    }
  }

  lemma DotsBanded(count: nat)
    requires count <= 0x1_0000
    ensures Canonical(Dots(count)) && forall k :: 0 <= k < count ==> OnScreen(Dots(count)[k], 512, 512)
  {
    var d := Dots(count);
    forall p, q | 0 <= p < q < count
      ensures Before(d[p], d[q])
    {
      assert p / 256 <= q / 256;
      assert p / 256 == q / 256 ==> p % 256 < q % 256;
    }
    assert forall p, c :: 0 <= p < count && 0 <= c < count ==> d[p].y2 != d[c].y1;
  }
}
