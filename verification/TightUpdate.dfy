/** Whole framebuffer updates in the Tight encoding, with the number of rectangles announced
    or with a LastRect marker at the end. */
module TightUpdate {
  import opened Basics
  import opened Bytes
  import opened BoxTally
  import opened Images
  import opened RegionForm
  import opened Rectangles
  import opened TightFormat
  import opened TightGradientFields
  import opened TightLevels
  import opened TightRect
  import opened TightSplit
  import opened TightWire
  import opened UpdateBuffer
  import Regions
  import U = FramebufferUpdate

  // ---- The client's side ----

  /** To a client that knows the LastRect marker a number of 0xFFFF stands for as many
      rectangles as there are. */
  function ReadMessage(s: seq<Byte>, f: Format, c: Codec, st: Streams, lastRect: bool): Read
    requires IsFormat(f)
  {
    if |s| < U.SZ_UPDATE_MSG || s[0] != 0 then None
    else if lastRect && Of16(s[2..4]) == 0xFFFF then DecodeUntilLast(s[U.SZ_UPDATE_MSG..], f, c, st)
    else DecodeTightList(s[U.SZ_UPDATE_MSG..], Of16(s[2..4]), f, c, st)
  }

  /** Whatever the client showed, it has at the points of each box, and at no other, what was
      on the screen when the box was sent. */
  ghost predicate TightUpdates(msg: seq<Byte>, st: Streams, shot: nat -> Screen, sw: nat, sh: nat, f: Format, c: Codec,
                               lastRect: bool, boxes: seq<Box>)
    requires IsFormat(f)
  {
    forall canvas, rest :: U.IsCanvas(canvas, sw, sh, f.n) ==> TightUpdatesOn(msg, st, shot, sw, sh, f, c, lastRect, boxes, canvas, rest)
  }

  ghost predicate TightUpdatesOn(msg: seq<Byte>, st: Streams, shot: nat -> Screen, sw: nat, sh: nat, f: Format, c: Codec,
                                 lastRect: bool, boxes: seq<Box>, canvas: Image, rest: seq<Byte>)
    requires IsFormat(f)
  {
    var r := ReadMessage(msg + rest, f, c, st, lastRect);
    r.Some? && TightRedrawn(canvas, PlaceAll(canvas, r.value.0), shot, sw, sh, f, boxes)
  }

  /** The client reads these rectangles, stops where the message ends, and has its streams
      where the encoder has them. */
  ghost predicate ReadsAs(msg: seq<Byte>, st: Streams, rs: seq<Placed>, st': Streams, f: Format, c: Codec, lastRect: bool)
    requires IsFormat(f)
  {
    forall rest :: ReadsAsOn(msg, st, rs, st', f, c, lastRect, rest)
  }

  ghost predicate ReadsAsOn(msg: seq<Byte>, st: Streams, rs: seq<Placed>, st': Streams, f: Format, c: Codec, lastRect: bool,
                            rest: seq<Byte>)
    requires IsFormat(f)
  {
    ReadMessage(msg + rest, f, c, st, lastRect) == Some((rs, st', rest))
  }

  lemma HeadRead(head: seq<Byte>, count: int, body: seq<Byte>, f: Format, c: Codec, st: Streams, lastRect: bool)
    requires IsFormat(f) && 0 <= count && U.IsHead(head, count)
    ensures ReadMessage(head + body, f, c, st, lastRect) ==
      if lastRect && count % 0x1_0000 == 0xFFFF then DecodeUntilLast(body, f, c, st)
      else DecodeTightList(body, count % 0x1_0000, f, c, st)
  {
    hide DecodeTightList;
    hide DecodeUntilLast;
    hide IsForm;
    Parts(head, body);
    assert (head + body)[2..4] == head[2..4];
    Big16RoundTrip(count % 0x1_0000);
  }

  /** What a client leaves of the marker. */
  function Unread(count: int, lastRect: bool): seq<Byte> {
    if lastRect then [] else U.Marker(count)
  }

  /** A number that is announced, or the marker at the end. A client that does not know the
      marker leaves it. */
  lemma MessageReads(head: seq<Byte>, out: seq<Byte>, rs: seq<Placed>, count: int, st: Streams, st': Streams, f: Format, c: Codec,
                     lastRect: bool, rest: seq<Byte>)
    requires IsFormat(f) && 0 <= count && U.IsHead(head, count) && TightCarries(out, rs, st, st', f, c)
    requires (count == 0xFFFF && lastRect) || (count <= 0xFFFF && |rs| == count)
    ensures ReadMessage(((head + out) + U.Marker(count)) + rest, f, c, st, lastRect) == Some((rs, st', Unread(count, lastRect) + rest))
  {
    hide DecodeTightList;
    hide DecodeUntilLast;
    hide ReadMessage;
    hide IsForm;
    hide HeaderBytes;
    hide ParseHeader;
    var last := U.Marker(count);
    Regroup(head + out, last, rest);
    Regroup(head, out, last + rest);
    HeadRead(head, count, out + (last + rest), f, c, st, lastRect);
    assert TightCarriesOn(out, rs, st, st', f, c, last + rest);
    assert [] + rest == rest;
    if lastRect && count == 0xFFFF {
      HeaderRoundTrip(0, 0, 0, 0, ENCODING_LAST_RECT, rest);
      Parts(last, rest);
      UntilLast(out + (last + rest), |rs|, f, c, st);
    }
  }

  /** A known number that does not fit: the client reads too few rectangles, or goes on past
      the end of the message for a marker that is not there. */
  lemma TooMany(head: seq<Byte>, out: seq<Byte>, rs: seq<Placed>, st: Streams, st': Streams, f: Format, c: Codec, lastRect: bool)
    requires IsFormat(f) && U.IsHead(head, |rs|) && TightCarries(out, rs, st, st', f, c) && |rs| > 0xFFFF
    ensures var r, m := ReadMessage((head + out) + [], f, c, st, lastRect), |rs| % 0x1_0000;
      if m == 0xFFFF && lastRect then r == None else r.Some? && r.value.0 == rs[..m] && r.value.2 != []
  {
    hide DecodeTightList;
    hide DecodeUntilLast;
    hide ReadMessage;
    hide IsForm;
    var nothing: seq<Byte> := [];
    assert (head + out) + nothing == head + out;
    HeadRead(head, |rs|, out, f, c, st, lastRect);
    if |rs| % 0x1_0000 == 0xFFFF && lastRect {
      assert TightCarriesOn(out, rs, st, st', f, c, nothing) && out + nothing == out;
      UntilLast(out, |rs|, f, c, st);
    } else {
      TightCarriesPrefix(out, rs, |rs| % 0x1_0000, st, st', f, c);
    }
  }

  /** Without the last rectangles the picture is not right on this canvas. */
  lemma SomethingMissing(rs: seq<Placed>, m: nat, shot: nat -> Screen, sw: nat, sh: nat, f: Format, boxes: seq<Box>)
    returns (canvas: Image)
    requires IsFormat(f) && AllShaped(rs, sw, sh) && m < |rs|
    requires forall x, y :: Mult(Where(rs), x, y) == if Covers(boxes, x, y) then 1 else 0
    ensures U.IsCanvas(canvas, sw, sh, f.n) && !TightRedrawn(canvas, PlaceAll(canvas, rs[..m]), shot, sw, sh, f, boxes)
  {
    hide IsForm;
    hide PlaceAll;
    hide Plain;
    var b := rs[m].box;
    var i, j := b.x1, b.y1;
    assert Shaped(rs[m], sw, sh);
    var c := U.NotYetSent(rs, m, sw, sh, boxes, i, j);
    var v := PixelAt(shot(c), i, j);
    var p := if f.n > 1 then Plain(v, f) else v;
    var other := if v != 0 && p != 0 then 0 else if v != 1 && p != 1 then 1 else 2;
    canvas := Solid(sw, sh, other);
    U.TwoPixels(f.n);
    PlacedOutside(canvas, rs[..m], sw, sh, i, j);
    assert !TightRedrawnAt(canvas, PlaceAll(canvas, rs[..m]), shot, sw, sh, f, boxes, i, j);
  }

  // ---- The loop over the rectangles of the region ----

  /** A box has been cut up into pieces, and the client decodes what the screen showed. */
  ghost predicate SentBox(ps: seq<Piece>, rs: seq<Placed>, s: Screen, sw: nat, sh: nat, f: Format, b: Box, e: U.Encoding)
    requires IsFormat(f) && U.Supported(e) && e.Tight? && NonEmpty(b)
  {
    && CutsUp(ps, b, s.pixels, e.conf) && Where(rs) == Boxes(ps) && AllAlike(rs, s, sw, sh, f)
    && (U.CodedRects(e, b) != 0 ==> |rs| == U.CodedRects(e, b))
  }

  /** What has been sent for the boxes so far. */
  ghost predicate SentFor(pieces: seq<seq<Piece>>, parts: seq<seq<Placed>>, shot: nat -> Screen, sw: nat, sh: nat, f: Format,
                          boxes: seq<Box>, e: U.Encoding)
    requires IsFormat(f) && U.Supported(e) && e.Tight? && U.AllNonEmpty(boxes)
  {
    && |pieces| == |parts| == |boxes|
    && forall i :: 0 <= i < |boxes| ==> SentBox(pieces[i], parts[i], shot(i), sw, sh, f, boxes[i], e)
  }

  lemma NothingSent(shot: nat -> Screen, sw: nat, sh: nat, f: Format, e: U.Encoding)
    requires IsFormat(f) && U.Supported(e) && e.Tight?
    ensures SentFor([], [], shot, sw, sh, f, [], e)
  {
  }

  lemma SentForMore(pieces: seq<seq<Piece>>, parts: seq<seq<Placed>>, ps: seq<Piece>, rs: seq<Placed>, shot: nat -> Screen,
                    sw: nat, sh: nat, f: Format, boxes: seq<Box>, b: Box, e: U.Encoding)
    requires IsFormat(f) && U.Supported(e) && e.Tight? && U.AllNonEmpty(boxes) && NonEmpty(b)
    requires SentFor(pieces, parts, shot, sw, sh, f, boxes, e) && SentBox(ps, rs, shot(|boxes|), sw, sh, f, b, e)
    ensures SentFor(pieces + [ps], parts + [rs], shot, sw, sh, f, boxes + [b], e)
  {
    hide IsForm;
    hide SentBox;
  }

  lemma SentBoxTiles(ps: seq<Piece>, rs: seq<Placed>, s: Screen, sw: nat, sh: nat, f: Format, b: Box, e: U.Encoding)
    requires IsFormat(f) && U.Supported(e) && e.Tight? && NonEmpty(b) && SentBox(ps, rs, s, sw, sh, f, b, e)
    ensures Tiling(rs, sw, sh, b) && AllAlike(rs, s, sw, sh, f)
  {
    hide IsForm;
    hide ShowsImage;
    assert forall k :: 0 <= k < |rs| ==> Alike(rs[k], s, sw, sh, f);
  }

  lemma SentForDelivers(pieces: seq<seq<Piece>>, parts: seq<seq<Placed>>, shot: nat -> Screen, sw: nat, sh: nat, f: Format,
                        boxes: seq<Box>, e: U.Encoding)
    requires IsFormat(f) && U.Supported(e) && e.Tight? && U.AllNonEmpty(boxes)
    requires SentFor(pieces, parts, shot, sw, sh, f, boxes, e)
    ensures TightDelivers(parts, shot, sw, sh, f, boxes) && Tilings(parts, sw, sh, boxes)
    ensures !U.Unknown(e, boxes) ==> |Flatten(parts)| == U.TotalRects(e, boxes)
  {
    hide IsForm;
    forall i | 0 <= i < |boxes|
      ensures Tiling(parts[i], sw, sh, boxes[i]) && AllAlike(parts[i], shot(i), sw, sh, f)
      ensures U.CodedRects(e, boxes[i]) != 0 ==> |parts[i]| == U.CodedRects(e, boxes[i])
    {
      SentBoxTiles(pieces[i], parts[i], shot(i), sw, sh, f, boxes[i], e);
    }
    if !U.Unknown(e, boxes) {
      U.CountedTotal(parts, boxes, e);
    }
  }

  /** The loop over the rectangles of the region, with the framebuffer refreshed before
      each. */
  method SendTightBoxes(coder: TightCoder, shot: nat -> Screen, sw: nat, sh: nat, boxes: seq<Box>, enableLastRect: bool, ghost e: U.Encoding)
    returns (ok: bool, ghost out: seq<Byte>, ghost pieces: seq<seq<Piece>>, ghost parts: seq<seq<Placed>>)
    requires coder.Valid() && e == U.Tight(coder.conf, enableLastRect) && (forall i :: IsScreen(shot(i), sw, sh, coder.format.n))
    requires U.Supported(e) && U.AllNonEmpty(boxes) && forall j :: 0 <= j < |boxes| ==> Rectangles.OnScreen(boxes[j], sw, sh)
    modifies coder, coder.cl, coder.cl.updateBuf, coder.before, coder.after, coder.prevRowBuf
    ensures ok ==> coder.Valid() && coder.cl.Stream() == old(coder.cl.Stream()) + out
    ensures ok ==> TightCarries(out, Flatten(parts), old(coder.past), coder.past, coder.format, coder.codec)
    ensures ok ==> SentFor(pieces, parts, shot, sw, sh, coder.format, boxes, e)
    ensures coder.cl.healthy && coder.Roomy() ==> ok
  {
    hide SentFor;
    hide CutsUp;
    hide AllAlike;
    hide TightCarries;
    hide IsScreen;
    hide IsFormat;
    hide TightCoder.Roomy;
    hide NumCodedRects;
    ok, out, pieces, parts := true, [], [], [];
    ghost var before, start := coder.cl.Stream(), coder.past;
    NothingSent(shot, sw, sh, coder.format, e);
    TightCarriesNothing(start, coder.format, coder.codec);
    assert before + [] == before;
    assert boxes[..0] == [];
    var i := 0;
    while i < |boxes|
      invariant 0 <= i <= |boxes| && coder.Valid() && ok && coder.cl.Stream() == before + out
      invariant TightCarries(out, Flatten(parts), start, coder.past, coder.format, coder.codec)
      invariant SentFor(pieces, parts, shot, sw, sh, coder.format, boxes[..i], e)
    {
      ghost var mid := coder.past;
      ghost var more, ps, rs;
      ok, more, ps, rs := SendTightBox(coder, shot(i), sw, sh, boxes[i], enableLastRect, e);
      if !ok { return; }
      Regroup(before, out, more);
      TightCarriesConcat(out, Flatten(parts), start, mid, more, rs, coder.past, coder.format, coder.codec);
      FlattenSnoc(parts, rs);
      SentForMore(pieces, parts, ps, rs, shot, sw, sh, coder.format, boxes[..i], boxes[i], e);
      assert boxes[..i] + [boxes[i]] == boxes[..i + 1];
      out, pieces, parts := out + more, pieces + [ps], parts + [rs];
      i := i + 1;
    }
    assert boxes[..i] == boxes;
  }

  /** One box, with the screen it finds. */
  method SendTightBox(coder: TightCoder, s: Screen, sw: nat, sh: nat, b: Box, enableLastRect: bool, ghost e: U.Encoding)
    returns (ok: bool, ghost out: seq<Byte>, ghost ps: seq<Piece>, ghost rs: seq<Placed>)
    requires coder.Valid() && e == U.Tight(coder.conf, enableLastRect) && IsScreen(s, sw, sh, coder.format.n)
    requires U.Supported(e) && Rectangles.OnScreen(b, sw, sh)
    modifies coder, coder.cl, coder.cl.updateBuf, coder.before, coder.after, coder.prevRowBuf
    ensures ok ==> coder.Valid() && coder.cl.Stream() == old(coder.cl.Stream()) + out
    ensures ok ==> TightCarries(out, rs, old(coder.past), coder.past, coder.format, coder.codec)
    ensures ok ==> SentBox(ps, rs, s, sw, sh, coder.format, b, e)
    ensures coder.cl.healthy && coder.Roomy() ==> ok
  {
    hide CutsUp;
    hide AllAlike;
    hide TightCarries;
    hide IsScreen;
    hide IsFormat;
    hide TightCoder.Roomy;
    hide NumCodedRects;
    out, ps, rs := [], [], [];
    var client := new TightClient(s, sw, sh, coder, enableLastRect);
    ok, ps := client.SendRectEncodingTight(b.x1, b.y1, b.x2 - b.x1, b.y2 - b.y1);
    if !ok { return; }
    assert Box(b.x1, b.y1, b.x1 + (b.x2 - b.x1), b.y1 + (b.y2 - b.y1)) == b;
    assert client.sent == [] + ps;
    rs := client.placed;
    out :| coder.cl.Stream() == client.base + out
      && TightCarries(out, rs, client.start, coder.past, coder.format, coder.codec);
  }

  // ---- The message ----

  /** The number of rectangles is unknown, or it fits the header. */
  ghost predicate Countable(e: U.Encoding, boxes: seq<Box>)
    requires U.Supported(e) && U.AllNonEmpty(boxes)
  {
    U.Unknown(e, boxes) || U.TotalRects(e, boxes) <= 0xFFFF
  }

  /** A client that does not know the marker does not get one. */
  ghost predicate Ending(e: U.Encoding, boxes: seq<Box>)
    requires U.Supported(e) && e.Tight? && U.AllNonEmpty(boxes)
  {
    Countable(e, boxes) && (!e.enableLastRect ==> U.TotalRects(e, boxes) != 0xFFFF)
  }

  lemma {:induction false} UnknownHasMarker(e: U.Encoding, boxes: seq<Box>)
    requires U.Supported(e) && e.Tight? && U.AllNonEmpty(boxes)
    ensures U.Unknown(e, boxes) ==> e.enableLastRect
  {
    if k :| 0 <= k < |boxes| && U.CodedRects(e, boxes[k]) == 0 {
      var b := boxes[k];
      CodedIsPositive(b.x2 - b.x1, b.y2 - b.y1, e.conf);
    }
  }

  lemma CodedIsPositive(w: int, h: int, c: Conf)
    requires 0 < w && 0 < h && 0 < c.maxRectWidth <= c.maxRectSize
    ensures NumCodedRects(w, h, c, false) > 0
  {
    var m := if w > c.maxRectWidth then c.maxRectWidth else w;
    AtLeastOne(c.maxRectSize, m);
    GridIsPositive(w - 1, c.maxRectWidth, h - 1, c.maxRectSize / m);
  }

  lemma GridIsPositive(a: int, m: int, b: int, k: int)
    requires 0 <= a && 0 < m && 0 <= b && 0 < k
    ensures 0 < (a / m + 1) * (b / k + 1)
  {
    MulMonotone(1, a / m + 1, b / k + 1);
  }

  /** The client's picture is right exactly when the number of rectangles is unknown or fits;
      it reads the message as it was written exactly when, besides, no marker follows that it
      does not know. */
  lemma MessageUpdates(head: seq<Byte>, out: seq<Byte>, pieces: seq<seq<Piece>>, parts: seq<seq<Placed>>, count: int,
                       st: Streams, st': Streams, shot: nat -> Screen, sw: nat, sh: nat, f: Format, c: Codec,
                       boxes: seq<Box>, e: U.Encoding)
    requires IsFormat(f) && U.Supported(e) && e.Tight? && U.AllNonEmpty(boxes) && Banded(boxes)
    requires SentFor(pieces, parts, shot, sw, sh, f, boxes, e) && TightCarries(out, Flatten(parts), st, st', f, c)
    requires 0 <= count && U.IsHead(head, count)
    requires count == if U.Unknown(e, boxes) then 0xFFFF else U.TotalRects(e, boxes)
    ensures var msg := (head + out) + U.Marker(count);
      && (TightUpdates(msg, st, shot, sw, sh, f, c, e.enableLastRect, boxes) <==> Countable(e, boxes))
      && (ReadsAs(msg, st, Flatten(parts), st', f, c, e.enableLastRect) <==> Ending(e, boxes))
  {
    hide ReadMessage;
    hide TightCarries;
    hide SentFor;
    hide TightDelivers;
    hide TightRedrawn;
    hide PlaceAll;
    hide IsForm;
    hide U.LastRectBytes;
    hide U.IsHead;
    hide U.Unknown;
    hide U.TotalRects;
    hide Tilings;
    var rs, lastRect := Flatten(parts), e.enableLastRect;
    var msg := (head + out) + U.Marker(count);
    SentForDelivers(pieces, parts, shot, sw, sh, f, boxes, e);
    UnknownHasMarker(e, boxes);
    U.MarkerLength();
    if Countable(e, boxes) {
      forall rest: seq<Byte>
        ensures ReadsAsOn(msg, st, rs, st', f, c, lastRect, rest) <==> Unread(count, lastRect) == []
      {
        MessageReads(head, out, rs, count, st, st', f, c, lastRect, rest);
        assert |Unread(count, lastRect) + rest| == |Unread(count, lastRect)| + |rest| && [] + rest == rest;
      }
      assert ReadsAsOn(msg, st, rs, st', f, c, lastRect, []) <==> Unread(count, lastRect) == [];
      forall canvas, rest: seq<Byte> | U.IsCanvas(canvas, sw, sh, f.n)
        ensures TightUpdatesOn(msg, st, shot, sw, sh, f, c, lastRect, boxes, canvas, rest)
      {
        MessageReads(head, out, rs, count, st, st', f, c, lastRect, rest);
        TightPicture(canvas, parts, shot, sw, sh, f, boxes);
      }
    } else {
      var nothing: seq<Byte> := [];
      assert msg == (head + out) + nothing && msg + nothing == msg;
      TilingsShaped(parts, sw, sh, boxes);
      SentOnce(parts, sw, sh, boxes);
      TooMany(head, out, rs, st, st', f, c, lastRect);
      var wrong := SomethingMissing(rs, |rs| % 0x1_0000, shot, sw, sh, f, boxes);
      assert !TightUpdatesOn(msg, st, shot, sw, sh, f, c, lastRect, boxes, wrong, nothing);
      assert !ReadsAsOn(msg, st, rs, st', f, c, lastRect, nothing);
    }
  }

  lemma {:induction false} CountIsNat(boxes: seq<Box>, e: U.Encoding)
    requires U.Supported(e) && e.Tight? && U.AllNonEmpty(boxes)
    ensures U.TotalRects(e, boxes) >= 0
    decreases |boxes|
  {
    if boxes != [] {
      CountIsNat(boxes[..|boxes| - 1], e);
      var b := boxes[|boxes| - 1];
      CodedIsNat(b.x2 - b.x1, b.y2 - b.y1, e.conf, e.enableLastRect);
    }
  }

  lemma CodedIsNat(w: int, h: int, c: Conf, enableLastRect: bool)
    requires 0 < w && 0 < h && 0 < c.maxRectWidth <= c.maxRectSize
    ensures NumCodedRects(w, h, c, enableLastRect) >= 0
  {
    CodedIsPositive(w, h, c);
  }

  /** rfbSendFramebufferUpdate for a client that prefers Tight: each point of the region goes
      out once, and the client ends with the screen on the region exactly when the number of
      rectangles is unknown or fits. What is read as a screen holds the region. */
  method SendFramebufferUpdate(coder: TightCoder, shot: nat -> Screen, sw: nat, sh: nat, updateRegion: Regions.Region, enableLastRect: bool)
    returns (ok: bool, ghost msg: seq<Byte>, ghost pieces: seq<seq<Piece>>, ghost parts: seq<seq<Placed>>)
    requires coder.Valid() && coder.cl.ublen == 0 && forall i :: IsScreen(shot(i), sw, sh, coder.format.n)
    requires updateRegion.Valid() && forall k :: 0 <= k < |updateRegion.Boxes()| ==> Rectangles.OnScreen(updateRegion.Boxes()[k], sw, sh)
    modifies coder, coder.cl, coder.cl.updateBuf, coder.before, coder.after, coder.prevRowBuf
    ensures ok ==> coder.Valid() && coder.cl.ublen == 0 && coder.cl.wire == old(coder.cl.wire) + msg
    ensures ok ==> var e, boxes := U.Tight(coder.conf, enableLastRect), updateRegion.Boxes();
      && SentFor(pieces, parts, shot, sw, sh, coder.format, boxes, e)
      && (TightUpdates(msg, old(coder.past), shot, sw, sh, coder.format, coder.codec, enableLastRect, boxes) <==> Countable(e, boxes))
      && (ReadsAs(msg, old(coder.past), Flatten(parts), coder.past, coder.format, coder.codec, enableLastRect) <==> Ending(e, boxes))
    ensures ok ==> forall x, y :: Mult(Where(Flatten(parts)), x, y) == if updateRegion.Has(x, y) then 1 else 0
    ensures coder.cl.healthy && coder.Roomy() ==> ok
  {
    hide IsScreen;
    hide IsFormat;
    hide TightCarries;
    hide TightUpdates;
    hide ReadsAs;
    hide U.TotalRects;
    hide U.Unknown;
    hide IsExtents;
    hide Coalesced;
    hide HeaderBytes;
    hide TightCoder.Roomy;
    hide SentFor;
    hide Banded;
    hide Covers;
    hide Countable;
    hide Ending;
    msg, pieces, parts := [], [], [];
    var cl := coder.cl;
    var boxes := updateRegion.Boxes();
    var e := U.Tight(coder.conf, enableLastRect);
    var count := U.CountRects(boxes, e);
    CountIsNat(boxes, e);
    ghost var wire, start := cl.wire, coder.past;
    var head := [0, cl.updateBuf[1]] + Big16(count % 0x1_0000);
    assert U.IsHead(head, count);
    assert cl.Stream() == wire;
    cl.Put(head);
    ghost var out;
    ok, out, pieces, parts := SendTightBoxes(coder, shot, sw, sh, boxes, enableLastRect, e);
    if !ok { return; }
    ok := U.EndMessage(cl, count);
    if !ok { return; }
    Regroup(wire, head, out);
    Regroup(wire, head + out, U.Marker(count));
    msg := (head + out) + U.Marker(count);
    MessageUpdates(head, out, pieces, parts, count, start, coder.past, shot, sw, sh, coder.format, coder.codec, boxes, e);
    SentForDelivers(pieces, parts, shot, sw, sh, coder.format, boxes, e);
    SentOnce(parts, sw, sh, boxes);
  }
}
