/** The rectangle senders: Raw, RRE, CoRRE with its recursive split, and Hextile. What each
    adds to the stream draws its rectangle on any client. */
module Senders {
  import opened Basics
  import opened BoxTally
  import opened Bytes
  import opened Images
  import opened RegionForm
  import opened Rectangles
  import opened Subrects
  import opened UpdateBuffer
  import TileColours
  import Rre
  import Hextile
  import HextileFormat

  // ---- getBgColour ----

  ghost function Prevalence(img: Image, w: nat, h: nat, c: int): int
    requires IsImage(img, w, h)
  {
    |TileColours.Seen(img, w, h, h, 0, c)|
  }

  ghost predicate Tallied(img: Image, w: nat, h: nat, j: nat, i: nat, counts: seq<int>, maxcount: int, maxclr: int) {
    && IsImage(img, w, h) && |counts| == 256 && 0 <= maxclr < 256
    && (forall k :: 0 <= k < 256 ==> counts[k] == |TileColours.Seen(img, w, h, j, i, k)|)
    && (forall k :: 0 <= k < 256 ==> counts[k] <= maxcount) && counts[maxclr] == maxcount
    && (maxcount > 0 ==> TileColours.Occurs(img, w, h, maxclr)) && (j > 0 || i > 0 ==> maxcount > 0)
  }

  lemma TalliedStart(img: Image, w: nat, h: nat, counts: seq<int>)
    requires IsImage(img, w, h) && |counts| == 256 && forall k :: 0 <= k < 256 ==> counts[k] == 0
    ensures Tallied(img, w, h, 0, 0, counts, 0, 0)
  {
    forall k | 0 <= k < 256
      ensures TileColours.Seen(img, w, h, 0, 0, k) == {}
    {
      TileColours.SeenNone(img, w, h, 0, 0, k);
    }
  }

  lemma TalliedStep(img: Image, w: nat, h: nat, j: nat, i: nat, counts: seq<int>, maxcount: int, maxclr: int)
    requires Tallied(img, w, h, j, i, counts, maxcount, maxclr) && j < h && i < w && 0 <= img[j][i] < 256
    ensures var k := img[j][i];
      var counts' := counts[k := counts[k] + 1];
      if counts'[k] > maxcount then Tallied(img, w, h, j, i + 1, counts', counts'[k], k)
      else Tallied(img, w, h, j, i + 1, counts', maxcount, maxclr)
  {
    forall k | 0 <= k < 256
      ensures |TileColours.Seen(img, w, h, j, i + 1, k)|
        == |TileColours.Seen(img, w, h, j, i, k)| + if img[j][i] == k then 1 else 0
    {
      TileColours.SeenStep(img, w, h, j, i, k);
    }
  }

  lemma TalliedRow(img: Image, w: nat, h: nat, j: nat, counts: seq<int>, maxcount: int, maxclr: int)
    requires Tallied(img, w, h, j, w, counts, maxcount, maxclr) && j < h && w > 0
    ensures Tallied(img, w, h, j + 1, 0, counts, maxcount, maxclr)
  {
    forall k | 0 <= k < 256
      ensures TileColours.Seen(img, w, h, j, w, k) == TileColours.Seen(img, w, h, j + 1, 0, k)
    {
    }
  }

  lemma TalliedDone(img: Image, w: nat, h: nat, counts: seq<int>, maxcount: int, maxclr: int)
    requires Tallied(img, w, h, h, 0, counts, maxcount, maxclr) && h > 0
    requires forall j, i :: 0 <= j < h && 0 <= i < w ==> 0 <= img[j][i] < 256
    ensures TileColours.Occurs(img, w, h, maxclr)
    ensures forall c :: Prevalence(img, w, h, c) <= Prevalence(img, w, h, maxclr)
  {
    forall c
      ensures Prevalence(img, w, h, c) <= maxcount
    {
      if 0 <= c < 256 {
        assert counts[c] == Prevalence(img, w, h, c);
      } else {
        TileColours.SeenNone(img, w, h, h, 0, c);
      }
    }
  }

  /** The most prevalent colour of pixels of one byte, else the first pixel. */
  method GetBgColour(data: array2<int>, n: nat) returns (bg: int)
    requires data.Length0 > 0 && data.Length1 > 0 && PictureFits(Picture(data), n)
    ensures TileColours.Occurs(Picture(data), data.Length1, data.Length0, bg)
    ensures n != 1 ==> bg == data[0, 0]
    ensures n == 1 ==> forall c ::
      Prevalence(Picture(data), data.Length1, data.Length0, c) <= Prevalence(Picture(data), data.Length1, data.Length0, bg)
  {
    hide Tallied;
    var w, h := data.Length1, data.Length0;
    ghost var img := Picture(data);
    if n != 1 {
      assert img[0][0] == data[0, 0];
      return data[0, 0];
    }
    OneByte(img, w, h);
    var counts := new int[256](_ => 0);
    var maxcount, maxclr := 0, 0;
    TalliedStart(img, w, h, counts[..]);
    var j := 0;
    while j < h
      invariant 0 <= j <= h && Tallied(img, w, h, j, 0, counts[..], maxcount, maxclr)
    {
      var i := 0;
      while i < w
        invariant 0 <= i <= w && Tallied(img, w, h, j, i, counts[..], maxcount, maxclr)
      {
        var k := data[j, i];
        assert k == img[j][i];
        TalliedStep(img, w, h, j, i, counts[..], maxcount, maxclr);
        ghost var was := counts[..];
        counts[k] := counts[k] + 1;
        assert counts[..] == was[k := was[k] + 1];
        if counts[k] > maxcount {
          maxcount := counts[k];
          maxclr := k;
        }
        i := i + 1;
      }
      TalliedRow(img, w, h, j, counts[..], maxcount, maxclr);
      j := j + 1;
    }
    TalliedDone(img, w, h, counts[..], maxcount, maxclr);
    bg := maxclr;
  }

  lemma OneByte(img: Image, w: nat, h: nat)
    requires IsImage(img, w, h) && PictureFits(img, 1)
    ensures forall j, i :: 0 <= j < h && 0 <= i < w ==> 0 <= img[j][i] < 256
  {
    assert Range(1) == 256 * Range(0);
    forall j, i | 0 <= j < h && 0 <= i < w
      ensures 0 <= img[j][i] < 256
    {
      assert PixelsFit(img[j], 1);
    }
  }

  // ---- Raw ----

  /** The rows from y to y + k, and the rest after them. */
  lemma AreaRows(s: Screen, x: int, y: int, w: nat, k: nat, h: nat, n: nat)
    requires k <= h && Within(s, x, y, w, h)
    ensures Area(s, x, y, w, h) == Area(s, x, y, w, k) + Area(s, x, y + k, w, h - k)
    ensures RowsBytes(Area(s, x, y, w, h), n) == RowsBytes(Area(s, x, y, w, k), n) + RowsBytes(Area(s, x, y + k, w, h - k), n)
  {
    var a, b, c := Area(s, x, y, w, h), Area(s, x, y, w, k), Area(s, x, y + k, w, h - k);
    forall j | 0 <= j < h
      ensures a[j] == (b + c)[j]
    {
      assert forall i :: 0 <= i < w ==> a[j][i] == (b + c)[j][i];
    }
    RowsBytesConcat(b, c, n);
  }

  /** The translation of k lines of the rectangle into the buffer. */
  method TranslateInto(cl: UpdateBuf, s: Screen, x: int, y: int, w: int, k: int, n: nat)
    requires cl.Valid() && Within(s, x, y, w, k) && cl.ublen + k * (w * n) <= UPDATE_BUF_SIZE
    modifies cl`ublen, cl.updateBuf
    ensures cl.Valid() && cl.ublen == old(cl.ublen) + k * (w * n)
    ensures cl.Stream() == old(cl.Stream()) + RowsBytes(Area(s, x, y, w, k), n)
  {
    var data := Translate(s, x, y, w, k);
    var rows := Picture(data);
    RowsBytesLength(rows, w, n);
    cl.Put(RowsBytes(rows, n));
  }

  /** The header of a rectangle. */
  method PutHeader(cl: UpdateBuf, b: Box, sw: nat, sh: nat, encoding: int)
    requires cl.Valid() && OnScreen(b, sw, sh) && sw < 0x1_0000 && sh < 0x1_0000 && 0 <= encoding < 0x1_0000_0000
    requires cl.ublen + SZ_RECT_HEADER <= UPDATE_BUF_SIZE
    modifies cl`ublen, cl.updateBuf
    ensures cl.Valid() && cl.ublen == old(cl.ublen) + SZ_RECT_HEADER
    ensures cl.Stream() == old(cl.Stream()) + HeaderBytes(b.x1, b.y1, b.x2 - b.x1, b.y2 - b.y1, encoding)
  {
    cl.Put(HeaderBytes(b.x1, b.y1, b.x2 - b.x1, b.y2 - b.y1, encoding));
  }

  /** The loop of rfbSendRectEncodingRaw: as many lines as fit, then a flush. It gives up on
      a client whose lines are longer than the whole buffer. */
  method SendRawLines(cl: UpdateBuf, s: Screen, x: int, y: int, w: int, h: int, n: nat) returns (ok: bool)
    requires cl.Valid() && 0 < w && 0 < h && 0 < n && Within(s, x, y, w, h)
    modifies cl, cl.updateBuf
    ensures cl.Valid()
    ensures ok ==> cl.Stream() == old(cl.Stream()) + RowsBytes(Area(s, x, y, w, h), n)
    ensures if w * n > UPDATE_BUF_SIZE then !ok else cl.healthy ==> ok
  {
    hide RowsBytes;
    var bytesPerLine := w * n;
    assert bytesPerLine > 0;
    ghost var before := cl.Stream();
    var left, at := h, y;
    var nlines := (UPDATE_BUF_SIZE - cl.ublen) / bytesPerLine;
    LinesFit(UPDATE_BUF_SIZE - cl.ublen, bytesPerLine);
    NoRows(s, x, y, w, n, before);
    while true
      invariant cl.Valid() && 0 < left <= h && at == y + h - left && 0 <= nlines
      invariant cl.ublen + nlines * bytesPerLine <= UPDATE_BUF_SIZE
      invariant cl.Stream() == before + RowsBytes(Area(s, x, y, w, h - left), n)
      invariant left < h ==> nlines > 0
      invariant nlines > 0 ==> bytesPerLine <= UPDATE_BUF_SIZE
      decreases left, if nlines == 0 then 1 else 0
    {
      if nlines > left {
        MulMonotone(left, nlines, bytesPerLine);
        nlines := left;
      }
      TranslateInto(cl, s, x, at, w, nlines, n);
      MoreRows(s, x, y, w, h - left, nlines, h, n, before);
      left := left - nlines;
      if left == 0 { return true; }
      ok := cl.SendUpdateBuf();
      if !ok { return; }
      at := at + nlines;
      nlines := (UPDATE_BUF_SIZE - cl.ublen) / bytesPerLine;
      LinesFit(UPDATE_BUF_SIZE - cl.ublen, bytesPerLine);
      if nlines == 0 { return false; }
    }
  }

  lemma LinesFit(room: nat, line: nat)
    requires line > 0
    ensures 0 <= room / line && (room / line) * line <= room
    ensures room / line == 0 <==> room < line
  {
  }

  lemma NoRows(s: Screen, x: int, y: int, w: int, n: nat, before: seq<Byte>)
    requires 0 <= w && Within(s, x, y, w, 0)
    ensures before == before + RowsBytes(Area(s, x, y, w, 0), n)
  {
  }

  lemma MoreRows(s: Screen, x: int, y: int, w: int, k: int, m: int, h: int, n: nat, before: seq<Byte>)
    requires 0 <= k && 0 <= m && k + m <= h && 0 <= w && Within(s, x, y, w, h)
    ensures (before + RowsBytes(Area(s, x, y, w, k), n)) + RowsBytes(Area(s, x, y + k, w, m), n)
      == before + RowsBytes(Area(s, x, y, w, k + m), n)
  {
    AreaRows(s, x, y, w, k, k + m, n);
    Regroup(before, RowsBytes(Area(s, x, y, w, k), n), RowsBytes(Area(s, x, y + k, w, m), n));
  }

  /** What a sender promises: rectangles that tile the box with what is on the screen. */
  ghost predicate Sent(before: seq<Byte>, now: seq<Byte>, out: seq<Byte>, rs: seq<Placed>, s: Screen, sw: nat, sh: nat, n: nat, b: Box) {
    now == before + out && Carries(out, rs, n) && AllExact(rs, s, sw, sh) && Tiling(rs, sw, sh, b)
  }

  /** The one rectangle that shows all of the box. */
  function Whole(s: Screen, b: Box, encoding: int): seq<Placed>
    requires Within(s, b.x1, b.y1, b.x2 - b.x1, b.y2 - b.y1)
  {
    [Placed(BoxArea(s, b), b, encoding)]
  }

  lemma SentOne(before: seq<Byte>, now: seq<Byte>, body: seq<Byte>, encoding: int, s: Screen, sw: nat, sh: nat, n: nat, b: Box)
    requires IsScreen(s, sw, sh, n) && OnScreen(b, sw, sh) && 0 <= encoding < 0x1_0000_0000
    requires Within(s, b.x1, b.y1, b.x2 - b.x1, b.y2 - b.y1)
    requires now == (before + HeaderBytes(b.x1, b.y1, b.x2 - b.x1, b.y2 - b.y1, encoding)) + body
    requires forall rest :: DecodeBody(encoding, body + rest, b.x2 - b.x1, b.y2 - b.y1, n) == Some((BoxArea(s, b), rest))
    ensures Sent(before, now, HeaderBytes(b.x1, b.y1, b.x2 - b.x1, b.y2 - b.y1, encoding) + body, Whole(s, b, encoding), s, sw, sh, n, b)
  {
    hide DecodeBody;
    hide Carries;
    hide Tiling;
    hide AllExact;
    Regroup(before, HeaderBytes(b.x1, b.y1, b.x2 - b.x1, b.y2 - b.y1, encoding), body);
    CarriesOne(body, encoding, b, BoxArea(s, b), sw, sh, n);
    TilesOne(s, sw, sh, n, b, encoding);
  }

  /** rfbSendRectEncodingRaw. */
  method SendRectEncodingRaw(cl: UpdateBuf, s: Screen, sw: nat, sh: nat, n: nat, b: Box) returns (ok: bool, ghost out: seq<Byte>, ghost rs: seq<Placed>)
    requires cl.Valid() && IsScreen(s, sw, sh, n) && OnScreen(b, sw, sh)
    modifies cl, cl.updateBuf
    ensures cl.Valid()
    ensures ok ==> |rs| == 1 && Sent(old(cl.Stream()), cl.Stream(), out, rs, s, sw, sh, n, b)
    ensures ok ==> rs == Whole(s, b, ENCODING_RAW)
    ensures if (b.x2 - b.x1) * n > UPDATE_BUF_SIZE then !ok else cl.healthy ==> ok
  {
    hide IsScreen;
    hide Sent;
    hide RowsBytes;
    hide DecodeBody;
    out, rs := [], [];
    AreaFits(s, sw, sh, n, b);
    ScreenLimits(s, sw, sh, n);
    ghost var before := cl.Stream();
    ok := cl.MakeRoom(SZ_RECT_HEADER);
    if !ok { return; }
    PutHeader(cl, b, sw, sh, ENCODING_RAW);
    ok := SendRawLines(cl, s, b.x1, b.y1, b.x2 - b.x1, b.y2 - b.y1, n);
    if !ok { return; }
    ghost var body := RowsBytes(BoxArea(s, b), n);
    RawDecodes(BoxArea(s, b), b.x2 - b.x1, b.y2 - b.y1, n);
    SentOne(before, cl.Stream(), body, ENCODING_RAW, s, sw, sh, n, b);
    out, rs := HeaderBytes(b.x1, b.y1, b.x2 - b.x1, b.y2 - b.y1, ENCODING_RAW) + body, Whole(s, b, ENCODING_RAW);
  }

  lemma ScreenLimits(s: Screen, sw: nat, sh: nat, n: nat)
    requires IsScreen(s, sw, sh, n)
    ensures sw < 0x1_0000 && sh < 0x1_0000 && 1 <= n <= 4
  {
  }

  lemma RawDecodes(img: Image, w: nat, h: nat, n: nat)
    requires IsImage(img, w, h) && PictureFits(img, n)
    ensures forall rest :: DecodeBody(ENCODING_RAW, RowsBytes(img, n) + rest, w, h, n) == Some((img, rest))
  {
    forall rest
      ensures DecodeBody(ENCODING_RAW, RowsBytes(img, n) + rest, w, h, n) == Some((img, rest))
    {
      RowsRoundTrip(img, w, n, rest);
    }
  }

  // ---- RRE and CoRRE ----

  function EncodingOf(f: Rre.Format): int {
    if f.RRE? then ENCODING_RRE else ENCODING_CORRE
  }

  /** The pixels go out raw only if there is a background and a list of subrectangles that is
      not complete, and one more would make it longer than the pixels. */
  ghost predicate RawIsShorter(img: Image, w: nat, h: nat, n: nat, f: Rre.Format)
    requires IsImage(img, w, h)
  {
    exists bg, subs :: TileColours.Occurs(img, w, h, bg) && Rre.TooLong(img, w, h, n, f, bg, subs)
  }

  ghost predicate AsSubrects(r: Placed, f: Rre.Format, n: nat) {
    var w, h := r.box.x2 - r.box.x1, r.box.y2 - r.box.y1;
    && 0 <= w && 0 <= h && IsImage(r.img, w, h)
    && (r.encoding == EncodingOf(f) || (r.encoding == ENCODING_RAW && RawIsShorter(r.img, w, h, n, f)))
  }

  lemma AsItself(r: Placed, f: Rre.Format, n: nat)
    requires 0 <= r.box.x2 - r.box.x1 && 0 <= r.box.y2 - r.box.y1
    requires IsImage(r.img, r.box.x2 - r.box.x1, r.box.y2 - r.box.y1) && r.encoding == EncodingOf(f)
    ensures AsSubrects(r, f, n)
  {
  }

  /** A box of one colour is never sent raw. */
  lemma OneColourIsShort(r: Placed, f: Rre.Format, n: nat, colour: int)
    requires AsSubrects(r, f, n) && forall j, i :: 0 <= j < |r.img| && 0 <= i < |r.img[j]| ==> r.img[j][i] == colour
    ensures r.encoding == EncodingOf(f)
  {
    var w, h := r.box.x2 - r.box.x1, r.box.y2 - r.box.y1;
    forall bg, subs
      ensures !(TileColours.Occurs(r.img, w, h, bg) && Rre.TooLong(r.img, w, h, n, f, bg, subs))
    {
    }
  }

  /** What a failed attempt to encode the box shows. */
  lemma RawForLength(r: Placed, f: Rre.Format, n: nat, w: nat, h: nat, sw: nat, sh: nat, bg: int, subs: seq<Subrect>)
    requires w == r.box.x2 - r.box.x1 && h == r.box.y2 - r.box.y1 && w <= sw && h <= sh
    requires IsImage(r.img, w, h) && r.encoding == ENCODING_RAW && TileColours.Occurs(r.img, w, h, bg)
    requires GoodSubs(subs, r.img, w, h, bg) && Rre.Failed(subs, r.img, w, h, n, f, bg, sw * sh * n)
    ensures AsSubrects(r, f, n)
  {
    hide TileColours.Occurs;
    hide GoodSubs;
    hide Rre.LeavesOut;
    WithinScreen(w, h, sw, sh, n);
    assert Rre.TooLong(r.img, w, h, n, f, bg, subs);
  }

  /** A background alone, or no more than the pixels. */
  predicate RoomFor(len: int, w: nat, h: nat, n: nat) {
    len == n || len <= w * h * n
  }

  lemma AreaSmall(w: nat, h: nat)
    requires w < 0x1_0000 && h < 0x1_0000
    ensures w * h < 0x1_0000_0000
  {
    MulMonotone(w, 0xFFFF, h);
  }

  /** No more subrectangles than pixels, so that their count fits in the header. */
  lemma CountSmall(k: nat, n: nat, size: nat, w: nat, h: nat)
    requires n + k * (n + size) <= w * h * n && 1 <= n && w < 0x1_0000 && h < 0x1_0000
    ensures k < 0x1_0000_0000
  {
    assert k * (n + size) == k * n + k * size;
    Cancel(k, w * h, n);
    AreaSmall(w, h);
  }

  lemma RreDecodes(img: Image, w: nat, h: nat, n: nat, f: Rre.Format, bg: int, subs: seq<Subrect>, after: seq<Byte>, limit: int)
    requires IsImage(img, w, h) && 1 <= n && w < 0x1_0000 && h < 0x1_0000
    requires Rre.Coded(after, subs, img, w, h, n, f, bg, limit)
    ensures |subs| < 0x1_0000_0000 && RoomFor(|after|, w, h, n)
    ensures forall rest :: DecodeBody(EncodingOf(f), (Big32(|subs|) + after) + rest, w, h, n) == Some((img, rest))
  {
    var k := |subs|;
    if k > 0 {
      CountSmall(k, n, Rre.RectangleSize(f), w, h);
    }
    forall rest
      ensures DecodeBody(EncodingOf(f), (Big32(k) + after) + rest, w, h, n) == Some((img, rest))
    {
      Regroup(Big32(k), after, rest);
      Parts(Big32(k), after + rest);
      Big32RoundTrip(k);
    }
  }

  /** rfbSendRectEncodingRRE, and rfbSendSmallRectEncodingCoRRE: subrectangles, or the raw
      pixels when those would be longer. */
  method SendSubrects(cl: UpdateBuf, s: Screen, sw: nat, sh: nat, n: nat, b: Box, f: Rre.Format)
    returns (ok: bool, ghost out: seq<Byte>, ghost rs: seq<Placed>)
    requires cl.Valid() && IsScreen(s, sw, sh, n) && OnScreen(b, sw, sh)
    requires b.x2 - b.x1 < Rre.CoordLimit(f) && b.y2 - b.y1 < Rre.CoordLimit(f)
    modifies cl, cl.updateBuf
    ensures cl.Valid()
    ensures ok ==> |rs| == 1 && Sent(old(cl.Stream()), cl.Stream(), out, rs, s, sw, sh, n, b)
    ensures ok ==> AsSubrects(rs[0], f, n)
    ensures ok && rs[0].encoding != ENCODING_RAW ==> RoomFor(|out| - SZ_RECT_HEADER - SZ_RRE_HEADER, b.x2 - b.x1, b.y2 - b.y1, n)
    ensures cl.healthy && (b.x2 - b.x1) * n <= UPDATE_BUF_SIZE ==> ok
  {
    hide IsScreen;
    hide Sent;
    hide PictureFits;
    hide GoodSubs;
    hide DecodeBody;
    hide Rre.Decode;
    hide RoomFor;
    hide AsSubrects;
    hide Rre.Failed;
    hide Rre.Coded;
    hide TileColours.Occurs;
    out, rs := [], [];
    AreaFits(s, sw, sh, n, b);
    ScreenLimits(s, sw, sh, n);
    ghost var before, img := cl.Stream(), BoxArea(s, b);
    var w, h := b.x2 - b.x1, b.y2 - b.y1;
    var maxRawSize := sw * sh * n;
    var rreBeforeBuf := Translate(s, b.x1, b.y1, w, h);
    var bg := GetBgColour(rreBeforeBuf, n);
    BgFits(img, w, h, n, bg);
    var nSubrects, rreAfterBuf, subs := Rre.SubrectEncode(rreBeforeBuf, f, n, bg, maxRawSize);
    if nSubrects < 0 {
      ok, out, rs := SendRectEncodingRaw(cl, s, sw, sh, n, b);
      if ok {
        RawForLength(rs[0], f, n, w, h, sw, sh, bg, subs);
      }
      return;
    }
    RreDecodes(img, w, h, n, f, bg, subs, rreAfterBuf, maxRawSize);
    ok := cl.MakeRoom(SZ_RECT_HEADER + SZ_RRE_HEADER);
    if !ok { return; }
    PutHeader(cl, b, sw, sh, EncodingOf(f));
    ghost var headed := cl.Stream();
    cl.Put(Big32(nSubrects));
    ok := cl.CopyOut(rreAfterBuf);
    if !ok { return; }
    ghost var body := Big32(nSubrects) + rreAfterBuf;
    Regroup(headed, Big32(nSubrects), rreAfterBuf);
    SentOne(before, cl.Stream(), body, EncodingOf(f), s, sw, sh, n, b);
    out, rs := HeaderBytes(b.x1, b.y1, w, h, EncodingOf(f)) + body, Whole(s, b, EncodingOf(f));
    AsItself(rs[0], f, n);
  }

  lemma WithinScreen(w: nat, h: nat, sw: nat, sh: nat, n: nat)
    requires w <= sw && h <= sh
    ensures w * h * n <= sw * sh * n
  {
    MulMonotone(w, sw, h);
    MulMonotone(h, sh, sw);
    MulMonotone(w * h, sw * sh, n);
  }

  lemma BgFits(img: Image, w: nat, h: nat, n: nat, bg: int)
    requires IsImage(img, w, h) && PictureFits(img, n) && TileColours.Occurs(img, w, h, bg)
    ensures 0 <= bg < Range(n)
  {
  }

  /** How many rectangles the update header announces for one box in CoRRE. */
  function CoRRERects(w: int, h: int, maxWidth: int, maxHeight: int): int
    requires maxWidth > 0 && maxHeight > 0
  {
    ((w - 1) / maxWidth + 1) * ((h - 1) / maxHeight + 1)
  }

  lemma OneLess(w: int, m: int)
    requires 0 < m < w
    ensures (w - 1) / m == (w - m - 1) / m + 1 && (m - 1) / m == 0
  {
    var q, r := (w - m - 1) / m, (w - m - 1) % m;
    assert w - 1 == (q + 1) * m + r;
    QuotientUnique(w - 1, m, q + 1, r);
  }

  lemma SplitHeight(w: int, h: int, maxWidth: int, maxHeight: int)
    requires 0 < w && 0 < maxWidth && 0 < maxHeight < h
    ensures CoRRERects(w, h, maxWidth, maxHeight)
      == CoRRERects(w, maxHeight, maxWidth, maxHeight) + CoRRERects(w, h - maxHeight, maxWidth, maxHeight)
  {
    OneLess(h, maxHeight);
    var c, d := (w - 1) / maxWidth + 1, (h - maxHeight - 1) / maxHeight + 1;
    assert c * (d + 1) == c * 1 + c * d;
  }

  lemma SplitWidth(w: int, h: int, maxWidth: int, maxHeight: int)
    requires 0 < h && 0 < maxHeight && 0 < maxWidth < w
    ensures CoRRERects(w, h, maxWidth, maxHeight)
      == CoRRERects(maxWidth, h, maxWidth, maxHeight) + CoRRERects(w - maxWidth, h, maxWidth, maxHeight)
  {
    OneLess(w, maxWidth);
    var c, d := (h - 1) / maxHeight + 1, (w - maxWidth - 1) / maxWidth + 1;
    assert (d + 1) * c == 1 * c + d * c;
  }

  lemma SmallCount(w: int, h: int, maxWidth: int, maxHeight: int)
    requires 0 < w <= maxWidth && 0 < h <= maxHeight
    ensures CoRRERects(w, h, maxWidth, maxHeight) == 1
  {
  }

  /** Two halves of a box make the box. */
  lemma SentHalves(before: seq<Byte>, mid: seq<Byte>, now: seq<Byte>, out1: seq<Byte>, ps: seq<Placed>, out2: seq<Byte>, qs: seq<Placed>,
                   s: Screen, sw: nat, sh: nat, n: nat, b1: Box, b2: Box, b: Box)
    requires Sent(before, mid, out1, ps, s, sw, sh, n, b1) && Sent(mid, now, out2, qs, s, sw, sh, n, b2)
    requires (b1 == Box(b.x1, b.y1, b.x2, b2.y1) && b2 == Box(b.x1, b2.y1, b.x2, b.y2) && b.y1 < b2.y1 < b.y2)
      || (b1 == Box(b.x1, b.y1, b2.x1, b.y2) && b2 == Box(b2.x1, b.y1, b.x2, b.y2) && b.x1 < b2.x1 < b.x2)
    ensures Sent(before, now, out1 + out2, ps + qs, s, sw, sh, n, b)
  {
    hide Carries;
    hide Exact;
    Regroup(before, out1, out2);
    CarriesConcat(out1, ps, out2, qs, n);
    forall x, y
      ensures Mult(Where(ps + qs), x, y) == if InBox(b, x, y) then 1 else 0
    {
      WhereConcat(ps, qs, x, y);
    }
  }

  /** rfbSendRectEncodingCoRRE: split until it is small enough. The number of rectangles it
      emits is the one the update header announced. */
  method SendRectEncodingCoRRE(cl: UpdateBuf, s: Screen, sw: nat, sh: nat, n: nat, b: Box, maxWidth: int, maxHeight: int)
    returns (ok: bool, ghost out: seq<Byte>, ghost rs: seq<Placed>)
    requires cl.Valid() && IsScreen(s, sw, sh, n) && OnScreen(b, sw, sh)
    requires 0 < maxWidth < 256 && 0 < maxHeight < 256
    modifies cl, cl.updateBuf
    ensures cl.Valid()
    ensures ok ==> |rs| == CoRRERects(b.x2 - b.x1, b.y2 - b.y1, maxWidth, maxHeight)
    ensures ok ==> Sent(old(cl.Stream()), cl.Stream(), out, rs, s, sw, sh, n, b)
    ensures ok ==> forall k :: 0 <= k < |rs| ==> AsSubrects(rs[k], Rre.CoRRE, n)
    ensures cl.healthy ==> ok
    decreases b.y2 - b.y1, b.x2 - b.x1
  {
    hide IsScreen;
    hide Sent;
    hide CoRRERects;
    ghost var before := cl.Stream();
    ghost var out1, ps, out2, qs;
    out, rs := [], [];
    if b.y2 - b.y1 > maxHeight {
      var top, bottom := b.(y2 := b.y1 + maxHeight), b.(y1 := b.y1 + maxHeight);
      SplitHeight(b.x2 - b.x1, b.y2 - b.y1, maxWidth, maxHeight);
      ok, out1, ps := SendRectEncodingCoRRE(cl, s, sw, sh, n, top, maxWidth, maxHeight);
      if !ok { return; }
      ghost var mid := cl.Stream();
      ok, out2, qs := SendRectEncodingCoRRE(cl, s, sw, sh, n, bottom, maxWidth, maxHeight);
      if !ok { return; }
      SentHalves(before, mid, cl.Stream(), out1, ps, out2, qs, s, sw, sh, n, top, bottom, b);
      out, rs := out1 + out2, ps + qs;
    } else if b.x2 - b.x1 > maxWidth {
      var left, right := b.(x2 := b.x1 + maxWidth), b.(x1 := b.x1 + maxWidth);
      SplitWidth(b.x2 - b.x1, b.y2 - b.y1, maxWidth, maxHeight);
      ok, out1, ps := SendRectEncodingCoRRE(cl, s, sw, sh, n, left, maxWidth, maxHeight);
      if !ok { return; }
      ghost var mid := cl.Stream();
      ok, out2, qs := SendRectEncodingCoRRE(cl, s, sw, sh, n, right, maxWidth, maxHeight);
      if !ok { return; }
      SentHalves(before, mid, cl.Stream(), out1, ps, out2, qs, s, sw, sh, n, left, right, b);
      out, rs := out1 + out2, ps + qs;
    } else {
      SmallCount(b.x2 - b.x1, b.y2 - b.y1, maxWidth, maxHeight);
      ScreenLimits(s, sw, sh, n);
      MulMonotone(b.x2 - b.x1, 255, n);
      ok, out, rs := SendSubrects(cl, s, sw, sh, n, b, Rre.CoRRE);
    }
  }

  // ---- Hextile ----

  lemma HextileDecodes(img: Image, w: nat, h: nat, n: nat, body: seq<Byte>)
    requires forall rest :: HextileFormat.Decode(body + rest, w, h, n) == Some((img, rest))
    ensures forall rest :: DecodeBody(ENCODING_HEXTILE, body + rest, w, h, n) == Some((img, rest))
  {
    forall rest
      ensures DecodeBody(ENCODING_HEXTILE, body + rest, w, h, n) == Some((img, rest))
    {
      assert HextileFormat.Decode(body + rest, w, h, n) == Some((img, rest));
    }
  }

  /** rfbSendRectEncodingHextile. */
  method SendRectEncodingHextile(cl: UpdateBuf, s: Screen, sw: nat, sh: nat, n: nat, b: Box) returns (ok: bool, ghost out: seq<Byte>, ghost rs: seq<Placed>)
    requires cl.Valid() && IsScreen(s, sw, sh, n) && OnScreen(b, sw, sh)
    modifies cl, cl.updateBuf
    ensures cl.Valid()
    ensures ok ==> |rs| == 1 && Sent(old(cl.Stream()), cl.Stream(), out, rs, s, sw, sh, n, b)
    ensures ok ==> rs[0].encoding == ENCODING_HEXTILE
    ensures cl.healthy ==> ok
  {
    hide IsScreen;
    hide Sent;
    hide HeaderBytes;
    hide DecodeBody;
    hide HextileFormat.Decode;
    hide PictureFits;
    out, rs := [], [];
    AreaFits(s, sw, sh, n, b);
    ScreenLimits(s, sw, sh, n);
    ghost var before := cl.Stream();
    ok := cl.MakeRoom(SZ_RECT_HEADER);
    if !ok { return; }
    PutHeader(cl, b, sw, sh, ENCODING_HEXTILE);
    ghost var body;
    ok, body := Hextile.SendHextiles(cl, s, b.x1, b.y1, b.x2 - b.x1, b.y2 - b.y1, n);
    if !ok { return; }
    HextileDecodes(BoxArea(s, b), b.x2 - b.x1, b.y2 - b.y1, n, body);
    SentOne(before, cl.Stream(), body, ENCODING_HEXTILE, s, sw, sh, n, b);
    out, rs := HeaderBytes(b.x1, b.y1, b.x2 - b.x1, b.y2 - b.y1, ENCODING_HEXTILE) + body, Whole(s, b, ENCODING_HEXTILE);
  }
}
