/** The Hextile encoder: tiles are written straight into the update buffer, with room for
    the largest tile made before it starts. */
module Hextile {
  import opened Bytes
  import opened Images
  import opened Subrects
  import opened TileColours
  import opened HextileFormat
  import opened UpdateBuffer

  /** What the encoder remembers of the colours of earlier tiles. */
  ghost function Carried(validBg: bool, bg: int, validFg: bool, fg: int): Colours {
    Colours(if validBg then Some(bg) else None, if validFg then Some(fg) else None)
  }

  // ---- The subrectangles of a tile ----

  ghost predicate SubsFit(subs: seq<Subrect>, mono: bool, fg: int, n: nat) {
    forall k :: 0 <= k < |subs| ==>
      && FitsTile(subs[k]) && 0 <= subs[k].colour < Range(n)
      && (mono ==> subs[k].colour == fg)
  }

  /** The buffer holds pre, a byte for the count, and the subrectangles so far. */
  ghost predicate Written(pre: seq<Byte>, subs: seq<Subrect>, mono: bool, fg: int, n: nat, now: seq<Byte>) {
    && SubsFit(subs, mono, fg, n)
    && |now| > |pre| && now[..|pre|] == pre && now[|pre| + 1..] == AllSubBytes(subs, !mono, n)
    && |now| == |pre| + 1 + |subs| * (PixelSize(!mono, n) + 2)
  }

  lemma {:induction false} AllSubBytesSnoc(subs: seq<Subrect>, s: Subrect, coloured: bool, n: nat)
    requires (forall k :: 0 <= k < |subs| ==> FitsTile(subs[k])) && FitsTile(s)
    ensures AllSubBytes(subs + [s], coloured, n) == AllSubBytes(subs, coloured, n) + SubBytes(s, coloured, n)
    decreases |subs|
  {
    var all := subs + [s];
    if subs == [] {
      assert all[1..] == [];
    } else {
      assert all[1..] == subs[1..] + [s];
      AllSubBytesSnoc(subs[1..], s, coloured, n);
      Regroup(SubBytes(subs[0], coloured, n), AllSubBytes(subs[1..], coloured, n), SubBytes(s, coloured, n));
    }
  }

  lemma WrittenStep(pre: seq<Byte>, subs: seq<Subrect>, s: Subrect, mono: bool, fg: int, n: nat, now: seq<Byte>)
    requires Written(pre, subs, mono, fg, n, now)
    requires FitsTile(s) && 0 <= s.colour < Range(n) && (mono ==> s.colour == fg)
    ensures Written(pre, subs + [s], mono, fg, n, now + SubBytes(s, !mono, n))
    ensures |SubBytes(s, !mono, n)| == PixelSize(!mono, n) + 2
  {
    var more := SubBytes(s, !mono, n);
    AllSubBytesSnoc(subs, s, !mono, n);
    assert (now + more)[|pre| + 1..] == now[|pre| + 1..] + more;
    assert (now + more)[..|pre|] == pre;
    assert (|subs| + 1) * (PixelSize(!mono, n) + 2) == |subs| * (PixelSize(!mono, n) + 2) + (PixelSize(!mono, n) + 2);
  }

  lemma WrittenDone(pre: seq<Byte>, subs: seq<Subrect>, mono: bool, fg: int, n: nat, now: seq<Byte>)
    requires Written(pre, subs, mono, fg, n, now) && |subs| < 256
    ensures now[|pre| := |subs|] == pre + SubsPart(Some(subs), !mono, n)
  {
    var a: seq<Byte> := [|subs|];
    assert now == now[..|pre|] + [now[|pre|]] + now[|pre| + 1..];
    assert now[|pre| := |subs|] == pre + a + AllSubBytes(subs, !mono, n);
    Regroup(pre, a, AllSubBytes(subs, !mono, n));
  }

  lemma WrittenLength(pre: seq<Byte>, subs: seq<Subrect>, mono: bool, fg: int, n: nat, now: seq<Byte>)
    requires Written(pre, subs, mono, fg, n, now)
    ensures SubsFit(subs, mono, fg, n) && |now| > |pre| && now[..|pre|] == pre
    ensures |now| == |pre| + 1 + |subs| * (PixelSize(!mono, n) + 2)
    ensures |now| - |pre| + PixelSize(!mono, n) + 2 == 1 + (|subs| + 1) * (PixelSize(!mono, n) + 2)
  {
  }

  /** The count of subrectangles fits in its byte: in a tile of two colours at most half of
      the pixels differ from the background, and coloured ones are too long otherwise. */
  lemma CountFits(img: Image, now: Image, w: nat, h: nat, bg: int, subs: seq<Subrect>, mono: bool, n: nat)
    requires Progress(img, now, w, h, bg, subs) && 1 <= w <= 16 && 1 <= h <= 16
    requires mono ==> IsImage(img, w, h) && 2 * |Foreground(img, w, h, bg)| <= w * h
    requires !mono ==> 1 + |subs| * (n + 2) <= w * h * n
    ensures |subs| < 256
  {
    TileArea(w, h, n);
    if mono {
      NoMoreThanForeground(img, now, w, h, bg, subs);
    } else {
      ShortEnough(|subs|, w * h * n, n);
    }
  }

  lemma NoMoreThanForeground(img: Image, now: Image, w: nat, h: nat, bg: int, subs: seq<Subrect>)
    requires Progress(img, now, w, h, bg, subs)
    ensures IsImage(img, w, h) && |subs| <= |Foreground(img, w, h, bg)|
  {
  }

  lemma ShortEnough(k: nat, size: nat, n: nat)
    requires 1 + k * (n + 2) <= size <= 256 * n
    ensures k < 256
  {
    assert k * (n + 2) == k * n + 2 * k;
    assert k >= 256 ==> k * n >= 256 * n;
  }

  lemma TileArea(w: nat, h: nat, n: nat)
    requires 1 <= w <= 16 && 1 <= h <= 16
    ensures 1 <= w * h <= 256 && w * h * n <= 256 * n && w * h * n >= n
  {
    assert w * h <= 16 * h;
  }

  /** A pixel that differs from the background is still as it was. */
  lemma ColourKept(img: Image, now: Image, w: nat, h: nat, bg: int, subs: seq<Subrect>, n: nat, mono: bool, fg: int, x: nat, y: nat)
    requires Progress(img, now, w, h, bg, subs) && PictureFits(img, n) && x < w && y < h
    requires mono ==> Only(img, w, h, bg, fg)
    ensures |now| == h && |now[y]| == w
    ensures now[y][x] != bg ==> 0 <= now[y][x] < Range(n) && (mono ==> now[y][x] == fg)
  {
  }

  /** One subrectangle is put into the buffer and marked as done. */
  method EmitSub(cl: UpdateBuf, data: array2<int>, x: nat, y: nat, bg: int, fg: int, mono: bool, n: nat,
                 ghost img: Image, ghost subs: seq<Subrect>, ghost pre: seq<Byte>) returns (s: Subrect)
    requires cl.Valid() && y < data.Length0 <= 16 && x < data.Length1 <= 16 && data[y, x] != bg
    requires cl.ublen + PixelSize(!mono, n) + 2 <= UPDATE_BUF_SIZE
    requires Progress(img, Picture(data), data.Length1, data.Length0, bg, subs)
    requires DoneTo(Picture(data), data.Length1, data.Length0, bg, y, x)
    requires Written(pre, subs, mono, fg, n, cl.Pending()) && PictureFits(img, n)
    requires mono ==> IsImage(img, data.Length1, data.Length0) && Only(img, data.Length1, data.Length0, bg, fg)
    modifies cl`ublen, cl.updateBuf, data
    ensures cl.Valid() && cl.ublen == old(cl.ublen) + PixelSize(!mono, n) + 2
    ensures Progress(img, Picture(data), data.Length1, data.Length0, bg, subs + [s])
    ensures DoneTo(Picture(data), data.Length1, data.Length0, bg, y, x + 1)
    ensures Written(pre, subs + [s], mono, fg, n, cl.Pending())
  {
    hide Progress;
    hide Written;
    hide PictureFits;
    hide Only;
    hide DoneTo;
    ColourKept(img, Picture(data), data.Length1, data.Length0, bg, subs, n, mono, fg, x, y);
    ghost var now := cl.Pending();
    s := CutOut(data, x, y, bg, img, subs);
    WrittenStep(pre, subs, s, mono, fg, n, now);
    cl.Put(SubBytes(s, !mono, n));
  }

  /** subrectEncode. False when the subrectangles would be longer than the raw tile. */
  method SubrectEncode(cl: UpdateBuf, data: array2<int>, bg: int, fg: int, mono: bool, n: nat)
    returns (ok: bool, ghost subs: seq<Subrect>)
    requires cl.Valid() && n >= 1 && 1 <= data.Length1 <= 16 && 1 <= data.Length0 <= 16
    requires cl.ublen + data.Length1 * data.Length0 * n <= UPDATE_BUF_SIZE
    requires PictureFits(Picture(data), n)
    requires var img := Picture(data); mono ==>
      && Only(img, data.Length1, data.Length0, bg, fg)
      && 2 * |Foreground(img, data.Length1, data.Length0, bg)| <= data.Length1 * data.Length0
    modifies cl`ublen, cl.updateBuf, data
    ensures cl.Valid()
    ensures var w, h, img, m := data.Length1, data.Length0, old(Picture(data)), PixelSize(!mono, n);
      && |subs| < 256 && SubsFit(subs, mono, fg, n) && GoodSubs(subs, img, w, h, bg)
      && old(cl.ublen) <= cl.ublen <= old(cl.ublen) + w * h * n
      && cl.Pending()[..old(cl.ublen)] == old(cl.Pending())
      && (!ok ==> 1 + (|subs| + 1) * (m + 2) > w * h * n)
      && (ok ==>
            && cl.Pending() == old(cl.Pending()) + SubsPart(Some(subs), !mono, n)
            && PaintAll(Solid(w, h, bg), subs) == img)
  {
    hide Progress;
    hide Written;
    hide SubsFit;
    hide SubsPart;
    hide GoodSubs;
    hide DoneTo;
    hide Only;
    hide PictureFits;
    hide Foreground;
    var w, h := data.Length1, data.Length0;
    ghost var img, pre := Picture(data), cl.Pending();
    TileArea(w, h, n);
    var nSubrectsUblen, numsubs := cl.ublen, 0;
    cl.Skip();
    subs := [];
    ProgressStart(img, w, h, bg);
    WrittenStart(pre, mono, fg, n, cl.Pending());
    DoneSteps(Picture(data), w, h, bg, 0, 0);
    var y := 0;
    while y < h
      invariant 0 <= y <= h && numsubs == |subs| && cl.Valid()
      invariant Progress(img, Picture(data), w, h, bg, subs) && Written(pre, subs, mono, fg, n, cl.Pending())
      invariant DoneTo(Picture(data), w, h, bg, y, 0)
      invariant cl.ublen - nSubrectsUblen <= w * h * n
    {
      var x := 0;
      while x < w
        invariant 0 <= x <= w && numsubs == |subs| && cl.Valid()
        invariant Progress(img, Picture(data), w, h, bg, subs) && Written(pre, subs, mono, fg, n, cl.Pending())
        invariant DoneTo(Picture(data), w, h, bg, y, x)
        invariant cl.ublen - nSubrectsUblen <= w * h * n
      {
        if data[y, x] != bg {
          var newLen := cl.ublen - nSubrectsUblen + (if mono then 2 else n + 2);
          WrittenLength(pre, subs, mono, fg, n, cl.Pending());
          if newLen > w * h * n {
            EarlyEnd(img, Picture(data), w, h, bg, subs, mono, fg, n, pre, cl.Pending());
            return false, subs;
          }
          numsubs := numsubs + 1;
          var s := EmitSub(cl, data, x, y, bg, fg, mono, n, img, subs, pre);
          subs := subs + [s];
        } else {
          DoneSteps(Picture(data), w, h, bg, y, x);
        }
        x := x + 1;
      }
      DoneSteps(Picture(data), w, h, bg, y, x);
      y := y + 1;
    }
    DoneSteps(Picture(data), w, h, bg, y, 0);
    ProgressDone(img, Picture(data), w, h, bg, subs);
    EarlyEnd(img, Picture(data), w, h, bg, subs, mono, fg, n, pre, cl.Pending());
    WrittenLength(pre, subs, mono, fg, n, cl.Pending());
    WrittenDone(pre, subs, mono, fg, n, cl.Pending());
    cl.Poke(nSubrectsUblen, numsubs);
    Parts(pre, SubsPart(Some(subs), !mono, n));
    ok := true;
  }

  lemma WrittenStart(pre: seq<Byte>, mono: bool, fg: int, n: nat, now: seq<Byte>)
    requires |now| == |pre| + 1 && now[..|pre|] == pre
    ensures Written(pre, [], mono, fg, n, now)
  {
  }

  /** What holds wherever the encoder stops. */
  lemma EarlyEnd(img: Image, now: Image, w: nat, h: nat, bg: int, subs: seq<Subrect>, mono: bool, fg: int, n: nat,
                 pre: seq<Byte>, buf: seq<Byte>)
    requires Progress(img, now, w, h, bg, subs) && Written(pre, subs, mono, fg, n, buf)
    requires 1 <= w <= 16 && 1 <= h <= 16 && |buf| - |pre| <= w * h * n
    requires mono ==> 2 * |Foreground(img, w, h, bg)| <= w * h
    ensures IsImage(img, w, h) && GoodSubs(subs, img, w, h, bg)
    ensures |subs| < 256 && SubsFit(subs, mono, fg, n) && buf[..|pre|] == pre
  {
    CountFits(img, now, w, h, bg, subs, mono, n);
  }

  // ---- One tile ----

  /** The buffer holds pre, the mask of the tile, and what followed it so far. */
  ghost predicate Begun(pre: seq<Byte>, mask: Byte, body: seq<Byte>, now: seq<Byte>) {
    now == pre + [mask] + body
  }

  lemma BegunParts(pre: seq<Byte>, mask: Byte, body: seq<Byte>, now: seq<Byte>, mask': Byte, more: seq<Byte>)
    requires Begun(pre, mask, body, now)
    ensures |now| == |pre| + 1 + |body| && now[|pre|] == mask && now[..|pre|] == pre
    ensures Begun(pre, mask', body, now[|pre| := mask'])
    ensures Begun(pre, mask, body + more, now + more)
  {
    assert pre + [mask] + body + more == pre + [mask] + (body + more);
    assert (pre + [mask] + body)[|pre| := mask'] == pre + [mask'] + body;
  }

  /** The buffer's byte |= bit. */
  function Or(m: Byte, bit: int): Byte
    requires 0 < bit && m < 0x80 && bit < 0x80
  {
    if HasBit(m, bit) then m else m + bit
  }

  /** The background is written only when the client does not have it. */
  method PutBackground(cl: UpdateBuf, startUblen: nat, validBg: bool, bg: int, newBg: int, n: nat, ghost pre: seq<Byte>)
    returns (ghost spec: Option<int>)
    requires cl.Valid() && |pre| == startUblen && Begun(pre, 0, [], cl.Pending()) && cl.ublen + n <= UPDATE_BUF_SIZE
    modifies cl`ublen, cl.updateBuf
    ensures cl.Valid() && cl.ublen <= old(cl.ublen) + n
    ensures spec == if !validBg || newBg != bg then Some(newBg) else None
    ensures Begun(pre, Flag(spec.Some?, BACKGROUND_SPECIFIED), OptionalPixel(spec, n), cl.Pending())
  {
    spec := None;
    BegunParts(pre, 0, [], cl.Pending(), BACKGROUND_SPECIFIED, PixelBytes(newBg, n));
    if !validBg || newBg != bg {
      spec := Some(newBg);
      cl.Poke(startUblen, Or(cl.updateBuf[startUblen], BACKGROUND_SPECIFIED));
      BegunParts(pre, BACKGROUND_SPECIFIED, [], cl.Pending(), 0, PixelBytes(newBg, n));
      cl.Put(PixelBytes(newBg, n));
      assert [] + PixelBytes(newBg, n) == PixelBytes(newBg, n);
    }
  }

  /** The flags of a tile with subrectangles, and the foreground of one of two colours
      when the client does not have it. */
  method PutForeground(cl: UpdateBuf, startUblen: nat, mono: bool, validFg: bool, fg: int, newFg: int, n: nat,
                       ghost pre: seq<Byte>, ghost mask: Byte, ghost body: seq<Byte>)
    returns (ghost spec: Option<int>)
    requires cl.Valid() && |pre| == startUblen && Begun(pre, mask, body, cl.Pending()) && cl.ublen + n <= UPDATE_BUF_SIZE
    requires mask == 0 || mask == BACKGROUND_SPECIFIED
    modifies cl`ublen, cl.updateBuf
    ensures cl.Valid() && cl.ublen <= old(cl.ublen) + n
    ensures spec == if mono && (!validFg || newFg != fg) then Some(newFg) else None
    ensures Begun(pre, mask + Flag(spec.Some?, FOREGROUND_SPECIFIED) + ANY_SUBRECTS + Flag(!mono, SUBRECTS_COLOURED),
                  body + OptionalPixel(spec, n), cl.Pending())
  {
    spec := None;
    BegunParts(pre, mask, body, cl.Pending(), mask + ANY_SUBRECTS, []);
    cl.Poke(startUblen, Or(cl.updateBuf[startUblen], ANY_SUBRECTS));
    if mono {
      if !validFg || newFg != fg {
        spec := Some(newFg);
        var m := mask + ANY_SUBRECTS + FOREGROUND_SPECIFIED;
        BegunParts(pre, mask + ANY_SUBRECTS, body, cl.Pending(), m, []);
        cl.Poke(startUblen, Or(cl.updateBuf[startUblen], FOREGROUND_SPECIFIED));
        BegunParts(pre, m, body, cl.Pending(), 0, PixelBytes(newFg, n));
        cl.Put(PixelBytes(newFg, n));
      }
    } else {
      BegunParts(pre, mask + ANY_SUBRECTS, body, cl.Pending(), mask + ANY_SUBRECTS + SUBRECTS_COLOURED, []);
      cl.Poke(startUblen, Or(cl.updateBuf[startUblen], SUBRECTS_COLOURED));
    }
    assert body + [] == body;
  }

  lemma RawSize(img: Image, w: nat, h: nat, n: nat)
    requires IsImage(img, w, h)
    ensures |RowsBytes(img, n)| == w * h * n
  {
    RowsBytesLength(img, w, n);
    assert h * (w * n) == w * h * n;
  }

  lemma RawBytes(pre: seq<Byte>, img: Image, n: nat)
    ensures pre + [RAW] + RowsBytes(img, n) == pre + TileBytes(RawTile(img), n)
  {
    Regroup(pre, [RAW], RowsBytes(img, n));
  }

  /** A tile whose subrectangles would be too long goes raw, in place of what was begun. */
  method PutRaw(cl: UpdateBuf, startUblen: nat, s: Screen, x: int, y: int, w: int, h: int, n: nat, ghost pre: seq<Byte>)
    requires cl.Valid() && startUblen <= cl.ublen && cl.Pending()[..startUblen] == pre
    requires 1 <= w <= 16 && 1 <= h <= 16 && Within(s, x, y, w, h)
    requires startUblen + 1 + w * h * n <= UPDATE_BUF_SIZE
    modifies cl`ublen, cl.updateBuf
    ensures cl.Valid() && cl.ublen == startUblen + 1 + w * h * n
    ensures cl.Pending() == pre + TileBytes(RawTile(Area(s, x, y, w, h)), n)
  {
    hide RowsBytes;
    hide TileBytes;
    cl.Rewind(startUblen);
    cl.Put([RAW]);
    var clientPixelData := Translate(s, x, y, w, h);
    var rows := Picture(clientPixelData);
    RawSize(rows, w, h, n);
    RawBytes(pre, rows, n);
    cl.Put(RowsBytes(rows, n));
  }

  /** A pixel of the tile fits, and so do the colours chosen from it. */
  lemma ChosenFit(img: Image, w: nat, h: nat, n: nat, mono: bool, solid: bool, bg: int, fg: int)
    requires IsImage(img, w, h) && PictureFits(img, n) && Tested(img, w, h, mono, solid, bg, fg)
    ensures 0 <= bg < Range(n) && (mono && !solid ==> 0 <= fg < Range(n) && Only(img, w, h, bg, fg))
    ensures mono && !solid ==> 2 * |Foreground(img, w, h, bg)| <= w * h
    ensures solid ==> img == Solid(w, h, bg)
  {
    if solid {
      SameImage(img, Solid(w, h, bg), w, h);
    }
  }

  /** A tile of one colour. */
  lemma SolidTile(pre: seq<Byte>, now: seq<Byte>, img: Image, w: nat, h: nat, n: nat, st: Colours, spec: Option<int>, bg: int)
    requires IsImage(img, w, h) && img == Solid(w, h, bg) && 0 <= bg < Range(n)
    requires (spec == Some(bg) || (spec == None && st.bg == Some(bg)))
    requires Begun(pre, Flag(spec.Some?, BACKGROUND_SPECIFIED), OptionalPixel(spec, n), now)
    ensures var t := PaintTile(spec, None, None, false);
      Describes(t, img, w, h, n, st) && now == pre + TileBytes(t, n) && After(t, st) == Colours(Some(bg), st.fg)
  {
    var t := PaintTile(spec, None, None, false);
    var b := OptionalPixel(spec, n);
    assert b + ([] + []) == b;
    Regroup(pre, [MaskOf(t)], b);
  }

  /** A tile with subrectangles. */
  lemma SubsTile(pre: seq<Byte>, now: seq<Byte>, img: Image, w: nat, h: nat, n: nat, st: Colours,
                 bgSpec: Option<int>, fgSpec: Option<int>, bg: int, fg: int, mono: bool, subs: seq<Subrect>)
    requires IsImage(img, w, h) && GoodSubs(subs, img, w, h, bg) && PaintAll(Solid(w, h, bg), subs) == img
    requires 0 <= bg < Range(n) && (mono ==> 0 <= fg < Range(n))
    requires bgSpec == Some(bg) || (bgSpec == None && st.bg == Some(bg))
    requires if mono then fgSpec == Some(fg) || (fgSpec == None && st.fg == Some(fg)) else fgSpec == None
    requires |subs| < 256 && SubsFit(subs, mono, fg, n)
    requires var m := Flag(bgSpec.Some?, BACKGROUND_SPECIFIED) + Flag(fgSpec.Some?, FOREGROUND_SPECIFIED)
      + ANY_SUBRECTS + Flag(!mono, SUBRECTS_COLOURED);
      now == pre + [m] + (OptionalPixel(bgSpec, n) + OptionalPixel(fgSpec, n)) + SubsPart(Some(subs), !mono, n)
    ensures var t := PaintTile(bgSpec, fgSpec, Some(subs), !mono);
      && Describes(t, img, w, h, n, st) && now == pre + TileBytes(t, n)
      && After(t, st) == Colours(Some(bg), if mono then Some(fg) else None)
  {
    hide PaintAll;
    hide AllSubBytes;
    var t := PaintTile(bgSpec, fgSpec, Some(subs), !mono);
    var b, f, p := OptionalPixel(bgSpec, n), OptionalPixel(fgSpec, n), SubsPart(Some(subs), !mono, n);
    var m: seq<Byte> := [MaskOf(t)];
    Regroup(pre + m, b + f, p);
    Regroup(pre, m, (b + f) + p);
    Regroup(b, f, p);
  }

  ghost predicate Sent(t: Tile, before: seq<Byte>, now: seq<Byte>, img: Image, w: nat, h: nat, n: nat, st: Colours, st': Colours) {
    Describes(t, img, w, h, n, st) && now == before + TileBytes(t, n) && st' == After(t, st)
  }

  lemma RawSent(before: seq<Byte>, img: Image, w: nat, h: nat, n: nat, st: Colours)
    requires IsImage(img, w, h) && PictureFits(img, n)
    ensures Sent(RawTile(img), before, before + TileBytes(RawTile(img), n), img, w, h, n, st, Colours(None, None))
  {
  }

  lemma SentOnTop(t: Tile, wire: seq<Byte>, before: seq<Byte>, now: seq<Byte>, img: Image, w: nat, h: nat, n: nat,
                  st: Colours, st': Colours)
    requires Sent(t, before, now, img, w, h, n, st, st')
    ensures Sent(t, wire + before, wire + now, img, w, h, n, st, st')
  {
    Regroup(wire, before, TileBytes(t, n));
  }

  /** The kind of tile that goes with the pixels: only a background for one colour; otherwise
      raw, or subrectangles, which have colours of their own exactly when there are more than
      two. */
  ghost predicate Fitting(t: Tile, img: Image, w: nat, h: nat)
    requires IsImage(img, w, h)
  {
    if exists c :: Only(img, w, h, c, c) then t.PaintTile? && t.subs.None?
    else t.RawTile? || (t.subs.Some? && (t.coloured <==> !exists b, c :: Only(img, w, h, b, c)))
  }

  /** What the test of the colours says of the kind of tile. */
  lemma KindOf(t: Tile, img: Image, w: nat, h: nat, mono: bool, solid: bool, bg: int, fg: int)
    requires IsImage(img, w, h) && Tested(img, w, h, mono, solid, bg, fg)
    requires if solid then t.PaintTile? && t.subs.None? else t.RawTile? || (t.subs.Some? && t.coloured == !mono)
    ensures Fitting(t, img, w, h)
  {
    forall b, c | Only(img, w, h, b, c)
      ensures Only(img, w, h, bg, c) || Only(img, w, h, bg, b)
      ensures b == c ==> Only(img, w, h, bg, bg)
    {
    }
  }

  /** The rest of a tile that is not of one colour. */
  method SendSubrects(cl: UpdateBuf, clientPixelData: array2<int>, startUblen: nat, s: Screen, x: int, y: int, w: int, h: int,
                      n: nat, mono: bool, bg: int, newFg: int, fg0: int, validFg0: bool,
                      ghost pre: seq<Byte>, ghost bgSpec: Option<int>, ghost st: Colours)
    returns (validBg: bool, fg: int, validFg: bool, ghost t: Tile)
    requires cl.Valid() && 1 <= n <= 4 && |pre| == startUblen <= cl.ublen
    requires startUblen + 1 + (2 + 16 * 16) * n <= UPDATE_BUF_SIZE && cl.ublen <= startUblen + 1 + n
    requires 1 <= w <= 16 && 1 <= h <= 16 && Within(s, x, y, w, h) && PictureFits(Area(s, x, y, w, h), n)
    requires clientPixelData.Length1 == w && clientPixelData.Length0 == h && Picture(clientPixelData) == Area(s, x, y, w, h)
    requires 0 <= bg < Range(n) && (bgSpec == Some(bg) || (bgSpec == None && st.bg == Some(bg)))
    requires mono ==> 0 <= newFg < Range(n) && Only(Area(s, x, y, w, h), w, h, bg, newFg)
    requires mono ==> 2 * |Foreground(Area(s, x, y, w, h), w, h, bg)| <= w * h
    requires Begun(pre, Flag(bgSpec.Some?, BACKGROUND_SPECIFIED), OptionalPixel(bgSpec, n), cl.Pending())
    requires st.fg == if validFg0 then Some(fg0) else None
    modifies cl`ublen, cl.updateBuf, clientPixelData
    ensures cl.Valid()
    ensures Sent(t, pre, cl.Pending(), Area(s, x, y, w, h), w, h, n, st, Carried(validBg, bg, validFg, fg))
    ensures t.RawTile? || (t.bg == bgSpec && t.subs.Some? && t.coloured == !mono)
  {
    hide Sent;
    hide PictureFits;
    hide Begun;
    hide SubsFit;
    hide GoodSubs;
    hide SubsPart;
    hide Foreground;
    hide Only;
    hide Describes;
    hide TileBytes;
    ghost var img := Area(s, x, y, w, h);
    TileArea(w, h, n);
    validBg, fg, validFg := true, fg0, validFg0;
    ghost var fgSpec := PutForeground(cl, startUblen, mono, validFg0, fg0, newFg, n, pre,
                                      Flag(bgSpec.Some?, BACKGROUND_SPECIFIED), OptionalPixel(bgSpec, n));
    if mono {
      validFg, fg := true, newFg;
    } else {
      validFg := false;
    }
    ghost var head := cl.Pending();
    BegunPrefix(pre, Flag(bgSpec.Some?, BACKGROUND_SPECIFIED) + Flag(fgSpec.Some?, FOREGROUND_SPECIFIED) + ANY_SUBRECTS
      + Flag(!mono, SUBRECTS_COLOURED), OptionalPixel(bgSpec, n) + OptionalPixel(fgSpec, n), head);
    var fits, subs := SubrectEncode(cl, clientPixelData, bg, fg, mono, n);
    if fits {
      SubsTile(pre, cl.Pending(), img, w, h, n, st, bgSpec, fgSpec, bg, fg, mono, subs);
      t := PaintTile(bgSpec, fgSpec, Some(subs), !mono);
      SolidSent(t, pre, cl.Pending(), img, w, h, n, st, Carried(validBg, bg, validFg, fg));
    } else {
      validBg, validFg := false, false;
      assert cl.Pending()[..startUblen] == pre by {
        Shorter(cl.Pending(), head, pre);
      }
      PutRaw(cl, startUblen, s, x, y, w, h, n, pre);
      t := RawTile(img);
      RawSent(pre, img, w, h, n, st);
    }
  }

  /** The body of sendHextiles for one tile. */
  method SendTile(cl: UpdateBuf, s: Screen, x: int, y: int, w: int, h: int, n: nat,
                  bg0: int, validBg0: bool, fg0: int, validFg0: bool)
    returns (ok: bool, bg: int, validBg: bool, fg: int, validFg: bool, ghost t: Tile)
    requires cl.Valid() && 1 <= n <= 4
    requires 1 <= w <= 16 && 1 <= h <= 16 && Within(s, x, y, w, h) && PictureFits(Area(s, x, y, w, h), n)
    modifies cl, cl.updateBuf
    ensures cl.Valid()
    ensures ok ==> Sent(t, old(cl.Stream()), cl.Stream(), Area(s, x, y, w, h), w, h, n,
                        Carried(validBg0, bg0, validFg0, fg0), Carried(validBg, bg, validFg, fg))
    ensures ok ==> Fitting(t, Area(s, x, y, w, h), w, h)
    ensures cl.healthy ==> ok
  {
    hide Sent;
    hide PictureFits;
    hide Begun;
    hide Tested;
    hide SubsFit;
    hide GoodSubs;
    hide SubsPart;
    hide Fitting;
    ghost var img, st := Area(s, x, y, w, h), Carried(validBg0, bg0, validFg0, fg0);
    bg, validBg, fg, validFg, t := bg0, validBg0, fg0, validFg0, RawTile(img);
    ok := cl.MakeRoom(1 + (2 + 16 * 16) * n);
    if !ok { return; }
    ghost var pre, wire := cl.Pending(), cl.wire;
    var clientPixelData := Translate(s, x, y, w, h);
    var startUblen := cl.ublen;
    cl.Put([0]);
    BegunStart(pre, cl.Pending());
    var mono, solid, newBg, newFg := TestColours(clientPixelData);
    ChosenFit(img, w, h, n, mono, solid, newBg, newFg);
    TileArea(w, h, n);
    ghost var bgSpec := PutBackground(cl, startUblen, validBg, bg, newBg, n, pre);
    validBg, bg := true, newBg;
    if solid {
      SolidTile(pre, cl.Pending(), img, w, h, n, st, bgSpec, bg);
      t := PaintTile(bgSpec, None, None, false);
      SolidSent(t, pre, cl.Pending(), img, w, h, n, st, Carried(validBg, bg, validFg, fg));
      SentOnTop(t, wire, pre, cl.Pending(), img, w, h, n, st, Carried(validBg, bg, validFg, fg));
      KindOf(t, img, w, h, mono, solid, newBg, newFg);
      return;
    }
    validBg, fg, validFg, t := SendSubrects(cl, clientPixelData, startUblen, s, x, y, w, h, n, mono, bg, newFg, fg, validFg,
                                            pre, bgSpec, st);
    SentOnTop(t, wire, pre, cl.Pending(), img, w, h, n, st, Carried(validBg, bg, validFg, fg));
    KindOf(t, img, w, h, mono, solid, newBg, newFg);
  }

  lemma BegunStart(pre: seq<Byte>, now: seq<Byte>)
    requires now == pre + [0]
    ensures Begun(pre, 0, [], now)
  {
  }

  lemma BegunPrefix(pre: seq<Byte>, mask: Byte, body: seq<Byte>, now: seq<Byte>)
    requires Begun(pre, mask, body, now)
    ensures now == pre + [mask] + body && |now| >= |pre| && now[..|pre|] == pre
  {
  }

  lemma Shorter(a: seq<Byte>, b: seq<Byte>, c: seq<Byte>)
    requires |c| <= |b| <= |a| && a[..|b|] == b && b[..|c|] == c
    ensures a[..|c|] == c
  {
  }

  lemma SolidSent(t: Tile, before: seq<Byte>, now: seq<Byte>, img: Image, w: nat, h: nat, n: nat, st: Colours, st': Colours)
    requires Describes(t, img, w, h, n, st) && now == before + TileBytes(t, n) && After(t, st) == st'
    ensures Sent(t, before, now, img, w, h, n, st, st')
  {
  }

  // ---- A rectangle ----

  lemma TileOf(s: Screen, rx: int, ry: int, rw: nat, rh: nat, x: nat, y: nat, n: nat)
    requires Within(s, rx, ry, rw, rh) && x < rw && y < rh && PictureFits(Area(s, rx, ry, rw, rh), n)
    ensures var w, h := TileExtent(rw, x), TileExtent(rh, y);
      && 1 <= w <= 16 && 1 <= h <= 16 && Within(s, rx + x, ry + y, w, h) && PictureFits(Area(s, rx + x, ry + y, w, h), n)
      && PartOf(Area(s, rx + x, ry + y, w, h), Area(s, rx, ry, rw, rh), x, y)
  {
    var w, h := TileExtent(rw, x), TileExtent(rh, y);
    var a, b := Area(s, rx + x, ry + y, w, h), Area(s, rx, ry, rw, rh);
    forall j | 0 <= j < h
      ensures PixelsFit(a[j], n)
    {
      forall i | 0 <= i < w
        ensures 0 <= a[j][i] < Range(n)
      {
        assert a[j][i] == b[y + j][x + i] && PixelsFit(b[y + j], n);
      }
    }
  }

  /** The state of the loops: what was written decodes up to the tile at (x, y). */
  ghost predicate Underway(before: seq<Byte>, now: seq<Byte>, img: Image, w: nat, h: nat, n: nat, x: nat, y: nat, st: Colours) {
    exists out, canvas :: now == before + out && Leads(out, x, y, w, h, n, st, canvas) && Drawn(canvas, img, w, h, x, y)
  }

  lemma UnderwayStart(before: seq<Byte>, img: Image, w: nat, h: nat, n: nat)
    requires IsImage(img, w, h)
    ensures Underway(before, before, img, w, h, n, 0, 0, Colours(None, None))
  {
    LeadsStart(w, h, n);
    assert before == before + [];
    assert Drawn(Solid(w, h, 0), img, w, h, 0, 0);
  }

  lemma UnderwayRow(before: seq<Byte>, now: seq<Byte>, img: Image, w: nat, h: nat, n: nat, x: nat, y: nat, st: Colours)
    requires Underway(before, now, img, w, h, n, x, y, st) && x >= w && y < h
    ensures Underway(before, now, img, w, h, n, 0, y + 16, st)
  {
    var out, canvas :| now == before + out && Leads(out, x, y, w, h, n, st, canvas) && Drawn(canvas, img, w, h, x, y);
    LeadsRow(out, x, y, w, h, n, st, canvas);
    assert Drawn(canvas, img, w, h, 0, y + 16);
  }

  lemma UnderwayStep(before: seq<Byte>, now: seq<Byte>, now': seq<Byte>, img: Image, w: nat, h: nat, n: nat, x: nat, y: nat,
                     st: Colours, st': Colours, t: Tile, part: Image)
    requires Underway(before, now, img, w, h, n, x, y, st) && x < w && y < h
    requires Sent(t, now, now', part, TileExtent(w, x), TileExtent(h, y), n, st, st')
    requires PartOf(part, img, x, y)
    ensures Underway(before, now', img, w, h, n, x + 16, y, st')
  {
    hide Leads;
    hide TileBytes;
    var out, canvas :| now == before + out && Leads(out, x, y, w, h, n, st, canvas) && Drawn(canvas, img, w, h, x, y);
    LeadsStep(out, x, y, w, h, n, st, canvas, t, part);
    DrawnStep(canvas, img, part, w, h, x, y);
    Regroup(before, out, TileBytes(t, n));
  }

  /** sendHextiles. What is added to the stream decodes to the rectangle of the screen, and
      what follows it is left for the next one. */
  method SendHextiles(cl: UpdateBuf, s: Screen, rx: int, ry: int, rw: int, rh: int, n: nat)
    returns (ok: bool, ghost out: seq<Byte>)
    requires cl.Valid() && 1 <= n <= 4 && Within(s, rx, ry, rw, rh) && PictureFits(Area(s, rx, ry, rw, rh), n)
    modifies cl, cl.updateBuf
    ensures cl.Valid()
    ensures ok ==> cl.Stream() == old(cl.Stream()) + out
    ensures ok ==> forall rest :: Decode(out + rest, rw, rh, n) == Some((Area(s, rx, ry, rw, rh), rest))
    ensures cl.healthy ==> ok
  {
    hide PictureFits;
    hide Underway;
    hide Sent;
    ghost var img, before := Area(s, rx, ry, rw, rh), cl.Stream();
    var bg, validBg, fg, validFg := 0, false, 0, false;
    ghost var t;
    ok, out := true, [];
    UnderwayStart(before, img, rw, rh, n);
    var y := ry;
    while y < ry + rh
      invariant ry <= y && cl.Valid()
      invariant Underway(before, cl.Stream(), img, rw, rh, n, 0, y - ry, Carried(validBg, bg, validFg, fg))
    {
      var x := rx;
      while x < rx + rw
        invariant rx <= x && cl.Valid()
        invariant Underway(before, cl.Stream(), img, rw, rh, n, x - rx, y - ry, Carried(validBg, bg, validFg, fg))
      {
        var w, h := 16, 16;
        if rx + rw - x < 16 { w := rx + rw - x; }
        if ry + rh - y < 16 { h := ry + rh - y; }
        TileOf(s, rx, ry, rw, rh, x - rx, y - ry, n);
        ghost var now, st := cl.Stream(), Carried(validBg, bg, validFg, fg);
        ok, bg, validBg, fg, validFg, t := SendTile(cl, s, x, y, w, h, n, bg, validBg, fg, validFg);
        if !ok { return; }
        UnderwayStep(before, now, cl.Stream(), img, rw, rh, n, x - rx, y - ry, st, Carried(validBg, bg, validFg, fg),
                     t, Area(s, x, y, w, h));
        x := x + 16;
      }
      UnderwayRow(before, cl.Stream(), img, rw, rh, n, x - rx, y - ry, Carried(validBg, bg, validFg, fg));
      y := y + 16;
    }
    out := UnderwayDone(before, cl.Stream(), img, rw, rh, n, y - ry, Carried(validBg, bg, validFg, fg));
  }

  lemma UnderwayDone(before: seq<Byte>, now: seq<Byte>, img: Image, w: nat, h: nat, n: nat, y: nat, st: Colours)
    returns (out: seq<Byte>)
    requires Underway(before, now, img, w, h, n, 0, y, st) && y >= h
    ensures now == before + out && forall rest :: Decode(out + rest, w, h, n) == Some((img, rest))
  {
    ghost var canvas;
    out, canvas :| now == before + out && Leads(out, 0, y, w, h, n, st, canvas) && Drawn(canvas, img, w, h, 0, y);
    LeadsDone(out, y, w, h, n, st, canvas, img);
  }
}
