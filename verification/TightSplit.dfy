/** How the Tight encoder cuts a rectangle into the ones it sends: large areas of one
    colour are found and sent on their own, what remains around them is cut to size. */
module TightSplit {
  import opened Basics
  import opened BoxTally
  import opened Images
  import opened Bytes
  import opened Rectangles
  import opened RegionForm
  import opened TightBuffer
  import opened TightFormat
  import opened TightLevels
  import opened TightRect
  import opened TightWays
  import opened TightWire
  import opened UpdateBuffer
  import opened ZrleFormat

  const MIN_SPLIT_RECT_SIZE := 4096
  const MIN_SOLID_SUBRECT_SIZE := 2048
  const MAX_SPLIT_TILE_SIZE := 16

  /** A rectangle that is sent: filled with the colour of its first pixel, or encoded. */
  datatype Piece = Piece(box: Box, fill: bool)

  function Boxes(ps: seq<Piece>): seq<Box> {
    seq(|ps|, i requires 0 <= i < |ps| => ps[i].box)
  }

  // ---- Cutting a box exactly ----

  /** Every point of b is in one of the pieces, and in no other; no piece has more. */
  ghost predicate ExactCover(ps: seq<Piece>, b: Box) {
    forall x, y :: Mult(Boxes(ps), x, y) == if InBox(b, x, y) then 1 else 0
  }

  lemma CoverNothing(b: Box)
    requires !NonEmpty(b)
    ensures ExactCover([], b)
  {
  }

  lemma CoverOne(p: Piece)
    ensures ExactCover([p], p.box)
  {
    forall x, y
      ensures Mult(Boxes([p]), x, y) == if InBox(p.box, x, y) then 1 else 0
    {
      assert Boxes([p]) == [] + [p.box];
      MultSnoc([], p.box, x, y);
    }
  }

  /** b falls into two parts, one below or beside the other. */
  predicate SplitOf(b1: Box, b2: Box, b: Box) {
    || (b1 == b.(y2 := b2.y1) && b2 == b.(y1 := b2.y1) && b.y1 <= b2.y1 <= b.y2)
    || (b1 == b.(x2 := b2.x1) && b2 == b.(x1 := b2.x1) && b.x1 <= b2.x1 <= b.x2)
  }

  lemma CoverJoin(ps: seq<Piece>, qs: seq<Piece>, b1: Box, b2: Box, b: Box)
    requires ExactCover(ps, b1) && ExactCover(qs, b2) && SplitOf(b1, b2, b)
    ensures ExactCover(ps + qs, b)
  {
    forall x, y
      ensures Mult(Boxes(ps + qs), x, y) == if InBox(b, x, y) then 1 else 0
    {
      assert Boxes(ps + qs) == Boxes(ps) + Boxes(qs);
      MultConcat(Boxes(ps), Boxes(qs), x, y);
    }
  }

  // ---- The search for areas of one colour ----

  /** As large as allowed, or a whole number of tiles. */
  predicate OnGrid(v: int, limit: int) {
    v <= limit && (v % MAX_SPLIT_TILE_SIZE == 0 || v == limit)
  }

  /** A number of lines after which a row of tiles starts. */
  predicate TileStart(rows: int) {
    rows % MAX_SPLIT_TILE_SIZE == 0
  }

  lemma NextTile(rows: int)
    requires TileStart(rows)
    ensures TileStart(rows + MAX_SPLIT_TILE_SIZE)
  {
  }

  lemma WholeGrid(w: int)
    ensures OnGrid(w, w)
  {
  }

  lemma GridOfGrid(a: int, b: int, c: int)
    requires OnGrid(a, b) && OnGrid(b, c)
    ensures OnGrid(a, c)
  {
  }

  /** The area of w by h pixels with its upper left corner at (x, y) is of the colour. */
  ghost predicate AreaOf(fb: Image, x: int, y: int, w: int, h: int, colour: int) {
    OneColour(fb, Box(x, y, x + w, y + h), colour)
  }

  /** With rows lines looked at: no area of up to as many is larger than best, and none that
      goes on is wider than wPrev. */
  ghost predicate BestSoFar(fb: Image, x: int, y: int, w: int, h: int, colour: int, rows: int, wPrev: int, best: int) {
    forall w', h' :: 0 < w' && 0 < h' && OnGrid(w', w) && OnGrid(h', h) && AreaOf(fb, x, y, w', h', colour) ==>
      if h' <= rows then w' * h' <= best else w' <= wPrev
  }

  /** No area of tiles is larger. */
  ghost predicate IsBest(fb: Image, x: int, y: int, w: int, h: int, colour: int, best: int) {
    forall w', h' :: 0 < w' && 0 < h' && OnGrid(w', w) && OnGrid(h', h) && AreaOf(fb, x, y, w', h', colour) ==> w' * h' <= best
  }

  /** An area of whole tiles of one colour, large enough to be sent on its own, has its upper
      left corner at (dx, dy). */
  ghost predicate LargeAt(fb: Image, right: int, bottom: int, dx: int, dy: int) {
    exists w', h', colour :: Large(fb, right, bottom, dx, dy, w', h', colour)
  }

  ghost predicate Large(fb: Image, right: int, bottom: int, dx: int, dy: int, w': int, h': int, colour: int) {
    && 0 < w' && 0 < h' && OnGrid(w', right - dx) && OnGrid(h', bottom - dy) && AreaOf(fb, dx, dy, w', h', colour)
    && w' * h' >= MIN_SOLID_SUBRECT_SIZE
  }

  /** There is one at a tile of the rectangle. */
  ghost predicate HasLarge(fb: Image, b: Box) {
    exists dx, dy :: TileOf(b, dx, dy) && LargeAt(fb, b.x2, b.y2, dx, dy)
  }

  predicate TileOf(b: Box, dx: int, dy: int) {
    InBox(b, dx, dy) && TileStart(dx - b.x1) && TileStart(dy - b.y1)
  }

  /** There is none at a tile that comes before (dx, dy). */
  ghost predicate NoneBefore(fb: Image, b: Box, dx: int, dy: int) {
    forall i, j :: TileOf(b, i, j) && (j < dy || (j == dy && i < dx)) ==> !LargeAt(fb, b.x2, b.y2, i, j)
  }

  lemma NoneInRow(fb: Image, b: Box, dx: int, dy: int)
    requires NoneBefore(fb, b, dx, dy) && TileStart(dx - b.x1) && TileStart(dy - b.y1)
    requires InBox(b, dx, dy) ==> !LargeAt(fb, b.x2, b.y2, dx, dy)
    ensures NoneBefore(fb, b, dx + MAX_SPLIT_TILE_SIZE, dy) && TileStart(dx + MAX_SPLIT_TILE_SIZE - b.x1)
  {
    hide LargeAt;
  }

  lemma NoneInRows(fb: Image, b: Box, dx: int, dy: int)
    requires NoneBefore(fb, b, dx, dy) && dx >= b.x2 && TileStart(dy - b.y1)
    ensures NoneBefore(fb, b, b.x1, dy + MAX_SPLIT_TILE_SIZE) && TileStart(dy + MAX_SPLIT_TILE_SIZE - b.y1)
  {
    hide LargeAt;
  }

  lemma NoneAtAll(fb: Image, b: Box, dx: int, dy: int)
    requires NoneBefore(fb, b, dx, dy) && dy >= b.y2
    ensures !HasLarge(fb, b)
  {
    hide LargeAt;
  }

  /** A large area starts with a tile of one colour. */
  lemma LargeIsSolid(s: Screen, sw: nat, sh: nat, n: nat, b: Box, dx: int, dy: int)
    requires IsScreen(s, sw, sh, n) && Rectangles.OnScreen(b, sw, sh) && InBox(b, dx, dy) && LargeAt(s.pixels, b.x2, b.y2, dx, dy)
    ensures 0 <= dy < |s.pixels| && 0 <= dx < |s.pixels[dy]|
    ensures OneColour(s.pixels, Box(dx, dy, dx + Extent(b.x2 - dx), dy + Extent(b.y2 - dy)), s.pixels[dy][dx])
  {
    var w', h', v :| Large(s.pixels, b.x2, b.y2, dx, dy, w', h', v);
    assert s.pixels[dy][dx] == v;
    AtLeastOneTile(w', b.x2 - dx);
    AtLeastOneTile(h', b.y2 - dy);
    AreaPart(s.pixels, Box(dx, dy, dx + w', dy + h'), Box(dx, dy, dx + Extent(b.x2 - dx), dy + Extent(b.y2 - dy)), v);
  }

  /** The search finds no less. */
  lemma LargeIsFound(s: Screen, sw: nat, sh: nat, n: nat, b: Box, dx: int, dy: int, colour: int, best: int)
    requires IsScreen(s, sw, sh, n) && Rectangles.OnScreen(b, sw, sh) && InBox(b, dx, dy) && LargeAt(s.pixels, b.x2, b.y2, dx, dy)
    requires OneColour(s.pixels, Box(dx, dy, dx + Extent(b.x2 - dx), dy + Extent(b.y2 - dy)), colour)
    requires IsBest(s.pixels, dx, dy, b.x2 - dx, b.y2 - dy, colour, best)
    ensures best >= MIN_SOLID_SUBRECT_SIZE
  {
    var w', h', v :| Large(s.pixels, b.x2, b.y2, dx, dy, w', h', v);
    assert s.pixels[dy][dx] == v == colour;
  }

  lemma AtLeastOneTile(v: int, limit: int)
    requires 0 < v && OnGrid(v, limit)
    ensures Extent(limit) <= v
  {
  }

  lemma NoneAtFirst(fb: Image, b: Box)
    ensures NoneBefore(fb, b, b.x1, b.y1) && TileStart(0)
  {
    hide LargeAt;
  }

  /** Something is filled. */
  predicate Fills(ps: seq<Piece>) {
    exists k :: 0 <= k < |ps| && ps[k].fill
  }

  lemma FillsMore(ps: seq<Piece>, part: seq<Piece>)
    requires Fills(part)
    ensures Fills(ps + part)
  {
    var k :| 0 <= k < |part| && part[k].fill;
    assert (ps + part)[|ps| + k] == part[k];
  }

  lemma NoneYet(fb: Image, x: int, y: int, w: int, h: int, colour: int)
    ensures BestSoFar(fb, x, y, w, h, colour, 0, w, 0)
  {
  }

  lemma NothingLeft(fb: Image, x: int, y: int, w: int, h: int, colour: int, rows: int, reach: int, best: int)
    requires BestSoFar(fb, x, y, w, h, colour, rows, reach, best) && (rows >= h || reach <= 0)
    ensures IsBest(fb, x, y, w, h, colour, best)
  {
    hide AreaOf;
  }

  lemma AreaPart(fb: Image, b: Box, part: Box, colour: int)
    requires OneColour(fb, b, colour) && b.x1 <= part.x1 && part.x2 <= b.x2 && b.y1 <= part.y1 && part.y2 <= b.y2
    ensures OneColour(fb, part, colour)
  {
  }

  lemma NextTileWithin(w': int, wide: int, wPrev: int, w: int)
    requires OnGrid(w', w) && OnGrid(wide, wPrev) && OnGrid(wPrev, w) && 0 <= wide < w' <= wPrev
    ensures wide + Extent(wPrev - wide) <= w'
  {
    if w' < wPrev {
      NextMultiple(w', wide);
    }
  }

  lemma NextMultiple(a: int, b: int)
    requires a % MAX_SPLIT_TILE_SIZE == 0 && b % MAX_SPLIT_TILE_SIZE == 0 && b < a
    ensures b + MAX_SPLIT_TILE_SIZE <= a
  {
  }

  lemma NextRowWithin(h': int, h: int, rows: int, dh: int)
    requires OnGrid(h', h) && 0 <= rows < h' && TileStart(rows)
    requires dh == if rows + MAX_SPLIT_TILE_SIZE <= h then MAX_SPLIT_TILE_SIZE else h - rows
    ensures rows + dh <= h'
  {
    if h' < h {
      NextMultiple(h', rows);
    }
  }

  /** Areas that reach into the next row of tiles are no wider than its tiles of the colour. */
  lemma TilesLimit(fb: Image, x: int, y: int, w: int, h: int, colour: int, rows: int, dh: int, wPrev: int, wide: int, best: int)
    requires BestSoFar(fb, x, y, w, h, colour, rows, wPrev, best) && OnGrid(wPrev, w) && OnGrid(wide, wPrev)
    requires 0 <= rows < h && TileStart(rows) && 0 <= wide && 0 < wPrev
    requires dh == if rows + MAX_SPLIT_TILE_SIZE <= h then MAX_SPLIT_TILE_SIZE else h - rows
    requires wide < wPrev ==>
      !OneColour(fb, Box(x + wide, y + rows, x + wide + Extent(wPrev - wide), y + rows + dh), colour)
    ensures BestSoFar(fb, x, y, w, h, colour, rows, wide, best)
  {
    hide OneColour;
    hide TileStart;
    forall w', h' | 0 < w' && 0 < h' && OnGrid(w', w) && OnGrid(h', h) && AreaOf(fb, x, y, w', h', colour)
      ensures if h' <= rows then w' * h' <= best else w' <= wide
    {
      if h' > rows && w' > wide {
        assert w' <= wPrev;
        NextTileWithin(w', wide, wPrev, w);
        NextRowWithin(h', h, rows, dh);
        AreaPart(fb, Box(x, y, x + w', y + h'), Box(x + wide, y + rows, x + wide + Extent(wPrev - wide), y + rows + dh), colour);
      }
    }
  }

  /** A row of tiles has been looked at, and the area up to it been compared. */
  lemma RowsTaken(fb: Image, x: int, y: int, w: int, h: int, colour: int, rows: int, dh: int, wide: int, before: int, best: int)
    requires BestSoFar(fb, x, y, w, h, colour, rows, wide, before)
    requires 0 <= rows < h && TileStart(rows)
    requires dh == if rows + MAX_SPLIT_TILE_SIZE <= h then MAX_SPLIT_TILE_SIZE else h - rows
    requires before <= best && wide * (rows + dh) <= best
    ensures BestSoFar(fb, x, y, w, h, colour, rows + MAX_SPLIT_TILE_SIZE, wide, best)
  {
    hide AreaOf;
    forall w', h' | 0 < w' && 0 < h' && OnGrid(w', w) && OnGrid(h', h) && AreaOf(fb, x, y, w', h', colour)
      ensures if h' <= rows + MAX_SPLIT_TILE_SIZE then w' * h' <= best else w' <= wide
    {
      if rows < h' <= rows + MAX_SPLIT_TILE_SIZE {
        LastRows(h', h, rows, dh);
        MulMonotone(w', wide, h');
      }
    }
  }

  lemma LastRows(h': int, h: int, rows: int, dh: int)
    requires OnGrid(h', h) && 0 <= rows < h' <= rows + MAX_SPLIT_TILE_SIZE && TileStart(rows)
    requires dh == if rows + MAX_SPLIT_TILE_SIZE <= h then MAX_SPLIT_TILE_SIZE else h - rows
    ensures h' == rows + dh
  {
  }

  // ---- What every piece is ----

  /** All pixels of the box are of this colour. */
  ghost predicate OneColour(fb: Image, b: Box, c: int) {
    forall j, i :: b.y1 <= j < b.y2 && b.x1 <= i < b.x2 && 0 <= j < |fb| && 0 <= i < |fb[j]| ==> fb[j][i] == c
  }

  ghost predicate IsSolid(fb: Image, b: Box) {
    exists v :: OneColour(fb, b, v)
  }

  /** A filled piece is of one colour; any other is within the limits of its level. */
  ghost predicate RightPiece(p: Piece, fb: Image, c: Conf) {
    && NonEmpty(p.box)
    && if p.fill then exists v :: OneColour(fb, p.box, v)
       else p.box.x2 - p.box.x1 <= c.maxRectWidth && (p.box.x2 - p.box.x1) * (p.box.y2 - p.box.y1) <= c.maxRectSize
  }

  ghost predicate RightPieces(ps: seq<Piece>, fb: Image, c: Conf) {
    forall k :: 0 <= k < |ps| ==> RightPiece(ps[k], fb, c)
  }

  /** What is sent for b. */
  ghost predicate CutsUp(ps: seq<Piece>, b: Box, fb: Image, c: Conf) {
    ExactCover(ps, b) && RightPieces(ps, fb, c)
  }

  lemma CutJoin(ps: seq<Piece>, qs: seq<Piece>, b1: Box, b2: Box, b: Box, fb: Image, c: Conf)
    requires CutsUp(ps, b1, fb, c) && CutsUp(qs, b2, fb, c) && SplitOf(b1, b2, b)
    ensures CutsUp(ps + qs, b, fb, c)
  {
    CoverJoin(ps, qs, b1, b2, b);
  }

  lemma CutOne(p: Piece, fb: Image, c: Conf)
    requires RightPiece(p, fb, c)
    ensures CutsUp([p], p.box, fb, c)
  {
    CoverOne(p);
  }

  lemma CutNothing(b: Box, fb: Image, c: Conf)
    requires b.x1 >= b.x2 || b.y1 >= b.y2
    ensures CutsUp([], b, fb, c)
  {
    CoverNothing(b);
  }

  /** A piece of the grid is within the limits. */
  lemma GridPiece(p: Piece, m: int, rh: int, fb: Image, c: Conf)
    requires NonEmpty(p.box) && !p.fill && p.box.x2 - p.box.x1 <= m <= c.maxRectWidth
    requires p.box.y2 - p.box.y1 == rh && rh * m <= c.maxRectSize
    ensures RightPiece(p, fb, c)
  {
    MulMonotone(p.box.x2 - p.box.x1, m, rh);
  }

  /** One more piece of a row. */
  lemma GridStep(ps: seq<Piece>, p: Piece, x: int, fb: Image, c: Conf)
    requires CutsUp(ps, p.box.(x1 := x, x2 := p.box.x1), fb, c) && x <= p.box.x1 && RightPiece(p, fb, c)
    ensures CutsUp(ps + [p], p.box.(x1 := x), fb, c)
  {
    CutOne(p, fb, c);
    CutJoin(ps, [p], p.box.(x1 := x, x2 := p.box.x1), p.box, p.box.(x1 := x), fb, c);
  }

  // ---- The count announced ----

  /** rfbNumCodedRectsTight; 0 for a number that is not known beforehand. */
  function NumCodedRects(w: int, h: int, c: Conf, enableLastRect: bool): int
    requires 0 < w && 0 < h && 0 < c.maxRectWidth <= c.maxRectSize
  {
    if enableLastRect && w * h >= MIN_SPLIT_RECT_SIZE then 0
    else if w > c.maxRectWidth || w * h > c.maxRectSize then
      var subrectMaxWidth := if w > c.maxRectWidth then c.maxRectWidth else w;
      var subrectMaxHeight := c.maxRectSize / subrectMaxWidth;
      AtLeastOne(c.maxRectSize, subrectMaxWidth);
      ((w - 1) / c.maxRectWidth + 1) * ((h - 1) / subrectMaxHeight + 1)
    else 1
  }

  lemma AtLeastOne(a: int, b: int)
    requires 0 < b <= a
    ensures a / b >= 1 && b * (a / b) <= a
  {
  }

  // ---- Sending ----

  class TightClient {
    const screen: Screen
    const width: nat
    const height: nat
    const coder: TightCoder
    const enableLastRect: bool
    const fb: Image := screen.pixels  // the framebuffer
    const conf: Conf := coder.conf
    ghost const base: seq<Byte>       // what the client had been sent before
    ghost const start: Streams
    ghost var sent: seq<Piece>
    ghost var placed: seq<Placed>     // what the client makes of it

    ghost predicate Fixed() {
      IsFormat(coder.format) && IsScreen(screen, width, height, coder.format.n) && IsConf(conf)
    }

    /** Decoding what has been sent gives the pieces, as the screen shows them. */
    ghost predicate Logged()
      requires Fixed()
      reads this, coder, coder.cl, coder.cl.updateBuf
    {
      && coder.Valid() && Where(placed) == Boxes(sent) && AllAlike(placed, screen, width, height, coder.format)
      && exists out ::
           coder.cl.Stream() == base + out && TightCarries(out, placed, start, coder.past, coder.format, coder.codec)
    }

    ghost predicate Valid()
      reads this, coder, coder.cl, coder.cl.updateBuf
    {
      Fixed() && Logged()
    }

    ghost function Repr(): set<object> {
      {this, coder, coder.cl, coder.cl.updateBuf, coder.before, coder.after, coder.prevRowBuf}
    }

    /** Nothing can go wrong: no write fails, and whatever is compressed fits. */
    ghost predicate Reliable() {
      coder.cl.healthy && coder.Roomy()
    }

    constructor (screen: Screen, width: nat, height: nat, coder: TightCoder, enableLastRect: bool)
      requires coder.Valid() && IsScreen(screen, width, height, coder.format.n)
      ensures Valid() && sent == [] && placed == [] && base == coder.cl.Stream() && start == coder.past
      ensures this.screen == screen && this.width == width && this.height == height
      ensures this.coder == coder && this.enableLastRect == enableLastRect
    {
      this.screen, this.width, this.height, this.coder := screen, width, height, coder;
      this.enableLastRect, base, start, sent, placed := enableLastRect, coder.cl.Stream(), coder.past, [], [];
      new;
      TightCarriesNothing(start, coder.format, coder.codec);
      assert coder.cl.Stream() == base + [];
      assert Boxes(sent) == Where(placed);
    }

    lemma ValidIsFixed()
      requires Valid()
      ensures Fixed()
    {
    }

    predicate OnScreen(b: Box) {
      Rectangles.OnScreen(b, width, height)
    }

    /** SendSubrect, or SendSolidRect after SendTightHeader. */
    method Send(p: Piece) returns (ok: bool)
      requires Valid() && OnScreen(p.box) && RightPiece(p, fb, conf)
      modifies Repr()
      ensures ok ==> Valid() && sent == old(sent) + [p]
      ensures Reliable() ==> ok
    {
      hide IsFormat;
      hide IsScreen;
      hide TightCarries;
      hide AllAlike;
      hide RectGives;
      hide Faithful;
      hide HeaderBytes;
      hide TightCoder.Roomy;
      ghost var out :| coder.cl.Stream() == base + out
        && TightCarries(out, placed, start, coder.past, coder.format, coder.codec);
      ghost var st := coder.past;
      var b := p.box;
      var w, h := b.x2 - b.x1, b.y2 - b.y1;
      AreaFits(screen, width, height, coder.format.n, b);
      ghost var body, seen;
      if p.fill {
        ok, body, seen := SendFill(b);
      } else {
        var smooth := *;
        MulMonotone(0, w, h);
        ok, body, seen := coder.SendSubrect(screen, b.x1, b.y1, w, h, width, height, smooth);
      }
      if ok {
        OneMoreSent(base, out, coder.cl.Stream(), start, st, screen, width, height, coder.format, coder.codec, sent, placed, p,
                    body, coder.past, seen);
        sent, placed := sent + [p], placed + [Placed(Cut(seen, w, h), b, ENCODING_TIGHT)];
      }
    }

    /** A solid rectangle: its first pixel is translated and sent. */
    method SendFill(b: Box) returns (ok: bool, ghost body: seq<Byte>, ghost seen: seq<int>)
      requires Fixed() && coder.Valid() && OnScreen(b) && RightPiece(Piece(b, true), fb, conf)
      requires Within(screen, b.x1, b.y1, b.x2 - b.x1, b.y2 - b.y1)
      modifies Repr()
      ensures coder.Valid() && sent == old(sent) && placed == old(placed) && coder.past == old(coder.past)
      ensures ok ==> var head := HeaderBytes(b.x1, b.y1, b.x2 - b.x1, b.y2 - b.y1, ENCODING_TIGHT);
        coder.cl.Stream() == old(coder.cl.Stream()) + head + body
      ensures ok ==> coder.Sees(body, b.x2 - b.x1, b.y2 - b.y1, coder.past, coder.past, Flat(BoxArea(screen, b)), seen)
      ensures Reliable() ==> ok
    {
      hide IsFormat;
      hide RectGives;
      hide Faithful;
      hide Holds;
      hide TightCoder.Roomy;
      hide TightCoder.Valid;
      var w, h := b.x2 - b.x1, b.y2 - b.y1;
      body, seen := [], [];
      SolidArea(screen, b, fb, width, height, coder.format.n);
      coder.RoomForOne();
      hide IsScreen;
      hide RightPiece;
      ok := coder.SendTightHeader(b.x1, b.y1, w, h, width, height);
      if !ok { return; }
      var v := screen.translate(screen.pixels[b.y1][b.x1]);
      Store([v], coder.format.n, coder.before);
      ok, body := coder.SendSolidRect(w, h, v);
      seen := Shown(Repeat(v, h * w), coder.format);
    }

    /** CheckSolidTile. */
    method CheckSolidTile(x: int, y: int, w: int, h: int, colour: int, needSameColour: bool) returns (solid: bool, value: int)
      requires Fixed() && OnScreen(Box(x, y, x + w, y + h))
      ensures value == fb[y][x]
      ensures solid <==> OneColour(fb, Box(x, y, x + w, y + h), value) && (needSameColour ==> value == colour)
      ensures needSameColour ==> (solid <==> OneColour(fb, Box(x, y, x + w, y + h), colour))
    {
      value := fb[y][x];
      if needSameColour && value != colour { return false, value; }
      var dy := 0;
      while dy < h
        invariant 0 <= dy <= h && OneColour(fb, Box(x, y, x + w, y + dy), value)
      {
        var dx := 0;
        while dx < w
          invariant 0 <= dx <= w && OneColour(fb, Box(x, y + dy, x + dx, y + dy + 1), value)
        {
          if value != fb[y + dy][x + dx] { return false, value; }
          dx := dx + 1;
        }
        dy := dy + 1;
      }
      solid := true;
    }

    /** The tiles of one row that are of the colour, up to the first that is not. */
    method SolidTiles(x: int, y: int, w: int, h: int, colour: int) returns (wide: int)
      requires Fixed() && OnScreen(Box(x, y, x + w, y + h))
      ensures 0 <= wide <= w && (wide > 0 ==> wide >= Extent(w) && OneColour(fb, Box(x, y, x + wide, y + h), colour))
      ensures wide < w ==> !OneColour(fb, Box(x + wide, y, x + wide + Extent(w - wide), y + h), colour)
      ensures OnGrid(wide, w)
    {
      hide OneColour;
      var dw := if w > MAX_SPLIT_TILE_SIZE then MAX_SPLIT_TILE_SIZE else w;
      var solid, value := CheckSolidTile(x, y, dw, h, colour, true);
      if !solid { return 0; }
      var dx := x + dw;
      while dx < x + w
        invariant x + Extent(w) <= dx <= x + w && OnGrid(dx - x, w)
        invariant OneColour(fb, Box(x, y, dx, y + h), colour)
      {
        dw := if dx + MAX_SPLIT_TILE_SIZE <= x + w then MAX_SPLIT_TILE_SIZE else x + w - dx;
        solid, value := CheckSolidTile(dx, y, dw, h, colour, true);
        if !solid { return dx - x; }
        OneColourJoin(Box(x, y, dx, y + h), Box(dx, y, dx + dw, y + h), Box(x, y, dx + dw, y + h), colour);
        dx := dx + dw;
      }
      wide := dx - x;
    }

    /** FindBestSolidArea: the best area with its upper left corner at (x, y), tile by
        tile; the first tile is known to be of one colour. */
    method FindBestSolidArea(x: int, y: int, w: int, h: int, colour: int) returns (wBest: int, hBest: int)
      requires Fixed() && OnScreen(Box(x, y, x + w, y + h))
      requires OneColour(fb, Box(x, y, x + Extent(w), y + Extent(h)), colour)
      ensures Extent(w) <= wBest <= w && Extent(h) <= hBest <= h
      ensures OneColour(fb, Box(x, y, x + wBest, y + hBest), colour)
      ensures IsBest(fb, x, y, w, h, colour, wBest * hBest)
    {
      hide OneColour;
      hide BestSoFar;
      hide IsBest;
      WholeGrid(w);
      assert TileStart(0);
      hide OnGrid;
      hide TileStart;
      var wPrev := w;
      wBest, hBest := 0, 0;
      ghost var reach, best := w, 0;  // how wide areas can be that go on, and the largest that do not
      var dy := y;
      NoRows(x, y, w, colour);
      NoneYet(fb, x, y, w, h, colour);
      while dy < y + h
        invariant y <= dy && Extent(w) <= wPrev <= w && reach == wPrev
        invariant dy < y + h ==> OneColour(fb, Box(x, y, x + wPrev, dy), colour)
        invariant dy == y ==> wPrev == w && wBest == 0 && hBest == 0
        invariant dy > y ==> Extent(w) <= wBest <= w && Extent(h) <= hBest <= h && OneColour(fb, Box(x, y, x + wBest, y + hBest), colour)
        invariant TileStart(dy - y) && OnGrid(wPrev, w)
        invariant BestSoFar(fb, x, y, w, h, colour, dy - y, reach, best) && best == wBest * hBest
      {
        var dh := if dy + MAX_SPLIT_TILE_SIZE <= y + h then MAX_SPLIT_TILE_SIZE else y + h - dy;
        var wide := SolidTiles(x, dy, wPrev, dh, colour);
        TilesLimit(fb, x, y, w, h, colour, dy - y, dh, wPrev, wide, best);
        reach := wide;
        if wide == 0 { break; }
        GridOfGrid(wide, wPrev, w);
        OneColourPart(Box(x, y, x + wPrev, dy), x + wide, colour);
        OneColourJoin(Box(x, y, x + wide, dy), Box(x, dy, x + wide, dy + dh), Box(x, y, x + wide, dy + dh), colour);
        wPrev := wide;
        MulMonotone(1, wPrev, dy + dh - y);
        ghost var before := best;
        if wPrev * (dy + dh - y) > wBest * hBest {
          wBest, hBest := wPrev, dy + dh - y;
        }
        best := wBest * hBest;
        RowsTaken(fb, x, y, w, h, colour, dy - y, dh, wide, before, best);
        ghost var rows := dy - y;
        NextTile(rows);
        dy := dy + MAX_SPLIT_TILE_SIZE;
        assert dy - y == rows + MAX_SPLIT_TILE_SIZE;
      }
      NothingLeft(fb, x, y, w, h, colour, dy - y, reach, best);
    }

    lemma NoRows(x: int, y: int, w: int, c: int)
      ensures OneColour(fb, Box(x, y, x + w, y), c)
    {
    }

    lemma OneColourPart(b: Box, x2: int, c: int)
      requires OneColour(fb, b, c) && x2 <= b.x2
      ensures OneColour(fb, b.(x2 := x2), c)
    {
    }

    /** The first half of ExtendSolidArea: upwards and downwards. */
    method ExtendRows(y: int, h: int, colour: int, x0: int, y0: int, w0: int, h0: int) returns (y1: int, h1: int)
      requires Fixed() && 0 <= y && y + h <= height && OnScreen(Box(x0, y0, x0 + w0, y0 + h0)) && y <= y0 && y0 + h0 <= y + h
      requires OneColour(fb, Box(x0, y0, x0 + w0, y0 + h0), colour)
      ensures y <= y1 <= y0 && y0 + h0 <= y1 + h1 <= y + h
      ensures OneColour(fb, Box(x0, y1, x0 + w0, y1 + h1), colour)
      ensures y1 > y ==> !OneColour(fb, Box(x0, y1 - 1, x0 + w0, y1), colour)
      ensures y1 + h1 < y + h ==> !OneColour(fb, Box(x0, y1 + h1, x0 + w0, y1 + h1 + 1), colour)
    {
      hide OneColour;
      var solid, value := true, 0;
      var cy := y0 - 1;
      while cy >= y
        invariant y - 1 <= cy < y0
        invariant OneColour(fb, Box(x0, cy + 1, x0 + w0, y0 + h0), colour)
      {
        solid, value := CheckSolidTile(x0, cy, w0, 1, colour, true);
        if !solid { break; }
        OneColourJoin(Box(x0, cy, x0 + w0, cy + 1), Box(x0, cy + 1, x0 + w0, y0 + h0), Box(x0, cy, x0 + w0, y0 + h0), colour);
        cy := cy - 1;
      }
      h1 := h0 + (y0 - (cy + 1));
      y1 := cy + 1;
      cy := y1 + h1;
      while cy < y + h
        invariant y1 + h1 <= cy <= y + h
        invariant OneColour(fb, Box(x0, y1, x0 + w0, cy), colour)
      {
        solid, value := CheckSolidTile(x0, cy, w0, 1, colour, true);
        if !solid { break; }
        OneColourJoin(Box(x0, y1, x0 + w0, cy), Box(x0, cy, x0 + w0, cy + 1), Box(x0, y1, x0 + w0, cy + 1), colour);
        cy := cy + 1;
      }
      h1 := h1 + (cy - (y1 + h1));
    }

    lemma OneColourJoin(b1: Box, b2: Box, b: Box, c: int)
      requires SplitOf(b1, b2, b) && OneColour(fb, b1, c) && OneColour(fb, b2, c)
      ensures OneColour(fb, b, c)
    {
    }

    /** The second half: to the left and to the right. */
    method ExtendColumns(x: int, w: int, colour: int, x0: int, y1: int, w0: int, h1: int) returns (x1: int, w1: int)
      requires Fixed() && 0 <= x && x + w <= width && OnScreen(Box(x0, y1, x0 + w0, y1 + h1)) && x <= x0 && x0 + w0 <= x + w
      requires OneColour(fb, Box(x0, y1, x0 + w0, y1 + h1), colour)
      ensures x <= x1 <= x0 && x0 + w0 <= x1 + w1 <= x + w
      ensures OneColour(fb, Box(x1, y1, x1 + w1, y1 + h1), colour)
      ensures x1 > x ==> !OneColour(fb, Box(x1 - 1, y1, x1, y1 + h1), colour)
      ensures x1 + w1 < x + w ==> !OneColour(fb, Box(x1 + w1, y1, x1 + w1 + 1, y1 + h1), colour)
    {
      hide OneColour;
      var solid, value := true, 0;
      var cx := x0 - 1;
      while cx >= x
        invariant x - 1 <= cx < x0
        invariant OneColour(fb, Box(cx + 1, y1, x0 + w0, y1 + h1), colour)
      {
        solid, value := CheckSolidTile(cx, y1, 1, h1, colour, true);
        if !solid { break; }
        OneColourJoin(Box(cx, y1, cx + 1, y1 + h1), Box(cx + 1, y1, x0 + w0, y1 + h1), Box(cx, y1, x0 + w0, y1 + h1), colour);
        cx := cx - 1;
      }
      w1 := w0 + (x0 - (cx + 1));
      x1 := cx + 1;
      cx := x1 + w1;
      while cx < x + w
        invariant x1 + w1 <= cx <= x + w
        invariant OneColour(fb, Box(x1, y1, cx, y1 + h1), colour)
      {
        solid, value := CheckSolidTile(cx, y1, 1, h1, colour, true);
        if !solid { break; }
        OneColourJoin(Box(x1, y1, cx, y1 + h1), Box(cx, y1, cx + 1, y1 + h1), Box(x1, y1, cx + 1, y1 + h1), colour);
        cx := cx + 1;
      }
      w1 := w1 + (cx - (x1 + w1));
    }

    /** ExtendSolidArea: row by row and column by column, as far as the colour and
        (x, y, w, h) allow. */
    method ExtendSolidArea(x: int, y: int, w: int, h: int, colour: int, x0: int, y0: int, w0: int, h0: int)
      returns (x1: int, y1: int, w1: int, h1: int)
      requires Fixed() && OnScreen(Box(x, y, x + w, y + h))
      requires x <= x0 && y <= y0 && 0 < w0 && x0 + w0 <= x + w && 0 < h0 && y0 + h0 <= y + h
      requires OneColour(fb, Box(x0, y0, x0 + w0, y0 + h0), colour)
      ensures x <= x1 <= x0 && y <= y1 <= y0 && x0 + w0 <= x1 + w1 <= x + w && y0 + h0 <= y1 + h1 <= y + h
      ensures OneColour(fb, Box(x1, y1, x1 + w1, y1 + h1), colour)
      ensures y1 > y ==> !OneColour(fb, Box(x0, y1 - 1, x0 + w0, y1), colour)
      ensures y1 + h1 < y + h ==> !OneColour(fb, Box(x0, y1 + h1, x0 + w0, y1 + h1 + 1), colour)
      ensures x1 > x ==> !OneColour(fb, Box(x1 - 1, y1, x1, y1 + h1), colour)
      ensures x1 + w1 < x + w ==> !OneColour(fb, Box(x1 + w1, y1, x1 + w1 + 1, y1 + h1), colour)
    {
      hide OneColour;
      y1, h1 := ExtendRows(y, h, colour, x0, y0, w0, h0);
      x1, w1 := ExtendColumns(x, w, colour, x0, y1, w0, h1);
    }

    /** One row of the grid of SendRectSimple. */
    method SendGridRow(x: int, y: int, w: int, rh: int, subrectMaxWidth: int) returns (ok: bool, ghost ps: seq<Piece>)
      requires Valid() && OnScreen(Box(x, y, x + w, y + rh)) && rh * subrectMaxWidth <= conf.maxRectSize
      requires subrectMaxWidth == (if w > conf.maxRectWidth then conf.maxRectWidth else w)
      modifies Repr()
      ensures ok ==> Valid() && sent == old(sent) + ps && CutsUp(ps, Box(x, y, x + w, y + rh), fb, conf)
      ensures ok ==> |ps| == (w - 1) / conf.maxRectWidth + 1
      ensures Reliable() ==> ok
    {
      ValidIsFixed();
      hide Valid;
      hide RightPiece;
      hide CutsUp;
      hide Logged;
      hide IsScreen;
      hide IsFormat;
      hide Reliable;
      ps, ok := [], true;
      CutNothing(Box(x, y, x, y + rh), fb, conf);
      var m := conf.maxRectWidth;
      var dx := 0;
      ghost var done := 0;  // the part of the row that is sent
      while dx < w
        invariant Valid() && 0 <= dx && sent == old(sent) + ps && dx == |ps| * m
        invariant done == if dx < w then dx else w
        invariant CutsUp(ps, Box(x, y, x + done, y + rh), fb, conf)
        invariant |ps| > 0 ==> (|ps| - 1) * m < w
      {
        var rw := if dx + m < w then m else w - dx;
        var p := Piece(Box(x + dx, y, x + dx + rw, y + rh), false);
        GridPiece(p, subrectMaxWidth, rh, fb, conf);
        GridStep(ps, p, x, fb, conf);
        OneMore(|ps|, m);
        ok := Send(p);
        if !ok { return; }
        ps := ps + [p];
        dx := dx + m;
        done := if dx < w then dx else w;
      }
      StepsTaken(w, m, |ps|);
    }

    /** The grid of SendRectSimple. */
    method SendGrid(x: int, y: int, w: int, h: int, subrectMaxWidth: int, subrectMaxHeight: int) returns (ok: bool, ghost ps: seq<Piece>)
      requires Valid() && OnScreen(Box(x, y, x + w, y + h)) && 0 < subrectMaxHeight
      requires subrectMaxWidth == (if w > conf.maxRectWidth then conf.maxRectWidth else w)
      requires subrectMaxHeight * subrectMaxWidth <= conf.maxRectSize
      modifies Repr()
      ensures ok ==> Valid() && sent == old(sent) + ps && CutsUp(ps, Box(x, y, x + w, y + h), fb, conf)
      ensures ok ==> |ps| == ((w - 1) / conf.maxRectWidth + 1) * ((h - 1) / subrectMaxHeight + 1)
      ensures Reliable() ==> ok
    {
      hide CutsUp;
      hide Logged;
      hide IsScreen;
      hide IsFormat;
      hide Reliable;
      ps, ok := [], true;
      CutNothing(Box(x, y, x + w, y), fb, conf);
      ghost var cols, rows := (w - 1) / conf.maxRectWidth + 1, 0;
      var dy := 0;
      ghost var done := 0;  // the rows that are sent
      while dy < h
        invariant Valid() && 0 <= dy && sent == old(sent) + ps && dy == rows * subrectMaxHeight && |ps| == rows * cols && 0 <= rows
        invariant done == if dy < h then dy else h
        invariant CutsUp(ps, Box(x, y, x + w, y + done), fb, conf)
        invariant rows > 0 ==> (rows - 1) * subrectMaxHeight < h
        decreases h - dy
      {
        var rh := if dy + subrectMaxHeight < h then subrectMaxHeight else h - dy;
        MulMonotone(rh, subrectMaxHeight, subrectMaxWidth);
        ghost var row;
        ok, row := SendGridRow(x, y + dy, w, rh, subrectMaxWidth);
        if !ok { return; }
        CutJoin(ps, row, Box(x, y, x + w, y + dy), Box(x, y + dy, x + w, y + dy + rh), Box(x, y, x + w, y + dy + rh), fb, conf);
        OneMore(rows, subrectMaxHeight);
        OneMore(rows, cols);
        ps, rows := ps + row, rows + 1;
        dy := dy + subrectMaxHeight;
        done := if dy < h then dy else h;
      }
      StepsTaken(h, subrectMaxHeight, rows);
    }

    /** SendRectSimple: cut to the size of the compression level. */
    method SendRectSimple(x: int, y: int, w: int, h: int) returns (ok: bool, ghost ps: seq<Piece>)
      requires Valid() && OnScreen(Box(x, y, x + w, y + h))
      modifies Repr()
      ensures ok ==> Valid() && sent == old(sent) + ps && CutsUp(ps, Box(x, y, x + w, y + h), fb, conf)
      ensures ok ==> |ps| == NumCodedRects(w, h, conf, false)
      ensures Reliable() ==> ok
    {
      hide CutsUp;
      hide Logged;
      hide IsScreen;
      hide IsFormat;
      hide Reliable;
      ps, ok := [], true;
      if w > conf.maxRectWidth || w * h > conf.maxRectSize {
        var subrectMaxWidth := if w > conf.maxRectWidth then conf.maxRectWidth else w;
        var subrectMaxHeight := conf.maxRectSize / subrectMaxWidth;
        AtLeastOne(conf.maxRectSize, subrectMaxWidth);
        ok, ps := SendGrid(x, y, w, h, subrectMaxWidth, subrectMaxHeight);
      } else {
        var p := Piece(Box(x, y, x + w, y + h), false);
        CutOne(p, fb, conf);
        ok := Send(p);
        ps := [p];
      }
    }
  
    /** What lies above a solid area, and to the left of it. */
    method SendAbove(x: int, y: int, w: int, h: int, b: Box) returns (ok: bool, ghost top: seq<Piece>, ghost left: seq<Piece>)
      requires Valid() && OnScreen(Box(x, y, x + w, y + h)) && NonEmpty(b) && Subsumes(Box(x, y, x + w, y + h), b)
      modifies Repr()
      ensures ok ==> Valid() && sent == (old(sent) + top) + left
      ensures ok ==> CutsUp(top, Box(x, y, x + w, b.y1), fb, conf) && CutsUp(left, Box(x, b.y1, b.x1, b.y2), fb, conf)
      ensures (b.y1 == y ==> top == []) && (b.x1 == x ==> left == [])
      ensures Reliable() ==> ok
      decreases w + h, 0
    {
      hide CutsUp;
      hide Logged;
      hide IsScreen;
      hide IsFormat;
      hide Reliable;
      ok, top, left := true, [], [];
      if b.y1 != y {
        ok, top := SendRectSimple(x, y, w, b.y1 - y);
        if !ok { return; }
      } else {
        CutNothing(Box(x, y, x + w, b.y1), fb, conf);
      }
      if b.x1 != x {
        ok, left := SendRectEncodingTight(x, b.y1, b.x1 - x, b.y2 - b.y1);
      } else {
        CutNothing(Box(x, b.y1, b.x1, b.y2), fb, conf);
      }
    }

    /** What lies to the right of a solid area, and below it. */
    method SendBelow(x: int, y: int, w: int, h: int, b: Box) returns (ok: bool, ghost right: seq<Piece>, ghost bottom: seq<Piece>)
      requires Valid() && OnScreen(Box(x, y, x + w, y + h)) && NonEmpty(b) && Subsumes(Box(x, y, x + w, y + h), b)
      modifies Repr()
      ensures ok ==> Valid() && sent == (old(sent) + right) + bottom
      ensures ok ==> CutsUp(right, Box(b.x2, b.y1, x + w, b.y2), fb, conf) && CutsUp(bottom, Box(x, b.y2, x + w, y + h), fb, conf)
      ensures (b.x2 == x + w ==> right == []) && (b.y2 == y + h ==> bottom == [])
      ensures Reliable() ==> ok
      decreases w + h, 0
    {
      hide CutsUp;
      hide Logged;
      hide IsScreen;
      hide IsFormat;
      hide Reliable;
      ok, right, bottom := true, [], [];
      if b.x2 != x + w {
        ok, right := SendRectEncodingTight(b.x2, b.y1, x + w - b.x2, b.y2 - b.y1);
        if !ok { return; }
      } else {
        CutNothing(Box(b.x2, b.y1, x + w, b.y2), fb, conf);
      }
      if b.y2 != y + h {
        ok, bottom := SendRectEncodingTight(x, b.y2, w, y + h - b.y2);
      } else {
        CutNothing(Box(x, b.y2, x + w, y + h), fb, conf);
      }
    }

    /** A solid area within (x, y, w, h): what lies above and to the left of it, the area
        itself, and what lies to the right and below. */
    method SendAround(x: int, y: int, w: int, h: int, xBest: int, yBest: int, wBest: int, hBest: int, colour: int)
      returns (ok: bool, ghost ps: seq<Piece>)
      requires Valid() && OnScreen(Box(x, y, x + w, y + h))
      requires x <= xBest && y <= yBest && 0 < wBest && xBest + wBest <= x + w && 0 < hBest && yBest + hBest <= y + h
      requires OneColour(fb, Box(xBest, yBest, xBest + wBest, yBest + hBest), colour)
      modifies Repr()
      ensures ok ==> Valid() && sent == old(sent) + ps && CutsUp(ps, Box(x, y, x + w, y + h), fb, conf)
      ensures ok ==> Piece(Box(xBest, yBest, xBest + wBest, yBest + hBest), true) in ps
      ensures ok && xBest == x && yBest == y && wBest == w && hBest == h ==> ps == [Piece(Box(x, y, x + w, y + h), true)]
      ensures Reliable() ==> ok
      decreases w + h, 1
    {
      hide CutsUp;
      hide RightPiece;
      hide Logged;
      hide IsScreen;
      hide IsFormat;
      hide Reliable;
      hide OneColour;
      ps := [];
      var b := Box(xBest, yBest, xBest + wBest, yBest + hBest);
      ghost var top, left, right, bottom;
      ok, top, left := SendAbove(x, y, w, h, b);
      if !ok { return; }
      var p := Piece(b, true);
      FillIsRight(p, fb, conf, colour);
      ok := Send(p);
      if !ok { return; }
      ok, right, bottom := SendBelow(x, y, w, h, b);
      if !ok { return; }
      ps := Around(top, left, p, right, bottom, Box(x, y, x + w, y + h), fb, conf);
      InOrder(old(sent), top, left, [p], right, bottom);
    }

    /** If the tile at (dx, dy) is of one colour, and the area around it is large enough or is
        all of (x, y, w, h), that area is sent on its own, and what lies around it. */
    method SendSolidArea(x: int, y: int, w: int, h: int, dx: int, dy: int)
      returns (found: bool, ok: bool, ghost ps: seq<Piece>)
      requires Valid() && OnScreen(Box(x, y, x + w, y + h)) && x <= dx < x + w && y <= dy < y + h
      modifies Repr()
      ensures !found ==> ok && Valid() && sent == old(sent)
      ensures found && ok ==> Valid() && sent == old(sent) + ps && CutsUp(ps, Box(x, y, x + w, y + h), fb, conf)
      ensures dx == x && dy == y && IsSolid(fb, Box(x, y, x + w, y + h)) ==>
        found && (ok ==> ps == [Piece(Box(x, y, x + w, y + h), true)])
      ensures LargeAt(fb, x + w, y + h, dx, dy) ==> found
      ensures found && ok ==> Fills(ps)
      ensures Reliable() ==> ok
      decreases w + h, 2
    {
      hide LargeAt;
      hide CutsUp;
      hide Logged;
      hide IsFormat;
      hide Reliable;
      hide OneColour;
      hide IsSolid;
      hide IsBest;
      hide IsScreen;
      found, ok, ps := false, true, [];
      ghost var b := Box(x, y, x + w, y + h);
      var dw := if dx + MAX_SPLIT_TILE_SIZE <= x + w then MAX_SPLIT_TILE_SIZE else x + w - dx;
      var dh := if dy + MAX_SPLIT_TILE_SIZE <= y + h then MAX_SPLIT_TILE_SIZE else y + h - dy;
      var solid, colour := CheckSolidTile(dx, dy, dw, dh, 0, false);
      if !solid {
        SolidIsChecked(screen, width, height, coder.format.n, b, dx, dy);
        return;
      }
      var wBest, hBest := FindBestSolidArea(dx, dy, w - (dx - x), h - (dy - y), colour);
      if dx == x && dy == y && IsSolid(fb, b) {
        WholeIsBest(screen, width, height, coder.format.n, b, colour, wBest, hBest);
      }
      if LargeAt(fb, x + w, y + h, dx, dy) {
        LargeIsFound(screen, width, height, coder.format.n, b, dx, dy, colour, wBest * hBest);
      }
      if wBest * hBest == w * h || wBest * hBest >= MIN_SOLID_SUBRECT_SIZE {
        var xb, yb, wb, hb := ExtendSolidArea(x, y, w, h, colour, dx, dy, wBest, hBest);
        found := true;
        ok, ps := SendAround(x, y, w, h, xb, yb, wb, hb, colour);
      }
    }

    /** rfbSendRectEncodingTight: the rectangle is sent exactly, every point once, and what
        is filled is of one colour. The recursion ends since the parts left, right and
        below are smaller. */
    method SendRectEncodingTight(x: int, y0: int, w: int, h0: int) returns (ok: bool, ghost ps: seq<Piece>)
      requires Valid() && OnScreen(Box(x, y0, x + w, y0 + h0))
      modifies Repr()
      ensures ok ==> Valid() && sent == old(sent) + ps && CutsUp(ps, Box(x, y0, x + w, y0 + h0), fb, conf)
      ensures ok ==> var n := NumCodedRects(w, h0, conf, enableLastRect); n == 0 || |ps| == n
      ensures (ok && enableLastRect && w * h0 >= MIN_SPLIT_RECT_SIZE && IsSolid(fb, Box(x, y0, x + w, y0 + h0))) ==>
        ps == [Piece(Box(x, y0, x + w, y0 + h0), true)]
      ensures (ok && enableLastRect && w * h0 >= MIN_SPLIT_RECT_SIZE && HasLarge(fb, Box(x, y0, x + w, y0 + h0))) ==> Fills(ps)
      ensures Reliable() ==> ok
      decreases w + h0, 3
    {
      hide LargeAt;
      hide NoneBefore;
      hide HasLarge;
      hide TileStart;
      hide Fills;
      hide CutsUp;
      hide Logged;
      hide IsScreen;
      hide IsFormat;
      hide Reliable;
      hide OneColour;
      if !enableLastRect || w * h0 < MIN_SPLIT_RECT_SIZE {
        ok, ps := SendRectSimple(x, y0, w, h0);
        return;
      }
      var y, h := y0, h0;
      ghost var b := Box(x, y0, x + w, y0 + h0);
      ghost var whole := IsSolid(fb, b);
      hide IsSolid;
      hide IsBest;
      var nMaxRows := conf.maxRectSize / (if w > conf.maxRectWidth then conf.maxRectWidth else w);
      assert nMaxRows >= 1 by { NarrowEnough(w, h0, conf); }
      ghost var part: seq<Piece>;
      ok, ps := true, [];
      CutNothing(Box(x, y0, x + w, y0), fb, conf);
      NoneAtFirst(fb, b);
      var dy := y;
      while dy < y + h
        invariant Valid() && y0 <= y <= dy && y + h == y0 + h0 && 0 < h && sent == old(sent) + ps
        invariant CutsUp(ps, Box(x, y0, x + w, y), fb, conf)
        invariant whole ==> dy == y == y0 && ps == []
        invariant NoneBefore(fb, b, x, dy) && TileStart(dy - y0)
        decreases y + h - dy
      {
        if dy - y >= nMaxRows {
          ok, part := SendRectSimple(x, y, w, nMaxRows);
          if !ok { return; }
          CutJoin(ps, part, Box(x, y0, x + w, y), Box(x, y, x + w, y + nMaxRows), Box(x, y0, x + w, y + nMaxRows), fb, conf);
          ps := ps + part;
          y := y + nMaxRows;
          h := h - nMaxRows;
        }
        var dx := x;
        while dx < x + w
          invariant Valid() && x <= dx && sent == old(sent) + ps
          invariant whole ==> dx == x
          invariant NoneBefore(fb, b, dx, dy) && TileStart(dx - x)
        {
          var found;
          found, ok, part := SendSolidArea(x, y, w, h, dx, dy);
          if found {
            if ok {
              FillsMore(ps, part);
              CutJoin(ps, part, Box(x, y0, x + w, y), Box(x, y, x + w, y + h), Box(x, y0, x + w, y0 + h0), fb, conf);
              ps := ps + part;
            }
            return;
          }
          NoneInRow(fb, b, dx, dy);
          dx := dx + MAX_SPLIT_TILE_SIZE;
        }
        NoneInRows(fb, b, dx, dy);
        dy := dy + MAX_SPLIT_TILE_SIZE;
      }
      NoneAtAll(fb, b, x, dy);
      ok, part := SendRectSimple(x, y, w, h);
      if !ok { return; }
      CutJoin(ps, part, Box(x, y0, x + w, y), Box(x, y, x + w, y + h), Box(x, y0, x + w, y0 + h0), fb, conf);
      ps := ps + part;
    }
  }

  lemma SolidPart(s: Screen, sw: nat, sh: nat, n: nat, b: Box, part: Box)
    requires IsScreen(s, sw, sh, n) && Rectangles.OnScreen(b, sw, sh) && IsSolid(s.pixels, b) && NonEmpty(part) && Subsumes(b, part)
    ensures 0 <= part.y1 < |s.pixels| && 0 <= part.x1 < |s.pixels[part.y1]|
    ensures OneColour(s.pixels, part, s.pixels[part.y1][part.x1])
  {
    var v :| OneColour(s.pixels, b, v);
    assert s.pixels[part.y1][part.x1] == v;
  }

  /** A tile that is part of a solid rectangle or of a large area is of one colour. */
  lemma SolidIsChecked(s: Screen, sw: nat, sh: nat, n: nat, b: Box, dx: int, dy: int)
    requires IsScreen(s, sw, sh, n) && Rectangles.OnScreen(b, sw, sh) && InBox(b, dx, dy)
    ensures 0 <= dy < |s.pixels| && 0 <= dx < |s.pixels[dy]|
    ensures LargeAt(s.pixels, b.x2, b.y2, dx, dy) || IsSolid(s.pixels, b) ==>
      OneColour(s.pixels, Box(dx, dy, dx + Extent(b.x2 - dx), dy + Extent(b.y2 - dy)), s.pixels[dy][dx])
  {
    if IsSolid(s.pixels, b) {
      SolidPart(s, sw, sh, n, b, Box(dx, dy, dx + Extent(b.x2 - dx), dy + Extent(b.y2 - dy)));
    } else if LargeAt(s.pixels, b.x2, b.y2, dx, dy) {
      LargeIsSolid(s, sw, sh, n, b, dx, dy);
    }
  }

  /** In an area of one colour the best is all of it. */
  lemma WholeIsBest(s: Screen, sw: nat, sh: nat, n: nat, b: Box, colour: int, wBest: int, hBest: int)
    requires IsScreen(s, sw, sh, n) && Rectangles.OnScreen(b, sw, sh) && IsSolid(s.pixels, b)
    requires OneColour(s.pixels, Box(b.x1, b.y1, b.x1 + Extent(b.x2 - b.x1), b.y1 + Extent(b.y2 - b.y1)), colour)
    requires 0 < wBest <= b.x2 - b.x1 && 0 < hBest <= b.y2 - b.y1
    requires IsBest(s.pixels, b.x1, b.y1, b.x2 - b.x1, b.y2 - b.y1, colour, wBest * hBest)
    ensures wBest == b.x2 - b.x1 && hBest == b.y2 - b.y1
  {
    var w, h := b.x2 - b.x1, b.y2 - b.y1;
    var v :| OneColour(s.pixels, b, v);
    assert s.pixels[b.y1][b.x1] == v == colour;
    assert Box(b.x1, b.y1, b.x1 + w, b.y1 + h) == b;
    assert AreaOf(s.pixels, b.x1, b.y1, w, h, colour);
    LargestIsAll(wBest, hBest, w, h);
  }

  lemma LargestIsAll(w: int, h: int, w': int, h': int)
    requires 0 < w <= w' && 0 < h <= h' && w' * h' <= w * h
    ensures w == w' && h == h'
  {
    MulMonotone(w, w', h);
    MulMonotone(h, h', w');
    if h < h' {
      MulMonotone(h + 1, h', w');
      OneMore(h, w');
    }
    if w < w' {
      MulMonotone(w + 1, w', h);
      OneMore(w, h);
    }
  }

  lemma InOrder(s: seq<Piece>, a: seq<Piece>, b: seq<Piece>, c: seq<Piece>, d: seq<Piece>, e: seq<Piece>)
    ensures ((((s + a) + b) + c) + d) + e == s + (a + ((b + c) + d) + e)
  {
    var m := (b + c) + d;
    assert (((s + a) + b) + c) + d == (s + a) + m;
    assert ((s + a) + m) + e == s + (a + m + e);
  }

  lemma FillIsRight(p: Piece, fb: Image, c: Conf, colour: int)
    requires p.fill && NonEmpty(p.box) && OneColour(fb, p.box, colour)
    ensures RightPiece(p, fb, c) && CutsUp([p], p.box, fb, c)
  {
    CutOne(p, fb, c);
  }

  lemma NarrowEnough(w: int, h: int, c: Conf)
    requires 0 < w && 0 < h && 0 < c.maxRectWidth <= c.maxRectSize
    ensures c.maxRectSize / (if w > c.maxRectWidth then c.maxRectWidth else w) >= 1
  {
    AtLeastOne(c.maxRectSize, if w > c.maxRectWidth then c.maxRectWidth else w);
  }

  lemma OneMoreSent(base: seq<Byte>, out: seq<Byte>, now: seq<Byte>, start: Streams, st: Streams, s: Screen, sw: nat, sh: nat,
                    f: Format, c: Codec, sent: seq<Piece>, rs: seq<Placed>, p: Piece, body: seq<Byte>, st': Streams, seen: seq<int>)
    requires IsFormat(f) && IsScreen(s, sw, sh, f.n) && Rectangles.OnScreen(p.box, sw, sh)
    requires var b := p.box; Within(s, b.x1, b.y1, b.x2 - b.x1, b.y2 - b.y1)
    requires TightCarries(out, rs, start, st, f, c) && Where(rs) == Boxes(sent) && AllAlike(rs, s, sw, sh, f)
    requires var b := p.box;
      && RectGives(body, b.x2 - b.x1, b.y2 - b.y1, f, c, st, st', seen) && Faithful(seen, Flat(BoxArea(s, b)), f)
      && now == (base + out) + HeaderBytes(b.x1, b.y1, b.x2 - b.x1, b.y2 - b.y1, ENCODING_TIGHT) + body
    ensures var rs' := rs + [Placed(Cut(seen, p.box.x2 - p.box.x1, p.box.y2 - p.box.y1), p.box, ENCODING_TIGHT)];
      && Where(rs') == Boxes(sent + [p]) && AllAlike(rs', s, sw, sh, f)
      && exists out' :: now == base + out' && TightCarries(out', rs', start, st', f, c)
  {
    hide TightCarries;
    hide RectGives;
    hide Faithful;
    hide IsFormat;
    hide HeaderBytes;
    hide Alike;
    var b := p.box;
    var head := HeaderBytes(b.x1, b.y1, b.x2 - b.x1, b.y2 - b.y1, ENCODING_TIGHT);
    TightCarriesStep(out, rs, start, st, body, b, st', seen, sw, sh, f, c);
    SeenAlike(seen, s, sw, sh, f, b);
    Regroup(base + out, head, body);
    Regroup(base, out, head + body);
    assert Boxes(sent + [p]) == Boxes(sent) + [b];
    var r := Placed(Cut(seen, b.x2 - b.x1, b.y2 - b.y1), b, ENCODING_TIGHT);
    assert Where(rs + [r]) == Where(rs) + [r.box];
  }

  /** A solid area translates to its first pixel, all over. */
  lemma SolidArea(s: Screen, b: Box, fb: Image, width: nat, height: nat, n: nat)
    requires IsScreen(s, width, height, n) && fb == s.pixels && Rectangles.OnScreen(b, width, height)
    requires Within(s, b.x1, b.y1, b.x2 - b.x1, b.y2 - b.y1) && exists v :: OneColour(fb, b, v)
    ensures IsImage(s.pixels, width, height) && width < 0x1_0000 && height < 0x1_0000
    ensures PixelsFit([s.translate(s.pixels[b.y1][b.x1])], n)
    ensures var w, h := b.x2 - b.x1, b.y2 - b.y1;
      Flat(BoxArea(s, b)) == Repeat(s.translate(s.pixels[b.y1][b.x1]), h * w)
  {
    var v :| OneColour(fb, b, v);
    assert fb[b.y1][b.x1] == v;
    FlatOneColour(BoxArea(s, b), b.x2 - b.x1, b.y2 - b.y1, s.translate(v));
  }

  lemma {:induction false} FlatOneColour(img: Image, w: nat, h: nat, c: int)
    requires IsImage(img, w, h) && forall j, i :: 0 <= j < h && 0 <= i < w ==> img[j][i] == c
    ensures Flat(img) == Repeat(c, h * w)
    decreases h
  {
    if h > 0 {
      OneMore(h - 1, w);
      MulMonotone(0, h - 1, w);
      FlatOneColour(img[1..], w, h - 1, c);
    }
  }

  /** The five parts make the whole. */
  lemma Around(top: seq<Piece>, left: seq<Piece>, p: Piece, right: seq<Piece>, bottom: seq<Piece>, b: Box, fb: Image, c: Conf)
    returns (ps: seq<Piece>)
    requires b.x1 <= p.box.x1 <= p.box.x2 <= b.x2 && b.y1 <= p.box.y1 <= p.box.y2 <= b.y2
    requires CutsUp(top, b.(y2 := p.box.y1), fb, c) && CutsUp(left, p.box.(x1 := b.x1, x2 := p.box.x1), fb, c)
    requires CutsUp([p], p.box, fb, c) && CutsUp(right, p.box.(x1 := p.box.x2, x2 := b.x2), fb, c)
    requires CutsUp(bottom, b.(y1 := p.box.y2), fb, c)
    ensures CutsUp(ps, b, fb, c) && ps == top + ((left + [p]) + right) + bottom
  {
    hide CutsUp;
    CutJoin(left, [p], p.box.(x1 := b.x1, x2 := p.box.x1), p.box, p.box.(x1 := b.x1), fb, c);
    CutJoin(left + [p], right, p.box.(x1 := b.x1), p.box.(x1 := p.box.x2, x2 := b.x2), p.box.(x1 := b.x1, x2 := b.x2), fb, c);
    CutJoin(top, (left + [p]) + right, b.(y2 := p.box.y1), p.box.(x1 := b.x1, x2 := b.x2), b.(y2 := p.box.y2), fb, c);
    CutJoin(top + ((left + [p]) + right), bottom, b.(y2 := p.box.y2), b.(y1 := p.box.y2), b, fb, c);
    ps := top + ((left + [p]) + right) + bottom;
  }

  function Extent(size: int): int {
    if size > MAX_SPLIT_TILE_SIZE then MAX_SPLIT_TILE_SIZE else size
  }
}
