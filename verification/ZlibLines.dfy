/** The Zlib encoder cuts a rectangle into groups of scan lines. */
module ZlibLines {
  import opened Basics
  import opened RegionForm

  const ZLIB_MAX_RECT_SIZE := 128 * 256

  function ZlibMaxSize(min: int): int {
    if min * 2 > ZLIB_MAX_RECT_SIZE then min * 2 else ZLIB_MAX_RECT_SIZE
  }

  /** Scan lines in one rectangle: at least two. */
  function MaxLines(w: int): (m: int)
    requires w > 0
    ensures m >= 2
  {
    QuotientAtLeast(ZlibMaxSize(w), w, 2);
    ZlibMaxSize(w) / w
  }

  /** What the update header announces for a rectangle. */
  function ZlibRects(w: int, h: int): int
    requires w > 0
  {
    (h - 1) / MaxLines(w) + 1
  }

  /** The k-th group of lines of b. */
  function Group(b: Box, m: int, k: int): Box {
    Box(b.x1, b.y1 + k * m, b.x2, if b.y1 + (k + 1) * m < b.y2 then b.y1 + (k + 1) * m else b.y2)
  }

  /** rfbSendRectEncodingZlib: the groups one after the other, as many as were announced,
      each of at least one line and all lines in one of them. */
  method SendRectEncodingZlib(b: Box) returns (sent: seq<Box>)
    requires NonEmpty(b)
    ensures |sent| == ZlibRects(b.x2 - b.x1, b.y2 - b.y1)
    ensures forall k :: 0 <= k < |sent| ==> NonEmpty(sent[k]) && sent[k] == Group(b, MaxLines(b.x2 - b.x1), k)
    ensures forall k :: 0 <= k < |sent| - 1 ==> sent[k].y2 == sent[k + 1].y1
    ensures sent[0].y1 == b.y1 && sent[|sent| - 1].y2 == b.y2
  {
    var w, h := b.x2 - b.x1, b.y2 - b.y1;
    var maxLines := MaxLines(w);
    var linesRemaining, y := h, b.y1;
    sent := [];
    while linesRemaining > 0
      invariant 0 <= linesRemaining <= h && y == b.y1 + (h - linesRemaining)
      invariant linesRemaining > 0 ==> y == b.y1 + |sent| * maxLines
      invariant |sent| > 0 ==> (|sent| - 1) * maxLines < h
      invariant linesRemaining == 0 ==> |sent| > 0 && h <= |sent| * maxLines && sent[|sent| - 1].y2 == b.y2
      invariant forall k :: 0 <= k < |sent| ==> NonEmpty(sent[k]) && sent[k] == Group(b, maxLines, k)
      invariant forall k :: 0 <= k < |sent| - 1 ==> sent[k].y2 == sent[k + 1].y1
      invariant |sent| > 0 ==> sent[0].y1 == b.y1 && sent[|sent| - 1].y2 == y
    {
      var linesToComp := if maxLines < linesRemaining then maxLines else linesRemaining;
      OneMore(|sent|, maxLines);
      sent := sent + [Box(b.x1, y, b.x2, y + linesToComp)];
      linesRemaining := linesRemaining - linesToComp;
      y := y + linesToComp;
    }
    StepsTaken(h, maxLines, |sent|);
  }
}
