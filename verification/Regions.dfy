/** The region record and the operations on it, as the mi region code performs them. */
module Regions {
  import opened RegionForm
  import opened RegionBuild

  /** The rectangle array of a region. A region of a single rectangle has none: its
      extents are that rectangle. */
  datatype Data = NoData | Rects(boxes: seq<Box>)

  /** The overlap function handed to the generic operator. */
  datatype OverlapFunc = IntersectO | UnionO | SubtractO

  /** What each overlap function means for a point. */
  predicate Combine(f: OverlapFunc, in1: bool, in2: bool) {
    match f
    case IntersectO => in1 && in2
    case UnionO => in1 || in2
    case SubtractO => in1 && !in2
  }

  predicate AppendNon1(f: OverlapFunc) { !f.IntersectO? }

  predicate AppendNon2(f: OverlapFunc) { f.UnionO? }

  function Min(a: int, b: int): int { if a <= b then a else b }

  function Max(a: int, b: int): int { if a <= b then b else a }

  /** miCoalesce: merges the band at curStart, which ends the array, with the band of
      equally many boxes at prevStart, by stretching the latter. */
  method CoalesceBands(rects: seq<Box>, prevStart: int, curStart: int) returns (boxes: seq<Box>, start: int)
    requires 0 <= prevStart <= curStart <= |rects| && curStart - prevStart == |rects| - curStart
    ensures if prevStart < curStart && rects[prevStart].y2 == rects[curStart].y1
               && SameSpans(rects[prevStart..curStart], rects[curStart..])
            then start == prevStart && Stretched(rects[..curStart], boxes, prevStart, rects[curStart].y2)
            else start == curStart && boxes == rects
  {
    boxes := rects;
    var numRects := curStart - prevStart;
    if numRects == 0 { return rects, curStart; }
    if rects[prevStart].y2 != rects[curStart].y1 { return rects, curStart; }
    var y2 := rects[curStart].y2;
    var k := 0;
    while k < numRects
      invariant 0 <= k <= numRects
      invariant SameSpans(rects[prevStart..prevStart + k], rects[curStart..curStart + k])
    {
      var p, c := rects[prevStart + k], rects[curStart + k];
      if p.x1 != c.x1 || p.x2 != c.x2 {
        assert rects[prevStart..curStart][k] == p && rects[curStart..][k] == c;
        return rects, curStart;
      }
      assert rects[prevStart..prevStart + k + 1] == rects[prevStart..prevStart + k] + [p];
      assert rects[curStart..curStart + k + 1] == rects[curStart..curStart + k] + [c];
      k := k + 1;
    }
    assert rects[curStart..curStart + k] == rects[curStart..];
    boxes := rects[..curStart];
    while k > 0
      invariant 0 <= k <= numRects && |boxes| == curStart
      invariant forall m :: 0 <= m < prevStart + k ==> boxes[m] == rects[m]
      invariant forall m :: prevStart + k <= m < curStart ==> boxes[m] == rects[m].(y2 := y2)
    {
      k := k - 1;
      boxes := boxes[prevStart + k := boxes[prevStart + k].(y2 := y2)];
    }
    start := prevStart;
  }

  /** The Coalesce macro: the band from curBand on is merged upwards when it can be, and
      the array is in form again. */
  method Coalesce(rects: seq<Box>, prevBand: int, curBand: int, ghost y1: int, ghost y2: int)
    returns (boxes: seq<Box>, newPrev: int)
    requires 0 <= curBand <= |rects| && y1 < y2
    requires Form(rects[..curBand], prevBand, y1) && IsBand(rects[curBand..], y1, y2)
    ensures Form(boxes, newPrev, y2) && |boxes| <= |rects|
    ensures forall x, y :: Covers(boxes, x, y) <==> Covers(rects, x, y)
    ensures curBand < |rects| ==>
      && BandAt(boxes, newPrev, |boxes|) && boxes[newPrev].y2 == y2
      && SameSpans(boxes[newPrev..], rects[curBand..])
  {
    ghost var rs, b := rects[..curBand], rects[curBand..];
    assert rects == rs + b;
    if curBand - prevBand == |rects| - curBand {
      boxes, newPrev := CoalesceBands(rects, prevBand, curBand);
    } else {
      boxes, newPrev := rects, curBand;
    }
    CoalesceForm(rs, prevBand, b, y1, y2, boxes, newPrev);
  }

  class Region {
    var extents: Box
    var data: Data

    /** REGION_RECTS and REGION_NUM_RECTS. */
    function Boxes(): seq<Box>
      reads this
    {
      if data.NoData? then [extents] else data.boxes
    }

    /** REGION_NIL. */
    predicate Nil()
      reads this
    {
      data.Rects? && data.boxes == []
    }

    /** The representation invariant: canonical boxes, exact extents, and no array for
        a single rectangle. */
    ghost predicate Valid()
      reads this
    {
      && Canonical(Boxes())
      && (data.NoData? <==> |Boxes()| == 1)
      && if Nil() then extents.x1 == extents.x2 && extents.y1 == extents.y2
         else IsExtents(extents, Boxes())
    }

    ghost predicate Has(x: int, y: int)
      reads this
    {
      Covers(Boxes(), x, y)
    }

    /** miRegionInit without a rectangle. */
    constructor Empty()
      ensures Valid() && Nil()
    {
      extents, data := Box(0, 0, 0, 0), Rects([]);
    }

    /** miRegionInit without a rectangle, on a record that was in use. */
    method InitEmpty()
      modifies this
      ensures Valid() && Nil()
    {
      extents, data := Box(0, 0, 0, 0), Rects([]);
    }

    /** miRegionInit with a rectangle. */
    constructor FromBox(b: Box)
      requires NonEmpty(b)
      ensures Valid() && Boxes() == [b]
      ensures forall x, y :: Has(x, y) <==> InBox(b, x, y)
    {
      extents, data := b, NoData;
      new;
      SingleCanonical(b);
    }

    /** NEWRECT. */
    method NewRect(b: Box)
      requires data.Rects?
      modifies this`data
      ensures data == Rects(old(data.boxes) + [b])
    {
      data := Rects(data.boxes + [b]);
    }

    /** miIntersectO: the columns that lie in both bands. */
    method OverlapIntersect(s1: seq<Box>, s2: seq<Box>, y1: int, y2: int) returns (ghost out: seq<Box>)
      requires data.Rects? && y1 < y2 && SourceBand(s1) && SourceBand(s2)
      modifies this`data
      ensures data == Rects(old(data.boxes) + out) && IsBand(out, y1, y2)
      ensures forall x :: RowIn(out, x) <==> RowIn(s1, x) && RowIn(s2, x)
    {
      var i, j := 0, 0;
      ghost var t := Min(s1[0].x1, s2[0].x1);
      out := [];
      while i < |s1| && j < |s2|
        invariant 0 <= i <= |s1| && 0 <= j <= |s2|
        invariant data == Rects(old(data.boxes) + out)
        invariant IntersectInv(s1, s2, i, j, t, y1, y2, out)
        decreases |s1| - i + |s2| - j
      {
        var x1 := Max(s1[i].x1, s2[j].x1);
        var x2 := Min(s1[i].x2, s2[j].x2);
        ghost var i0, j0, out0 := i, j, out;
        if x1 < x2 {
          NewRect(Box(x1, y1, x2, y2));
          out := out + [Box(x1, y1, x2, y2)];
        }
        if s1[i].x2 == x2 { i := i + 1; }
        if s2[j].x2 == x2 { j := j + 1; }
        IntersectStep(s1, s2, i0, j0, t, x1, x2, y1, y2, out0, i, j, out);
        t := x2;
      }
    }

    /** MERGERECT: the next span of s1 joins the current span, or closes it and starts
        anew; none of s2 left to take starts further left. */
    method MergeRect(s1: seq<Box>, i: int, ghost s2: seq<Box>, ghost j: int, x1: int, x2: int, y1: int, y2: int,
                     overlap: bool, ghost base: seq<Box>, ghost out: seq<Box>, ghost before: bool)
      returns (x1': int, x2': int, overlap': bool, ghost out': seq<Box>)
      requires SourceBand(s1) && SourceBand(s2) && UnionInv(s1, s2, i, j, x1, x2, y1, y2, out)
      requires i < |s1| && (j < |s2| ==> s1[i].x1 <= s2[j].x1)
      requires data == Rects(base + out)
      requires overlap <==> before || SharesBefore(s1, i, s2, j)
      modifies this`data
      ensures data == Rects(base + out')
      ensures UnionInv(s1, s2, i + 1, j, x1', x2', y1, y2, out')
      ensures overlap' <==> before || SharesBefore(s1, i + 1, s2, j)
    {
      var r := s1[i];
      x1', x2', overlap', out' := x1, x2, overlap, out;
      if r.x1 <= x2 {
        if r.x1 < x2 { overlap' := true; }
        if x2 < r.x2 { x2' := r.x2; }
        UnionJoin(s1, s2, i, j, x1, x2, y1, y2, out);
      } else {
        NewRect(Box(x1, y1, x2, y2));
        out' := out + [Box(x1, y1, x2, y2)];
        x1', x2' := r.x1, r.x2;
        UnionClose(s1, s2, i, j, x1, x2, y1, y2, out);
      }
      UnionShares(s1, s2, i, j, x1, x2, y1, y2, out);
    }

    /** The spans left over in s1 once s2 is used up. */
    method MergeRest(s1: seq<Box>, i0: int, ghost s2: seq<Box>, x1_: int, x2_: int, y1: int, y2: int,
                     overlap_: bool, ghost base: seq<Box>, ghost out_: seq<Box>, ghost before: bool)
      returns (x1: int, x2: int, overlap: bool, ghost out: seq<Box>)
      requires SourceBand(s1) && SourceBand(s2) && 0 <= i0 <= |s1|
      requires UnionInv(s1, s2, i0, |s2|, x1_, x2_, y1, y2, out_)
      requires data == Rects(base + out_)
      requires overlap_ <==> before || SharesBefore(s1, i0, s2, |s2|)
      modifies this`data
      ensures data == Rects(base + out)
      ensures UnionInv(s1, s2, |s1|, |s2|, x1, x2, y1, y2, out)
      ensures overlap <==> before || SharesBefore(s1, |s1|, s2, |s2|)
    {
      hide UnionInv;
      var i := i0;
      x1, x2, overlap, out := x1_, x2_, overlap_, out_;
      while i < |s1|
        invariant i <= |s1|
        invariant data == Rects(base + out)
        invariant UnionInv(s1, s2, i, |s2|, x1, x2, y1, y2, out)
        invariant overlap <==> before || SharesBefore(s1, i, s2, |s2|)
      {
        x1, x2, overlap, out := MergeRect(s1, i, s2, |s2|, x1, x2, y1, y2, overlap, base, out, before);
        i := i + 1;
      }
    }

    /** miUnionO: the columns that lie in either band. */
    method OverlapUnion(s1: seq<Box>, s2: seq<Box>, y1: int, y2: int, overlap: bool)
      returns (ghost out: seq<Box>, overlap': bool)
      requires data.Rects? && y1 < y2 && SourceBand(s1) && SourceBand(s2)
      modifies this`data
      ensures data == Rects(old(data.boxes) + out) && IsBand(out, y1, y2) && out != []
      ensures forall x :: RowIn(out, x) <==> RowIn(s1, x) || RowIn(s2, x)
      ensures overlap' <==> overlap || exists x :: RowIn(s1, x) && RowIn(s2, x)
    {
      hide UnionInv;
      ghost var base := data.boxes;
      var i, j := 0, 0;
      var x1, x2;
      out, overlap' := [], overlap;
      UnionStart(s1, s2, y1, y2);
      if s1[0].x1 < s2[0].x1 {
        x1, x2, i := s1[0].x1, s1[0].x2, 1;
      } else {
        x1, x2, j := s2[0].x1, s2[0].x2, 1;
      }
      while i < |s1| && j < |s2|
        invariant 0 <= i <= |s1| && 0 <= j <= |s2|
        invariant data == Rects(base + out)
        invariant UnionInv(s1, s2, i, j, x1, x2, y1, y2, out)
        invariant overlap' <==> overlap || SharesBefore(s1, i, s2, j)
        decreases |s1| - i + |s2| - j
      {
        if s1[i].x1 < s2[j].x1 {
          x1, x2, overlap', out := MergeRect(s1, i, s2, j, x1, x2, y1, y2, overlap', base, out, overlap);
          i := i + 1;
        } else {
          UnionSwap(s1, s2, i, j, x1, x2, y1, y2, out);
          x1, x2, overlap', out := MergeRect(s2, j, s1, i, x1, x2, y1, y2, overlap', base, out, overlap);
          UnionSwap(s2, s1, j + 1, i, x1, x2, y1, y2, out);
          j := j + 1;
        }
      }
      if i != |s1| {
        x1, x2, overlap', out := MergeRest(s1, i, s2, x1, x2, y1, y2, overlap', base, out, overlap);
      } else {
        UnionSwap(s1, s2, i, j, x1, x2, y1, y2, out);
        x1, x2, overlap', out := MergeRest(s2, j, s1, x1, x2, y1, y2, overlap', base, out, overlap);
        UnionSwap(s2, s1, |s2|, |s1|, x1, x2, y1, y2, out);
      }
      UnionDone(s1, s2, x1, x2, y1, y2, out);
      NewRect(Box(x1, y1, x2, y2));
      out := out + [Box(x1, y1, x2, y2)];
    }

    /** miSubtractO: the columns of the first band that the second does not hold. */
    method OverlapSubtract(s1: seq<Box>, s2: seq<Box>, y1: int, y2: int) returns (ghost out: seq<Box>)
      requires data.Rects? && y1 < y2 && SourceBand(s1) && SourceBand(s2)
      modifies this`data
      ensures data == Rects(old(data.boxes) + out) && IsBand(out, y1, y2)
      ensures forall x :: RowIn(out, x) <==> RowIn(s1, x) && !RowIn(s2, x)
    {
      hide SubtractInv;
      var i, j, x1 := 0, 0, s1[0].x1;
      out := [];
      SubtractStart(s1, s2, y1, y2);
      while i < |s1| && j < |s2|
        invariant 0 <= i <= |s1| && 0 <= j <= |s2|
        invariant data == Rects(old(data.boxes) + out)
        invariant SubtractInv(s1, s2, i, j, x1, y1, y2, out)
        decreases |s1| - i + |s2| - j
      {
        if s2[j].x2 <= x1 {
          SubtractSkip(s1, s2, i, j, x1, y1, y2, out);
          j := j + 1;
        } else if s2[j].x1 <= x1 {
          SubtractCut(s1, s2, i, j, x1, y1, y2, out);
          x1 := s2[j].x2;
          if x1 >= s1[i].x2 {
            i := i + 1;
            if i != |s1| { x1 := s1[i].x1; }
          } else {
            j := j + 1;
          }
        } else if s2[j].x1 < s1[i].x2 {
          SubtractEmit(s1, s2, i, j, x1, y1, y2, out);
          NewRect(Box(x1, y1, s2[j].x1, y2));
          out := out + [Box(x1, y1, s2[j].x1, y2)];
          x1 := s2[j].x2;
          if x1 >= s1[i].x2 {
            i := i + 1;
            if i != |s1| { x1 := s1[i].x1; }
          } else {
            j := j + 1;
          }
        } else {
          SubtractRest(s1, s2, i, j, x1, y1, y2, out);
          if s1[i].x2 > x1 {
            NewRect(Box(x1, y1, s1[i].x2, y2));
            out := out + [Box(x1, y1, s1[i].x2, y2)];
          }
          i := i + 1;
          if i != |s1| { x1 := s1[i].x1; }
        }
      }
      out := KeepRest(s1, s2, i, j, x1, y1, y2, old(data.boxes), out);
    }

    /** The remaining minuends, once the subtrahends are used up. */
    method KeepRest(s1: seq<Box>, ghost s2: seq<Box>, i0: int, ghost j: int, x: int, y1: int, y2: int,
                    ghost base: seq<Box>, ghost out0: seq<Box>) returns (ghost out: seq<Box>)
      requires data == Rects(base + out0) && SourceBand(s1) && SourceBand(s2)
      requires SubtractInv(s1, s2, i0, j, x, y1, y2, out0) && (i0 < |s1| ==> j == |s2|)
      modifies this`data
      ensures data == Rects(base + out) && IsBand(out, y1, y2)
      ensures forall x :: RowIn(out, x) <==> RowIn(s1, x) && !RowIn(s2, x)
    {
      var i, x1 := i0, x;
      out := out0;
      while i != |s1|
        invariant data == Rects(base + out)
        invariant SubtractInv(s1, s2, i, j, x1, y1, y2, out)
        invariant i < |s1| ==> j == |s2|
      {
        SubtractRest(s1, s2, i, j, x1, y1, y2, out);
        NewRect(Box(x1, y1, s1[i].x2, y2));
        out := out + [Box(x1, y1, s1[i].x2, y2)];
        i := i + 1;
        if i != |s1| { x1 := s1[i].x1; }
      }
    }

    /** miAppendNonO: the rectangles of a source band, clipped to y1 and y2. */
    method AppendNonO(s: seq<Box>, y1: int, y2: int) returns (ghost out: seq<Box>)
      requires data.Rects? && y1 < y2 && SourceBand(s)
      modifies this`data
      ensures data == Rects(old(data.boxes) + out)
      ensures IsBand(out, y1, y2) && out != [] && SameSpans(out, s)
    {
      var i := 0;
      out := [];
      while i != |s|
        invariant 0 <= i <= |s| && |out| == i
        invariant data == Rects(old(data.boxes) + out)
        invariant forall k :: 0 <= k < i ==> out[k] == Box(s[k].x1, y1, s[k].x2, y2)
      {
        NewRect(Box(s[i].x1, y1, s[i].x2, y2));
        out := out + [Box(s[i].x1, y1, s[i].x2, y2)];
        i := i + 1;
      }
    }

    /** Coalesce on the band that ends this region's array. */
    method CoalesceLast(prevBand: int, curBand: int, ghost y1: int, ghost y2: int) returns (newPrev: int)
      requires data.Rects? && 0 <= curBand <= |data.boxes| && y1 < y2
      requires Form(data.boxes[..curBand], prevBand, y1) && IsBand(data.boxes[curBand..], y1, y2)
      modifies this`data
      ensures data.Rects? && Form(data.boxes, newPrev, y2)
      ensures forall x, y :: Covers(data.boxes, x, y) <==> Covers(old(data.boxes), x, y)
      ensures curBand < old(|data.boxes|) ==>
        && BandAt(data.boxes, newPrev, |data.boxes|) && data.boxes[newPrev].y2 == y2
        && SameSpans(data.boxes[newPrev..], old(data.boxes)[curBand..])
    {
      var boxes;
      boxes, newPrev := Coalesce(data.boxes, prevBand, curBand, y1, y2);
      data := Rects(boxes);
    }

    /** The band of one region where the other has none, clipped to top and bot. */
    method AppendBand(s: seq<Box>, top: int, bot: int, prevBand: int) returns (newPrev: int)
      requires data.Rects? && SourceBand(s) && top < bot && Form(data.boxes, prevBand, top)
      modifies this`data
      ensures data.Rects? && Form(data.boxes, newPrev, bot)
      ensures BandAt(data.boxes, newPrev, |data.boxes|) && data.boxes[newPrev].y2 == bot
      ensures SameSpans(data.boxes[newPrev..], s)
      ensures forall x, y :: Covers(data.boxes, x, y) <==>
                Covers(old(data.boxes), x, y) || (top <= y < bot && RowIn(s, x))
    {
      var curBand := |data.boxes|;
      ghost var out := AppendNonO(s, top, bot);
      AppendedBand(old(data.boxes), out, top, bot);
      forall x ensures RowIn(out, x) <==> RowIn(s, x) { SameSpansSameRow(out, s, x); }
      newPrev := CoalesceLast(prevBand, curBand, top, bot);
    }

    /** A band where both regions have rectangles, between ytop and ybot. */
    method OverlapBand(f: OverlapFunc, s1: seq<Box>, s2: seq<Box>, ytop: int, ybot: int, prevBand: int, overlap: bool)
      returns (newPrev: int, overlap': bool)
      requires data.Rects? && SourceBand(s1) && SourceBand(s2) && ytop < ybot
      requires Form(data.boxes, prevBand, ytop)
      modifies this`data
      ensures data.Rects? && Form(data.boxes, newPrev, ybot)
      ensures forall x, y :: Covers(data.boxes, x, y) <==>
                Covers(old(data.boxes), x, y) || (ytop <= y < ybot && Combine(f, RowIn(s1, x), RowIn(s2, x)))
      ensures f.UnionO? ==> (overlap' <==> overlap || exists x :: RowIn(s1, x) && RowIn(s2, x))
    {
      var curBand := |data.boxes|;
      ghost var out;
      overlap' := overlap;
      match f {
        case IntersectO => out := OverlapIntersect(s1, s2, ytop, ybot);
        case UnionO => out, overlap' := OverlapUnion(s1, s2, ytop, ybot, overlap);
        case SubtractO => out := OverlapSubtract(s1, s2, ytop, ybot);
      }
      AppendedBand(old(data.boxes), out, ytop, ybot);
      newPrev := CoalesceLast(prevBand, curBand, ytop, ybot);
    }

    /** FindBand. */
    static method FindBand(rs: seq<Box>, i: int) returns (e: int)
      requires BandStart(rs, i) && i < |rs|
      ensures BandAt(rs, i, e)
    {
      e := i + 1;
      while e != |rs| && rs[e].y1 == rs[i].y1
        invariant i < e <= |rs|
        invariant forall k :: i <= k < e ==> rs[k].y1 == rs[i].y1
      {
        e := e + 1;
      }
    }

    /** The part of a turn of miRegionOp for the rows where only one region has a band. */
    method NonOverlapPart(f: OverlapFunc, r1: seq<Box>, r2: seq<Box>, i: int, j: int, r1BandEnd: int, r2BandEnd: int,
                          ybot: int, prevBand: int)
      returns (newPrev: int, ytop: int)
      requires data.Rects? && Form(data.boxes, prevBand, ybot) && OpTurn(r1, r2, i, j, r1BandEnd, r2BandEnd, ybot)
      modifies this`data
      ensures data.Rects? && ytop == Max(r1[i].y1, r2[j].y1)
      ensures Form(data.boxes, newPrev, Min(ytop, Min(r1[i].y2, r2[j].y2)))
      ensures forall x, y :: Covers(data.boxes, x, y) <==>
        (Covers(old(data.boxes), x, y) || (ybot <= y < Min(ytop, Min(r1[i].y2, r2[j].y2)) &&
          Combine(f, r1[i].y1 <= y && RowIn(r1[i..r1BandEnd], x), r2[j].y1 <= y && RowIn(r2[j..r2BandEnd], x))))
    {
      var r1y1, r2y1 := r1[i].y1, r2[j].y1;
      BandCut(r1, i, r1BandEnd);
      BandCut(r2, j, r2BandEnd);
      newPrev := prevBand;
      if r1y1 < r2y1 {
        if AppendNon1(f) {
          var top, bot := Max(r1y1, ybot), Min(r1[i].y2, r2y1);
          if top != bot {
            FormLower(data.boxes, prevBand, ybot, top);
            newPrev := AppendBand(r1[i..r1BandEnd], top, bot, prevBand);
          }
        }
        ytop := r2y1;
      } else if r2y1 < r1y1 {
        if AppendNon2(f) {
          var top, bot := Max(r2y1, ybot), Min(r2[j].y2, r1y1);
          if top != bot {
            FormLower(data.boxes, prevBand, ybot, top);
            newPrev := AppendBand(r2[j..r2BandEnd], top, bot, prevBand);
          }
        }
        ytop := r1y1;
      } else {
        ytop := r1y1;
      }
    }

    /** Whichever region still has rectangles: only its first band can need clipping or
        merging, the others are appended as they are. */
    method AppendRest(r: seq<Box>, i: int, ybot: int, prevBand: int)
      requires data.Rects? && Form(data.boxes, prevBand, ybot) && Canonical(r) && Pending(r, i, ybot) && i < |r|
      modifies this`data
      ensures data.Rects? && Canonical(data.boxes)
      ensures forall x, y :: Covers(data.boxes, x, y) <==> Covers(old(data.boxes), x, y) || (ybot <= y && Covers(r, x, y))
    {
      var bandEnd := FindBand(r, i);
      BandCut(r, i, bandEnd);
      var top := Max(r[i].y1, ybot);
      FormLower(data.boxes, prevBand, ybot, top);
      var newPrev := AppendBand(r[i..bandEnd], top, r[i].y2, prevBand);
      TailForm(data.boxes, newPrev, r, i, bandEnd);
      forall x, y | ybot <= y < r[i].y2
        ensures Covers(r, x, y) <==> r[i].y1 <= y && RowIn(r[i..bandEnd], x)
      {
        PendingRow(r, i, bandEnd, ybot, x, y);
      }
      data := Rects(data.boxes + r[bandEnd..]);
    }

    /** One turn of the loop of miRegionOp: the rows from ybot down to the nearer of the
        two band bottoms. */
    method OpOneTurn(f: OverlapFunc, r1: seq<Box>, r2: seq<Box>, i: int, j: int, ybot: int, prevBand: int,
                     overlap: bool, ghost before: bool)
      returns (i': int, j': int, ybot': int, newPrev: int, overlap': bool)
      requires Canonical(r1) && Canonical(r2) && i < |r1| && j < |r2|
      requires data.Rects? && Form(data.boxes, prevBand, ybot) && OpInv(f, r1, r2, i, j, ybot, data.boxes)
      requires f.UnionO? ==> (overlap <==> before || Shares(r1, r2, ybot))
      modifies this`data
      ensures data.Rects? && Form(data.boxes, newPrev, ybot') && OpInv(f, r1, r2, i', j', ybot', data.boxes)
      ensures i <= i' <= |r1| && j <= j' <= |r2| && i + j < i' + j'
      ensures f.UnionO? ==> (overlap' <==> before || Shares(r1, r2, ybot'))
    {
      var r1BandEnd := FindBand(r1, i);
      var r2BandEnd := FindBand(r2, j);
      var ytop;
      newPrev, ytop := NonOverlapPart(f, r1, r2, i, j, r1BandEnd, r2BandEnd, ybot, prevBand);
      ybot', overlap' := Min(r1[i].y2, r2[j].y2), overlap;
      if ybot' > ytop {
        BandCut(r1, i, r1BandEnd);
        BandCut(r2, j, r2BandEnd);
        newPrev, overlap' := OverlapBand(f, r1[i..r1BandEnd], r2[j..r2BandEnd], ytop, ybot', newPrev, overlap);
      }
      OpStep(f, r1, r2, i, j, r1BandEnd, r2BandEnd, ybot, ytop, ybot', old(data.boxes), data.boxes);
      i' := if r1[i].y2 == ybot' then r1BandEnd else i;
      j' := if r2[j].y2 == ybot' then r2BandEnd else j;
    }

    /** The walk of miRegionOp over the rectangles of its two sources. */
    method OpWalk(f: OverlapFunc, r1: seq<Box>, r2: seq<Box>, overlap: bool) returns (overlap': bool)
      requires Canonical(r1) && Canonical(r2) && r1 != [] && r2 != []
      modifies this`data
      ensures data.Rects? && Canonical(data.boxes)
      ensures forall x, y :: Covers(data.boxes, x, y) <==> Combine(f, Covers(r1, x, y), Covers(r2, x, y))
      ensures f.UnionO? ==> (overlap' <==> overlap || Meet(r1, r2))
    {
      var i, j, prevBand := 0, 0, 0;
      var ybot := Min(r1[0].y1, r2[0].y1);
      data := Rects([]);
      overlap' := overlap;
      OpStart(f, r1, r2, ybot);
      while i != |r1| && j != |r2|
        invariant data.Rects? && Form(data.boxes, prevBand, ybot)
        invariant OpInv(f, r1, r2, i, j, ybot, data.boxes)
        invariant f.UnionO? ==> (overlap' <==> overlap || Shares(r1, r2, ybot))
        decreases |r1| - i + |r2| - j
      {
        i, j, ybot, prevBand, overlap' := OpOneTurn(f, r1, r2, i, j, ybot, prevBand, overlap', overlap);
      }
      OpEnd(f, r1, r2, i, j, ybot, data.boxes);
      if i != |r1| && AppendNon1(f) {
        AppendRest(r1, i, ybot, prevBand);
      } else if j != |r2| && AppendNon2(f) {
        AppendRest(r2, j, ybot, prevBand);
      }
    }

    /** miRegionOp. The destination may be one of the sources. */
    method RegionOp(reg1: Region, reg2: Region, f: OverlapFunc, overlap: bool) returns (overlap': bool)
      requires reg1.Valid() && !reg1.Nil() && reg2.Valid() && !reg2.Nil()
      modifies this
      ensures Canonical(Boxes()) && (data.NoData? <==> |Boxes()| == 1)
      ensures forall x, y :: Has(x, y) <==> Combine(f, old(reg1.Has(x, y)), old(reg2.Has(x, y)))
      ensures |Boxes()| != 1 ==> extents == old(extents)
      ensures f.UnionO? ==> (overlap' <==> overlap || Meet(old(reg1.Boxes()), old(reg2.Boxes())))
    {
      overlap' := OpWalk(f, reg1.Boxes(), reg2.Boxes(), overlap);
      if |data.boxes| == 1 {
        extents := data.boxes[0];
        assert data.boxes == [extents];
        data := NoData;
      }
    }

    /** miSetExtents. */
    method SetExtents()
      requires Canonical(Boxes()) && (data.NoData? <==> |Boxes()| == 1)
      modifies this`extents
      ensures Valid() && Boxes() == old(Boxes())
    {
      if data.NoData? {
        assert Boxes()[0] == extents;
        SingleCanonical(extents);
        return;
      }
      if data.boxes == [] {
        extents := extents.(x2 := extents.x1, y2 := extents.y1);
        return;
      }
      var boxes := data.boxes;
      var last := boxes[|boxes|-1];
      extents := Box(boxes[0].x1, boxes[0].y1, last.x2, last.y2);
      var i := 0;
      while i < |boxes|
        invariant 0 <= i <= |boxes|
        invariant extents.y1 == boxes[0].y1 && extents.y2 == last.y2
        invariant forall k :: 0 <= k < i ==> extents.x1 <= boxes[k].x1 && boxes[k].x2 <= extents.x2
        invariant exists k :: 0 <= k < |boxes| && boxes[k].x1 == extents.x1
        invariant exists k :: 0 <= k < |boxes| && boxes[k].x2 == extents.x2
      {
        if boxes[i].x1 < extents.x1 { extents := extents.(x1 := boxes[i].x1); }
        if boxes[i].x2 > extents.x2 { extents := extents.(x2 := boxes[i].x2); }
        i := i + 1;
      }
      forall k | 0 <= k < |boxes|
        ensures extents.y1 <= boxes[k].y1 && boxes[k].y2 <= extents.y2
      {
        BoxOrder(boxes, 0, k);
        BoxOrder(boxes, k, |boxes| - 1);
      }
    }

    /** miRegionCopy. */
    method Copy(src: Region)
      requires src.Valid()
      modifies this
      ensures Valid() && Boxes() == old(src.Boxes())
    {
      if this != src {
        extents, data := src.extents, src.data;
      }
    }

    /** The empty result, on whatever extents were there before. */
    method BecomeEmpty()
      modifies this
      ensures Valid() && Nil()
    {
      extents := extents.(x2 := extents.x1, y2 := extents.y1);
      data := Rects([]);
    }

    /** miIntersect. The destination may be one of the sources. */
    method Intersect(reg1: Region, reg2: Region)
      requires reg1.Valid() && reg2.Valid()
      modifies this
      ensures Valid()
      ensures forall x, y :: Has(x, y) <==> old(reg1.Has(x, y)) && old(reg2.Has(x, y))
    {
      ghost var r1, r2 := reg1.Boxes(), reg2.Boxes();
      ExtentsHold(reg1.extents, r1);
      ExtentsHold(reg2.extents, r2);
      if reg1.Nil() || reg2.Nil() || !Overlapping(reg1.extents, reg2.extents) {
        BecomeEmpty();
      } else if reg1.data.NoData? && reg2.data.NoData? {
        var x1, y1 := Max(reg1.extents.x1, reg2.extents.x1), Max(reg1.extents.y1, reg2.extents.y1);
        var x2, y2 := Min(reg1.extents.x2, reg2.extents.x2), Min(reg1.extents.y2, reg2.extents.y2);
        SingleIntersection(reg1.extents, reg2.extents);
        extents, data := Box(x1, y1, x2, y2), NoData;
      } else if reg2.data.NoData? && Subsumes(reg2.extents, reg1.extents) {
        SingleCanonical(reg2.extents);
        Copy(reg1);
      } else if reg1.data.NoData? && Subsumes(reg1.extents, reg2.extents) {
        SingleCanonical(reg1.extents);
        Copy(reg2);
      } else if reg1 == reg2 {
        Copy(reg1);
      } else {
        var _ := RegionOp(reg1, reg2, IntersectO, false);
        SetExtents();
      }
    }

    /** miUnion. The destination may be one of the sources. */
    method Union(reg1: Region, reg2: Region)
      requires reg1.Valid() && reg2.Valid()
      modifies this
      ensures Valid()
      ensures forall x, y :: Has(x, y) <==> old(reg1.Has(x, y)) || old(reg2.Has(x, y))
    {
      ghost var r1, r2 := reg1.Boxes(), reg2.Boxes();
      ExtentsHold(reg1.extents, r1);
      ExtentsHold(reg2.extents, r2);
      if reg1 == reg2 {
        Copy(reg1);
      } else if reg1.Nil() {
        if this != reg2 { Copy(reg2); }
      } else if reg2.Nil() {
        if this != reg1 { Copy(reg1); }
      } else if reg1.data.NoData? && Subsumes(reg1.extents, reg2.extents) {
        SingleCanonical(reg1.extents);
        if this != reg1 { Copy(reg1); }
      } else if reg2.data.NoData? && Subsumes(reg2.extents, reg1.extents) {
        SingleCanonical(reg2.extents);
        if this != reg2 { Copy(reg2); }
      } else {
        var _ := UnionGeneral(reg1, reg2, false);
      }
    }

    /** miUnion past its simple cases, and one merge of miRegionValidate. The sources'
        extents are read after the operator has run, when one may be the destination. */
    method UnionGeneral(reg1: Region, reg2: Region, overlap: bool) returns (overlap': bool)
      requires reg1.Valid() && reg2.Valid() && !reg1.Nil() && !reg2.Nil()
      modifies this
      ensures Valid() && !Nil()
      ensures forall x, y :: Has(x, y) <==> old(reg1.Has(x, y)) || old(reg2.Has(x, y))
      ensures overlap' <==> overlap || Meet(old(reg1.Boxes()), old(reg2.Boxes()))
    {
      ghost var e1, r1, e2, r2 := reg1.extents, reg1.Boxes(), reg2.extents, reg2.Boxes();
      overlap' := RegionOp(reg1, reg2, UnionO, overlap);
      ghost var rs := Boxes();
      assert forall x, y :: Covers(rs, x, y) <==> Has(x, y);
      UnionExtents(e1, r1, e2, r2, rs);
      SingleExtents(UnionBox(e1, e2), rs);
      extents := UnionBox(reg1.extents, reg2.extents);
    }

    /** miSubtract. The destination may be one of the sources. */
    method Subtract(regM: Region, regS: Region)
      requires regM.Valid() && regS.Valid()
      modifies this
      ensures Valid()
      ensures forall x, y :: Has(x, y) <==> old(regM.Has(x, y)) && !old(regS.Has(x, y))
    {
      ExtentsHold(regM.extents, regM.Boxes());
      ExtentsHold(regS.extents, regS.Boxes());
      if regM.Nil() || regS.Nil() || !Overlapping(regM.extents, regS.extents) {
        Copy(regM);
      } else if regM == regS {
        BecomeEmpty();
      } else {
        var _ := RegionOp(regM, regS, SubtractO, false);
        SetExtents();
      }
    }

    /** miInverse: what reg1 leaves of a box. */
    method Inverse(reg1: Region, invRect: Box)
      requires reg1.Valid() && NonEmpty(invRect)
      modifies this
      ensures Valid()
      ensures forall x, y :: Has(x, y) <==> InBox(invRect, x, y) && !old(reg1.Has(x, y))
    {
      SingleCanonical(invRect);
      ExtentsHold(reg1.extents, reg1.Boxes());
      if reg1.Nil() || !Overlapping(invRect, reg1.extents) {
        extents, data := invRect, NoData;
      } else {
        var invReg := new Region.FromBox(invRect);
        assert forall x, y :: reg1.Has(x, y) <==> old(reg1.Has(x, y));
        var _ := RegionOp(invReg, reg1, SubtractO, false);
        SetExtents();
      }
    }

    /** miRegionNotEmpty. */
    method NotEmpty() returns (b: bool)
      requires Valid()
      ensures b <==> exists x, y :: Has(x, y)
    {
      b := !Nil();
      if b {
        assert NonEmpty(Boxes()[0]);
        BoxCovers(Boxes(), 0, Boxes()[0].x1, Boxes()[0].y1);
        assert Has(Boxes()[0].x1, Boxes()[0].y1);
      }
    }
  }

  lemma SingleIntersection(e1: Box, e2: Box)
    requires NonEmpty(e1) && NonEmpty(e2) && Overlapping(e1, e2)
    ensures var b := Box(Max(e1.x1, e2.x1), Max(e1.y1, e2.y1), Min(e1.x2, e2.x2), Min(e1.y2, e2.y2));
      && Canonical([b]) && IsExtents(b, [b])
      && forall x, y :: Covers([b], x, y) <==> Covers([e1], x, y) && Covers([e2], x, y)
  {
    SingleCanonical(e1);
    SingleCanonical(e2);
    SingleCanonical(Box(Max(e1.x1, e2.x1), Max(e1.y1, e2.y1), Min(e1.x2, e2.x2), Min(e1.y2, e2.y2)));
  }

  lemma ExtentsHold(e: Box, rs: seq<Box>)
    requires rs != [] ==> IsExtents(e, rs)
    ensures forall x, y :: Covers(rs, x, y) ==> InBox(e, x, y)
  {
    forall x, y | Covers(rs, x, y)
      ensures InBox(e, x, y)
    {
      var i :| 0 <= i < |rs| && InBox(rs[i], x, y);
      assert Subsumes(e, rs[i]);
    }
  }

  function UnionBox(e1: Box, e2: Box): Box {
    Box(Min(e1.x1, e2.x1), Min(e1.y1, e2.y1), Max(e1.x2, e2.x2), Max(e1.y2, e2.y2))
  }

  /** A box of rs lies in u when its corners do. */
  lemma CornersInside(u: Box, rs: seq<Box>, k: int)
    requires 0 <= k < |rs| && NonEmpty(rs[k])
    requires forall x, y :: Covers(rs, x, y) ==> InBox(u, x, y)
    ensures Subsumes(u, rs[k])
  {
    BoxCovers(rs, k, rs[k].x1, rs[k].y1);
    BoxCovers(rs, k, rs[k].x2 - 1, rs[k].y2 - 1);
  }

  /** Where a box of r has a point, rs has a box around it. */
  lemma BoxAround(r: seq<Box>, i: int, rs: seq<Box>, x: int, y: int) returns (k: int)
    requires 0 <= i < |r| && InBox(r[i], x, y)
    requires forall x, y :: Covers(r, x, y) ==> Covers(rs, x, y)
    ensures 0 <= k < |rs| && InBox(rs[k], x, y)
  {
    assert Covers(r, x, y);
    k :| 0 <= k < |rs| && InBox(rs[k], x, y);
  }

  /** The sides of u that r reaches are reached by rs. */
  lemma SidesReached(e: Box, r: seq<Box>, u: Box, rs: seq<Box>)
    requires IsExtents(e, r) && Banded(r)
    requires forall x, y :: Covers(r, x, y) ==> Covers(rs, x, y)
    requires forall k :: 0 <= k < |rs| ==> Subsumes(u, rs[k])
    ensures u.x1 == e.x1 ==> exists k :: 0 <= k < |rs| && rs[k].x1 == u.x1
    ensures u.x2 == e.x2 ==> exists k :: 0 <= k < |rs| && rs[k].x2 == u.x2
    ensures u.y1 == e.y1 ==> exists k :: 0 <= k < |rs| && rs[k].y1 == u.y1
    ensures u.y2 == e.y2 ==> exists k :: 0 <= k < |rs| && rs[k].y2 == u.y2
  {
    var i1 :| 0 <= i1 < |r| && r[i1].x1 == e.x1;
    var k1 := BoxAround(r, i1, rs, r[i1].x1, r[i1].y1);
    var i2 :| 0 <= i2 < |r| && r[i2].x2 == e.x2;
    var k2 := BoxAround(r, i2, rs, r[i2].x2 - 1, r[i2].y1);
    var i3 :| 0 <= i3 < |r| && r[i3].y1 == e.y1;
    var k3 := BoxAround(r, i3, rs, r[i3].x1, r[i3].y1);
    var i4 :| 0 <= i4 < |r| && r[i4].y2 == e.y2;
    var k4 := BoxAround(r, i4, rs, r[i4].x1, r[i4].y2 - 1);
    assert u.x1 == e.x1 ==> rs[k1].x1 == u.x1;
    assert u.x2 == e.x2 ==> rs[k2].x2 == u.x2;
    assert u.y1 == e.y1 ==> rs[k3].y1 == u.y1;
    assert u.y2 == e.y2 ==> rs[k4].y2 == u.y2;
  }

  lemma UnionExtents(e1: Box, r1: seq<Box>, e2: Box, r2: seq<Box>, rs: seq<Box>)
    requires Banded(r1) && IsExtents(e1, r1)
    requires Banded(r2) && IsExtents(e2, r2)
    requires Banded(rs)
    requires forall x, y :: Covers(rs, x, y) <==> Covers(r1, x, y) || Covers(r2, x, y)
    ensures IsExtents(UnionBox(e1, e2), rs)
  {
    var u := UnionBox(e1, e2);
    ExtentsHold(e1, r1);
    ExtentsHold(e2, r2);
    forall k | 0 <= k < |rs|
      ensures Subsumes(u, rs[k])
    {
      CornersInside(u, rs, k);
    }
    SidesReached(e1, r1, u, rs);
    SidesReached(e2, r2, u, rs);
  }

  /** Of two non-empty valid regions with the same points every field agrees. */
  lemma RepresentationUnique(reg1: Region, reg2: Region)
    requires reg1.Valid() && reg2.Valid() && !reg1.Nil()
    requires forall x, y :: reg1.Has(x, y) <==> reg2.Has(x, y)
    ensures reg1.data == reg2.data && reg1.extents == reg2.extents
  {
    forall x, y
      ensures Covers(reg1.Boxes(), x, y) <==> Covers(reg2.Boxes(), x, y)
    {
      assert reg1.Has(x, y) <==> reg2.Has(x, y);
    }
    CanonicalUnique(reg1.Boxes(), reg2.Boxes());
    ExtentsAgree(reg1.extents, reg2.extents, reg1.Boxes());
  }

  /** The extents of a single box are that box. */
  lemma SingleExtents(e: Box, rs: seq<Box>)
    requires IsExtents(e, rs)
    ensures |rs| == 1 ==> e == rs[0]
  {
  }

  lemma ExtentsAgree(e1: Box, e2: Box, rs: seq<Box>)
    requires IsExtents(e1, rs) && IsExtents(e2, rs)
    ensures e1 == e2
  {
  }

  /** Both outcomes of the Coalesce macro leave the array in form. */
  lemma CoalesceForm(rs: seq<Box>, prev: int, b: seq<Box>, y1: int, y2: int, ms: seq<Box>, newPrev: int)
    requires Form(rs, prev, y1) && IsBand(b, y1, y2) && y1 < y2
    requires if prev < |rs| && |rs| - prev == |b| && rs[prev].y2 == b[0].y1 && SameSpans(rs[prev..], b)
             then newPrev == prev && Stretched(rs, ms, prev, b[0].y2)
             else newPrev == |rs| && ms == rs + b
    ensures Form(ms, newPrev, y2)
    ensures forall x, y :: Covers(ms, x, y) <==> Covers(rs + b, x, y)
    ensures b != [] ==> BandAt(ms, newPrev, |ms|) && ms[newPrev].y2 == y2 && SameSpans(ms[newPrev..], b)
  {
    if newPrev == prev && prev < |rs| {
      MergeForm(rs, prev, b, y1, y2, ms);
    } else if b == [] {
      assert ms == rs;
    } else {
      AppendForm(rs, prev, b, y1, y2);
      AppendLast(rs, b, y1, y2);
      assert ms[newPrev..] == b;
    }
  }

  lemma AppendedBand(boxes: seq<Box>, out: seq<Box>, y1: int, y2: int)
    requires IsBand(out, y1, y2)
    ensures (boxes + out)[..|boxes|] == boxes && (boxes + out)[|boxes|..] == out
    ensures forall x, y :: Covers(boxes + out, x, y) <==> Covers(boxes, x, y) || (y1 <= y < y2 && RowIn(out, x))
  {
    forall x, y
      ensures Covers(boxes + out, x, y) <==> Covers(boxes, x, y) || (y1 <= y < y2 && RowIn(out, x))
    {
      CoversConcat(boxes, out, x, y);
      CoversBand(out, y1, y2, x, y);
    }
  }

  /** The positions at the start of a turn: two whole bands that reach below ybot, at
      least one of them not begun. */
  ghost predicate OpTurn(r1: seq<Box>, r2: seq<Box>, i: int, j: int, e1: int, e2: int, ybot: int) {
    && Canonical(r1) && Canonical(r2)
    && Pending(r1, i, ybot) && BandAt(r1, i, e1)
    && Pending(r2, j, ybot) && BandAt(r2, j, e2)
    && (ybot <= r1[i].y1 || ybot <= r2[j].y1)
  }

  lemma OpStart(f: OverlapFunc, r1: seq<Box>, r2: seq<Box>, ybot: int)
    requires Canonical(r1) && Canonical(r2) && r1 != [] && r2 != [] && ybot == Min(r1[0].y1, r2[0].y1)
    ensures Form([], 0, ybot) && OpInv(f, r1, r2, 0, 0, ybot, [])
    ensures !Shares(r1, r2, ybot)
  {
    assert NonEmpty(r1[0]) && NonEmpty(r2[0]);
    forall x, y | y < ybot
      ensures !Covers(r1, x, y) && !Covers(r2, x, y)
    {
      BandGap(r1, 0, x, y);
      BandGap(r2, 0, x, y);
    }
  }

  /** One turn of miRegionOp brings the rows down to the new ybot into boxes. */
  lemma OpStep(f: OverlapFunc, r1: seq<Box>, r2: seq<Box>, i: int, j: int, e1: int, e2: int,
               yold: int, ytop: int, ybot: int, before: seq<Box>, boxes: seq<Box>)
    requires OpTurn(r1, r2, i, j, e1, e2, yold) && OpInv(f, r1, r2, i, j, yold, before)
    requires ytop == Max(r1[i].y1, r2[j].y1) && ybot == Min(r1[i].y2, r2[j].y2)
    requires forall x, y :: Covers(boxes, x, y) <==>
      (Covers(before, x, y) || (yold <= y < ybot &&
        Combine(f, r1[i].y1 <= y && RowIn(r1[i..e1], x), r2[j].y1 <= y && RowIn(r2[j..e2], x))))
    ensures OpInv(f, r1, r2, if r1[i].y2 == ybot then e1 else i, if r2[j].y2 == ybot then e2 else j, ybot, boxes)
    ensures Shares(r1, r2, ybot) <==>
      Shares(r1, r2, yold) || (ybot > ytop && exists x :: RowIn(r1[i..e1], x) && RowIn(r2[j..e2], x))
  {
    PendingNext(r1, i, e1, yold, ybot);
    PendingNext(r2, j, e2, yold, ybot);
    forall x, y | yold <= y < ybot
      ensures Covers(r1, x, y) <==> r1[i].y1 <= y && RowIn(r1[i..e1], x)
      ensures Covers(r2, x, y) <==> r2[j].y1 <= y && RowIn(r2[j..e2], x)
    {
      PendingRow(r1, i, e1, yold, x, y);
      PendingRow(r2, j, e2, yold, x, y);
    }
    if ybot > ytop && exists x :: RowIn(r1[i..e1], x) && RowIn(r2[j..e2], x) {
      var x :| RowIn(r1[i..e1], x) && RowIn(r2[j..e2], x);
      assert Covers(r1, x, ybot - 1) && Covers(r2, x, ybot - 1);
    }
  }

  /** Once a region is used up only the other decides the rows below ybot. */
  lemma OpEnd(f: OverlapFunc, r1: seq<Box>, r2: seq<Box>, i: int, j: int, ybot: int, boxes: seq<Box>)
    requires Canonical(r1) && Canonical(r2) && OpInv(f, r1, r2, i, j, ybot, boxes)
    requires i == |r1| || j == |r2|
    ensures forall x, y :: Combine(f, Covers(r1, x, y), Covers(r2, x, y)) <==>
      (Covers(boxes, x, y) || (ybot <= y && i != |r1| && AppendNon1(f) && Covers(r1, x, y))
                           || (ybot <= y && j != |r2| && AppendNon2(f) && Covers(r2, x, y)))
    ensures Shares(r1, r2, ybot) <==> Meet(r1, r2)
  {
    forall x, y | ybot <= y
      ensures i == |r1| ==> !Covers(r1, x, y)
      ensures j == |r2| ==> !Covers(r2, x, y)
    {
      if i == |r1| { BandGap(r1, i, x, y); }
      if j == |r2| { BandGap(r2, j, x, y); }
    }
  }

  /** The rows above ybot are done; the bands at i and j reach below ybot, and one of
      them starts there. */
  ghost predicate OpInv(f: OverlapFunc, r1: seq<Box>, r2: seq<Box>, i: int, j: int, ybot: int, boxes: seq<Box>) {
    && Pending(r1, i, ybot) && Pending(r2, j, ybot)
    && (i < |r1| && j < |r2| ==> ybot <= r1[i].y1 || ybot <= r2[j].y1)
    && (forall x, y :: Covers(boxes, x, y) <==> y < ybot && Combine(f, Covers(r1, x, y), Covers(r2, x, y)))
  }

  /** Two arrays of boxes have a point in common. */
  ghost predicate Meet(r1: seq<Box>, r2: seq<Box>) {
    exists x, y :: Covers(r1, x, y) && Covers(r2, x, y)
  }

  ghost predicate Shares(r1: seq<Box>, r2: seq<Box>, ybot: int) {
    exists x, y :: y < ybot && Covers(r1, x, y) && Covers(r2, x, y)
  }

  /** The boxes of one whole source band. */
  ghost predicate SourceBand(s: seq<Box>) {
    s != [] && IsBand(s, s[0].y1, s[0].y2)
  }

  /** The spans of s before i lie left of t, those from i on end at t or beyond. */
  ghost predicate Passed(s: seq<Box>, i: int, t: int) {
    && 0 <= i <= |s|
    && (forall k :: 0 <= k < i ==> s[k].x2 <= t)
    && (forall k :: i <= k < |s| ==> t <= s[k].x2)
  }

  lemma RowWindow(s: seq<Box>, i: int, t: int, x: int)
    requires SourceBand(s) && Passed(s, i, t) && i < |s|
    requires t <= x < s[i].x2
    ensures RowIn(s, x) <==> s[i].x1 <= x
  {
    InRow(s, i, x);
    forall k | 0 <= k < |s|
      ensures x < s[i].x1 ==> !(s[k].x1 <= x < s[k].x2)
    {
      assert k <= i || s[i].x2 < s[k].x1;
    }
  }

  lemma RowInSingle(b: Box, x: int)
    ensures RowIn([b], x) <==> b.x1 <= x < b.x2
  {
    InRow([b], 0, x);
  }

  /** Everything left of t has been intersected into out. */
  ghost predicate IntersectInv(s1: seq<Box>, s2: seq<Box>, i: int, j: int, t: int,
                               y1: int, y2: int, out: seq<Box>) {
    && IsBand(out, y1, y2)
    && (forall k :: 0 <= k < |out| ==> out[k].x2 <= t)
    && Passed(s1, i, t) && Passed(s2, j, t)
    && (out != [] && i < |s1| && j < |s2| ==> out[|out|-1].x2 < Max(s1[i].x1, s2[j].x1))
    && (forall x :: RowIn(out, x) <==> x < t && RowIn(s1, x) && RowIn(s2, x))
  }

  lemma IntersectColumns(s1: seq<Box>, s2: seq<Box>, i: int, j: int, t: int, x1: int, x2: int, x: int)
    requires SourceBand(s1) && SourceBand(s2) && i < |s1| && j < |s2|
    requires Passed(s1, i, t) && Passed(s2, j, t)
    requires x1 == Max(s1[i].x1, s2[j].x1) && x2 == Min(s1[i].x2, s2[j].x2)
    ensures x1 <= x < x2 || (x < t && RowIn(s1, x) && RowIn(s2, x)) <==> x < x2 && RowIn(s1, x) && RowIn(s2, x)
  {
    if t <= x < x2 {
      RowWindow(s1, i, t, x);
      RowWindow(s2, j, t, x);
    }
    InRow(s1, i, x);
    InRow(s2, j, x);
  }

  lemma BandSnoc(out: seq<Box>, y1: int, y2: int, b: Box)
    requires IsBand(out, y1, y2) && b.x1 < b.x2 && b.y1 == y1 && b.y2 == y2
    requires out != [] ==> out[|out|-1].x2 < b.x1
    ensures IsBand(out + [b], y1, y2)
    ensures forall x :: RowIn(out + [b], x) <==> RowIn(out, x) || b.x1 <= x < b.x2
  {
    assert forall k :: 0 <= k < |out| - 1 ==> out[k].x2 < out[|out|-1].x1;
    forall x
      ensures RowIn(out + [b], x) <==> RowIn(out, x) || b.x1 <= x < b.x2
    {
      RowInConcat(out, [b], x);
      RowInSingle(b, x);
    }
  }

  lemma PassedStep(s: seq<Box>, i: int, t: int, t': int)
    requires SourceBand(s) && Passed(s, i, t) && i < |s| && t <= t' <= s[i].x2
    ensures Passed(s, if s[i].x2 == t' then i + 1 else i, t')
  {
  }

  lemma IntersectStep(s1: seq<Box>, s2: seq<Box>, i: int, j: int, t: int, x1: int, x2: int, y1: int, y2: int,
                      out: seq<Box>, i': int, j': int, out': seq<Box>)
    requires SourceBand(s1) && SourceBand(s2) && i < |s1| && j < |s2|
    requires IntersectInv(s1, s2, i, j, t, y1, y2, out)
    requires x1 == Max(s1[i].x1, s2[j].x1) && x2 == Min(s1[i].x2, s2[j].x2)
    requires out' == if x1 < x2 then out + [Box(x1, y1, x2, y2)] else out
    requires i' == if s1[i].x2 == x2 then i + 1 else i
    requires j' == if s2[j].x2 == x2 then j + 1 else j
    ensures IntersectInv(s1, s2, i', j', x2, y1, y2, out')
  {
    PassedStep(s1, i, t, x2);
    PassedStep(s2, j, t, x2);
    if x1 < x2 {
      BandSnoc(out, y1, y2, Box(x1, y1, x2, y2));
    }
    IntersectRow(s1, s2, i, j, t, x1, x2, out, out');
  }

  lemma IntersectRow(s1: seq<Box>, s2: seq<Box>, i: int, j: int, t: int, x1: int, x2: int, out: seq<Box>, out': seq<Box>)
    requires SourceBand(s1) && SourceBand(s2) && i < |s1| && j < |s2|
    requires Passed(s1, i, t) && Passed(s2, j, t)
    requires x1 == Max(s1[i].x1, s2[j].x1) && x2 == Min(s1[i].x2, s2[j].x2)
    requires forall x :: RowIn(out, x) <==> x < t && RowIn(s1, x) && RowIn(s2, x)
    requires forall x :: RowIn(out', x) <==> RowIn(out, x) || x1 <= x < x2
    ensures forall x :: RowIn(out', x) <==> x < x2 && RowIn(s1, x) && RowIn(s2, x)
  {
    forall x
      ensures RowIn(out', x) <==> x < x2 && RowIn(s1, x) && RowIn(s2, x)
    {
      IntersectColumns(s1, s2, i, j, t, x1, x2, x);
    }
  }

  ghost predicate RowBefore(s: seq<Box>, i: int, x: int)
    requires 0 <= i <= |s|
  {
    exists k :: 0 <= k < i && s[k].x1 <= x < s[k].x2
  }

  ghost predicate SharesBefore(s1: seq<Box>, i: int, s2: seq<Box>, j: int)
    requires 0 <= i <= |s1| && 0 <= j <= |s2|
  {
    exists x :: RowBefore(s1, i, x) && RowBefore(s2, j, x)
  }

  /** The spans taken so far are those in out and the current one, x1 to x2. */
  ghost predicate UnionInv(s1: seq<Box>, s2: seq<Box>, i: int, j: int, x1: int, x2: int,
                           y1: int, y2: int, out: seq<Box>) {
    && 0 <= i <= |s1| && 0 <= j <= |s2|
    && IsBand(out, y1, y2) && x1 < x2
    && (out != [] ==> out[|out|-1].x2 < x1)
    && (i < |s1| ==> x1 <= s1[i].x1) && (j < |s2| ==> x1 <= s2[j].x1)
    && (forall k :: 0 <= k < i ==> s1[k].x2 <= x2)
    && (forall k :: 0 <= k < j ==> s2[k].x2 <= x2)
    && (forall x :: RowIn(out, x) || x1 <= x < x2 <==> RowBefore(s1, i, x) || RowBefore(s2, j, x))
  }

  lemma UnionStart(s1: seq<Box>, s2: seq<Box>, y1: int, y2: int)
    requires SourceBand(s1) && SourceBand(s2)
    ensures s1[0].x1 < s2[0].x1 ==>
      UnionInv(s1, s2, 1, 0, s1[0].x1, s1[0].x2, y1, y2, []) && !SharesBefore(s1, 1, s2, 0)
    ensures s1[0].x1 >= s2[0].x1 ==>
      UnionInv(s1, s2, 0, 1, s2[0].x1, s2[0].x2, y1, y2, []) && !SharesBefore(s1, 0, s2, 1)
  {
    forall x
      ensures RowBefore(s1, 1, x) <==> s1[0].x1 <= x < s1[0].x2
      ensures RowBefore(s2, 1, x) <==> s2[0].x1 <= x < s2[0].x2
    {
      RowBeforeStep(s1, 0, x);
      RowBeforeStep(s2, 0, x);
    }
  }

  lemma UnionSwap(s1: seq<Box>, s2: seq<Box>, i: int, j: int, x1: int, x2: int, y1: int, y2: int, out: seq<Box>)
    requires UnionInv(s1, s2, i, j, x1, x2, y1, y2, out)
    ensures UnionInv(s2, s1, j, i, x1, x2, y1, y2, out)
    ensures SharesBefore(s1, i, s2, j) <==> SharesBefore(s2, j, s1, i)
  {
  }

  lemma RowBeforeStep(s: seq<Box>, i: int, x: int)
    requires SourceBand(s) && 0 <= i < |s|
    ensures RowBefore(s, i + 1, x) <==> RowBefore(s, i, x) || s[i].x1 <= x < s[i].x2
    ensures RowBefore(s, i, x) ==> x < s[i].x1
  {
  }

  lemma UnionJoin(s1: seq<Box>, s2: seq<Box>, i: int, j: int, x1: int, x2: int, y1: int, y2: int, out: seq<Box>)
    requires SourceBand(s1) && SourceBand(s2)
    requires UnionInv(s1, s2, i, j, x1, x2, y1, y2, out)
    requires i < |s1| && (j < |s2| ==> s1[i].x1 <= s2[j].x1) && s1[i].x1 <= x2
    ensures UnionInv(s1, s2, i + 1, j, x1, Max(x2, s1[i].x2), y1, y2, out)
  {
    forall x
      ensures RowIn(out, x) || x1 <= x < Max(x2, s1[i].x2) <==> RowBefore(s1, i + 1, x) || RowBefore(s2, j, x)
    {
      RowBeforeStep(s1, i, x);
    }
  }

  lemma UnionClose(s1: seq<Box>, s2: seq<Box>, i: int, j: int, x1: int, x2: int, y1: int, y2: int, out: seq<Box>)
    requires SourceBand(s1) && SourceBand(s2)
    requires UnionInv(s1, s2, i, j, x1, x2, y1, y2, out)
    requires i < |s1| && (j < |s2| ==> s1[i].x1 <= s2[j].x1) && s1[i].x1 > x2
    ensures UnionInv(s1, s2, i + 1, j, s1[i].x1, s1[i].x2, y1, y2, out + [Box(x1, y1, x2, y2)])
  {
    var out' := out + [Box(x1, y1, x2, y2)];
    BandSnoc(out, y1, y2, Box(x1, y1, x2, y2));
    forall x
      ensures RowIn(out', x) || s1[i].x1 <= x < s1[i].x2 <==> RowBefore(s1, i + 1, x) || RowBefore(s2, j, x)
    {
      RowBeforeStep(s1, i, x);
    }
  }

  lemma UnionShares(s1: seq<Box>, s2: seq<Box>, i: int, j: int, x1: int, x2: int, y1: int, y2: int, out: seq<Box>)
    requires SourceBand(s1) && SourceBand(s2)
    requires UnionInv(s1, s2, i, j, x1, x2, y1, y2, out)
    requires i < |s1|
    ensures SharesBefore(s1, i + 1, s2, j) <==> SharesBefore(s1, i, s2, j) || s1[i].x1 < x2
  {
    if s1[i].x1 < x2 {
      var x := s1[i].x1;
      RowBeforeStep(s1, i, x);
      assert RowBefore(s1, i + 1, x) && RowBefore(s2, j, x);
    }
    if SharesBefore(s1, i, s2, j) {
      var x :| RowBefore(s1, i, x) && RowBefore(s2, j, x);
      RowBeforeStep(s1, i, x);
      assert RowBefore(s1, i + 1, x) && RowBefore(s2, j, x);
    }
    if SharesBefore(s1, i + 1, s2, j) {
      var x :| RowBefore(s1, i + 1, x) && RowBefore(s2, j, x);
      RowBeforeStep(s1, i, x);
    }
  }

  lemma UnionDone(s1: seq<Box>, s2: seq<Box>, x1: int, x2: int, y1: int, y2: int, out: seq<Box>)
    requires UnionInv(s1, s2, |s1|, |s2|, x1, x2, y1, y2, out)
    ensures var out' := out + [Box(x1, y1, x2, y2)];
      IsBand(out', y1, y2) && forall x :: RowIn(out', x) <==> RowIn(s1, x) || RowIn(s2, x)
    ensures SharesBefore(s1, |s1|, s2, |s2|) <==> exists x :: RowIn(s1, x) && RowIn(s2, x)
  {
    BandSnoc(out, y1, y2, Box(x1, y1, x2, y2));
    assert forall x :: RowBefore(s1, |s1|, x) <==> RowIn(s1, x);
    assert forall x :: RowBefore(s2, |s2|, x) <==> RowIn(s2, x);
  }

  /** The columns left of the fence x1 are done, and x1 lies in the current span of s1. */
  ghost predicate SubtractInv(s1: seq<Box>, s2: seq<Box>, i: int, j: int, x1: int,
                              y1: int, y2: int, out: seq<Box>) {
    && 0 <= i <= |s1| && 0 <= j <= |s2|
    && IsBand(out, y1, y2)
    && (i < |s1| ==>
          && s1[i].x1 <= x1 < s1[i].x2
          && (out != [] ==> out[|out|-1].x2 < x1)
          && forall k :: 0 <= k < j ==> s2[k].x2 <= x1)
    && (forall x :: RowIn(out, x) <==> RowIn(s1, x) && !RowIn(s2, x) && (i < |s1| ==> x < x1))
  }

  lemma SubtractStart(s1: seq<Box>, s2: seq<Box>, y1: int, y2: int)
    requires SourceBand(s1)
    ensures SubtractInv(s1, s2, 0, 0, s1[0].x1, y1, y2, [])
  {
    forall x
      ensures !(RowIn(s1, x) && x < s1[0].x1)
    {
    }
  }

  /** Columns from the current span of s on: in it, or in the gap after it. */
  lemma RowFrom(s: seq<Box>, i: int, x: int)
    requires SourceBand(s) && 0 <= i < |s| && s[i].x1 <= x
    ensures x < s[i].x2 ==> RowIn(s, x)
    ensures x >= s[i].x2 && (i + 1 < |s| ==> x < s[i+1].x1) ==> !RowIn(s, x)
  {
    forall k | 0 <= k < |s|
      ensures x >= s[i].x2 && (i + 1 < |s| ==> x < s[i+1].x1) ==> !(s[k].x1 <= x < s[k].x2)
    {
      assert k <= i || k == i + 1 || s[i+1].x2 < s[k].x1;
      assert k >= i || s[k].x2 < s[i].x1;
    }
  }

  /** Columns right of the fence that the subtrahends before j do not reach. */
  lemma RowAfter(s: seq<Box>, j: int, t: int, x: int)
    requires SourceBand(s) && 0 <= j <= |s| && t <= x
    requires forall k :: 0 <= k < j ==> s[k].x2 <= t
    ensures j == |s| || x < s[j].x1 ==> !RowIn(s, x)
    ensures j < |s| && s[j].x1 <= x < s[j].x2 ==> RowIn(s, x)
  {
    if j < |s| {
      InRow(s, j, x);
      assert forall k :: j < k < |s| ==> s[j].x2 < s[k].x1;
    }
  }

  /** The fence moves past s1[i], to the next minuend or to the end. */
  function NextFence(s1: seq<Box>, i: int, x1: int): int
    requires 0 <= i < |s1|
  {
    if i + 1 < |s1| then s1[i+1].x1 else x1
  }

  lemma SubtractSkip(s1: seq<Box>, s2: seq<Box>, i: int, j: int, x1: int, y1: int, y2: int, out: seq<Box>)
    requires i < |s1| && j < |s2| && SubtractInv(s1, s2, i, j, x1, y1, y2, out) && s2[j].x2 <= x1
    ensures SubtractInv(s1, s2, i, j + 1, x1, y1, y2, out)
  {
  }

  /** The subtrahend covers the fence: its right edge is the new fence. */
  lemma SubtractCut(s1: seq<Box>, s2: seq<Box>, i: int, j: int, x1: int, y1: int, y2: int, out: seq<Box>)
    requires SourceBand(s1) && SourceBand(s2) && i < |s1| && j < |s2|
    requires SubtractInv(s1, s2, i, j, x1, y1, y2, out)
    requires s2[j].x1 <= x1 < s2[j].x2
    ensures s2[j].x2 < s1[i].x2 ==> SubtractInv(s1, s2, i, j + 1, s2[j].x2, y1, y2, out)
    ensures s2[j].x2 >= s1[i].x2 ==> SubtractInv(s1, s2, i + 1, j, NextFence(s1, i, s2[j].x2), y1, y2, out)
  {
    var x1', i' := if s2[j].x2 < s1[i].x2 then s2[j].x2 else NextFence(s1, i, s2[j].x2),
                   if s2[j].x2 < s1[i].x2 then i else i + 1;
    forall x
      ensures RowIn(out, x) <==> RowIn(s1, x) && !RowIn(s2, x) && (i' < |s1| ==> x < x1')
    {
      if x >= x1 {
        RowFrom(s1, i, x);
        RowAfter(s2, j, x1, x);
      }
    }
  }

  /** The subtrahend starts inside the minuend: what lies before it is kept. */
  lemma SubtractEmit(s1: seq<Box>, s2: seq<Box>, i: int, j: int, x1: int, y1: int, y2: int, out: seq<Box>)
    requires SourceBand(s1) && SourceBand(s2) && i < |s1| && j < |s2|
    requires SubtractInv(s1, s2, i, j, x1, y1, y2, out)
    requires x1 < s2[j].x1 < s1[i].x2
    ensures var out' := out + [Box(x1, y1, s2[j].x1, y2)];
      && (s2[j].x2 < s1[i].x2 ==> SubtractInv(s1, s2, i, j + 1, s2[j].x2, y1, y2, out'))
      && (s2[j].x2 >= s1[i].x2 ==> SubtractInv(s1, s2, i + 1, j, NextFence(s1, i, s2[j].x2), y1, y2, out'))
  {
    var out' := out + [Box(x1, y1, s2[j].x1, y2)];
    BandSnoc(out, y1, y2, Box(x1, y1, s2[j].x1, y2));
    var x1', i' := if s2[j].x2 < s1[i].x2 then s2[j].x2 else NextFence(s1, i, s2[j].x2),
                   if s2[j].x2 < s1[i].x2 then i else i + 1;
    forall x
      ensures RowIn(out', x) <==> RowIn(s1, x) && !RowIn(s2, x) && (i' < |s1| ==> x < x1')
    {
      if x >= x1 {
        RowFrom(s1, i, x);
        RowAfter(s2, j, x1, x);
      }
    }
  }

  /** No subtrahend reaches the rest of the minuend: all of it is kept. */
  lemma SubtractRest(s1: seq<Box>, s2: seq<Box>, i: int, j: int, x1: int, y1: int, y2: int, out: seq<Box>)
    requires SourceBand(s1) && SourceBand(s2) && i < |s1|
    requires SubtractInv(s1, s2, i, j, x1, y1, y2, out)
    requires j < |s2| ==> s2[j].x1 >= s1[i].x2
    ensures SubtractInv(s1, s2, i + 1, j, NextFence(s1, i, x1), y1, y2, out + [Box(x1, y1, s1[i].x2, y2)])
    ensures x1 < s1[i].x2
  {
    var out' := out + [Box(x1, y1, s1[i].x2, y2)];
    BandSnoc(out, y1, y2, Box(x1, y1, s1[i].x2, y2));
    var x1' := NextFence(s1, i, x1);
    forall x
      ensures RowIn(out', x) <==> RowIn(s1, x) && !RowIn(s2, x) && (i + 1 < |s1| ==> x < x1')
    {
      if x >= x1 {
        RowFrom(s1, i, x);
        RowAfter(s2, j, x1, x);
      }
    }
  }

  lemma SingleCanonical(b: Box)
    requires NonEmpty(b)
    ensures Canonical([b]) && IsExtents(b, [b])
    ensures forall x, y :: Covers([b], x, y) <==> InBox(b, x, y)
  {
    assert [b][0] == b;
  }
}
