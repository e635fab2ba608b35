/** Questions about a region that are answered by one pass over its rectangles, stopping
    early because of their order. */
module RegionQueries {
  import opened RegionForm
  import opened Regions

  datatype Answer = RgnOUT | RgnIN | RgnPART

  /** miRegionsEqual. Extents are compared first, so two empty regions are told apart by
      the extents left over from earlier operations. */
  method RegionsEqual(reg1: Region, reg2: Region) returns (equal: bool)
    requires reg1.Valid() && reg2.Valid()
    ensures equal <==>
      && (forall x, y :: reg1.Has(x, y) <==> reg2.Has(x, y))
      && (reg1.Nil() && reg2.Nil() ==> reg1.extents == reg2.extents)
  {
    equal := EqualRecords(reg1, reg2);
    EqualPoints(reg1, reg2);
  }

  method EqualRecords(reg1: Region, reg2: Region) returns (equal: bool)
    ensures equal <==> reg1.extents == reg2.extents && reg1.Boxes() == reg2.Boxes()
  {
    if reg1.extents.x1 != reg2.extents.x1 { return false; }
    if reg1.extents.x2 != reg2.extents.x2 { return false; }
    if reg1.extents.y1 != reg2.extents.y1 { return false; }
    if reg1.extents.y2 != reg2.extents.y2 { return false; }
    var rects1, rects2 := reg1.Boxes(), reg2.Boxes();
    if |rects1| != |rects2| { return false; }
    var i := 0;
    while i != |rects1|
      invariant 0 <= i <= |rects1|
      invariant forall k :: 0 <= k < i ==> rects1[k] == rects2[k]
    {
      if rects1[i].x1 != rects2[i].x1 { return false; }
      if rects1[i].x2 != rects2[i].x2 { return false; }
      if rects1[i].y1 != rects2[i].y1 { return false; }
      if rects1[i].y2 != rects2[i].y2 { return false; }
      i := i + 1;
    }
    return true;
  }

  lemma EqualPoints(reg1: Region, reg2: Region)
    requires reg1.Valid() && reg2.Valid()
    ensures reg1.extents == reg2.extents && reg1.Boxes() == reg2.Boxes() <==>
      && (forall x, y :: reg1.Has(x, y) <==> reg2.Has(x, y))
      && (reg1.Nil() && reg2.Nil() ==> reg1.extents == reg2.extents)
  {
    if forall x, y :: reg1.Has(x, y) <==> reg2.Has(x, y) {
      if !reg1.Nil() {
        RepresentationUnique(reg1, reg2);
      } else if !reg2.Nil() {
        RepresentationUnique(reg2, reg1);
      }
    }
  }

  /** miPointInRegion. */
  method PointInRegion(reg: Region, x: int, y: int) returns (found: bool, box: Box)
    requires reg.Valid()
    ensures found <==> reg.Has(x, y)
    ensures found ==> box in reg.Boxes() && InBox(box, x, y)
  {
    var rects := reg.Boxes();
    found, box := false, reg.extents;
    ExtentsHold(reg.extents, rects);
    if |rects| == 0 || !InBox(reg.extents, x, y) {
      return;
    }
    if |rects| == 1 {
      assert rects[0] == reg.extents;
      return true, reg.extents;
    }
    var i := 0;
    while i != |rects|
      invariant 0 <= i <= |rects|
      invariant forall k :: 0 <= k < i ==> !InBox(rects[k], x, y)
    {
      if y < rects[i].y2 {
        if y < rects[i].y1 || x < rects[i].x1 {
          PastPoint(rects, i, x, y);
          return;
        }
        if x < rects[i].x2 {
          return true, rects[i];
        }
      }
      i := i + 1;
    }
  }

  /** Once a box starts below or to the right of the point, none after it holds the point. */
  lemma PastPoint(rs: seq<Box>, i: int, x: int, y: int)
    requires Banded(rs) && 0 <= i < |rs| && y < rs[i].y2
    requires y < rs[i].y1 || x < rs[i].x1
    ensures forall k :: i <= k < |rs| ==> !InBox(rs[k], x, y)
  {
    forall k | i <= k < |rs|
      ensures !InBox(rs[k], x, y)
    {
      BoxOrder(rs, i, k);
      assert k == i || Before(rs[i], rs[k]);
    }
  }

  /** The part of a box that a region holds. */
  ghost predicate Touches(rs: seq<Box>, r: Box) {
    exists x, y :: InBox(r, x, y) && Covers(rs, x, y)
  }

  ghost predicate Misses(rs: seq<Box>, r: Box) {
    exists x, y :: InBox(r, x, y) && !Covers(rs, x, y)
  }

  /** miRectIn. */
  method RectIn(reg: Region, prect: Box) returns (answer: Answer)
    requires reg.Valid() && NonEmpty(prect)
    ensures answer == RgnOUT <==> !Touches(reg.Boxes(), prect)
    ensures answer == RgnIN <==> !Misses(reg.Boxes(), prect)
  {
    var rects := reg.Boxes();
    ExtentsHold(reg.extents, rects);
    assert InBox(prect, prect.x1, prect.y1);
    if |rects| == 0 || !Overlapping(reg.extents, prect) {
      return RgnOUT;
    }
    if |rects| == 1 {
      SingleRect(reg.extents, prect);
      assert rects == [reg.extents];
      if Subsumes(reg.extents, prect) {
        return RgnIN;
      }
      return RgnPART;
    }
    answer := RectInRects(rects, prect);
  }

  lemma SingleRect(e: Box, r: Box)
    requires NonEmpty(e) && NonEmpty(r) && Overlapping(e, r)
    ensures Touches([e], r) && (Misses([e], r) <==> !Subsumes(e, r))
  {
    SingleCanonical(e);
    assert InBox(r, Max(e.x1, r.x1), Max(e.y1, r.y1)) && Covers([e], Max(e.x1, r.x1), Max(e.y1, r.y1));
    if !Subsumes(e, r) {
      var x, y := if e.x1 <= r.x1 then r.x2 - 1 else r.x1, if e.y1 <= r.y1 then r.y2 - 1 else r.y1;
      assert InBox(r, x, r.y1) && InBox(r, r.x1, y);
      assert !Covers([e], x, r.y1) || !Covers([e], r.x1, y);
    }
  }

  /** The loop of miRectIn: the rows of r above y are settled, x stays at its left side. */
  ghost predicate ScanInv(rs: seq<Box>, r: Box, i: int, y: int, partIn: bool, partOut: bool) {
    && 0 <= i <= |rs| && r.y1 <= y < r.y2
    && !(partIn && partOut)
    && (partOut ==> Misses(rs, r))
    && (partIn ==> r.y1 < y && Filled(rs, r, y))
    && (!partIn && !partOut ==> y == r.y1)
    && (!partIn ==> forall k :: 0 <= k < |rs| && (k < i || rs[k].y2 <= y) ==> !Overlapping(rs[k], r))
    && (forall k :: 0 <= k < i ==> rs[k].y2 <= y || rs[k].x2 <= r.x1)
  }

  /** All of r above row y is covered. */
  ghost predicate Filled(rs: seq<Box>, r: Box, y: int) {
    forall x', y' :: r.x1 <= x' < r.x2 && r.y1 <= y' < y ==> Covers(rs, x', y')
  }

  /** What the final partIn and y say about r. */
  ghost predicate Settled(rs: seq<Box>, r: Box, y: int, partIn: bool) {
    && (partIn <==> Touches(rs, r))
    && (partIn && r.y2 <= y <==> !Misses(rs, r))
  }

  /** No box before i reaches the left end of row y, and none from i on does. */
  lemma MissLeft(rs: seq<Box>, r: Box, i: int, y: int)
    requires Banded(rs) && 0 <= i <= |rs| && NonEmpty(r) && r.y1 <= y < r.y2
    requires forall k :: 0 <= k < i ==> rs[k].y2 <= y || rs[k].x2 <= r.x1
    requires i < |rs| ==> y < rs[i].y1 || (y < rs[i].y2 && r.x1 < rs[i].x1)
    ensures Misses(rs, r)
  {
    if i < |rs| {
      PastPoint(rs, i, r.x1, y);
    }
    assert InBox(r, r.x1, y);
    assert !Covers(rs, r.x1, y);
  }

  /** A box that ends inside r leaves a gap to its right. */
  lemma MissGap(rs: seq<Box>, r: Box, i: int, y: int)
    requires Banded(rs) && 0 <= i < |rs| && r.y1 <= y < r.y2
    requires rs[i].y1 <= y < rs[i].y2 && r.x1 <= rs[i].x2 < r.x2
    ensures Misses(rs, r)
  {
    assert InBox(r, rs[i].x2, y);
    forall k | 0 <= k < |rs|
      ensures !InBox(rs[k], rs[i].x2, y)
    {
      assert k <= i || Before(rs[i], rs[k]);
      assert k >= i || Before(rs[k], rs[i]);
    }
    assert !Covers(rs, rs[i].x2, y);
  }

  lemma NothingTouched(rs: seq<Box>, r: Box)
    requires NonEmpty(r)
    requires forall k :: 0 <= k < |rs| ==> !Overlapping(rs[k], r)
    ensures !Touches(rs, r) && Misses(rs, r)
  {
    assert InBox(r, r.x1, r.y1);
  }

  /** Boxes below r, or to its right in the last row they share, do not overlap it. */
  lemma PastBox(rs: seq<Box>, r: Box, i: int)
    requires Banded(rs) && 0 <= i < |rs|
    requires r.y2 <= rs[i].y1 || (r.y2 <= rs[i].y2 && r.x2 <= rs[i].x1)
    ensures forall k :: i <= k < |rs| ==> !Overlapping(rs[k], r)
  {
    forall k | i <= k < |rs|
      ensures !Overlapping(rs[k], r)
    {
      BoxOrder(rs, i, k);
      assert k == i || Before(rs[i], rs[k]);
    }
  }

  /** The rest of a band whose next box already lies to the right of r. */
  lemma RightOfBox(rs: seq<Box>, r: Box, i: int)
    requires Banded(rs) && 0 <= i < |rs| && r.x2 <= rs[i].x1
    ensures forall k :: i <= k < |rs| && rs[k].y2 <= rs[i].y2 ==> !Overlapping(rs[k], r)
  {
    forall k | i <= k < |rs| && rs[k].y2 <= rs[i].y2
      ensures !Overlapping(rs[k], r)
    {
      assert k == i || Before(rs[i], rs[k]);
    }
  }

  lemma TouchAt(rs: seq<Box>, r: Box, i: int, y: int)
    requires 0 <= i < |rs| && NonEmpty(r) && NonEmpty(rs[i]) && r.y1 <= y < r.y2
    requires rs[i].y1 <= y < rs[i].y2 && r.x1 < rs[i].x2 && rs[i].x1 < r.x2
    ensures Touches(rs, r)
  {
    BoxCovers(rs, i, Max(rs[i].x1, r.x1), y);
    assert InBox(r, Max(rs[i].x1, r.x1), y);
  }

  lemma FilledTouches(rs: seq<Box>, r: Box, y: int)
    requires NonEmpty(r) && r.y1 < y && Filled(rs, r, y)
    ensures Touches(rs, r)
    ensures r.y2 <= y ==> !Misses(rs, r)
  {
    assert InBox(r, r.x1, r.y1) && Covers(rs, r.x1, r.y1);
  }

  /** A box that spans r from side to side settles the rows down to its bottom. */
  lemma FillRows(rs: seq<Box>, r: Box, i: int, y: int)
    requires 0 <= i < |rs| && Filled(rs, r, y)
    requires rs[i].y1 <= y < rs[i].y2 && rs[i].x1 <= r.x1 && r.x2 <= rs[i].x2
    ensures Filled(rs, r, rs[i].y2)
  {
    forall x', y' | r.x1 <= x' < r.x2 && y <= y' < rs[i].y2
      ensures Covers(rs, x', y')
    {
      BoxCovers(rs, i, x', y');
    }
  }

  method RectInRects(rects: seq<Box>, prect: Box) returns (answer: Answer)
    requires Banded(rects) && NonEmpty(prect)
    ensures answer == RgnOUT <==> !Touches(rects, prect)
    ensures answer == RgnIN <==> !Misses(rects, prect)
  {
    var partOut, partIn := false, false;
    var x, y := prect.x1, prect.y1;
    var i := 0;
    while i != |rects|
      invariant x == prect.x1
      invariant ScanInv(rects, prect, i, y, partIn, partOut)
    {
      var pbox := rects[i];
      if pbox.y2 > y {
        if pbox.y1 > y {
          MissLeft(rects, prect, i, y);
          if partIn || pbox.y1 >= prect.y2 {
            ScanStops(rects, prect, i, y, partIn, partOut);
            break;
          }
          partOut := true;
          y := pbox.y1;
        }
        if pbox.x2 > x {
          if pbox.x1 > x {
            MissLeft(rects, prect, i, y);
            if partIn {
              FilledTouches(rects, prect, y);
              break;
            }
            partOut := true;
          }
          if pbox.x1 < prect.x2 {
            TouchAt(rects, prect, i, y);
            partIn := true;
            if partOut {
              break;
            }
          }
          if pbox.x2 >= prect.x2 {
            if partIn {
              FillRows(rects, prect, i, y);
              FilledTouches(rects, prect, pbox.y2);
            } else {
              RightOfBox(rects, prect, i);
            }
            y := pbox.y2;
            if y >= prect.y2 {
              if !partIn {
                PastBox(rects, prect, i);
                NothingTouched(rects, prect);
              }
              break;
            }
            x := prect.x1;
          } else {
            MissGap(rects, prect, i, y);
            break;
          }
        }
      }
      i := i + 1;
    }
    if i == |rects| {
      ScanStops(rects, prect, i, y, partIn, partOut);
    }
    answer := if partIn then (if y < prect.y2 then RgnPART else RgnIN) else RgnOUT;
  }

  /** The scan ends at a box that starts below y, or at the end. */
  lemma ScanStops(rs: seq<Box>, r: Box, i: int, y: int, partIn: bool, partOut: bool)
    requires Banded(rs) && NonEmpty(r) && ScanInv(rs, r, i, y, partIn, partOut)
    requires i < |rs| ==> y < rs[i].y1 && (partIn || r.y2 <= rs[i].y1)
    ensures Settled(rs, r, y, partIn)
  {
    MissLeft(rs, r, i, y);
    if partIn {
      FilledTouches(rs, r, y);
    } else {
      if i < |rs| {
        PastBox(rs, r, i);
      }
      NothingTouched(rs, r);
    }
  }
}
