/** The y-x-banded form of a region: what an array of rectangles means as a set of
    points, when it is in canonical form, and why the canonical form is unique. */
module RegionForm {

  /** A half-open rectangle: it holds (x, y) when x1 <= x < x2 and y1 <= y < y2. */
  datatype Box = Box(x1: int, y1: int, x2: int, y2: int)

  predicate NonEmpty(b: Box) {
    b.x1 < b.x2 && b.y1 < b.y2
  }

  predicate InBox(b: Box, x: int, y: int) {
    b.x1 <= x < b.x2 && b.y1 <= y < b.y2
  }

  /** EXTENTCHECK: true exactly when two boxes are not separated by one of their sides. */
  predicate Overlapping(a: Box, b: Box) {
    !(a.x2 <= b.x1 || a.x1 >= b.x2 || a.y2 <= b.y1 || a.y1 >= b.y2)
  }

  predicate Subsumes(a: Box, b: Box) {
    a.x1 <= b.x1 && a.x2 >= b.x2 && a.y1 <= b.y1 && a.y2 >= b.y2
  }

  /** The point set of an array of boxes. */
  ghost predicate Covers(rs: seq<Box>, x: int, y: int) {
    exists i :: 0 <= i < |rs| && InBox(rs[i], x, y)
  }

  /** The set of columns of a single band. */
  ghost predicate RowIn(b: seq<Box>, x: int) {
    exists i :: 0 <= i < |b| && b[i].x1 <= x < b[i].x2
  }

  /** One band: boxes of the same height, left to right, never touching. */
  ghost predicate IsBand(b: seq<Box>, y1: int, y2: int) {
    && (forall i :: 0 <= i < |b| ==> b[i].x1 < b[i].x2 && b[i].y1 == y1 && b[i].y2 == y2)
    && (forall i, j :: 0 <= i < j < |b| ==> b[i].x2 < b[j].x1)
  }

  /** The order the banded form puts on two boxes: the same band with a gap between
      them, or a band further down. */
  predicate Before(a: Box, b: Box) {
    (a.y1 == b.y1 && a.y2 == b.y2 && a.x2 < b.x1) || a.y2 <= b.y1
  }

  ghost predicate Banded(rs: seq<Box>) {
    && (forall i :: 0 <= i < |rs| ==> NonEmpty(rs[i]))
    && (forall i, j :: 0 <= i < j < |rs| ==> Before(rs[i], rs[j]))
  }

  /** rs[p..c] is one whole band of rs. */
  ghost predicate BandAt(rs: seq<Box>, p: int, c: int) {
    && 0 <= p < c <= |rs|
    && (forall k :: p <= k < c ==> rs[k].y1 == rs[p].y1)
    && (p > 0 ==> rs[p-1].y1 != rs[p].y1)
    && (c < |rs| ==> rs[c].y1 != rs[p].y1)
  }

  ghost predicate SameSpans(a: seq<Box>, b: seq<Box>) {
    |a| == |b| && forall k :: 0 <= k < |a| ==> a[k].x1 == b[k].x1 && a[k].x2 == b[k].x2
  }

  /** Two neighbouring bands that touch and hold the same columns. */
  ghost predicate Mergeable(rs: seq<Box>, p: int, c: int, e: int)
    requires 0 <= p < c < e <= |rs|
  {
    rs[p].y2 == rs[c].y1 && SameSpans(rs[p..c], rs[c..e])
  }

  ghost predicate Coalesced(rs: seq<Box>) {
    forall p, c, e :: BandAt(rs, p, c) && BandAt(rs, c, e) ==> !Mergeable(rs, p, c, e)
  }

  /** The canonical form: banded, and no two neighbouring bands left to merge. */
  ghost predicate Canonical(rs: seq<Box>) {
    Banded(rs) && Coalesced(rs)
  }

  /** The smallest box around the boxes of rs. */
  ghost predicate IsExtents(e: Box, rs: seq<Box>) {
    && (forall i :: 0 <= i < |rs| ==> Subsumes(e, rs[i]))
    && (exists i :: 0 <= i < |rs| && rs[i].x1 == e.x1)
    && (exists i :: 0 <= i < |rs| && rs[i].x2 == e.x2)
    && (exists i :: 0 <= i < |rs| && rs[i].y1 == e.y1)
    && (exists i :: 0 <= i < |rs| && rs[i].y2 == e.y2)
  }

  // ---- Point sets of concatenations and bands ----

  lemma CoversConcat(a: seq<Box>, b: seq<Box>, x: int, y: int)
    ensures Covers(a + b, x, y) <==> Covers(a, x, y) || Covers(b, x, y)
  {
    var c := a + b;
    if Covers(a, x, y) {
      var i :| 0 <= i < |a| && InBox(a[i], x, y);
      assert InBox(c[i], x, y);
    }
    if Covers(b, x, y) {
      var i :| 0 <= i < |b| && InBox(b[i], x, y);
      assert InBox(c[|a| + i], x, y);
    }
    if Covers(c, x, y) {
      var i :| 0 <= i < |c| && InBox(c[i], x, y);
      if i < |a| {
        assert InBox(a[i], x, y);
      } else {
        assert InBox(b[i - |a|], x, y);
      }
    }
  }

  lemma CoversBand(b: seq<Box>, y1: int, y2: int, x: int, y: int)
    requires IsBand(b, y1, y2)
    ensures Covers(b, x, y) <==> y1 <= y < y2 && RowIn(b, x)
  {
    if y1 <= y < y2 && RowIn(b, x) {
      var i :| 0 <= i < |b| && b[i].x1 <= x < b[i].x2;
      assert InBox(b[i], x, y);
    }
  }

  lemma RowInConcat(a: seq<Box>, b: seq<Box>, x: int)
    ensures RowIn(a + b, x) <==> RowIn(a, x) || RowIn(b, x)
  {
    var c := a + b;
    if RowIn(a, x) {
      var i :| 0 <= i < |a| && a[i].x1 <= x < a[i].x2;
      assert c[i].x1 <= x < c[i].x2;
    }
    if RowIn(b, x) {
      var i :| 0 <= i < |b| && b[i].x1 <= x < b[i].x2;
      assert c[|a| + i].x1 <= x < c[|a| + i].x2;
    }
    if RowIn(c, x) {
      var i :| 0 <= i < |c| && c[i].x1 <= x < c[i].x2;
      if i < |a| {
        assert a[i].x1 <= x < a[i].x2;
      } else {
        assert b[i - |a|].x1 <= x < b[i - |a|].x2;
      }
    }
  }

  lemma SameSpansSameRow(a: seq<Box>, b: seq<Box>, x: int)
    requires SameSpans(a, b)
    ensures RowIn(a, x) <==> RowIn(b, x)
  {
    if RowIn(a, x) {
      var i :| 0 <= i < |a| && a[i].x1 <= x < a[i].x2;
      assert b[i].x1 <= x < b[i].x2;
    }
    if RowIn(b, x) {
      var i :| 0 <= i < |b| && b[i].x1 <= x < b[i].x2;
      assert a[i].x1 <= x < a[i].x2;
    }
  }

  /** A band is determined by its columns. */
  lemma {:induction false} BandUnique(a: seq<Box>, b: seq<Box>, ay1: int, ay2: int, by1: int, by2: int)
    requires IsBand(a, ay1, ay2) && IsBand(b, by1, by2)
    requires forall x :: RowIn(a, x) <==> RowIn(b, x)
    ensures SameSpans(a, b)
    decreases |a|
  {
    if a == [] || b == [] {
      if a != [] {
        assert RowIn(a, a[0].x1);
      }
      if b != [] {
        assert RowIn(b, b[0].x1);
      }
    } else {
      var a', b' := a[1..], b[1..];
      FirstSpan(a, b, ay1, ay2, by1, by2);
      FirstSpan(b, a, by1, by2, ay1, ay2);
      forall x
        ensures RowIn(a', x) <==> RowIn(b', x)
      {
        RowTail(a, ay1, ay2, x);
        RowTail(b, by1, by2, x);
      }
      BandTail(a, ay1, ay2);
      BandTail(b, by1, by2);
      BandUnique(a', b', ay1, ay2, by1, by2);
      SameSpansCons(a, b);
    }
  }

  lemma BandTail(a: seq<Box>, y1: int, y2: int)
    requires IsBand(a, y1, y2) && a != []
    ensures IsBand(a[1..], y1, y2)
  {
  }

  lemma SameSpansCons(a: seq<Box>, b: seq<Box>)
    requires a != [] && b != []
    requires a[0].x1 == b[0].x1 && a[0].x2 == b[0].x2 && SameSpans(a[1..], b[1..])
    ensures SameSpans(a, b)
  {
    forall k | 0 <= k < |a|
      ensures a[k].x1 == b[k].x1 && a[k].x2 == b[k].x2
    {
      assert k == 0 || (a[k] == a[1..][k-1] && b[k] == b[1..][k-1]);
    }
  }

  lemma RowTail(a: seq<Box>, y1: int, y2: int, x: int)
    requires IsBand(a, y1, y2) && a != []
    ensures RowIn(a[1..], x) <==> RowIn(a, x) && x >= a[0].x2
  {
    RowInConcat([a[0]], a[1..], x);
    assert a == [a[0]] + a[1..];
    assert RowIn([a[0]], x) <==> a[0].x1 <= x < a[0].x2 by {
      if a[0].x1 <= x < a[0].x2 {
        assert [a[0]][0].x1 <= x < [a[0]][0].x2;
      }
    }
  }

  lemma InRow(b: seq<Box>, i: int, x: int)
    requires 0 <= i < |b|
    ensures b[i].x1 <= x < b[i].x2 ==> RowIn(b, x)
  {
  }

  lemma BoxCovers(rs: seq<Box>, i: int, x: int, y: int)
    requires 0 <= i < |rs|
    ensures InBox(rs[i], x, y) ==> Covers(rs, x, y)
  {
  }

  lemma FirstSpan(a: seq<Box>, b: seq<Box>, ay1: int, ay2: int, by1: int, by2: int)
    requires IsBand(a, ay1, ay2) && IsBand(b, by1, by2) && a != [] && b != []
    requires forall x :: RowIn(a, x) <==> RowIn(b, x)
    ensures b[0].x1 <= a[0].x1
    ensures a[0].x1 == b[0].x1 ==> b[0].x2 >= a[0].x2
  {
    InRow(a, 0, a[0].x1);
    InRow(a, 0, b[0].x2);
  }

  // ---- Bands inside a banded array ----

  /** Boxes before a band end above it, boxes after it start below it. */
  lemma BandOrder(rs: seq<Box>, p: int, e: int, i: int)
    requires Banded(rs) && BandAt(rs, p, e) && 0 <= i < |rs|
    ensures i < p ==> rs[i].y2 <= rs[p].y1
    ensures p <= i < e ==> rs[i].y1 == rs[p].y1 && rs[i].y2 == rs[p].y2
    ensures i >= e ==> rs[p].y2 <= rs[i].y1
  {
    if i < p {
      assert i == p - 1 || Before(rs[i], rs[p-1]);
      assert Before(rs[p-1], rs[p]);
    } else if i < e {
      assert i == p || Before(rs[p], rs[i]);
    } else {
      assert i == e || Before(rs[e], rs[i]);
      assert p == e - 1 || Before(rs[p], rs[e-1]);
      assert Before(rs[e-1], rs[e]);
    }
  }

  lemma BandCut(rs: seq<Box>, p: int, e: int)
    requires Banded(rs) && BandAt(rs, p, e)
    ensures IsBand(rs[p..e], rs[p].y1, rs[p].y2)
  {
    var b := rs[p..e];
    forall i | 0 <= i < |b|
      ensures b[i].y1 == rs[p].y1 && b[i].y2 == rs[p].y2 && b[i].x1 < b[i].x2
    {
      BandOrder(rs, p, e, p + i);
      assert b[i] == rs[p + i];
    }
    forall i, j | 0 <= i < j < |b|
      ensures b[i].x2 < b[j].x1
    {
      assert b[i] == rs[p + i] && b[j] == rs[p + j];
      assert Before(rs[p + i], rs[p + j]);
    }
  }

  lemma BandRow(rs: seq<Box>, p: int, e: int, x: int, y: int)
    requires Banded(rs) && BandAt(rs, p, e)
    requires rs[p].y1 <= y < rs[p].y2
    ensures Covers(rs, x, y) <==> RowIn(rs[p..e], x)
  {
    var b := rs[p..e];
    if Covers(rs, x, y) {
      var i :| 0 <= i < |rs| && InBox(rs[i], x, y);
      BandOrder(rs, p, e, i);
      assert b[i - p] == rs[i];
    }
    if RowIn(b, x) {
      var i :| 0 <= i < |b| && b[i].x1 <= x < b[i].x2;
      assert b[i] == rs[p + i];
      BandOrder(rs, p, e, p + i);
    }
  }

  /** A band cut out of a banded array is a band, and it alone decides the rows it spans. */
  lemma BandSlice(rs: seq<Box>, p: int, e: int)
    requires Banded(rs) && BandAt(rs, p, e)
    ensures IsBand(rs[p..e], rs[p].y1, rs[p].y2)
    ensures forall x, y :: rs[p].y1 <= y < rs[p].y2 ==> (Covers(rs, x, y) <==> RowIn(rs[p..e], x))
    ensures p > 0 ==> rs[p-1].y2 <= rs[p].y1
    ensures e < |rs| ==> rs[p].y2 <= rs[e].y1
  {
    BandCut(rs, p, e);
    forall x, y | rs[p].y1 <= y < rs[p].y2
      ensures Covers(rs, x, y) <==> RowIn(rs[p..e], x)
    {
      BandRow(rs, p, e, x, y);
    }
    if p > 0 {
      BandOrder(rs, p, e, p - 1);
    }
    if e < |rs| {
      BandOrder(rs, p, e, e);
    }
  }

  /** Nothing is covered in the rows between two bands, above the first or below the last. */
  lemma BandGap(rs: seq<Box>, p: int, x: int, y: int)
    requires Banded(rs) && 0 <= p <= |rs|
    requires p > 0 ==> rs[p-1].y2 <= y
    requires p < |rs| ==> y < rs[p].y1
    ensures !Covers(rs, x, y)
  {
    forall i | 0 <= i < |rs|
      ensures !InBox(rs[i], x, y)
    {
      if i < p {
        BoxOrder(rs, i, p - 1);
      } else {
        BoxOrder(rs, p, i);
      }
    }
  }

  lemma BoxOrder(rs: seq<Box>, i: int, j: int)
    requires Banded(rs) && 0 <= i <= j < |rs|
    ensures rs[i].y1 <= rs[j].y1 && rs[i].y2 <= rs[j].y2
  {
    assert i == j || Before(rs[i], rs[j]);
  }

  /** Every box of a banded array lies in a band. */
  lemma BandOf(rs: seq<Box>, i: int) returns (p: int, e: int)
    requires Banded(rs) && 0 <= i < |rs|
    ensures p <= i < e && BandAt(rs, p, e)
  {
    p := i;
    while p > 0 && rs[p-1].y1 == rs[i].y1
      invariant 0 <= p <= i
      invariant forall k :: p <= k <= i ==> rs[k].y1 == rs[i].y1
    {
      p := p - 1;
    }
    e := i + 1;
    while e < |rs| && rs[e].y1 == rs[i].y1
      invariant i < e <= |rs|
      invariant forall k :: p <= k < e ==> rs[k].y1 == rs[i].y1
    {
      e := e + 1;
    }
  }

  // ---- Uniqueness ----

  ghost predicate RowSame(rs: seq<Box>, y: int, y': int) {
    forall x :: Covers(rs, x, y) <==> Covers(rs, x, y')
  }

  /** A box that the point set of rs alone singles out: a maximal run of columns in a
      maximal run of equal rows. */
  ghost predicate MaximalBox(rs: seq<Box>, b: Box) {
    && NonEmpty(b)
    && (forall x :: b.x1 <= x < b.x2 ==> Covers(rs, x, b.y1))
    && !Covers(rs, b.x1 - 1, b.y1) && !Covers(rs, b.x2, b.y1)
    && (forall y :: b.y1 <= y < b.y2 ==> RowSame(rs, b.y1, y))
    && !RowSame(rs, b.y1 - 1, b.y1) && !RowSame(rs, b.y1, b.y2)
  }

  lemma RowEdge(rs: seq<Box>, p: int, c: int, e: int)
    requires Canonical(rs) && BandAt(rs, p, c) && BandAt(rs, c, e)
    requires rs[p].y2 == rs[c].y1
    ensures !RowSame(rs, rs[c].y1 - 1, rs[c].y1)
  {
    BandSlice(rs, p, c);
    BandSlice(rs, c, e);
    if RowSame(rs, rs[c].y1 - 1, rs[c].y1) {
      forall x
        ensures RowIn(rs[p..c], x) <==> RowIn(rs[c..e], x)
      {
        assert Covers(rs, x, rs[c].y1 - 1) <==> Covers(rs, x, rs[c].y1);
      }
      BandUnique(rs[p..c], rs[c..e], rs[p].y1, rs[p].y2, rs[c].y1, rs[c].y2);
      assert Mergeable(rs, p, c, e);
    }
  }

  lemma CanonicalBoxIsMaximal(rs: seq<Box>, i: int)
    requires Canonical(rs) && 0 <= i < |rs|
    ensures MaximalBox(rs, rs[i])
  {
    var p, e := BandOf(rs, i);
    BandTop(rs, p, e);
    BandBottom(rs, p, e);
    BandRows(rs, p, e);
    BandColumns(rs, p, e, i);
  }

  /** Within a band a box is a maximal run of columns. */
  lemma BandColumns(rs: seq<Box>, p: int, e: int, i: int)
    requires Banded(rs) && BandAt(rs, p, e) && p <= i < e
    ensures rs[i].y1 == rs[p].y1 && rs[i].y2 == rs[p].y2
    ensures forall x :: rs[i].x1 <= x < rs[i].x2 ==> Covers(rs, x, rs[i].y1)
    ensures !Covers(rs, rs[i].x1 - 1, rs[i].y1) && !Covers(rs, rs[i].x2, rs[i].y1)
  {
    BandSlice(rs, p, e);
    BandOrder(rs, p, e, i);
    var band := rs[p..e];
    assert band[i - p] == rs[i];
    forall x
      ensures rs[i].x1 <= x < rs[i].x2 ==> Covers(rs, x, rs[i].y1)
    {
      BoxCovers(rs, i, x, rs[i].y1);
    }
    assert !RowIn(band, rs[i].x1 - 1) && !RowIn(band, rs[i].x2);
  }

  lemma BandRows(rs: seq<Box>, p: int, e: int)
    requires Banded(rs) && BandAt(rs, p, e)
    ensures forall y :: rs[p].y1 <= y < rs[p].y2 ==> RowSame(rs, rs[p].y1, y)
  {
    BandSlice(rs, p, e);
  }

  /** The row just above a band is different from the band. */
  lemma BandTop(rs: seq<Box>, p: int, e: int)
    requires Canonical(rs) && BandAt(rs, p, e)
    ensures !RowSame(rs, rs[p].y1 - 1, rs[p].y1)
  {
    BoxCovers(rs, p, rs[p].x1, rs[p].y1);
    if p > 0 && rs[p-1].y2 == rs[p].y1 {
      var q, c := BandOf(rs, p - 1);
      BandOrder(rs, q, c, p - 1);
      RowEdge(rs, q, p, e);
    } else {
      BandSlice(rs, p, e);
      BandGap(rs, p, rs[p].x1, rs[p].y1 - 1);
    }
  }

  /** The row just below a band is different from the band. */
  lemma BandBottom(rs: seq<Box>, p: int, e: int)
    requires Canonical(rs) && BandAt(rs, p, e)
    ensures !RowSame(rs, rs[p].y1, rs[p].y2)
  {
    BandSlice(rs, p, e);
    BandOrder(rs, p, e, e - 1);
    BoxCovers(rs, p, rs[p].x1, rs[p].y1);
    if e < |rs| && rs[e].y1 == rs[p].y2 {
      var c, f := BandOf(rs, e);
      RowEdge(rs, p, e, f);
      assert RowSame(rs, rs[p].y1, rs[p].y2 - 1);
    } else {
      BandGap(rs, e, rs[p].x1, rs[p].y2);
    }
  }

  /** Two boxes that the same point set singles out at a common point are one. */
  lemma MaximalBoxesAgree(rs: seq<Box>, a: Box, b: Box)
    requires MaximalBox(rs, a) && MaximalBox(rs, b)
    requires InBox(a, b.x1, b.y1)
    ensures a == b
  {
    assert RowSame(rs, a.y1, b.y1);
    assert a.y1 >= b.y1 || RowSame(rs, a.y1, b.y1 - 1);
    assert RowSame(rs, a.y1, b.y1 - 1) ==> RowSame(rs, b.y1 - 1, b.y1);
    assert a.x1 >= b.x1 || Covers(rs, b.x1 - 1, a.y1);
    assert a.x2 >= b.x2 || Covers(rs, a.x2, b.y1);
    assert b.x2 >= a.x2 || Covers(rs, b.x2, a.y1);
    assert a.y2 >= b.y2 || RowSame(rs, b.y1, a.y2);
    assert b.y2 >= a.y2 || RowSame(rs, a.y1, b.y2);
  }

  lemma MaximalBoxIsThere(rs: seq<Box>, b: Box)
    requires Canonical(rs) && MaximalBox(rs, b)
    ensures b in rs
  {
    assert Covers(rs, b.x1, b.y1);
    var i :| 0 <= i < |rs| && InBox(rs[i], b.x1, b.y1);
    CanonicalBoxIsMaximal(rs, i);
    MaximalBoxesAgree(rs, rs[i], b);
  }

  /** A banded array is determined by its elements. */
  lemma {:induction false} BandedOrderUnique(rs: seq<Box>, ts: seq<Box>)
    requires Banded(rs) && Banded(ts)
    requires forall b :: b in rs <==> b in ts
    ensures rs == ts
    decreases |rs|
  {
    assert rs == [] || rs[0] in rs;
    assert ts == [] || ts[0] in ts;
    if rs != [] && ts != [] {
      assert rs[0] in ts && ts[0] in rs;
      var i :| 0 <= i < |ts| && ts[i] == rs[0];
      var j :| 0 <= j < |rs| && rs[j] == ts[0];
      assert i == 0 || Before(ts[0], rs[0]);
      assert j == 0 || Before(rs[0], ts[0]);
      forall b
        ensures b in rs[1..] <==> b in ts[1..]
      {
        if b in rs[1..] {
          var k :| 0 <= k < |rs[1..]| && rs[1..][k] == b;
          assert Before(rs[0], rs[k+1]);
          assert b in rs;
        }
        if b in ts[1..] {
          var k :| 0 <= k < |ts[1..]| && ts[1..][k] == b;
          assert Before(ts[0], ts[k+1]);
          assert b in ts;
        }
      }
      BandedOrderUnique(rs[1..], ts[1..]);
      assert rs == [rs[0]] + rs[1..] && ts == [ts[0]] + ts[1..];
    }
  }

  /** The canonical form is unique: a point set has one canonical array of boxes. */
  lemma CanonicalUnique(rs: seq<Box>, ts: seq<Box>)
    requires Canonical(rs) && Canonical(ts)
    requires forall x, y :: Covers(rs, x, y) <==> Covers(ts, x, y)
    ensures rs == ts
  {
    forall b
      ensures b in rs <==> b in ts
    {
      if b in rs {
        var i :| 0 <= i < |rs| && rs[i] == b;
        CanonicalBoxIsMaximal(rs, i);
        SameMaximal(rs, ts, b);
        MaximalBoxIsThere(ts, b);
      }
      if b in ts {
        var i :| 0 <= i < |ts| && ts[i] == b;
        CanonicalBoxIsMaximal(ts, i);
        SameMaximal(ts, rs, b);
        MaximalBoxIsThere(rs, b);
      }
    }
    BandedOrderUnique(rs, ts);
  }

  lemma SameMaximal(rs: seq<Box>, ts: seq<Box>, b: Box)
    requires forall x, y :: Covers(rs, x, y) <==> Covers(ts, x, y)
    requires MaximalBox(rs, b)
    ensures MaximalBox(ts, b)
  {
    forall y, y'
      ensures RowSame(rs, y, y') <==> RowSame(ts, y, y')
    {
      if RowSame(rs, y, y') {
        forall x
          ensures Covers(ts, x, y) <==> Covers(ts, x, y')
        {
          assert Covers(rs, x, y) <==> Covers(rs, x, y');
        }
      }
      if RowSame(ts, y, y') {
        forall x
          ensures Covers(rs, x, y) <==> Covers(rs, x, y')
        {
          assert Covers(ts, x, y) <==> Covers(ts, x, y');
        }
      }
    }
  }
}
