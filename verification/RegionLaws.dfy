/** Laws of sets, as they hold between region records: since the form of a region is unique,
    two ways of computing the same points end in the same rectangles and the same extents.
    Only the extents of an empty region are left over from before. */
module RegionLaws {
  import opened RegionForm
  import opened Regions

  ghost predicate SameRecord(r: Region, s: Region)
    reads r, s
  {
    r.data == s.data && (!r.Nil() ==> r.extents == s.extents)
  }

  /** The points decide the record. */
  lemma PointsDecide(r: Region, s: Region)
    requires r.Valid() && s.Valid()
    ensures SameRecord(r, s) <==> forall x, y :: r.Has(x, y) <==> s.Has(x, y)
  {
    if forall x, y :: r.Has(x, y) <==> s.Has(x, y) {
      if !s.Nil() {
        HasAPoint(s);
      }
      if !r.Nil() {
        RepresentationUnique(r, s);
      }
    }
  }

  lemma HasAPoint(r: Region)
    requires r.Valid() && !r.Nil()
    ensures r.Has(r.Boxes()[0].x1, r.Boxes()[0].y1)
  {
    BoxCovers(r.Boxes(), 0, r.Boxes()[0].x1, r.Boxes()[0].y1);
  }

  /** Either order of the operands. */
  method Commutative(a: Region, b: Region) returns (ab: Region, ba: Region)
    requires a.Valid() && b.Valid()
    ensures fresh(ab) && fresh(ba) && ab.Valid() && ba.Valid() && SameRecord(ab, ba)
    ensures forall x, y :: ab.Has(x, y) <==> a.Has(x, y) || b.Has(x, y)
  {
    hide Canonical;
    hide IsExtents;
    hide Covers;
    ab := new Region.Empty();
    ba := new Region.Empty();
    ab.Union(a, b);
    ba.Union(b, a);
    PointsDecide(ab, ba);
  }

  /** The intersection with a union that holds the region gives it back, computed in place. */
  method Absorption(a: Region, b: Region) returns (t: Region)
    requires a.Valid() && b.Valid()
    ensures fresh(t) && t.Valid() && SameRecord(t, a)
  {
    hide Canonical;
    hide IsExtents;
    hide Covers;
    t := new Region.Empty();
    t.Union(a, b);
    t.Intersect(a, t);
    PointsDecide(t, a);
  }

  /** Intersection distributes over union. */
  method Distributive(a: Region, b: Region, c: Region) returns (left: Region, right: Region)
    requires a.Valid() && b.Valid() && c.Valid()
    ensures fresh(left) && fresh(right) && left.Valid() && right.Valid() && SameRecord(left, right)
    ensures forall x, y :: left.Has(x, y) <==> a.Has(x, y) && (b.Has(x, y) || c.Has(x, y))
  {
    hide Region.Valid;
    hide SameRecord;
    hide Covers;
    left := new Region.Empty();
    right := new Region.Empty();
    var part := new Region.Empty();
    left.Union(b, c);
    left.Intersect(a, left);
    right.Intersect(a, b);
    part.Intersect(a, c);
    right.Union(right, part);
    PointsDecide(left, right);
  }

  /** What two regions together leave of a box is what each leaves of it, intersected. */
  method DeMorgan(a: Region, b: Region, box: Box) returns (left: Region, right: Region)
    requires a.Valid() && b.Valid() && NonEmpty(box)
    ensures fresh(left) && fresh(right) && left.Valid() && right.Valid() && SameRecord(left, right)
    ensures forall x, y :: left.Has(x, y) <==> InBox(box, x, y) && !a.Has(x, y) && !b.Has(x, y)
  {
    hide Region.Valid;
    hide SameRecord;
    hide Covers;
    left := new Region.Empty();
    right := new Region.Empty();
    var rest := new Region.Empty();
    left.Union(a, b);
    left.Inverse(left, box);
    right.Inverse(a, box);
    rest.Inverse(b, box);
    right.Intersect(right, rest);
    PointsDecide(left, right);
  }

  /** To subtract is to intersect with what the subtrahend leaves of the minuend's extents. */
  method DifferenceByInverse(a: Region, b: Region) returns (left: Region, right: Region)
    requires a.Valid() && b.Valid() && !a.Nil()
    ensures fresh(left) && fresh(right) && left.Valid() && right.Valid() && SameRecord(left, right)
    ensures forall x, y :: left.Has(x, y) <==> a.Has(x, y) && !b.Has(x, y)
  {
    hide Canonical;
    hide IsExtents;
    hide Covers;
    ExtentsAround(a);
    left := new Region.Empty();
    right := new Region.Empty();
    left.Subtract(a, b);
    right.Inverse(b, a.extents);
    right.Intersect(a, right);
    PointsDecide(left, right);
  }

  lemma ExtentsAround(a: Region)
    requires a.Valid() && !a.Nil()
    ensures NonEmpty(a.extents) && forall x, y :: a.Has(x, y) ==> InBox(a.extents, x, y)
  {
    assert NonEmpty(a.Boxes()[0]) && Subsumes(a.extents, a.Boxes()[0]);
  }
}
