/** Batch union: rectangles are appended to a region without order and then turned into
    a proper region in one go. */
module RegionValidate {
  import opened RegionForm
  import opened RegionBuild
  import opened RegionSeams
  import opened Regions
  import opened BoxSort
  import opened BoxTally

  /** A region that is being collected: extents of no width say that its boxes are in no
      order; otherwise they are banded, though bands may be left to merge. */
  ghost predicate Collecting(reg: Region)
    reads reg
  {
    CollectingRects(reg.extents, reg.Boxes())
  }

  ghost predicate CollectingRects(e: Box, rects: seq<Box>) {
    && (forall k :: 0 <= k < |rects| ==> NonEmpty(rects[k]))
    && (rects != [] && e.x1 < e.x2 ==> Banded(rects) && IsExtents(e, rects))
  }

  /** The test with which miRegionAppend keeps the banding: first lies below last with a
      gap, or in the same band to its right with a gap. */
  predicate Follows(last: Box, first: Box) {
    first.y1 > last.y2 || (first.y1 == last.y1 && first.y2 == last.y2 && first.x1 > last.x2)
  }

  /** add can be put behind have, or before it, without losing the banding. */
  predicate Behind(have: seq<Box>, add: seq<Box>) {
    have != [] && add != [] && Follows(have[|have| - 1], add[0])
  }

  /** Extents without width say that rectangles are in no order. */
  predicate Ordered(e: Box) {
    e.x1 < e.x2
  }

  /** The rectangles after an append. */
  function Appended(ordered: bool, have: seq<Box>, add: seq<Box>): seq<Box> {
    if ordered && !Behind(have, add) && Behind(add, have) then add + have else have + add
  }

  /** Whether the append leaves them in order. */
  predicate KeepsOrder(ordered: bool, have: seq<Box>, add: seq<Box>) {
    have == [] || (ordered && (Behind(have, add) || Behind(add, have)))
  }

  /** A caller's test whether appending b to the valid region a leaves it valid. */
  ghost predicate AppendStaysValid(a: seq<Box>, b: seq<Box>) {
    a == [] || b == [] ||
    if Behind(a, b) then StaysCoalesced(a, b) else Behind(b, a) && StaysCoalesced(b, a)
  }

  /** miRegionAppend. */
  method RegionAppend(dstrgn: Region, rgn: Region)
    requires Collecting(dstrgn) && rgn.Valid()
    modifies dstrgn
    ensures Collecting(dstrgn)
    ensures multiset(dstrgn.Boxes()) == multiset(old(dstrgn.Boxes())) + multiset(old(rgn.Boxes()))
    ensures dstrgn.Boxes() == Appended(old(Ordered(dstrgn.extents)), old(dstrgn.Boxes()), old(rgn.Boxes()))
    ensures if old(rgn.Boxes()) == [] then dstrgn.extents == old(dstrgn.extents)
      else Ordered(dstrgn.extents) <==> KeepsOrder(old(Ordered(dstrgn.extents)), old(dstrgn.Boxes()), old(rgn.Boxes()))
    ensures old(rgn.Boxes()) == [] ==> (dstrgn.Valid() <==> old(dstrgn.Valid()))
    ensures old(dstrgn.Valid()) ==> (dstrgn.Valid() <==> AppendStaysValid(old(dstrgn.Boxes()), old(rgn.Boxes())))
  {
    hide StaysCoalesced;
    hide Behind;
    hide Banded;
    hide Coalesced;
    ghost var a, b := dstrgn.Boxes(), rgn.Boxes();
    ghost var valid, e0 := dstrgn.Valid(), dstrgn.extents;
    ValidCollecting(rgn);
    if rgn.data.NoData? && dstrgn.Nil() {
      dstrgn.extents, dstrgn.data := rgn.extents, NoData;
      assert dstrgn.Boxes() == old(rgn.Boxes());
      SingleCanonical(dstrgn.extents);
      return;
    }
    if |rgn.Boxes()| == 0 {
      assert a + b == a && b + a == a;
      return;
    }
    AppendedBoxes(Ordered(e0), a, b);
    hide Appended;
    hide KeepsOrder;
    var e, all := AppendRects(dstrgn.extents, dstrgn.Boxes(), rgn.extents, rgn.Boxes());
    if valid {
      AppendedForm(e0, a, b, e);
    }
    dstrgn.extents, dstrgn.data := e, Rects(all);
  }

  lemma AppendedBoxes(ordered: bool, a: seq<Box>, b: seq<Box>)
    ensures multiset(Appended(ordered, a, b)) == multiset(a) + multiset(b)
    ensures a == [] ==> Appended(ordered, a, b) == b
  {
    assert a == [] ==> a + b == b;
  }

  /** When the rectangles after an append to a valid region are canonical. */
  lemma AppendedForm(e: Box, a: seq<Box>, b: seq<Box>, e': Box)
    requires Canonical(a) && Canonical(b) && b != [] && (a != [] ==> IsExtents(e, a))
    requires CollectingRects(e', Appended(Ordered(e), a, b)) && (Ordered(e') <==> KeepsOrder(Ordered(e), a, b))
    ensures var all := Appended(Ordered(e), a, b);
      a != [] ==> |all| >= 2 && (Canonical(all) && IsExtents(e', all) <==> AppendStaysValid(a, b))
  {
    hide Coalesced;
    hide StaysCoalesced;
    var all := Appended(Ordered(e), a, b);
    if a != [] {
      BandedEnds(e, a);
      if Behind(a, b) {
        FollowsBanded(a, b);
        AppendCanonical(a, b);
      } else if Behind(b, a) {
        FollowsBanded(b, a);
        AppendCanonical(b, a);
      } else {
        NoExtents(e', all);
      }
    }
  }

  lemma NoExtents(e: Box, rs: seq<Box>)
    requires rs != [] && NonEmpty(rs[0]) && e.x1 >= e.x2
    ensures !IsExtents(e, rs)
  {
    assert !Subsumes(e, rs[0]);
  }

  lemma ValidCollecting(reg: Region)
    requires reg.Valid()
    ensures Collecting(reg)
    ensures reg.Boxes() != [] ==> Banded(reg.Boxes()) && IsExtents(reg.extents, reg.Boxes())
  {
  }

  /** miRegionAppend on the rectangles: the banding is kept while that is easy, else the
      extents lose their width. */
  method AppendRects(e: Box, have: seq<Box>, addExtents: Box, add: seq<Box>) returns (e': Box, all: seq<Box>)
    requires CollectingRects(e, have)
    requires Banded(add) && add != [] && IsExtents(addExtents, add)
    ensures CollectingRects(e', all) && all == Appended(Ordered(e), have, add)
    ensures Ordered(e') <==> KeepsOrder(Ordered(e), have, add)
    ensures have == [] ==> e' == addExtents
  {
    hide IsExtents;
    hide Banded;
    hide Follows;
    e', all := e, have + add;
    BandedEnds(addExtents, add);
    if |have| == 0 {
      assert all == add;
      NonEmptyBoxes(add);
      e' := addExtents;
    } else if e.x2 <= e.x1 {
      AppendUnordered(e, have, add);
    } else {
      if Follows(have[|have|-1], add[0]) {
        AppendKeepsBands(e, have, addExtents, add);
        e' := e.(x1 := Min(e.x1, addExtents.x1), x2 := Max(e.x2, addExtents.x2), y2 := addExtents.y2);
      } else if Follows(add[|add|-1], have[0]) {
        all := add + have;
        AppendKeepsBands(addExtents, add, e, have);
        e' := e.(x1 := Min(e.x1, addExtents.x1), x2 := Max(e.x2, addExtents.x2), y1 := addExtents.y1);
      } else {
        e' := e.(x2 := e.x1);
        AppendUnordered(e', have, add);
      }
    }
  }

  lemma NonEmptyBoxes(rs: seq<Box>)
    requires Banded(rs)
    ensures forall k :: 0 <= k < |rs| ==> NonEmpty(rs[k])
  {
  }

  lemma AppendUnordered(e: Box, a: seq<Box>, b: seq<Box>)
    requires e.x2 <= e.x1 && (forall k :: 0 <= k < |a| ==> NonEmpty(a[k])) && Banded(b)
    ensures CollectingRects(e, a + b)
  {
  }

  lemma AppendKeepsBands(e1: Box, a: seq<Box>, e2: Box, b: seq<Box>)
    requires Banded(a) && a != [] && IsExtents(e1, a)
    requires Banded(b) && b != [] && IsExtents(e2, b)
    requires Follows(a[|a|-1], b[0])
    ensures CollectingRects(Box(Min(e1.x1, e2.x1), e1.y1, Max(e1.x2, e2.x2), e2.y2), a + b)
  {
    var c := a + b;
    FollowsBanded(a, b);
    forall x, y
      ensures Covers(c, x, y) <==> Covers(a, x, y) || Covers(b, x, y)
    {
      CoversConcat(a, b, x, y);
    }
    UnionExtents(e1, a, e2, b, c);
    BandedEnds(e1, a);
    BandedEnds(e2, b);
  }

  lemma FollowsBanded(a: seq<Box>, b: seq<Box>)
    requires Banded(a) && a != [] && Banded(b) && b != [] && Follows(a[|a|-1], b[0])
    ensures Banded(a + b)
  {
    var c := a + b;
    forall i, j | 0 <= i < j < |c|
      ensures Before(c[i], c[j])
    {
      if i < |a| <= j {
        assert i == |a| - 1 || Before(a[i], a[|a|-1]);
        assert j == |a| || Before(b[0], b[j - |a|]);
      }
    }
  }

  /** Keeping the bands is not keeping the form canonical: the appended box can complete a
      band that is then like the one above it. */
  lemma AppendCanLeaveMergeable(dst: seq<Box>, add: seq<Box>)
    requires dst == [Box(0, 0, 1, 1), Box(5, 0, 6, 1), Box(0, 1, 1, 2)] && add == [Box(5, 1, 6, 2)]
    ensures Canonical(dst) && Canonical(add) && Behind(dst, add)
    ensures Banded(dst + add) && !Coalesced(dst + add) && !AppendStaysValid(dst, add)
  {
    SingleCanonical(add[0]);
    assert add == [add[0]];
    forall p, c, e | BandAt(dst, p, c) && BandAt(dst, c, e)
      ensures !Mergeable(dst, p, c, e)
    {
      assert p == 0 && c == 2 && e == 3;
      assert |dst[p..c]| != |dst[c..e]|;
    }
    var all := dst + add;
    FollowsBanded(dst, add);
    assert BandAt(all, 0, 2) && BandAt(all, 2, 4);
    assert all[0..2] == [Box(0, 0, 1, 1), Box(5, 0, 6, 1)] && all[2..4] == [Box(0, 1, 1, 2), Box(5, 1, 6, 2)];
    assert Mergeable(all, 0, 2, 4);
    AppendCanonical(dst, add);
  }

  lemma BandedEnds(e: Box, a: seq<Box>)
    requires Banded(a) && a != [] && IsExtents(e, a)
    ensures e.y1 == a[0].y1 && e.y2 == a[|a|-1].y2 && e.x1 < e.x2
  {
    assert Subsumes(e, a[0]) && NonEmpty(a[0]);
    var i :| 0 <= i < |a| && a[i].y1 == e.y1;
    BoxOrder(a, 0, i);
    var j :| 0 <= j < |a| && a[j].y2 == e.y2;
    BoxOrder(a, j, |a| - 1);
  }

  // ---- Step 2: scattering the sorted boxes into proper regions ----

  /** A region under construction: the band from curBand on is still open to the right,
      extents.x2 is brought up to date when it closes. */
  datatype RegionInfo = RegionInfo(extents: Box, boxes: seq<Box>, prevBand: int, curBand: int)

  /** raw is what has been put in, joined sideways but not yet merged downwards. */
  ghost predicate InfoInv(info: RegionInfo, raw: seq<Box>) {
    && BandsInv(info.boxes, info.prevBand, info.curBand, raw)
    && SidesInv(info.extents, raw, ClosedPart(info, raw))
  }

  /** How much of raw lies in closed bands. */
  function ClosedPart(info: RegionInfo, raw: seq<Box>): int {
    |raw| - (|info.boxes| - info.curBand)
  }

  ghost predicate BandsInv(b: seq<Box>, prev: int, cur: int, raw: seq<Box>) {
    var rc := |raw| - (|b| - cur);
    && 0 <= cur < |b| && 0 <= rc
    && SourceBand(b[cur..]) && b[cur].y1 < b[cur].y2
    && Form(b[..cur], prev, b[cur].y1)
    && Banded(raw) && raw[rc..] == b[cur..]
    && (forall x, y :: Covers(raw[..rc], x, y) <==> Covers(b[..cur], x, y))
  }

  ghost predicate SidesInv(e: Box, raw: seq<Box>, rc: int) {
    && 0 <= rc < |raw|
    && e.y1 == raw[0].y1
    && (forall k :: 0 <= k < |raw| ==> e.x1 <= raw[k].x1)
    && (exists k :: 0 <= k < |raw| && raw[k].x1 == e.x1)
    && (forall k :: 0 <= k < rc ==> raw[k].x2 <= e.x2)
    && (e.x2 <= raw[|raw|-1].x2 || exists k :: 0 <= k < rc && raw[k].x2 == e.x2)
  }

  lemma BandsLast(b: seq<Box>, prev: int, cur: int, raw: seq<Box>)
    requires BandsInv(b, prev, cur, raw)
    ensures raw != [] && raw[|raw|-1] == b[|b|-1]
  {
    var rc := |raw| - (|b| - cur);
    assert raw[rc..][|b| - 1 - cur] == b[cur..][|b| - 1 - cur];
  }

  lemma BandsCovers(b: seq<Box>, prev: int, cur: int, raw: seq<Box>)
    requires BandsInv(b, prev, cur, raw)
    ensures forall x, y :: Covers(b, x, y) <==> Covers(raw, x, y)
  {
    var rc := |raw| - (|b| - cur);
    forall x, y
      ensures Covers(b, x, y) <==> Covers(raw, x, y)
    {
      CoversSplit(b, cur, x, y);
      CoversSplit(raw, rc, x, y);
    }
  }

  lemma InfoStart(b: Box)
    requires NonEmpty(b)
    ensures InfoInv(RegionInfo(b, [b], 0, 0), [b])
  {
    SingleCanonical(b);
    assert [b][0..] == [b];
    assert [b][..0] == [];
  }

  lemma LastChange(s: seq<Box>, b: Box, x: int, y: int)
    requires s != []
    ensures var t := s[|s|-1 := b];
      t[..|s|-1] == s[..|s|-1] && (Covers(t, x, y) <==> Covers(s[..|s|-1], x, y) || InBox(b, x, y))
  {
    var t, n := s[|s|-1 := b], |s| - 1;
    assert t == s[..n] + [b];
    CoversConcat(s[..n], [b], x, y);
    CoversOne(b, x, y);
  }

  /** The last box joined with one to its right that it touches or overlaps. */
  function Joined(r: Box, b: Box): Box {
    r.(x2 := Max(r.x2, b.x2))
  }

  lemma JoinCovers(s: seq<Box>, b: Box, x: int, y: int)
    requires s != [] && b.y1 == s[|s|-1].y1 && b.y2 == s[|s|-1].y2
    requires s[|s|-1].x1 <= b.x1 <= s[|s|-1].x2
    ensures Covers(s[|s|-1 := Joined(s[|s|-1], b)], x, y) <==> Covers(s, x, y) || InBox(b, x, y)
  {
    LastChange(s, Joined(s[|s|-1], b), x, y);
    LastChange(s, s[|s|-1], x, y);
    assert s[|s|-1 := s[|s|-1]] == s;
  }

  lemma JoinBanded(s: seq<Box>, b: Box)
    requires Banded(s) && s != [] && b.x1 < b.x2
    ensures Banded(s[|s|-1 := Joined(s[|s|-1], b)])
  {
    var t := s[|s|-1 := Joined(s[|s|-1], b)];
    forall i, j | 0 <= i < j < |t|
      ensures Before(t[i], t[j])
    {
      assert Before(s[i], s[j]);
    }
    forall i | 0 <= i < |t|
      ensures NonEmpty(t[i])
    {
      assert NonEmpty(s[i]);
    }
  }

  /** box joins the last box of the open band. */
  lemma BandsJoin(b: seq<Box>, prev: int, cur: int, raw: seq<Box>, box: Box)
    requires BandsInv(b, prev, cur, raw) && NonEmpty(box) && raw != [] && raw[|raw|-1] == b[|b|-1]
    requires b[|b|-1].x1 <= box.x1 <= b[|b|-1].x2
    ensures BandsInv(b[|b|-1 := Joined(b[|b|-1], box)], prev, cur, raw[|raw|-1 := Joined(b[|b|-1], box)])
  {
    var rc, n, m := |raw| - (|b| - cur), |b| - 1, |raw| - 1;
    var b', raw' := b[n := Joined(b[n], box)], raw[m := Joined(b[n], box)];
    JoinBanded(raw, box);
    assert b'[..cur] == b[..cur] && raw'[..rc] == raw[..rc];
    assert b'[cur..] == b[cur..][n - cur := b'[n]];
    assert raw'[rc..] == raw[rc..][n - cur := b'[n]];
    BandJoin(b[cur..], box);
  }

  lemma BandJoin(s: seq<Box>, box: Box)
    requires SourceBand(s) && box.x1 < box.x2
    ensures SourceBand(s[|s|-1 := Joined(s[|s|-1], box)])
    ensures s[|s|-1 := Joined(s[|s|-1], box)][0].y1 == s[0].y1
    ensures s[|s|-1 := Joined(s[|s|-1], box)][0].y2 == s[0].y2
  {
  }

  lemma SidesJoin(e: Box, raw: seq<Box>, rc: int, box: Box)
    requires SidesInv(e, raw, rc)
    ensures SidesInv(e, raw[|raw|-1 := Joined(raw[|raw|-1], box)], rc)
  {
    var raw' := raw[|raw|-1 := Joined(raw[|raw|-1], box)];
    assert forall k :: 0 <= k < |raw| ==> raw'[k].x1 == raw[k].x1;
    assert forall k :: 0 <= k < rc ==> raw'[k] == raw[k];
  }

  /** box is put to the right of the open band. */
  lemma BandsAppend(b: seq<Box>, prev: int, cur: int, raw: seq<Box>, box: Box)
    requires BandsInv(b, prev, cur, raw) && NonEmpty(box) && raw != [] && raw[|raw|-1] == b[|b|-1]
    requires box.y1 == b[|b|-1].y1 && box.y2 == b[|b|-1].y2 && b[|b|-1].x2 < box.x1
    ensures BandsInv(b + [box], prev, cur, raw + [box])
  {
    var rc := |raw| - (|b| - cur);
    var b', raw' := b + [box], raw + [box];
    assert b'[..cur] == b[..cur] && raw'[..rc] == raw[..rc];
    assert b'[cur..] == b[cur..] + [box] && raw'[rc..] == raw[rc..] + [box];
    assert b[cur..][|b| - 1 - cur] == b[|b|-1];
    BandSnoc(b[cur..], box.y1, box.y2, box);
    SingleCanonical(box);
    FollowsBanded(raw, [box]);
  }

  lemma SidesAppend(e: Box, raw: seq<Box>, rc: int, box: Box)
    requires SidesInv(e, raw, rc) && raw[|raw|-1].x2 < box.x1 && raw[|raw|-1].x1 < raw[|raw|-1].x2 && NonEmpty(box)
    ensures SidesInv(e, raw + [box], rc)
  {
    var raw' := raw + [box];
    assert forall k :: 0 <= k < |raw| ==> raw'[k] == raw[k];
    var k :| 0 <= k < |raw| && raw[k].x1 == e.x1;
    assert raw'[k].x1 == e.x1;
    assert e.x1 <= raw[|raw|-1].x1;
  }

  /** The open band is closed, merged upwards if it can be, and box opens the next one. */
  lemma BandsOpen(b: seq<Box>, prev: int, cur: int, raw: seq<Box>, b': seq<Box>, prev': int, box: Box)
    requires BandsInv(b, prev, cur, raw) && NonEmpty(box) && raw != [] && raw[|raw|-1] == b[|b|-1]
    requires Form(b', prev', b[|b|-1].y2) && b[|b|-1].y2 <= box.y1
    requires forall x, y :: Covers(b', x, y) <==> Covers(b, x, y)
    ensures BandsInv(b' + [box], prev', |b'|, raw + [box])
  {
    var b'', raw' := b' + [box], raw + [box];
    assert b''[..|b'|] == b' && b''[|b'|..] == [box];
    assert raw'[..|raw|] == raw && raw'[|raw|..] == [box];
    FormLower(b', prev', b[|b|-1].y2, box.y1);
    BandsCovers(b, prev, cur, raw);
    SingleCanonical(box);
    forall k | 0 <= k < |raw|
      ensures raw[k].y2 <= box.y1
    {
      BoxOrder(raw, k, |raw| - 1);
    }
    assert IsBand([box], box.y1, box.y2);
    AppendBanded(raw, [box], box.y1, box.y2);
  }

  lemma SidesOpen(e: Box, raw: seq<Box>, rc: int, box: Box)
    requires SidesInv(e, raw, rc) && Banded(raw)
    requires forall k :: rc <= k < |raw| ==> raw[k].x2 <= raw[|raw|-1].x2
    ensures SidesInv(e.(x1 := Min(e.x1, box.x1), x2 := Max(e.x2, raw[|raw|-1].x2)), raw + [box], |raw|)
  {
    var raw', e' := raw + [box], e.(x1 := Min(e.x1, box.x1), x2 := Max(e.x2, raw[|raw|-1].x2));
    assert forall k :: 0 <= k < |raw| ==> raw'[k] == raw[k];
    var k :| 0 <= k < |raw| && raw[k].x1 == e.x1;
    assert raw'[if e'.x1 == e.x1 then k else |raw|].x1 == e'.x1;
    if e.x2 <= raw[|raw|-1].x2 {
      assert raw'[|raw|-1].x2 == e'.x2;
    } else {
      var m :| 0 <= m < rc && raw[m].x2 == e.x2;
      assert raw'[m].x2 == e'.x2;
    }
  }

  lemma OpenBandSides(b: seq<Box>, prev: int, cur: int, raw: seq<Box>)
    requires BandsInv(b, prev, cur, raw)
    ensures forall k :: |raw| - (|b| - cur) <= k < |raw| ==> raw[k].x2 <= raw[|raw|-1].x2
    ensures IsBand(b[cur..], b[cur].y1, b[|b|-1].y2) && b[cur].y1 < b[|b|-1].y2
  {
    var rc := |raw| - (|b| - cur);
    var s := b[cur..];
    assert s[|s|-1] == b[|b|-1] && s[0] == b[cur];
    forall k | rc <= k < |raw|
      ensures raw[k].x2 <= raw[|raw|-1].x2
    {
      assert raw[k] == raw[rc..][k - rc] == s[k - rc];
      assert raw[|raw|-1] == raw[rc..][|s|-1];
      assert k - rc == |s| - 1 || s[k - rc].x2 < s[|s|-1].x1;
    }
  }

  lemma InfoLast(info: RegionInfo, raw: seq<Box>)
    requires InfoInv(info, raw)
    ensures info.boxes != [] && raw != [] && raw[|raw|-1] == info.boxes[|info.boxes|-1] && Banded(raw)
  {
    BandsLast(info.boxes, info.prevBand, info.curBand, raw);
  }

  lemma InfoJoin(info: RegionInfo, raw: seq<Box>, box: Box)
    requires InfoInv(info, raw) && NonEmpty(box) && raw != [] && info.boxes != []
    requires raw[|raw|-1] == info.boxes[|info.boxes|-1]
    requires var r := raw[|raw|-1]; box.y1 == r.y1 && box.y2 == r.y2 && r.x1 <= box.x1 <= r.x2
    ensures InfoInv(info.(boxes := info.boxes[|info.boxes|-1 := Joined(raw[|raw|-1], box)]),
                    raw[|raw|-1 := Joined(raw[|raw|-1], box)])
  {
    hide BandsInv;
    hide SidesInv;
    BandsJoin(info.boxes, info.prevBand, info.curBand, raw, box);
    SidesJoin(info.extents, raw, ClosedPart(info, raw), box);
    var info' := info.(boxes := info.boxes[|info.boxes|-1 := Joined(raw[|raw|-1], box)]);
    var raw' := raw[|raw|-1 := Joined(raw[|raw|-1], box)];
    assert BandsInv(info'.boxes, info'.prevBand, info'.curBand, raw');
    assert ClosedPart(info', raw') == ClosedPart(info, raw);
    assert SidesInv(info'.extents, raw', ClosedPart(info', raw'));
  }

  lemma InfoAppend(info: RegionInfo, raw: seq<Box>, box: Box)
    requires InfoInv(info, raw) && NonEmpty(box) && raw != [] && info.boxes != []
    requires raw[|raw|-1] == info.boxes[|info.boxes|-1]
    requires var r := raw[|raw|-1]; box.y1 == r.y1 && box.y2 == r.y2 && r.x2 < box.x1
    ensures InfoInv(info.(boxes := info.boxes + [box]), raw + [box])
  {
    BandsAppend(info.boxes, info.prevBand, info.curBand, raw, box);
    SidesAppend(info.extents, raw, ClosedPart(info, raw), box);
  }

  /** Coalesce on the open band of a region under construction. */
  method CloseBand(info: RegionInfo, ghost raw: seq<Box>) returns (merged: seq<Box>, prev: int)
    requires InfoInv(info, raw) && info.boxes != []
    ensures Form(merged, prev, info.boxes[|info.boxes|-1].y2) && |merged| <= |info.boxes|
    ensures forall x, y :: Covers(merged, x, y) <==> Covers(info.boxes, x, y)
  {
    OpenBandSides(info.boxes, info.prevBand, info.curBand, raw);
    merged, prev := Coalesce(info.boxes, info.prevBand, info.curBand,
                             info.boxes[info.curBand].y1, info.boxes[|info.boxes|-1].y2);
  }

  lemma InfoOpen(info: RegionInfo, raw: seq<Box>, merged: seq<Box>, prev: int, box: Box)
    requires InfoInv(info, raw) && NonEmpty(box) && raw != [] && info.boxes != []
    requires raw[|raw|-1] == info.boxes[|info.boxes|-1] && raw[|raw|-1].y2 <= box.y1
    requires Form(merged, prev, raw[|raw|-1].y2)
    requires forall x, y :: Covers(merged, x, y) <==> Covers(info.boxes, x, y)
    ensures var e := info.extents.(x1 := Min(info.extents.x1, box.x1), x2 := Max(info.extents.x2, raw[|raw|-1].x2));
      InfoInv(RegionInfo(e, merged + [box], prev, |merged|), raw + [box])
  {
    var e := info.extents.(x1 := Min(info.extents.x1, box.x1), x2 := Max(info.extents.x2, raw[|raw|-1].x2));
    BandsOpen(info.boxes, info.prevBand, info.curBand, raw, merged, prev, box);
    assert SidesInv(e, raw + [box], |raw|) by {
      OpenBandSides(info.boxes, info.prevBand, info.curBand, raw);
      SidesOpen(info.extents, raw, ClosedPart(info, raw), box);
    }
    assert ClosedPart(RegionInfo(e, merged + [box], prev, |merged|), raw + [box]) == |raw|;
  }

  /** The open band of a region is closed and box opens the next one. */
  method OpenBand(info: RegionInfo, box: Box, ghost raw: seq<Box>) returns (info': RegionInfo)
    requires InfoInv(info, raw) && NonEmpty(box) && raw != [] && info.boxes != []
    requires raw[|raw|-1] == info.boxes[|info.boxes|-1] && raw[|raw|-1].y2 <= box.y1
    ensures InfoInv(info', raw + [box]) && |info'.boxes| <= |info.boxes| + 1
  {
    var riBox := info.boxes[|info.boxes|-1];
    var e := info.extents;
    if e.x2 < riBox.x2 { e := e.(x2 := riBox.x2); }
    if e.x1 > box.x1 { e := e.(x1 := box.x1); }
    var merged, prev := CloseBand(info, raw);
    InfoOpen(info, raw, merged, prev, box);
    info' := RegionInfo(e, merged + [box], prev, |merged|);
  }

  /** What one region under construction makes of the next box: it joins the last box,
      is put next to it, opens a new band, or does not fit. */
  method TakeBox(info: RegionInfo, box: Box, overlap: bool, ghost raw: seq<Box>)
    returns (took: bool, info': RegionInfo, overlap': bool, ghost raw': seq<Box>)
    requires InfoInv(info, raw) && NonEmpty(box) && raw != [] && Leq(raw[|raw|-1], box)
    ensures InfoInv(info', raw') && |info'.boxes| <= |info.boxes| + 1 && raw' != []
    ensures took ==> raw'[|raw'|-1].y1 == box.y1 && raw'[|raw'|-1].x1 <= box.x1
    ensures took ==> forall x, y :: Covers(raw', x, y) <==> Covers(raw, x, y) || InBox(box, x, y)
    ensures took ==> (overlap' <==> overlap || Meet(raw, [box]))
    ensures !took ==> info' == info && raw' == raw && overlap' == overlap
  {
    hide InfoInv;
    InfoLast(info, raw);
    var boxes, n := info.boxes, |info.boxes| - 1;
    var riBox := boxes[n];
    info', overlap', raw', took := info, overlap, raw, true;
    if box.y1 == riBox.y1 && box.y2 == riBox.y2 {
      if box.x1 <= riBox.x2 {
        InfoJoin(info, raw, box);
        JoinPoints(raw, box);
        if box.x1 < riBox.x2 { overlap' := true; }
        raw' := raw[|raw|-1 := Joined(riBox, box)];
        if box.x2 > riBox.x2 {
          info' := info.(boxes := boxes[n := riBox.(x2 := box.x2)]);
        } else {
          assert boxes[n := Joined(riBox, box)] == boxes;
        }
      } else {
        InfoAppend(info, raw, box);
        AppendPoints(raw, box);
        info', raw' := info.(boxes := boxes + [box]), raw + [box];
      }
    } else if box.y1 >= riBox.y2 {
      AppendPoints(raw, box);
      info' := OpenBand(info, box, raw);
      raw' := raw + [box];
    } else {
      took := false;
    }
  }

  lemma JoinPoints(raw: seq<Box>, box: Box)
    requires Banded(raw) && raw != [] && NonEmpty(box)
    requires var r := raw[|raw|-1]; box.y1 == r.y1 && box.y2 == r.y2 && r.x1 <= box.x1 <= r.x2
    ensures forall x, y :: Covers(raw[|raw|-1 := Joined(raw[|raw|-1], box)], x, y) <==> Covers(raw, x, y) || InBox(box, x, y)
    ensures Meet(raw, [box]) <==> box.x1 < raw[|raw|-1].x2
  {
    var r := raw[|raw|-1];
    forall x, y
      ensures Covers(raw[|raw|-1 := Joined(r, box)], x, y) <==> Covers(raw, x, y) || InBox(box, x, y)
      ensures Covers([box], x, y) <==> InBox(box, x, y)
    {
      JoinCovers(raw, box, x, y);
      CoversOne(box, x, y);
    }
    if box.x1 < r.x2 {
      BoxCovers(raw, |raw| - 1, box.x1, box.y1);
      assert Covers([box], box.x1, box.y1);
    } else {
      ApartFrom(raw, box);
    }
  }

  /** A box to the right of the last one, or below it, meets none. */
  lemma ApartFrom(raw: seq<Box>, box: Box)
    requires Banded(raw) && raw != []
    requires var r := raw[|raw|-1]; (box.y1 == r.y1 && box.y2 == r.y2 && r.x2 <= box.x1) || r.y2 <= box.y1
    ensures !Meet(raw, [box])
  {
    forall x, y | Covers(raw, x, y)
      ensures !Covers([box], x, y)
    {
      var k :| 0 <= k < |raw| && InBox(raw[k], x, y);
      CoversOne(box, x, y);
      assert k == |raw| - 1 || Before(raw[k], raw[|raw|-1]);
      assert NonEmpty(raw[|raw|-1]);
    }
  }

  lemma AppendPoints(raw: seq<Box>, box: Box)
    requires Banded(raw) && raw != []
    requires var r := raw[|raw|-1]; (box.y1 == r.y1 && box.y2 == r.y2 && r.x2 <= box.x1) || r.y2 <= box.y1
    ensures forall x, y :: Covers(raw + [box], x, y) <==> Covers(raw, x, y) || InBox(box, x, y)
    ensures !Meet(raw, [box])
  {
    ApartFrom(raw, box);
    forall x, y
      ensures Covers(raw + [box], x, y) <==> Covers(raw, x, y) || InBox(box, x, y)
    {
      CoversConcat(raw, [box], x, y);
      CoversOne(box, x, y);
    }
  }

  /** The final pass over one region: its open band is closed, its extents completed. */
  method CloseLast(info: RegionInfo, ghost raw: seq<Box>) returns (e: Box, merged: seq<Box>)
    requires InfoInv(info, raw)
    ensures Canonical(merged) && IsExtents(e, merged)
    ensures forall x, y :: Covers(merged, x, y) <==> Covers(raw, x, y)
  {
    var boxes := info.boxes;
    var riBox := boxes[|boxes|-1];
    BandsLast(boxes, info.prevBand, info.curBand, raw);
    BandsCovers(boxes, info.prevBand, info.curBand, raw);
    OpenBandSides(boxes, info.prevBand, info.curBand, raw);
    FinishSides(info.extents, raw, ClosedPart(info, raw));
    e := info.extents.(y2 := riBox.y2);
    if e.x2 < riBox.x2 { e := e.(x2 := riBox.x2); }
    var prev;
    merged, prev := CloseBand(info, raw);
    SameExtents(e, raw, merged);
  }

  /** A region of a single rectangle keeps it in its extents. */
  method MakeRegion(e: Box, boxes: seq<Box>) returns (reg: Region)
    requires Canonical(boxes) && IsExtents(e, boxes)
    ensures fresh(reg) && reg.Valid() && !reg.Nil() && reg.Boxes() == boxes
  {
    SingleExtents(e, boxes);
    reg := new Region.Empty();
    reg.extents := e;
    if |boxes| == 1 {
      assert boxes == [e];
      reg.data := NoData;
    } else {
      reg.data := Rects(boxes);
    }
  }

  lemma FinishSides(e: Box, raw: seq<Box>, rc: int)
    requires SidesInv(e, raw, rc) && Banded(raw)
    requires forall k :: rc <= k < |raw| ==> raw[k].x2 <= raw[|raw|-1].x2
    ensures IsExtents(Box(e.x1, e.y1, Max(e.x2, raw[|raw|-1].x2), raw[|raw|-1].y2), raw)
  {
    var last := raw[|raw|-1];
    forall k | 0 <= k < |raw|
      ensures e.y1 <= raw[k].y1 && raw[k].y2 <= last.y2 && raw[k].x2 <= Max(e.x2, last.x2)
    {
      BoxOrder(raw, 0, k);
      BoxOrder(raw, k, |raw| - 1);
    }
  }

  lemma SameExtents(e: Box, raw: seq<Box>, rs: seq<Box>)
    requires Banded(raw) && IsExtents(e, raw) && Banded(rs)
    requires forall x, y :: Covers(rs, x, y) <==> Covers(raw, x, y)
    ensures IsExtents(e, rs) && rs != []
  {
    UnionExtents(e, raw, e, raw, rs);
    assert UnionBox(e, e) == e;
  }

  /** Every region under construction is in order, and none has gone past box k of s. */
  ghost predicate InfosInv(ri: seq<RegionInfo>, raws: seq<seq<Box>>, s: seq<Box>, i: int) {
    && ri != [] && |raws| == |ri|
    && (forall j :: 0 <= j < |ri| ==> InfoInv(ri[j], raws[j]) && raws[j] != [])
    && (forall j, k :: 0 <= j < |ri| && 0 <= i <= k < |s| ==> Leq(raws[j][|raws[j]|-1], s[k]))
  }

  /** The search for a region that takes the next box; a new one is made if none does. */
  method PlaceBox(ri: seq<RegionInfo>, box: Box, overlap: bool, ghost raws: seq<seq<Box>>, ghost s: seq<Box>, ghost i: int)
    returns (ri': seq<RegionInfo>, overlap': bool, j: int, ghost raws': seq<seq<Box>>)
    requires 0 <= i < |s| && s[i] == box && Sorted(s) && NonEmpty(box)
    requires InfosInv(ri, raws, s, i) && Tally(s[..i], raws, overlap)
    ensures InfosInv(ri', raws', s, i + 1) && Tally(s[..i + 1], raws', overlap')
    ensures 0 <= j < |ri'| && (j > 0 ==> ri'[0] == ri[0]) && |ri'[0].boxes| <= |ri[0].boxes| + 1
  {
    hide InfoInv;
    hide Tally;
    assert s[..i + 1] == s[..i] + [box];
    j := 0;
    while j < |ri|
      invariant 0 <= j <= |ri|
    {
      var took, info, flag, raw := TakeBox(ri[j], box, overlap, raws[j]);
      if took {
        TallyBox(s[..i], raws, overlap, box, j, raw, flag);
        ri', raws', overlap' := ri[j := info], raws[j := raw], flag;
        assert forall k :: i < k < |s| ==> Leq(box, s[k]);
        return;
      }
      j := j + 1;
    }
    InfoStart(box);
    TallyNew(s[..i], raws, overlap, box);
    ri', raws', overlap' := ri + [RegionInfo(box, [box], 0, 0)], raws + [[box]], overlap;
  }

  /** Step 2 of miRegionValidate. The first region is built in the very array that still
      holds the boxes to come, so each round writes its boxes back to the front of it. */
  method Scatter(rects: array<Box>, ghost s: seq<Box>)
    returns (ri: seq<RegionInfo>, overlap: bool, ghost raws: seq<seq<Box>>)
    requires rects.Length > 0 && rects[..] == s && Sorted(s)
    requires forall k :: 0 <= k < |s| ==> NonEmpty(s[k])
    modifies rects
    ensures InfosInv(ri, raws, s, |s|) && Tally(s, raws, overlap)
    ensures |ri[0].boxes| <= rects.Length && rects[..|ri[0].boxes|] == ri[0].boxes
  {
    hide InfoInv;
    hide Tally;
    var first := rects[0];
    ri, overlap, raws := [RegionInfo(first, [first], 0, 0)], false, [[first]];
    InfoStart(first);
    TallyStart(first);
    assert s[..1] == [first];
    var i := 1;
    while i < rects.Length
      invariant 1 <= i <= rects.Length
      invariant forall k :: i <= k < |s| ==> rects[k] == s[k]
      invariant InfosInv(ri, raws, s, i) && Tally(s[..i], raws, overlap)
      invariant |ri[0].boxes| <= i && rects[..|ri[0].boxes|] == ri[0].boxes
    {
      var box := rects[i];
      var j;
      ri, overlap, j, raws := PlaceBox(ri, box, overlap, raws, s, i);
      if j == 0 {
        WriteFront(rects, ri[0].boxes);
      }
      i := i + 1;
    }
    assert s[..i] == s;
  }

  method WriteFront(rects: array<Box>, boxes: seq<Box>)
    requires |boxes| <= rects.Length
    modifies rects
    ensures rects[..|boxes|] == boxes
    ensures forall m :: |boxes| <= m < rects.Length ==> rects[m] == old(rects[m])
  {
    var k := 0;
    while k < |boxes|
      invariant 0 <= k <= |boxes|
      invariant rects[..k] == boxes[..k]
      invariant forall m :: |boxes| <= m < rects.Length ==> rects[m] == old(rects[m])
    {
      rects[k] := boxes[k];
      k := k + 1;
    }
  }

  // ---- Step 3: uniting the regions ----

  /** The live regions, one object each, and what they hold. */
  ghost predicate LiveRegions(regs: seq<Region>, lo: int, hi: int, vals: seq<seq<Box>>)
    reads regs
  {
    && 0 <= lo && |vals| == hi - lo && hi <= |regs|
    && (forall k :: lo <= k < hi ==> regs[k].Valid() && !regs[k].Nil() && regs[k].Boxes() == vals[k - lo])
  }

  ghost predicate Distinct(regs: seq<Region>) {
    forall j, k :: 0 <= j < k < |regs| ==> regs[j] != regs[k]
  }

  lemma {:induction false} CountSame(a: seq<seq<Box>>, b: seq<seq<Box>>, x: int, y: int)
    requires |a| == |b| && forall k :: 0 <= k < |a| ==> (Covers(a[k], x, y) <==> Covers(b[k], x, y))
    ensures Count(a, x, y) == Count(b, x, y)
    decreases |a|
  {
    if a != [] {
      CountSame(a[..|a|-1], b[..|b|-1], x, y);
    }
  }

  /** The final pass over all regions under construction. */
  method FinishAll(ri: seq<RegionInfo>, overlap: bool, ghost raws: seq<seq<Box>>, ghost s: seq<Box>)
    returns (regs: seq<Region>, ghost vals: seq<seq<Box>>)
    requires InfosInv(ri, raws, s, |s|) && Tally(s, raws, overlap)
    ensures |regs| == |ri| && fresh(regs) && Distinct(regs)
    ensures LiveRegions(regs, 0, |regs|, vals) && Tally(s, vals, overlap)
  {
    hide InfoInv;
    hide Canonical;
    hide IsExtents;
    hide Covers;
    regs, vals := [], [];
    var j := 0;
    while j < |ri|
      invariant 0 <= j <= |ri| && |regs| == j
      invariant fresh(regs) && Distinct(regs) && LiveRegions(regs, 0, j, vals)
      invariant forall k, x, y :: 0 <= k < j ==> (Covers(vals[k], x, y) <==> Covers(raws[k], x, y))
    {
      var e, merged := CloseLast(ri[j], raws[j]);
      var reg := MakeRegion(e, merged);
      regs, vals := regs + [reg], vals + [merged];
      j := j + 1;
    }
    forall x, y
      ensures Count(vals, x, y) == Count(raws, x, y)
    {
      CountSame(vals, raws, x, y);
    }
  }

  /** One pair of the binary merge: region j takes up region h. */
  method MergePair(regs: seq<Region>, j: int, h: int, overlap: bool, ghost s: seq<Box>,
                   ghost a: seq<seq<Box>>, ghost b: seq<seq<Box>>)
    returns (overlap': bool, ghost a': seq<seq<Box>>)
    requires Distinct(regs) && 0 <= j < |a| <= h < |regs| && b != []
    requires LiveRegions(regs, 0, |a|, a) && LiveRegions(regs, h, h + |b|, b) && Tally(s, a + b, overlap)
    modifies regs[j]
    ensures |a'| == |a| && LiveRegions(regs, 0, |a|, a') && LiveRegions(regs, h + 1, h + |b|, b[1..])
    ensures Tally(s, a' + b[1..], overlap')
  {
    hide Tally;
    hide Canonical;
    hide IsExtents;
    hide Covers;
    overlap' := regs[j].UnionGeneral(regs[j], regs[h], overlap);
    ghost var r := regs[j].Boxes();
    forall x, y
      ensures Covers(r, x, y) <==> Covers(a[j], x, y) || Covers(b[0], x, y)
    {
      assert regs[j].Has(x, y) <==> Covers(r, x, y);
    }
    TallyMerge(s, a, b, overlap, j, r, overlap');
    a' := a[j := r];
  }

  lemma LiveSplit(regs: seq<Region>, m: int, n: int, vals: seq<seq<Box>>)
    requires 0 <= m <= n && |vals| == n && LiveRegions(regs, 0, n, vals)
    ensures LiveRegions(regs, 0, m, vals[..m]) && LiveRegions(regs, m, n, vals[m..])
  {
  }

  /** One round of the binary merge: the last half regions go into those before them. */
  method MergeRound(regs: seq<Region>, numRI: int, overlap: bool, ghost s: seq<Box>, ghost vals: seq<seq<Box>>)
    returns (half: int, overlap': bool, ghost vals': seq<seq<Box>>)
    requires 1 < numRI <= |regs| && |vals| == numRI && Distinct(regs) && LiveRegions(regs, 0, numRI, vals) && Tally(s, vals, overlap)
    modifies regs
    ensures 0 < half < numRI && |vals'| == numRI - half && LiveRegions(regs, 0, numRI - half, vals') && Tally(s, vals', overlap')
  {
    hide Tally;
    hide LiveRegions;
    half, overlap' := numRI / 2, overlap;
    var odd := numRI % 2;
    ghost var a, b := vals[..odd + half], vals[odd + half..];
    assert a + b == vals;
    LiveSplit(regs, odd + half, numRI, vals);
    var j := odd;
    while j < half + odd
      invariant odd <= j <= half + odd && |a| == odd + half && |b| == numRI - half - j
      invariant LiveRegions(regs, 0, odd + half, a) && LiveRegions(regs, j + half, numRI, b)
      invariant Tally(s, a + b, overlap')
    {
      overlap', a := MergePair(regs, j, j + half, overlap', s, a, b);
      b := b[1..];
      j := j + 1;
    }
    assert a + b == a;
    vals' := a;
  }

  /** The binary merge of miRegionValidate. */
  method MergeRegions(regs: seq<Region>, overlap: bool, ghost s: seq<Box>, ghost vals0: seq<seq<Box>>)
    returns (overlap': bool)
    requires regs != [] && Distinct(regs) && LiveRegions(regs, 0, |regs|, vals0) && Tally(s, vals0, overlap)
    modifies regs
    ensures regs[0].Valid() && Tally(s, [regs[0].Boxes()], overlap')
  {
    hide Tally;
    hide Canonical;
    hide IsExtents;
    hide Covers;
    var numRI := |regs|;
    ghost var vals := vals0;
    overlap' := overlap;
    while numRI > 1
      invariant 1 <= numRI <= |regs| && LiveRegions(regs, 0, numRI, vals) && Tally(s, vals, overlap')
    {
      var half;
      half, overlap', vals := MergeRound(regs, numRI, overlap', s, vals);
      numRI := numRI - half;
    }
    assert vals == [regs[0].Boxes()];
  }

  /** miRegionValidate. */
  method Validate(badreg: Region) returns (overlap: bool)
    requires Collecting(badreg)
    modifies badreg
    ensures forall x, y :: badreg.Has(x, y) <==> Covers(old(badreg.Boxes()), x, y)
    ensures overlap <==> AnyOverlap(old(badreg.Boxes()))
    ensures Collecting(badreg) && Banded(badreg.Boxes())
    ensures if old(badreg.data.NoData? || badreg.Nil() || badreg.extents.x1 < badreg.extents.x2)
            then badreg.Boxes() == old(badreg.Boxes()) && badreg.extents == old(badreg.extents)
                 && (badreg.Boxes() != [] ==> (badreg.Valid() <==> Coalesced(badreg.Boxes())))
            else badreg.Valid()
    ensures old(badreg.Valid()) ==> badreg.Valid()
  {
    overlap := false;
    var boxes := badreg.Boxes();
    if badreg.data.NoData? || |boxes| == 0 || badreg.extents.x1 < badreg.extents.x2 {
      FastPath(badreg);
      if badreg.data.Rects? && |boxes| == 1 {
        assert boxes == [badreg.extents];
        badreg.data := NoData;
      }
      return;
    }
    var rects := new Box[|boxes|](i requires 0 <= i < |boxes| => boxes[i]);
    assert rects[..] == boxes;
    QuickSortRects(rects, 0, |boxes|);
    ghost var s := rects[..];
    assert rects[0..|boxes|] == s;
    SortedTally(boxes, s);
    var ri, flag, raws := Scatter(rects, s);
    var regs, vals := FinishAll(ri, flag, raws, s);
    overlap := MergeRegions(regs, flag, s, vals);
    TallyEnd(s, regs[0].Boxes(), overlap);
    badreg.extents, badreg.data := regs[0].extents, regs[0].data;
    ValidCollecting(badreg);
  }

  lemma FastPath(reg: Region)
    requires Collecting(reg)
    requires reg.data.NoData? || reg.Nil() || reg.extents.x1 < reg.extents.x2
    ensures Banded(reg.Boxes()) && !AnyOverlap(reg.Boxes())
    ensures reg.data.Rects? && |reg.Boxes()| == 1 ==> reg.Boxes()[0] == reg.extents
  {
    if reg.data.NoData? {
      assert reg.Boxes()[0] == reg.extents;
      SingleCanonical(reg.extents);
    }
    BandedNoOverlap(reg.Boxes());
    if |reg.Boxes()| == 1 {
      SingleExtents(reg.extents, reg.Boxes());
    }
  }

  /** Sorting changes neither the points nor whether two boxes share one. */
  lemma SortedTally(boxes: seq<Box>, s: seq<Box>)
    requires multiset(s) == multiset(boxes)
    requires forall k :: 0 <= k < |boxes| ==> NonEmpty(boxes[k])
    ensures forall k :: 0 <= k < |s| ==> NonEmpty(s[k])
    ensures forall x, y :: Covers(s, x, y) <==> Covers(boxes, x, y)
    ensures AnyOverlap(s) <==> AnyOverlap(boxes)
  {
    forall k | 0 <= k < |s|
      ensures NonEmpty(s[k])
    {
      assert s[k] in multiset(s);
      assert s[k] in boxes;
    }
    forall x, y
      ensures Mult(s, x, y) == Mult(boxes, x, y)
      ensures Covers(s, x, y) <==> Covers(boxes, x, y)
    {
      MultRearranged(s, boxes, x, y);
      MultCovers(s, x, y);
      MultCovers(boxes, x, y);
    }
    OverlapIsTwice(s);
    OverlapIsTwice(boxes);
    if AnyOverlap(s) {
      var x, y :| Mult(s, x, y) >= 2;
      TwiceMeansOverlap(boxes, x, y);
    }
    if AnyOverlap(boxes) {
      var x, y :| Mult(boxes, x, y) >= 2;
      TwiceMeansOverlap(s, x, y);
    }
  }

  // ---- Appends followed by one validation ----

  function Laid(vals: seq<seq<Box>>): seq<Box> {
    if vals == [] then [] else Laid(vals[..|vals| - 1]) + vals[|vals| - 1]
  }

  function Contents(rgns: seq<Region>): (vals: seq<seq<Box>>)
    reads rgns
    ensures |vals| == |rgns| && forall k :: 0 <= k < |rgns| ==> vals[k] == rgns[k].Boxes()
  {
    seq(|rgns|, k requires 0 <= k < |rgns| reads rgns => rgns[k].Boxes())
  }

  lemma {:induction false} LaidCovers(vals: seq<seq<Box>>, x: int, y: int)
    ensures Covers(Laid(vals), x, y) <==> exists k :: 0 <= k < |vals| && Covers(vals[k], x, y)
    decreases |vals|
  {
    hide Covers;
    if vals == [] {
      NothingCovered(x, y);
    } else {
      var l := |vals| - 1;
      LaidCovers(vals[..l], x, y);
      CoversConcat(Laid(vals[..l]), vals[l], x, y);
    }
  }

  lemma NothingCovered(x: int, y: int)
    ensures !Covers([], x, y)
  {
  }

  datatype Batch = Batch(ordered: bool, boxes: seq<Box>)

  /** The rectangles after appending all of vals, and whether they are still in order. */
  function Gathered(b: Batch, vals: seq<seq<Box>>): Batch {
    if vals == [] then b
    else
      var l := |vals| - 1;
      var g := Gathered(b, vals[..l]);
      if vals[l] == [] then g
      else Batch(KeepsOrder(g.ordered, g.boxes, vals[l]), Appended(g.ordered, g.boxes, vals[l]))
  }

  method AppendAll(dstrgn: Region, rgns: seq<Region>)
    requires Collecting(dstrgn) && dstrgn !in rgns && forall k :: 0 <= k < |rgns| ==> rgns[k].Valid()
    modifies dstrgn
    ensures Collecting(dstrgn)
    ensures multiset(dstrgn.Boxes()) == multiset(old(dstrgn.Boxes()) + Laid(Contents(rgns)))
    ensures Batch(Ordered(dstrgn.extents), dstrgn.Boxes()) ==
      Gathered(Batch(old(Ordered(dstrgn.extents)), old(dstrgn.Boxes())), Contents(rgns))
    ensures dstrgn.Boxes() == [] ==> (dstrgn.Valid() <==> old(dstrgn.Valid()))
  {
    hide CollectingRects;
    hide Canonical;
    hide IsExtents;
    hide AppendStaysValid;
    hide Appended;
    hide KeepsOrder;
    ghost var start, vals := dstrgn.Boxes(), Contents(rgns);
    ghost var batch, valid := Batch(Ordered(dstrgn.extents), start), dstrgn.Valid();
    assert start + Laid([]) == start && Gathered(batch, []) == batch && vals[..0] == [];
    hide Laid;
    hide Gathered;
    hide Ordered;
    hide Covers;
    var i := 0;
    while i < |rgns|
      invariant 0 <= i <= |rgns| && Collecting(dstrgn)
      invariant multiset(dstrgn.Boxes()) == multiset(start + Laid(vals[..i]))
      invariant Batch(Ordered(dstrgn.extents), dstrgn.Boxes()) == Gathered(batch, vals[..i])
      invariant dstrgn.Boxes() == [] ==> (dstrgn.Valid() <==> valid)
    {
      ghost var before, ordered := dstrgn.Boxes(), Ordered(dstrgn.extents);
      assert rgns[i].Boxes() == vals[i];
      RegionAppend(dstrgn, rgns[i]);
      OneMoreAppended(start, vals, i, before, dstrgn.Boxes());
      OneMoreGathered(batch, vals, i);
      NothingAppended(ordered, before, vals[i]);
      i := i + 1;
    }
    assert vals[..i] == vals == Contents(rgns);
  }

  lemma OneMoreAppended(start: seq<Box>, vals: seq<seq<Box>>, i: nat, before: seq<Box>, after: seq<Box>)
    requires i < |vals| && multiset(before) == multiset(start + Laid(vals[..i]))
    requires multiset(after) == multiset(before) + multiset(vals[i])
    ensures multiset(after) == multiset(start + Laid(vals[..i + 1]))
  {
    assert vals[..i + 1][..i] == vals[..i];
    assert start + Laid(vals[..i + 1]) == (start + Laid(vals[..i])) + vals[i];
  }

  lemma OneMoreGathered(b: Batch, vals: seq<seq<Box>>, i: nat)
    requires i < |vals|
    ensures var g := Gathered(b, vals[..i]);
      Gathered(b, vals[..i + 1]) == if vals[i] == [] then g
        else Batch(KeepsOrder(g.ordered, g.boxes, vals[i]), Appended(g.ordered, g.boxes, vals[i]))
  {
    assert vals[..i + 1][..i] == vals[..i];
  }

  /** When every append keeps the form, nothing is left to merge at the end. */
  lemma {:induction false} EachKeepsForm(b: Batch, vals: seq<seq<Box>>)
    requires Canonical(b.boxes) && (b.boxes == [] || b.ordered) && forall k :: 0 <= k < |vals| ==> Canonical(vals[k])
    requires forall k :: 0 <= k < |vals| ==> AppendStaysValid(Gathered(b, vals[..k]).boxes, vals[k])
    ensures var g := Gathered(b, vals); Canonical(g.boxes) && (g.boxes == [] || g.ordered)
    decreases |vals|
  {
    hide Canonical;
    hide AppendStaysValid;
    hide Appended;
    hide KeepsOrder;
    if vals != [] {
      var l := |vals| - 1;
      assert forall k :: 0 <= k < l ==> vals[..l][..k] == vals[..k];
      EachKeepsForm(b, vals[..l]);
      var g := Gathered(b, vals[..l]);
      if vals[l] != [] {
        KeepsForm(g.ordered, g.boxes, vals[l]);
      }
    }
  }

  lemma KeepsForm(ordered: bool, a: seq<Box>, b: seq<Box>)
    requires Canonical(a) && Canonical(b) && (a == [] || ordered) && b != [] && AppendStaysValid(a, b)
    ensures Canonical(Appended(ordered, a, b)) && KeepsOrder(ordered, a, b)
  {
    hide Coalesced;
    hide StaysCoalesced;
    if a == [] {
      assert a + b == b;
    } else if Behind(a, b) {
      FollowsBanded(a, b);
      AppendCanonical(a, b);
    } else {
      FollowsBanded(b, a);
      AppendCanonical(b, a);
    }
  }

  /** The converse fails: what one append leaves to merge, another can complete. */
  lemma LaterAppendRepairs(dst: seq<Box>, add: seq<Box>, more: seq<Box>)
    requires dst == [Box(0, 0, 1, 1), Box(5, 0, 6, 1), Box(0, 1, 1, 2)] && add == [Box(5, 1, 6, 2)] && more == [Box(8, 1, 9, 2)]
    ensures !AppendStaysValid(dst, add)
    ensures var g := Gathered(Batch(true, dst), [add, more]); g.ordered && Canonical(g.boxes)
  {
    AppendCanLeaveMergeable(dst, add);
    GatheredTwo(Batch(true, dst), add, more);
    var all := (dst + add) + more;
    FollowsBanded(dst, add);
    SingleCanonical(more[0]);
    FollowsBanded(dst + add, more);
    forall p, c, e | BandAt(all, p, c) && BandAt(all, c, e)
      ensures !Mergeable(all, p, c, e)
    {
      assert p == 0 && c == 2 && e == 5;
      assert |all[p..c]| != |all[c..e]|;
    }
  }

  lemma GatheredTwo(b: Batch, u: seq<Box>, v: seq<Box>)
    requires u != [] && v != [] && b.ordered && Behind(b.boxes, u) && Behind(b.boxes + u, v)
    ensures Gathered(b, [u, v]) == Batch(true, (b.boxes + u) + v)
  {
    assert [u, v][..1] == [u] && [u][..0] == [];
    assert Gathered(b, [u]) == Batch(true, b.boxes + u);
  }

  lemma NothingAppended(ordered: bool, have: seq<Box>, add: seq<Box>)
    ensures add == [] ==> Appended(ordered, have, add) == have
    ensures add != [] ==> Appended(ordered, have, add) != []
  {
  }

  /** Any number of regions are appended one after the other, and the result validated: it
      holds what any of them held, and the flag tells whether two rectangles shared a point.
      It is a valid region exactly when the rectangles got out of order, so that they were
      sorted and united, or have nothing left to merge. */
  method UnionOfAll(dstrgn: Region, rgns: seq<Region>) returns (overlap: bool)
    requires Collecting(dstrgn) && dstrgn !in rgns && forall k :: 0 <= k < |rgns| ==> rgns[k].Valid()
    modifies dstrgn
    ensures Collecting(dstrgn) && Banded(dstrgn.Boxes())
    ensures forall x, y :: dstrgn.Has(x, y) <==> old(dstrgn.Has(x, y)) || exists k :: 0 <= k < |rgns| && rgns[k].Has(x, y)
    ensures overlap <==> AnyOverlap(old(dstrgn.Boxes()) + Laid(Contents(rgns)))
    ensures var g := Gathered(Batch(old(Ordered(dstrgn.extents)), old(dstrgn.Boxes())), Contents(rgns));
      dstrgn.Valid() <==> if g.boxes == [] then old(dstrgn.Valid()) else !g.ordered || Coalesced(g.boxes)
  {
    hide Canonical;
    hide IsExtents;
    hide Covers;
    hide AppendStaysValid;
    hide CollectingRects;
    hide AnyOverlap;
    hide Laid;
    hide Gathered;
    hide Coalesced;
    ghost var start, vals := dstrgn.Boxes(), Contents(rgns);
    AppendAll(dstrgn, rgns);
    ghost var s := dstrgn.Boxes();
    CollectedBoxes(dstrgn);
    AppendedPoints(start, vals, s);
    overlap := Validate(dstrgn);
    assert vals == Contents(rgns);
  }

  lemma CollectedBoxes(reg: Region)
    requires Collecting(reg)
    ensures forall k :: 0 <= k < |reg.Boxes()| ==> NonEmpty(reg.Boxes()[k])
  {
  }

  lemma AppendedPoints(start: seq<Box>, vals: seq<seq<Box>>, s: seq<Box>)
    requires multiset(s) == multiset(start + Laid(vals)) && forall k :: 0 <= k < |s| ==> NonEmpty(s[k])
    ensures forall x, y :: Covers(s, x, y) <==> Covers(start, x, y) || exists k :: 0 <= k < |vals| && Covers(vals[k], x, y)
    ensures AnyOverlap(s) <==> AnyOverlap(start + Laid(vals))
  {
    hide Covers;
    hide AnyOverlap;
    var all := start + Laid(vals);
    SameBoxes(s, all);
    SortedTally(all, s);
    forall x, y
      ensures Covers(all, x, y) <==> Covers(start, x, y) || exists k :: 0 <= k < |vals| && Covers(vals[k], x, y)
    {
      CoversConcat(start, Laid(vals), x, y);
      LaidCovers(vals, x, y);
    }
  }

  lemma SameBoxes(s: seq<Box>, t: seq<Box>)
    requires multiset(s) == multiset(t) && forall k :: 0 <= k < |s| ==> NonEmpty(s[k])
    ensures forall k :: 0 <= k < |t| ==> NonEmpty(t[k])
  {
    forall k | 0 <= k < |t|
      ensures NonEmpty(t[k])
    {
      assert t[k] in multiset(t);
      assert t[k] in s;
    }
  }

  /** One append and a validation. The fast path of the validation takes what is in order as
      it is, so that the result is a valid region exactly when the rectangles were out of
      order or the append had kept the form. */
  method AppendAndValidate(dstrgn: Region, rgn: Region) returns (overlap: bool)
    requires dstrgn.Valid() && rgn.Valid()
    modifies dstrgn
    ensures forall x, y :: dstrgn.Has(x, y) <==> old(dstrgn.Has(x, y) || rgn.Has(x, y))
    ensures var a, b := old(dstrgn.Boxes()), old(rgn.Boxes());
      dstrgn.Valid() <==> AppendStaysValid(a, b) || (!Behind(a, b) && !Behind(b, a))
  {
    hide IsExtents;
    hide Coalesced;
    hide StaysCoalesced;
    ghost var a, b := dstrgn.Boxes(), rgn.Boxes();
    ValidCollecting(dstrgn);
    if dstrgn.Boxes() != [] {
      ValidWidth(dstrgn);
    }
    RegionAppend(dstrgn, rgn);
    ghost var s := dstrgn.Boxes();
    forall x, y
      ensures Covers(s, x, y) <==> Covers(a, x, y) || Covers(b, x, y)
    {
      CoversConcat(a, b, x, y);
      CoversConcat(b, a, x, y);
    }
    overlap := Validate(dstrgn);
  }

  lemma ValidWidth(reg: Region)
    requires reg.Valid() && reg.Boxes() != []
    ensures reg.extents.x1 < reg.extents.x2
  {
    BandedEnds(reg.extents, reg.Boxes());
  }
}
