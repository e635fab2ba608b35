/** How often a point is covered: by the boxes of a list, and by the regions they have
    been sorted into. The overlap flag of a batch union is about the former. */
module BoxTally {
  import opened RegionForm
  import opened Regions

  /** How many boxes of s hold the point. */
  ghost function Mult(s: seq<Box>, x: int, y: int): nat {
    if s == [] then 0 else Mult(s[..|s|-1], x, y) + if InBox(s[|s|-1], x, y) then 1 else 0
  }

  /** How many of the arrays in rs hold the point. */
  ghost function Count(rs: seq<seq<Box>>, x: int, y: int): nat {
    if rs == [] then 0 else Count(rs[..|rs|-1], x, y) + if Covers(rs[|rs|-1], x, y) then 1 else 0
  }

  /** Two boxes of s share a point. */
  ghost predicate AnyOverlap(s: seq<Box>) {
    exists i, j :: 0 <= i < j < |s| && Overlapping(s[i], s[j])
  }

  lemma MultSnoc(s: seq<Box>, b: Box, x: int, y: int)
    ensures Mult(s + [b], x, y) == Mult(s, x, y) + if InBox(b, x, y) then 1 else 0
  {
    assert (s + [b])[..|s|] == s;
  }

  lemma {:induction false} MultConcat(s: seq<Box>, t: seq<Box>, x: int, y: int)
    ensures Mult(s + t, x, y) == Mult(s, x, y) + Mult(t, x, y)
    decreases |t|
  {
    if t == [] {
      assert s + t == s;
    } else {
      var t', b := t[..|t|-1], t[|t|-1];
      MultConcat(s, t', x, y);
      assert s + t == (s + t') + [b];
      MultSnoc(s + t', b, x, y);
    }
  }

  lemma {:induction false} MultCovers(s: seq<Box>, x: int, y: int)
    ensures Mult(s, x, y) > 0 <==> Covers(s, x, y)
    decreases |s|
  {
    if s != [] {
      var s', b := s[..|s|-1], s[|s|-1];
      MultCovers(s', x, y);
      assert s == s' + [b];
      CoversConcat(s', [b], x, y);
      CoversOne(b, x, y);
    }
  }

  lemma CoversOne(b: Box, x: int, y: int)
    ensures Covers([b], x, y) <==> InBox(b, x, y)
  {
    BoxCovers([b], 0, x, y);
  }

  /** The tally does not depend on the order of the boxes. */
  lemma {:induction false} MultRearranged(s: seq<Box>, t: seq<Box>, x: int, y: int)
    requires multiset(s) == multiset(t)
    ensures Mult(s, x, y) == Mult(t, x, y)
    decreases |s|
  {
    if s == [] {
      assert |multiset(t)| == |t| == 0;
    } else {
      var n, b := |s| - 1, s[|s|-1];
      assert b in multiset(s);
      assert b in t;
      var k :| 0 <= k < |t| && t[k] == b;
      Delete(s, n, x, y);
      Delete(t, k, x, y);
      assert s[..n] + s[n+1..] == s[..n];
      MultRearranged(s[..n], t[..k] + t[k+1..], x, y);
    }
  }

  lemma Delete(s: seq<Box>, k: int, x: int, y: int)
    requires 0 <= k < |s|
    ensures multiset(s[..k] + s[k+1..]) == multiset(s) - multiset{s[k]}
    ensures Mult(s, x, y) == Mult(s[..k] + s[k+1..], x, y) + if InBox(s[k], x, y) then 1 else 0
  {
    var a, b := s[..k], s[k+1..];
    assert s == a + [s[k]] + b;
    assert multiset(s) == multiset(a) + multiset{s[k]} + multiset(b);
    MultConcat(a + [s[k]], b, x, y);
    MultSnoc(a, s[k], x, y);
    MultConcat(a, b, x, y);
  }

  lemma {:induction false} TwiceMeansOverlap(s: seq<Box>, x: int, y: int)
    requires Mult(s, x, y) >= 2
    ensures AnyOverlap(s)
    decreases |s|
  {
    var s', b := s[..|s|-1], s[|s|-1];
    if Mult(s', x, y) >= 2 {
      TwiceMeansOverlap(s', x, y);
      var i, j :| 0 <= i < j < |s'| && Overlapping(s'[i], s'[j]);
      assert Overlapping(s[i], s[j]);
    } else {
      MultCovers(s', x, y);
      var i :| 0 <= i < |s'| && InBox(s'[i], x, y);
      assert Overlapping(s[i], s[|s|-1]);
    }
  }

  /** The overlap flag can be told from the tally. */
  lemma OverlapIsTwice(s: seq<Box>)
    requires forall k :: 0 <= k < |s| ==> NonEmpty(s[k])
    ensures AnyOverlap(s) <==> exists x, y :: Mult(s, x, y) >= 2
  {
    if AnyOverlap(s) {
      var i, j :| 0 <= i < j < |s| && Overlapping(s[i], s[j]);
      var x, y := Max(s[i].x1, s[j].x1), Max(s[i].y1, s[j].y1);
      assert s == s[..j] + s[j..];
      MultConcat(s[..j], s[j..], x, y);
      BoxCovers(s[..j], i, x, y);
      MultCovers(s[..j], x, y);
      BoxCovers(s[j..], 0, x, y);
      MultCovers(s[j..], x, y);
    }
    if x, y :| Mult(s, x, y) >= 2 {
      TwiceMeansOverlap(s, x, y);
    }
  }

  lemma BandedNoOverlap(rs: seq<Box>)
    requires Banded(rs)
    ensures !AnyOverlap(rs)
  {
    forall i, j | 0 <= i < j < |rs|
      ensures !Overlapping(rs[i], rs[j])
    {
      assert Before(rs[i], rs[j]);
    }
  }

  lemma CountSnoc(rs: seq<seq<Box>>, r: seq<Box>, x: int, y: int)
    ensures Count(rs + [r], x, y) == Count(rs, x, y) + if Covers(r, x, y) then 1 else 0
  {
    assert (rs + [r])[..|rs|] == rs;
  }

  lemma {:induction false} CountConcat(a: seq<seq<Box>>, b: seq<seq<Box>>, x: int, y: int)
    ensures Count(a + b, x, y) == Count(a, x, y) + Count(b, x, y)
    decreases |b|
  {
    if b == [] {
      assert a + b == a;
    } else {
      var b', r := b[..|b|-1], b[|b|-1];
      CountConcat(a, b', x, y);
      assert a + b == (a + b') + [r];
      CountSnoc(a + b', r, x, y);
    }
  }

  lemma CountOne(r: seq<Box>, x: int, y: int)
    ensures Count([r], x, y) == if Covers(r, x, y) then 1 else 0
  {
    assert [r] == [] + [r];
    CountSnoc([], r, x, y);
  }

  lemma CountUpdate(rs: seq<seq<Box>>, j: int, r: seq<Box>, x: int, y: int)
    requires 0 <= j < |rs|
    ensures Count(rs[j := r], x, y) + (if Covers(rs[j], x, y) then 1 else 0)
         == Count(rs, x, y) + (if Covers(r, x, y) then 1 else 0)
    ensures Covers(rs[j], x, y) ==> Count(rs, x, y) > 0
  {
    var a, b := rs[..j], rs[j+1..];
    assert rs == a + [rs[j]] + b && rs[j := r] == a + [r] + b;
    CountConcat(a + [rs[j]], b, x, y);
    CountConcat(a + [r], b, x, y);
    CountSnoc(a, rs[j], x, y);
    CountSnoc(a, r, x, y);
  }

  /** The boxes s have gone into the regions rs, and the flag is right about s unless a
      point is still held by more than one region. */
  ghost predicate Tally(s: seq<Box>, rs: seq<seq<Box>>, overlap: bool) {
    && (forall x, y :: Mult(s, x, y) >= Count(rs, x, y))
    && (forall x, y :: Mult(s, x, y) > 0 <==> Count(rs, x, y) > 0)
    && (!overlap ==> forall x, y :: Mult(s, x, y) == Count(rs, x, y))
    && (overlap ==> exists x, y :: Mult(s, x, y) >= 2)
  }

  lemma TallyStart(b: Box)
    ensures Tally([b], [[b]], false)
  {
    forall x, y
      ensures Mult([b], x, y) == Count([[b]], x, y)
    {
      CountOne([b], x, y);
      CoversOne(b, x, y);
      assert [b] == [] + [b];
      MultSnoc([], b, x, y);
    }
  }

  /** A further box has been put into region j, which now is r. */
  lemma TallyBox(s: seq<Box>, rs: seq<seq<Box>>, overlap: bool, b: Box, j: int, r: seq<Box>, overlap': bool)
    requires Tally(s, rs, overlap) && 0 <= j < |rs|
    requires forall x, y :: Covers(r, x, y) <==> Covers(rs[j], x, y) || InBox(b, x, y)
    requires overlap' <==> overlap || Meet(rs[j], [b])
    ensures Tally(s + [b], rs[j := r], overlap')
  {
    forall x, y
      ensures Mult(s + [b], x, y) == Mult(s, x, y) + if InBox(b, x, y) then 1 else 0
      ensures Count(rs[j := r], x, y) == Count(rs, x, y) + if InBox(b, x, y) && !Covers(rs[j], x, y) then 1 else 0
      ensures Covers(rs[j], x, y) ==> Count(rs, x, y) > 0
      ensures Covers([b], x, y) <==> InBox(b, x, y)
    {
      MultSnoc(s, b, x, y);
      CountUpdate(rs, j, r, x, y);
      CoversOne(b, x, y);
    }
    if overlap {
      var x, y :| Mult(s, x, y) >= 2;
      assert Mult(s + [b], x, y) >= 2;
    } else if overlap' {
      var x, y :| Covers(rs[j], x, y) && Covers([b], x, y);
      assert Mult(s + [b], x, y) >= 2;
    }
  }

  /** A further box has started a region of its own. */
  lemma TallyNew(s: seq<Box>, rs: seq<seq<Box>>, overlap: bool, b: Box)
    requires Tally(s, rs, overlap)
    ensures Tally(s + [b], rs + [[b]], overlap)
  {
    forall x, y
      ensures Mult(s + [b], x, y) == Mult(s, x, y) + if InBox(b, x, y) then 1 else 0
      ensures Count(rs + [[b]], x, y) == Count(rs, x, y) + if InBox(b, x, y) then 1 else 0
    {
      MultSnoc(s, b, x, y);
      CountSnoc(rs, [b], x, y);
      CoversOne(b, x, y);
    }
    if overlap {
      var x, y :| Mult(s, x, y) >= 2;
      assert Mult(s + [b], x, y) >= 2;
    }
  }

  /** Region j of a has been united with the first region of b. */
  lemma TallyMerge(s: seq<Box>, a: seq<seq<Box>>, b: seq<seq<Box>>, overlap: bool, j: int, r: seq<Box>, overlap': bool)
    requires Tally(s, a + b, overlap) && 0 <= j < |a| && b != []
    requires forall x, y :: Covers(r, x, y) <==> Covers(a[j], x, y) || Covers(b[0], x, y)
    requires overlap' <==> overlap || Meet(a[j], b[0])
    ensures Tally(s, a[j := r] + b[1..], overlap')
  {
    forall x, y
      ensures Count(a + b, x, y) == Count(a[j := r] + b[1..], x, y)
        + if Covers(a[j], x, y) && Covers(b[0], x, y) then 1 else 0
      ensures Covers(a[j], x, y) || Covers(b[0], x, y) ==> Count(a[j := r] + b[1..], x, y) > 0
    {
      CountUpdate(a, j, r, x, y);
      CountUpdate(a[j := r], j, r, x, y);
      CountConcat(a, b, x, y);
      CountConcat(a[j := r], b[1..], x, y);
      CountConcat([b[0]], b[1..], x, y);
      assert b == [b[0]] + b[1..];
      CountOne(b[0], x, y);
    }
    if !overlap && overlap' {
      var x, y :| Covers(a[j], x, y) && Covers(b[0], x, y);
      assert Mult(s, x, y) >= 2;
    }
  }

  /** With a single region left the flag is exact, and the region is the union. */
  lemma TallyEnd(s: seq<Box>, r: seq<Box>, overlap: bool)
    requires Tally(s, [r], overlap)
    requires forall k :: 0 <= k < |s| ==> NonEmpty(s[k])
    ensures overlap <==> AnyOverlap(s)
    ensures forall x, y :: Covers(r, x, y) <==> Covers(s, x, y)
  {
    forall x, y
      ensures Count([r], x, y) == if Covers(r, x, y) then 1 else 0
      ensures Mult(s, x, y) > 0 <==> Covers(s, x, y)
    {
      CountOne(r, x, y);
      MultCovers(s, x, y);
    }
    OverlapIsTwice(s);
    if overlap {
      var x, y :| Mult(s, x, y) >= 2;
      TwiceMeansOverlap(s, x, y);
    }
    if AnyOverlap(s) {
      var x, y :| Mult(s, x, y) >= 2;
      assert overlap || Mult(s, x, y) == Count([r], x, y);
    }
  }

  /** Every point of a banded array is in exactly one of its boxes. */
  lemma BandedMult(rs: seq<Box>, x: int, y: int)
    requires Banded(rs)
    ensures Mult(rs, x, y) == if Covers(rs, x, y) then 1 else 0
  {
    MultCovers(rs, x, y);
    if Mult(rs, x, y) >= 2 {
      TwiceMeansOverlap(rs, x, y);
      BandedNoOverlap(rs);
    }
  }
}
