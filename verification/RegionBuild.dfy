/** Building a banded array one band at a time: what stays true of the array while
    bands are appended at the bottom and merged with the band above. */
module RegionBuild {
  import opened RegionForm

  /** prev is where the last band of rs starts; or it is |rs|, when no band added at
      yb or below can touch what is there. */
  ghost predicate LastBand(rs: seq<Box>, prev: int, yb: int) {
    || BandAt(rs, prev, |rs|)
    || (prev == |rs| && (rs != [] ==> rs[|rs|-1].y2 < yb))
  }

  /** A canonical array that ends at or above yb, with its last band at prev. */
  ghost predicate Form(rs: seq<Box>, prev: int, yb: int) {
    && Canonical(rs)
    && (forall i :: 0 <= i < |rs| ==> rs[i].y2 <= yb)
    && LastBand(rs, prev, yb)
  }

  lemma FormLower(rs: seq<Box>, prev: int, yb: int, yb': int)
    requires Form(rs, prev, yb) && yb <= yb'
    ensures Form(rs, prev, yb')
  {
  }

  lemma AppendBanded(rs: seq<Box>, b: seq<Box>, y1: int, y2: int)
    requires Banded(rs) && IsBand(b, y1, y2) && y1 < y2
    requires forall i :: 0 <= i < |rs| ==> rs[i].y2 <= y1
    ensures Banded(rs + b)
  {
    var c := rs + b;
    forall i, j | 0 <= i < j < |c|
      ensures Before(c[i], c[j])
    {
      assert i < |rs| || c[i] == b[i - |rs|];
      assert j < |rs| || c[j] == b[j - |rs|];
    }
  }

  lemma BandStartUnique(rs: seq<Box>, p: int, p': int, c: int)
    requires BandAt(rs, p, c) && BandAt(rs, p', c)
    ensures p == p'
  {
    BandInner(rs, p, c, p');
    BandInner(rs, p', c, p);
  }

  lemma BandInner(rs: seq<Box>, p: int, c: int, k: int)
    requires BandAt(rs, p, c)
    ensures p < k < c ==> rs[k-1].y1 == rs[k].y1
  {
  }

  /** The bands of rs + b below |rs| are those of rs; the only one reaching further is b. */
  lemma BandOfAppend(rs: seq<Box>, b: seq<Box>, y1: int, y2: int, p: int, e: int)
    requires Banded(rs) && IsBand(b, y1, y2) && y1 < y2
    requires forall i :: 0 <= i < |rs| ==> rs[i].y2 <= y1
    requires BandAt(rs + b, p, e)
    ensures e <= |rs| ==> BandAt(rs, p, e)
    ensures e > |rs| ==> p == |rs| && e == |rs| + |b|
  {
    var c := rs + b;
    assert forall k :: 0 <= k < |rs| ==> c[k] == rs[k] && rs[k].y1 < y1;
    assert forall k :: |rs| <= k < |c| ==> c[k].y1 == y1;
    BandInner(c, p, e, |rs|);
  }

  /** Appending a band that cannot be merged with the one above it. */
  lemma AppendForm(rs: seq<Box>, prev: int, b: seq<Box>, y1: int, y2: int)
    requires Form(rs, prev, y1) && IsBand(b, y1, y2) && y1 < y2 && b != []
    requires BandAt(rs, prev, |rs|) ==> rs[prev].y2 != y1 || !SameSpans(rs[prev..], b)
    ensures Form(rs + b, |rs|, y2)
  {
    var c := rs + b;
    AppendBanded(rs, b, y1, y2);
    forall p, q, e | BandAt(c, p, q) && BandAt(c, q, e)
      ensures !Mergeable(c, p, q, e)
    {
      BandOfAppend(rs, b, y1, y2, p, q);
      BandOfAppend(rs, b, y1, y2, q, e);
      if e <= |rs| {
        assert c[p..q] == rs[p..q] && c[q..e] == rs[q..e];
        assert !Mergeable(rs, p, q, e);
      } else {
        assert c[p..q] == rs[p..] && c[q..e] == b;
        if BandAt(rs, prev, |rs|) {
          BandStartUnique(rs, p, prev, |rs|);
        } else {
          BandOrder(rs, p, q, q - 1);
        }
      }
    }
    AppendLast(rs, b, y1, y2);
  }

  lemma AppendLast(rs: seq<Box>, b: seq<Box>, y1: int, y2: int)
    requires Banded(rs) && IsBand(b, y1, y2) && y1 < y2 && b != []
    requires forall i :: 0 <= i < |rs| ==> rs[i].y2 <= y1
    ensures BandAt(rs + b, |rs|, |rs| + |b|)
    ensures forall i :: 0 <= i < |rs + b| ==> (rs + b)[i].y2 <= y2
  {
    var c := rs + b;
    assert forall k :: 0 <= k < |rs| ==> c[k] == rs[k];
    assert forall k :: |rs| <= k < |c| ==> c[k] == b[k - |rs|];
  }

  /** ms is rs with the boxes from prev on stretched down to y2. */
  ghost predicate Stretched(rs: seq<Box>, ms: seq<Box>, prev: int, y2: int) {
    && |ms| == |rs| && 0 <= prev <= |rs|
    && (forall k :: 0 <= k < prev ==> ms[k] == rs[k])
    && (forall k :: prev <= k < |rs| ==> ms[k] == rs[k].(y2 := y2))
  }

  lemma StretchBanded(rs: seq<Box>, ms: seq<Box>, prev: int, y2: int)
    requires Banded(rs) && BandAt(rs, prev, |rs|) && rs[prev].y2 < y2
    requires Stretched(rs, ms, prev, y2)
    ensures Banded(ms)
  {
    forall i, j | 0 <= i < j < |ms|
      ensures Before(ms[i], ms[j])
    {
      assert Before(rs[i], rs[j]);
      BandOrder(rs, prev, |rs|, i);
      BandOrder(rs, prev, |rs|, j);
    }
    forall i | 0 <= i < |ms|
      ensures NonEmpty(ms[i])
    {
      BandOrder(rs, prev, |rs|, i);
    }
  }

  lemma StretchBandAt(rs: seq<Box>, ms: seq<Box>, prev: int, y2: int, p: int, e: int)
    requires Stretched(rs, ms, prev, y2)
    ensures BandAt(rs, p, e) <==> BandAt(ms, p, e)
  {
    assert forall k :: 0 <= k < |rs| ==> ms[k].y1 == rs[k].y1;
  }

  /** Merging a band with the one above it by stretching the latter. */
  lemma MergeForm(rs: seq<Box>, prev: int, b: seq<Box>, y1: int, y2: int, ms: seq<Box>)
    requires Form(rs, prev, y1) && IsBand(b, y1, y2) && y1 < y2
    requires BandAt(rs, prev, |rs|) && rs[prev].y2 == y1 && SameSpans(rs[prev..], b)
    requires Stretched(rs, ms, prev, y2)
    ensures Form(ms, prev, y2)
    ensures forall x, y :: Covers(ms, x, y) <==> Covers(rs + b, x, y)
  {
    StretchBanded(rs, ms, prev, y2);
    forall p, q, e | BandAt(ms, p, q) && BandAt(ms, q, e)
      ensures !Mergeable(ms, p, q, e)
    {
      StretchBandAt(rs, ms, prev, y2, p, q);
      StretchBandAt(rs, ms, prev, y2, q, e);
      StretchMergeable(rs, ms, prev, y2, p, q, e);
    }
    StretchBandAt(rs, ms, prev, y2, prev, |rs|);
    forall x, y
      ensures Covers(ms, x, y) <==> Covers(rs + b, x, y)
    {
      MergeCovers(rs, prev, b, y1, y2, ms, x, y);
    }
  }

  lemma StretchMergeable(rs: seq<Box>, ms: seq<Box>, prev: int, y2: int, p: int, q: int, e: int)
    requires Coalesced(rs) && Stretched(rs, ms, prev, y2)
    requires BandAt(rs, p, q) && BandAt(rs, q, e) && BandAt(rs, prev, |rs|)
    ensures !Mergeable(ms, p, q, e)
  {
    assert p < prev;
    forall k | 0 <= k < |rs|
      ensures ms[k].x1 == rs[k].x1 && ms[k].x2 == rs[k].x2 && ms[k].y1 == rs[k].y1
    {
    }
    if SameSpans(ms[p..q], ms[q..e]) {
      forall k | 0 <= k < q - p
        ensures rs[p..q][k].x1 == rs[q..e][k].x1 && rs[p..q][k].x2 == rs[q..e][k].x2
      {
        assert ms[p..q][k] == ms[p + k] && ms[q..e][k] == ms[q + k];
      }
      assert SameSpans(rs[p..q], rs[q..e]);
    }
    assert !Mergeable(rs, p, q, e);
  }

  lemma MergeCovers(rs: seq<Box>, prev: int, b: seq<Box>, y1: int, y2: int, ms: seq<Box>, x: int, y: int)
    requires Banded(rs) && IsBand(b, y1, y2) && y1 < y2
    requires BandAt(rs, prev, |rs|) && rs[prev].y2 == y1 && SameSpans(rs[prev..], b)
    requires Stretched(rs, ms, prev, y2) && Banded(ms)
    ensures Covers(ms, x, y) <==> Covers(rs + b, x, y)
  {
    var h, l, m := rs[..prev], rs[prev..], ms[prev..];
    CoversSplit(rs, prev, x, y);
    CoversSplit(ms, prev, x, y);
    CoversConcat(rs, b, x, y);
    assert ms[..prev] == h;
    assert rs[prev..|rs|] == l;
    BandCut(rs, prev, |rs|);
    StretchCovers(l, m, b, rs[prev].y1, y1, y2, x, y);
  }

  lemma CoversSplit(rs: seq<Box>, n: int, x: int, y: int)
    requires 0 <= n <= |rs|
    ensures Covers(rs, x, y) <==> Covers(rs[..n], x, y) || Covers(rs[n..], x, y)
  {
    CoversConcat(rs[..n], rs[n..], x, y);
    assert rs == rs[..n] + rs[n..];
  }

  lemma StretchCovers(l: seq<Box>, m: seq<Box>, b: seq<Box>, y0: int, y1: int, y2: int, x: int, y: int)
    requires IsBand(l, y0, y1) && IsBand(b, y1, y2) && y0 < y1 < y2 && SameSpans(l, b)
    requires |m| == |l| && forall k :: 0 <= k < |l| ==> m[k] == l[k].(y2 := y2)
    ensures Covers(m, x, y) <==> Covers(l, x, y) || Covers(b, x, y)
  {
    CoversBand(l, y0, y1, x, y);
    CoversBand(m, y0, y2, x, y);
    CoversBand(b, y1, y2, x, y);
    SameSpansSameRow(l, b, x);
    SameSpansSameRow(l, m, x);
  }

  // ---- Walking down the bands of a source region ----

  ghost predicate BandStart(rs: seq<Box>, i: int) {
    0 <= i <= |rs| && (0 < i < |rs| ==> rs[i-1].y1 != rs[i].y1)
  }

  /** The bands of rs before i end at or above yb; the one at i reaches below it. */
  ghost predicate Pending(rs: seq<Box>, i: int, yb: int) {
    && BandStart(rs, i)
    && (i > 0 ==> rs[i-1].y2 <= yb)
    && (i < |rs| ==> yb < rs[i].y2)
  }

  lemma PendingRow(rs: seq<Box>, i: int, e: int, yb: int, x: int, y: int)
    requires Banded(rs) && Pending(rs, i, yb) && BandAt(rs, i, e)
    requires yb <= y < rs[i].y2
    ensures Covers(rs, x, y) <==> rs[i].y1 <= y && RowIn(rs[i..e], x)
  {
    if rs[i].y1 <= y {
      BandRow(rs, i, e, x, y);
    } else {
      BandGap(rs, i, x, y);
    }
  }

  lemma PendingNext(rs: seq<Box>, i: int, e: int, yb: int, yb': int)
    requires Banded(rs) && Pending(rs, i, yb) && BandAt(rs, i, e) && yb <= yb' <= rs[i].y2
    ensures Pending(rs, if rs[i].y2 == yb' then e else i, yb')
    ensures rs[i].y2 == yb' && e < |rs| ==> yb' <= rs[e].y1
  {
    BandOrder(rs, i, e, e - 1);
    if e < |rs| {
      BandOrder(rs, i, e, e);
    }
  }

  // ---- Appending the untouched rest of a source region ----

  lemma TailBanded(rs: seq<Box>, s: seq<Box>, i: int, e: int)
    requires Banded(rs) && Banded(s) && BandAt(s, i, e)
    requires forall k :: 0 <= k < |rs| ==> rs[k].y2 <= s[i].y2
    ensures Banded(rs + s[e..])
    ensures forall k :: e <= k < |s| ==> s[i].y2 <= s[k].y1
  {
    var c := rs + s[e..];
    forall k | e <= k < |s|
      ensures s[i].y2 <= s[k].y1
    {
      BandOrder(s, i, e, k);
    }
    forall p, q | 0 <= p < q < |c|
      ensures Before(c[p], c[q])
    {
      if p >= |rs| {
        assert Before(s[p - |rs| + e], s[q - |rs| + e]);
      }
    }
  }

  lemma TailBandAt(rs: seq<Box>, s: seq<Box>, i: int, e: int, p: int, q: int)
    requires Banded(rs) && Banded(s) && BandAt(s, i, e)
    requires forall k :: 0 <= k < |rs| ==> rs[k].y2 <= s[i].y2
    requires BandAt(rs + s[e..], p, q)
    ensures q <= |rs| ==> BandAt(rs, p, q)
    ensures q > |rs| ==> p >= |rs| && BandAt(s, p - |rs| + e, q - |rs| + e)
  {
    var c := rs + s[e..];
    TailBanded(rs, s, i, e);
    assert forall k :: 0 <= k < |rs| ==> c[k] == rs[k];
    assert q <= |rs| ==> forall k :: p <= k < q ==> rs[k] == c[k];
    if |rs| < |c| {
      BandInner(c, p, q, |rs|);
      assert c[|rs|] == s[e];
      assert forall k :: 0 <= k < |rs| ==> c[k] == rs[k] && NonEmpty(rs[k]);
    }
    if q > |rs| {
      assert p >= |rs|;
      assert forall k :: p <= k < q ==> c[k] == s[k - |rs| + e];
      var p', q' := p - |rs| + e, q - |rs| + e;
      assert forall k :: p' <= k < q' ==> s[k] == c[k + |rs| - e];
      assert q < |c| ==> c[q] == s[q'];
      assert p > |rs| ==> c[p-1] == s[p'-1];
    }
  }

  /** The rest of a canonical region can be appended as it is, once the band before it
      is in place. */
  lemma TailForm(rs: seq<Box>, prev: int, s: seq<Box>, i: int, e: int)
    requires Canonical(s) && BandAt(s, i, e) && Form(rs, prev, s[i].y2)
    requires BandAt(rs, prev, |rs|) && rs[prev].y2 == s[i].y2 && SameSpans(rs[prev..], s[i..e])
    ensures Canonical(rs + s[e..])
    ensures forall x, y :: Covers(rs + s[e..], x, y) <==> Covers(rs, x, y) || (s[i].y2 <= y && Covers(s, x, y))
  {
    var c := rs + s[e..];
    TailBanded(rs, s, i, e);
    forall p, q, f | BandAt(c, p, q) && BandAt(c, q, f)
      ensures !Mergeable(c, p, q, f)
    {
      TailBandAt(rs, s, i, e, p, q);
      TailBandAt(rs, s, i, e, q, f);
      TailMergeable(rs, prev, s, i, e, p, q, f);
    }
    forall x, y
      ensures Covers(c, x, y) <==> Covers(rs, x, y) || (s[i].y2 <= y && Covers(s, x, y))
    {
      TailCovers(rs, s, i, e, x, y);
    }
  }

  lemma TailMergeable(rs: seq<Box>, prev: int, s: seq<Box>, i: int, e: int, p: int, q: int, f: int)
    requires Coalesced(rs) && Coalesced(s) && BandAt(s, i, e)
    requires BandAt(rs, prev, |rs|) && rs[prev].y2 == s[i].y2 && SameSpans(rs[prev..], s[i..e])
    requires 0 <= p < q < f <= |rs| + |s| - e
    requires q <= |rs| ==> BandAt(rs, p, q)
    requires q > |rs| ==> p >= |rs| && BandAt(s, p - |rs| + e, q - |rs| + e)
    requires f <= |rs| ==> BandAt(rs, q, f)
    requires f > |rs| ==> q >= |rs| && BandAt(s, q - |rs| + e, f - |rs| + e)
    ensures !Mergeable(rs + s[e..], p, q, f)
  {
    var c := rs + s[e..];
    if f <= |rs| {
      SliceLeft(rs, s[e..], p, q);
      SliceLeft(rs, s[e..], q, f);
      assert !Mergeable(rs, p, q, f);
    } else if q > |rs| {
      var p', q', f' := p - |rs| + e, q - |rs| + e, f - |rs| + e;
      assert c[p..q] == s[p'..q'] && c[q..f] == s[q'..f'];
      assert !Mergeable(s, p', q', f');
    } else {
      BandStartUnique(rs, p, prev, |rs|);
      var f' := f - |rs| + e;
      assert c[p..q] == rs[prev..] && c[q..f] == s[e..f'];
      assert !Mergeable(s, i, e, f');
      SameSpansTrans(s[i..e], rs[prev..], s[e..f']);
    }
  }

  lemma SliceLeft(a: seq<Box>, b: seq<Box>, p: int, q: int)
    requires 0 <= p <= q <= |a|
    ensures (a + b)[p..q] == a[p..q]
  {
  }

  lemma SameSpansTrans(a: seq<Box>, b: seq<Box>, c: seq<Box>)
    requires SameSpans(b, a)
    ensures SameSpans(b, c) ==> SameSpans(a, c)
  {
  }

  lemma TailCovers(rs: seq<Box>, s: seq<Box>, i: int, e: int, x: int, y: int)
    requires Banded(s) && BandAt(s, i, e)
    ensures Covers(rs + s[e..], x, y) <==> Covers(rs, x, y) || (s[i].y2 <= y && Covers(s, x, y))
  {
    CoversConcat(rs, s[e..], x, y);
    CoversConcat(s[..e], s[e..], x, y);
    assert s == s[..e] + s[e..];
    if Covers(s[..e], x, y) {
      var k :| 0 <= k < e && InBox(s[..e][k], x, y);
      assert s[..e][k] == s[k];
      BandOrder(s, i, e, k);
    }
    if Covers(s[e..], x, y) {
      var k :| 0 <= k < |s| - e && InBox(s[e..][k], x, y);
      assert s[e..][k] == s[k + e];
      BandOrder(s, i, e, k + e);
    }
  }
}
