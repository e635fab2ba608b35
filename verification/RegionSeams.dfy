/** Two banded arrays laid end to end: which bands the whole has, and when bands that could
    be merged meet where the one ends and the other begins. */
module RegionSeams {
  import opened RegionForm

  /** The last band of u and the first of v touch and hold the same columns. */
  ghost predicate Seam(u: seq<Box>, v: seq<Box>) {
    exists o, e :: SeamAt(u, v, o, e)
  }

  ghost predicate SeamAt(u: seq<Box>, v: seq<Box>, o: int, e: int) {
    BandAt(u, o, |u|) && BandAt(v, 0, e) && u[o].y2 == v[0].y1 && SameSpans(u[o..], v[..e])
  }

  ghost predicate Merges(rs: seq<Box>, p: int, c: int, e: int) {
    BandAt(rs, p, c) && BandAt(rs, c, e) && Mergeable(rs, p, c, e)
  }

  /** No band crosses from u to v if they meet in different rows. */
  lemma BandsOfConcat(u: seq<Box>, v: seq<Box>, i: int, j: int)
    requires u != [] && v != [] && u[|u| - 1].y1 != v[0].y1
    ensures BandAt(u + v, i, j) <==> BandAt(u, i, j) || BandAt(v, i - |u|, j - |u|)
  {
    var c, n := u + v, |u|;
    if j <= n {
      BandInFirst(u, v, i, j);
    } else if i < n {
      assert c[n - 1] == u[n - 1] && c[n] == v[0];
    } else {
      BandInSecond(u, v, i - n, j - n);
    }
  }

  lemma BandInFirst(u: seq<Box>, v: seq<Box>, i: int, j: int)
    requires u != [] && v != [] && u[|u| - 1].y1 != v[0].y1 && j <= |u|
    ensures BandAt(u + v, i, j) <==> BandAt(u, i, j)
  {
    var c, n := u + v, |u|;
    assert c[n] == v[0];
    assert forall k :: 0 <= k < n ==> c[k] == u[k];
    if 0 <= i < j {
      assert (forall k :: i <= k < j ==> c[k].y1 == c[i].y1) <==> forall k :: i <= k < j ==> u[k].y1 == u[i].y1;
      assert j == n && BandAt(u, i, j) ==> u[n - 1].y1 == u[i].y1;
    }
  }

  lemma BandInSecond(u: seq<Box>, v: seq<Box>, i: int, j: int)
    requires u != [] && v != [] && u[|u| - 1].y1 != v[0].y1
    ensures 0 <= i ==> (BandAt(u + v, |u| + i, |u| + j) <==> BandAt(v, i, j))
  {
    var c, n := u + v, |u|;
    assert forall k :: 0 <= k < |v| ==> c[n + k] == v[k];
    assert forall k :: n <= k < |c| ==> c[k] == v[k - n];
    if 0 <= i && BandAt(c, n + i, n + j) {
      forall k | i <= k < j
        ensures v[k].y1 == v[i].y1
      {
        assert c[n + k].y1 == c[n + i].y1;
      }
      assert i > 0 ==> c[n + i - 1] == v[i - 1];
    }
  }

  lemma MergesConcat(u: seq<Box>, v: seq<Box>, p: int, q: int, e: int)
    requires u != [] && v != [] && u[|u| - 1].y1 != v[0].y1
    ensures Merges(u + v, p, q, e) <==>
      Merges(u, p, q, e) || Merges(v, p - |u|, q - |u|, e - |u|) || (q == |u| && SeamAt(u, v, p, e - |u|))
  {
    var c, n := u + v, |u|;
    BandsOfConcat(u, v, p, q);
    BandsOfConcat(u, v, q, e);
    if 0 <= p < q < e <= n {
      assert c[p..q] == u[p..q] && c[q..e] == u[q..e];
    } else if n <= p < q < e <= |c| {
      assert c[p..q] == v[p - n..q - n] && c[q..e] == v[q - n..e - n];
    } else if 0 <= p < q == n < e <= |c| {
      assert c[p..q] == u[p..] && c[q..e] == v[..e - n];
    }
  }

  /** Bands are left to merge in u, in v, or where they meet. */
  lemma CoalescedConcat(u: seq<Box>, v: seq<Box>)
    requires u != [] && v != [] && u[|u| - 1].y1 != v[0].y1
    ensures Coalesced(u + v) <==> Coalesced(u) && Coalesced(v) && !Seam(u, v)
  {
    var c, n := u + v, |u|;
    NoneMerge(u);
    NoneMerge(v);
    NoneMerge(c);
    hide Coalesced;
    hide Merges;
    hide SeamAt;
    if Coalesced(u) && Coalesced(v) && !Seam(u, v) {
      forall p, q, e
        ensures !Merges(c, p, q, e)
      {
        MergesConcat(u, v, p, q, e);
      }
    }
    if Coalesced(c) {
      forall p, q, e
        ensures !Merges(u, p, q, e) && !Merges(v, p, q, e)
      {
        MergesConcat(u, v, p, q, e);
        var p', q', e' := p + n, q + n, e + n;
        MergesConcat(u, v, p', q', e');
        assert p' - n == p && q' - n == q && e' - n == e;
      }
      forall o, e
        ensures !SeamAt(u, v, o, e)
      {
        var e' := n + e;
        MergesConcat(u, v, o, n, e');
        assert e' - n == e;
      }
      NoSeamAt(u, v);
    }
  }

  lemma NoSeamAt(u: seq<Box>, v: seq<Box>)
    requires forall o, e :: !SeamAt(u, v, o, e)
    ensures !Seam(u, v)
  {
  }

  lemma NoneMerge(rs: seq<Box>)
    ensures Coalesced(rs) <==> forall p, c, e :: !Merges(rs, p, c, e)
  {
    if forall p, c, e :: !Merges(rs, p, c, e) {
      forall p, c, e | BandAt(rs, p, c) && BandAt(rs, c, e)
        ensures !Mergeable(rs, p, c, e)
      {
        assert !Merges(rs, p, c, e);
      }
    }
  }

  // ---- A band that is completed ----

  lemma LastBand(a: seq<Box>) returns (p: int)
    requires Banded(a) && a != []
    ensures BandAt(a, p, |a|)
  {
    var e;
    p, e := BandOf(a, |a| - 1);
  }

  lemma FirstBand(b: seq<Box>) returns (q: int)
    requires Banded(b) && b != []
    ensures BandAt(b, 0, q)
  {
    var p;
    p, q := BandOf(b, 0);
  }

  lemma OneBand(m: seq<Box>)
    requires m != [] && forall k :: 0 <= k < |m| ==> m[k].y1 == m[0].y1
    ensures Coalesced(m) && BandAt(m, 0, |m|)
  {
  }

  /** The last band of a, completed by the first of b, can be merged neither with the band
      above it nor with the one below it. */
  ghost predicate FitsBetween(a: seq<Box>, b: seq<Box>) {
    forall p, q :: BandAt(a, p, |a|) && BandAt(b, 0, q) ==> FitsAt(a, b, p, q)
  }

  ghost predicate FitsAt(a: seq<Box>, b: seq<Box>, p: int, q: int)
    requires BandAt(a, p, |a|) && BandAt(b, 0, q)
  {
    var completed := a[p..] + b[..q];
    !Seam(a[..p], completed) && !Seam(completed, b[q..])
  }

  /** a[..p], the band that both share, and b[q..]. */
  lemma CompletedBand(a: seq<Box>, b: seq<Box>, p: int, q: int)
    requires BandAt(a, p, |a|) && BandAt(b, 0, q) && a[|a| - 1].y1 == b[0].y1
    ensures Coalesced(a + b) <==> Coalesced(a[..p]) && Coalesced(b[q..]) && FitsAt(a, b, p, q)
  {
    hide Seam;
    hide Coalesced;
    var u, m, v := a[..p], a[p..] + b[..q], b[q..];
    MiddleBand(a, b, p, q);
    assert a + b == (u + m) + v;
    NothingToMerge();
    if u == [] {
      assert u + m == m;
    } else {
      CoalescedConcat(u, m);
    }
    if v == [] {
      assert (u + m) + v == u + m;
    } else {
      CoalescedConcat(u + m, v);
      SeamOfLast(u, m, v);
    }
    NoSeam(u, m);
    NoSeam(m, v);
  }

  lemma MiddleBand(a: seq<Box>, b: seq<Box>, p: int, q: int)
    requires BandAt(a, p, |a|) && BandAt(b, 0, q) && a[|a| - 1].y1 == b[0].y1
    ensures var m := a[p..] + b[..q];
      && Coalesced(m) && BandAt(m, 0, |m|)
      && (p > 0 ==> a[..p][p - 1].y1 != m[0].y1) && (q < |b| ==> m[|m| - 1].y1 != b[q..][0].y1)
  {
    var m := a[p..] + b[..q];
    forall k | 0 <= k < |m|
      ensures m[k].y1 == m[0].y1
    {
      assert a[|a| - 1].y1 == a[p].y1;
      assert k < |a| - p ==> m[k] == a[p + k];
      assert k >= |a| - p ==> m[k] == b[k - (|a| - p)];
    }
    OneBand(m);
    assert m[|m| - 1] == b[q - 1];
  }

  lemma NothingToMerge()
    ensures Coalesced([])
  {
  }

  lemma NoSeam(u: seq<Box>, v: seq<Box>)
    ensures u == [] || v == [] ==> !Seam(u, v)
  {
  }

  /** Only the last band matters for what follows. */
  lemma SeamOfLast(u: seq<Box>, m: seq<Box>, v: seq<Box>)
    requires BandAt(m, 0, |m|) && (u != [] ==> u[|u| - 1].y1 != m[0].y1)
    ensures Seam(u + m, v) <==> Seam(m, v)
  {
    if u == [] {
      assert u + m == m;
    } else {
      var c := u + m;
      assert c[|u|..] == m;
      BandsOfConcat(u, m, |u|, |c|);
      assert m[0..] == m;
      forall o, e
        ensures SeamAt(c, v, o, e) ==> SeamAt(m, v, 0, e)
        ensures SeamAt(m, v, o, e) ==> SeamAt(c, v, |u|, e)
      {
        BandsOfConcat(u, m, o, |c|);
      }
    }
  }

  // ---- Appending to a canonical array ----

  /** A caller's test whether appending b keeps the form: there is a gap, or the completed
      band fits. */
  ghost predicate StaysCoalesced(a: seq<Box>, b: seq<Box>)
    requires a != [] && b != []
  {
    b[0].y1 > a[|a| - 1].y2 || FitsBetween(a, b)
  }

  /** Where canonical arrays meet, in the same rows or with a gap, the whole is canonical
      exactly when the test says so. */
  lemma AppendCanonical(a: seq<Box>, b: seq<Box>)
    requires Canonical(a) && Canonical(b) && a != [] && b != [] && Banded(a + b)
    requires b[0].y1 == a[|a| - 1].y1 || b[0].y1 > a[|a| - 1].y2
    ensures Canonical(a + b) <==> StaysCoalesced(a, b)
  {
    hide Coalesced;
    var p := LastBand(a);
    var q := FirstBand(b);
    if b[0].y1 == a[|a| - 1].y1 {
      CompletedBand(a, b, p, q);
      PartsCoalesced(a, p);
      PartsCoalesced(b, q);
      OnlyBands(a, b, p, q);
      assert NonEmpty(a[|a| - 1]);
    } else {
      assert NonEmpty(a[|a| - 1]);
      CoalescedConcat(a, b);
      GapIsNoSeam(a, b);
    }
  }

  lemma GapIsNoSeam(a: seq<Box>, b: seq<Box>)
    requires Banded(a) && a != [] && b != [] && b[0].y1 > a[|a| - 1].y2
    ensures !Seam(a, b)
  {
    forall o, e
      ensures !SeamAt(a, b, o, e)
    {
      if BandAt(a, o, |a|) {
        BoxOrder(a, o, |a| - 1);
      }
    }
  }

  lemma PartsCoalesced(a: seq<Box>, p: int)
    requires Canonical(a) && 0 <= p <= |a| && (0 < p < |a| ==> a[p - 1].y1 != a[p].y1)
    ensures Coalesced(a[..p]) && Coalesced(a[p..])
  {
    assert a == a[..p] + a[p..];
    if 0 < p < |a| {
      CoalescedConcat(a[..p], a[p..]);
    } else {
      NothingToMerge();
      assert a[..|a|] == a && a[0..] == a;
    }
  }

  lemma SameStart(a: seq<Box>, p: int, p': int)
    requires BandAt(a, p, |a|) && BandAt(a, p', |a|)
    ensures p == p'
  {
  }

  lemma OnlyBands(a: seq<Box>, b: seq<Box>, p: int, q: int)
    requires BandAt(a, p, |a|) && BandAt(b, 0, q)
    ensures FitsBetween(a, b) <==> FitsAt(a, b, p, q)
  {
    hide FitsAt;
    forall p', q' | BandAt(a, p', |a|) && BandAt(b, 0, q')
      ensures p' == p && q' == q
    {
      SameStart(a, p, p');
    }
  }
}
