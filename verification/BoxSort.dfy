/** The in-place quicksort of rectangles by top edge, then by left edge. */
module BoxSort {
  import opened RegionForm

  predicate Less(a: Box, b: Box) {
    a.y1 < b.y1 || (a.y1 == b.y1 && a.x1 < b.x1)
  }

  predicate Leq(a: Box, b: Box) {
    !Less(b, a)
  }

  ghost predicate Sorted(s: seq<Box>) {
    forall i, j :: 0 <= i < j < |s| ==> Leq(s[i], s[j])
  }

  ghost predicate AllLeq(s: seq<Box>, b: Box) {
    forall i :: 0 <= i < |s| ==> Leq(s[i], b)
  }

  ghost predicate AllGeq(s: seq<Box>, b: Box) {
    forall i :: 0 <= i < |s| ==> Leq(b, s[i])
  }

  /** Outside lo to hi nothing has changed; inside the boxes have been rearranged. */
  ghost predicate Rearranged(s: seq<Box>, t: seq<Box>, lo: int, hi: int) {
    && |t| == |s|
    && multiset(t) == multiset(s)
    && forall k :: 0 <= k < |s| && !(lo <= k < hi) ==> t[k] == s[k]
  }

  /** ExchangeRects. */
  method ExchangeRects(rects: array<Box>, a: int, b: int, ghost lo: int, ghost hi: int)
    requires 0 <= lo <= a < hi <= rects.Length && lo <= b < hi
    modifies rects
    ensures rects[a] == old(rects[b]) && rects[b] == old(rects[a])
    ensures forall k :: 0 <= k < rects.Length && k != a && k != b ==> rects[k] == old(rects[k])
    ensures Rearranged(old(rects[..]), rects[..], lo, hi)
  {
    var t := rects[a];
    rects[a] := rects[b];
    rects[b] := t;
    assert rects[..] == old(rects[..])[a := old(rects[b])][b := old(rects[a])];
  }

  lemma RangeRearranged(s: seq<Box>, t: seq<Box>, lo: int, hi: int)
    requires 0 <= lo <= hi <= |s| && Rearranged(s, t, lo, hi)
    ensures multiset(s[lo..hi]) == multiset(t[lo..hi])
  {
    var a, b, c, b' := s[..lo], s[lo..hi], s[hi..], t[lo..hi];
    assert s == a + b + c;
    assert t == a + b' + c;
    assert multiset(s) == multiset(a) + multiset(b) + multiset(c);
    assert multiset(t) == multiset(a) + multiset(b') + multiset(c);
    assert multiset(b) == multiset(s) - multiset(a) - multiset(c);
  }

  lemma RearrangedBounds(s: seq<Box>, t: seq<Box>, b: Box)
    requires multiset(s) == multiset(t)
    ensures AllLeq(s, b) ==> AllLeq(t, b)
    ensures AllGeq(s, b) ==> AllGeq(t, b)
  {
    forall i | 0 <= i < |t|
      ensures exists k :: 0 <= k < |s| && s[k] == t[i]
    {
      assert t[i] in multiset(t);
      assert t[i] in s;
    }
  }

  /** The partition loop on rects[lo..hi]: the element at lo ends up at j, with nothing
      greater before it and nothing smaller after it. */
  method Partition(rects: array<Box>, lo: int, hi: int) returns (j: int)
    requires 0 <= lo < hi <= rects.Length
    modifies rects
    ensures lo <= j < hi
    ensures Rearranged(old(rects[..]), rects[..], lo, hi)
    ensures AllLeq(rects[lo..j], rects[j]) && AllGeq(rects[j+1..hi], rects[j])
  {
    var p := rects[lo];
    var i := lo;
    j := hi;
    while true
      invariant lo <= i < j <= hi
      invariant rects[lo] == p
      invariant Rearranged(old(rects[..]), rects[..], lo, hi)
      invariant forall k :: lo < k <= i ==> Leq(rects[k], p)
      invariant forall k :: j <= k < hi ==> Leq(p, rects[k])
      decreases j - i
    {
      i := i + 1;
      while i != hi && Less(rects[i], p)
        invariant lo < i <= hi
        invariant forall k :: lo < k < i ==> Leq(rects[k], p)
      {
        i := i + 1;
      }
      j := j - 1;
      while Less(p, rects[j])
        invariant lo <= j < hi
        invariant forall k :: j < k < hi ==> Leq(p, rects[k])
        decreases j
      {
        j := j - 1;
      }
      if i >= j { break; }
      ExchangeRects(rects, i, j, lo, hi);
    }
    ExchangeRects(rects, lo, j, lo, hi);
  }

  lemma SortedJoin(s: seq<Box>, k: int)
    requires 0 <= k <= |s| && Sorted(s[..k]) && Sorted(s[k..])
    requires k < |s| ==> AllLeq(s[..k], s[k])
    ensures Sorted(s)
  {
    forall i, j | 0 <= i < j < |s|
      ensures Leq(s[i], s[j])
    {
      if j < k {
        assert Leq(s[..k][i], s[..k][j]);
      } else if i >= k {
        assert Leq(s[k..][i - k], s[k..][j - k]);
      } else {
        assert Leq(s[..k][i], s[k]);
        assert j == k || Leq(s[k..][0], s[k..][j - k]);
      }
    }
  }

  /** What the outer loop of the sort keeps: t[n..hi] is final. */
  ghost predicate SortInv(t: seq<Box>, lo: int, n: int, hi: int) {
    && 0 <= lo <= n <= hi <= |t|
    && Sorted(t[n..hi])
    && (n < hi ==> AllLeq(t[lo..n], t[n]))
  }

  lemma SortInvRearranged(s: seq<Box>, t: seq<Box>, lo: int, n: int, hi: int)
    requires SortInv(s, lo, n, hi) && Rearranged(s, t, lo, n)
    ensures SortInv(t, lo, n, hi)
  {
    assert t[n..hi] == s[n..hi];
    if n < hi {
      RangeRearranged(s, t, lo, n);
      RearrangedBounds(s[lo..n], t[lo..n], s[n]);
    }
  }

  lemma SortInvDone(t: seq<Box>, lo: int, n: int, hi: int)
    requires SortInv(t, lo, n, hi) && Sorted(t[lo..n])
    ensures Sorted(t[lo..hi])
  {
    var s := t[lo..hi];
    assert s[..n - lo] == t[lo..n] && s[n - lo..] == t[n..hi];
    SortedJoin(s, n - lo);
  }

  /** With the part right of the pivot sorted, the pivot joins the final part. */
  lemma PivotPlaced(t: seq<Box>, lo: int, j: int, n: int, hi: int)
    requires SortInv(t, lo, n, hi) && lo <= j < n
    requires Sorted(t[j+1..n]) && AllLeq(t[lo..j], t[j]) && AllGeq(t[j+1..n], t[j])
    ensures SortInv(t, lo, j, hi)
  {
    var s := t[j..n];
    forall x, y | 0 <= x < y < |s|
      ensures Leq(s[x], s[y])
    {
      assert s[y] == t[j+1..n][y-1];
      assert x == 0 || s[x] == t[j+1..n][x-1];
    }
    if n < hi {
      forall x | 0 <= x < |s|
        ensures Leq(s[x], t[n])
      {
        assert s[x] == t[lo..n][j - lo + x];
      }
    }
    SortInvDone(t, j, n, hi);
  }

  lemma PivotKept(s: seq<Box>, t: seq<Box>, lo: int, j: int, n: int)
    requires 0 <= lo <= j < n <= |s| && Rearranged(s, t, j + 1, n)
    requires AllLeq(s[lo..j], s[j]) && AllGeq(s[j+1..n], s[j])
    ensures AllLeq(t[lo..j], t[j]) && AllGeq(t[j+1..n], t[j])
  {
    assert t[lo..j] == s[lo..j];
    RangeRearranged(s, t, j + 1, n);
    RearrangedBounds(s[j+1..n], t[j+1..n], s[j]);
  }

  /** QuickSortRects on rects[lo..hi]: recursion on the right part, iteration on the left. */
  method QuickSortRects(rects: array<Box>, lo: int, hi: int)
    requires 0 <= lo < hi <= rects.Length
    modifies rects
    ensures Rearranged(old(rects[..]), rects[..], lo, hi)
    ensures Sorted(rects[lo..hi])
    decreases hi - lo, 1
  {
    var n := hi;
    ghost var was := rects[..];
    while true
      invariant lo < n <= hi
      invariant Rearranged(was, rects[..], lo, hi)
      invariant SortInv(rects[..], lo, n, hi)
      decreases n
    {
      ghost var before := rects[..];
      if n - lo == 2 {
        if Less(rects[lo+1], rects[lo]) {
          ExchangeRects(rects, lo, lo + 1, lo, n);
        }
        SortTurn(was, before, rects[..], lo, n, hi);
        SortInvDone(rects[..], lo, n, hi);
        assert rects[..][lo..hi] == rects[lo..hi];
        return;
      }
      var j := SplitAndSort(rects, lo, n);
      SortTurn(was, before, rects[..], lo, n, hi);
      PivotPlaced(rects[..], lo, j, n, hi);
      n := j;
      if n - lo <= 1 { break; }
    }
    SortInvDone(rects[..], lo, n, hi);
    assert rects[..][lo..hi] == rects[lo..hi];
  }

  lemma SortTurn(was: seq<Box>, before: seq<Box>, t: seq<Box>, lo: int, n: int, hi: int)
    requires 0 <= lo <= n <= hi <= |was| && Rearranged(was, before, lo, hi)
    requires SortInv(before, lo, n, hi) && Rearranged(before, t, lo, n)
    ensures Rearranged(was, t, lo, hi) && SortInv(t, lo, n, hi)
  {
    SortInvRearranged(before, t, lo, n, hi);
  }

  /** One turn of the sort: choose and place the partition element, sort what follows it. */
  method SplitAndSort(rects: array<Box>, lo: int, n: int) returns (j: int)
    requires 0 <= lo < n <= rects.Length
    modifies rects
    ensures lo <= j < n
    ensures Rearranged(old(rects[..]), rects[..], lo, n)
    ensures Sorted(rects[..][j+1..n]) && AllLeq(rects[..][lo..j], rects[..][j]) && AllGeq(rects[..][j+1..n], rects[..][j])
    decreases n - lo, 0
  {
    ExchangeRects(rects, lo, lo + (n - lo) / 2, lo, n);
    j := Partition(rects, lo, n);
    ghost var parted := rects[..];
    assert parted[lo..j] == rects[lo..j] && parted[j+1..n] == rects[j+1..n];
    if n - j - 1 > 1 {
      QuickSortRects(rects, j + 1, n);
      PivotKept(parted, rects[..], lo, j, n);
      assert rects[..][j+1..n] == rects[j+1..n];
    }
  }
}
