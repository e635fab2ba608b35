/** How many different colours a rectangle of the Tight encoder has, and which they are. */
module TightFill {
  import opened Basics
  import opened TightPalette

  ghost function ColourSet(s: seq<int>): set<int> {
    set k | 0 <= k < |s| :: s[k]
  }

  function Occurrences(s: seq<int>, c: int): nat {
    if s == [] then 0 else Occurrences(s[..|s| - 1], c) + if s[|s| - 1] == c then 1 else 0
  }

  /** The colours are exactly those of s, each once. */
  ghost predicate ColoursOf(colours: seq<int>, s: seq<int>) {
    && Distinct(colours)
    && (forall k :: 0 <= k < |s| ==> s[k] in colours)
    && (forall k :: 0 <= k < |colours| ==> colours[k] in s)
  }

  lemma {:induction false} DistinctSize(colours: seq<int>)
    requires Distinct(colours)
    ensures |ColourSet(colours)| == |colours|
    decreases |colours|
  {
    if colours == [] {
      assert ColourSet(colours) == {};
    } else {
      var front, last := colours[..|colours| - 1], colours[|colours| - 1];
      DistinctSize(front);
      assert last !in ColourSet(front);
      assert ColourSet(colours) == ColourSet(front) + {last} by {
        assert colours == front + [last];
        forall c | c in ColourSet(front) + {last}
          ensures c in ColourSet(colours)
        {
          if c == last {
            assert colours[|front|] == c;
          } else {
            var k :| 0 <= k < |front| && front[k] == c;
            assert colours[k] == c;
          }
        }
      }
    }
  }

  lemma HowMany(colours: seq<int>, s: seq<int>)
    requires ColoursOf(colours, s)
    ensures |ColourSet(s)| == |colours|
  {
    DistinctSize(colours);
    forall c
      ensures c in ColourSet(s) <==> c in ColourSet(colours)
    {
      if c in s {
        assert c in colours;
      }
      if c in colours {
        assert c in s;
      }
    }
    assert ColourSet(s) == ColourSet(colours);
  }

  /** A colour more than those of a part of s. */
  lemma OneMoreColour(colours: seq<int>, part: seq<int>, s: seq<int>, c: int)
    requires ColoursOf(colours, part) && part <= s && c in s && c !in colours
    ensures |ColourSet(s)| >= |colours| + 1
  {
    var all := colours + [c];
    DistinctSnoc(colours, c);
    DistinctSize(all);
    forall x | x in ColourSet(all)
      ensures x in ColourSet(s)
    {
      var k :| 0 <= k < |all| && all[k] == x;
      if k < |colours| {
        assert colours[k] in part;
        var j :| 0 <= j < |part| && part[j] == x;
        assert s[j] == x;
      }
    }
    CardinalitySubset(ColourSet(all), ColourSet(s));
  }

  /** One more run. */
  lemma ColoursOfRun(colours: seq<int>, s: seq<int>, c: int, n: nat, colours': seq<int>)
    requires ColoursOf(colours, s) && n > 0
    requires if c in colours then colours' == colours else colours' == colours + [c]
    ensures ColoursOf(colours', s + seq(n, _ => c))
  {
    var s' := s + seq(n, _ => c);
    if c !in colours {
      DistinctSnoc(colours, c);
    }
    assert s'[|s|] == c;
    forall k | 0 <= k < |s'|
      ensures s'[k] in colours'
    {
      if k < |s| {
        assert s'[k] == s[k] && s[k] in colours;
      } else if c !in colours {
        assert colours'[|colours|] == c;
      }
    }
    forall k | 0 <= k < |colours'|
      ensures colours'[k] in s'
    {
      if k < |colours| {
        assert colours'[k] == colours[k] && colours[k] in s;
      }
    }
  }

  // ---- Up to two colours ----

  /** The pixels before i are of colours c0 and c1, and counted; the count of c1 is one
      short, as the source starts it at 0. */
  ghost predicate TwoColours(s: seq<int>, i: nat, c0: int, c1: int, n0: int, n1: int) {
    && i <= |s| && c0 != c1 && n0 >= 1 && n1 >= 0
    && ColoursOf([c0, c1], s[..i]) && n0 == Occurrences(s[..i], c0) && n1 + 1 == Occurrences(s[..i], c1)
  }

  lemma {:induction false} AllOne(s: seq<int>, c: int, d: int)
    requires forall k :: 0 <= k < |s| ==> s[k] == c
    ensures Occurrences(s, d) == if c == d then |s| else 0
    decreases |s|
  {
    if s != [] {
      AllOne(s[..|s| - 1], c, d);
    }
  }

  lemma TwoStart(s: seq<int>, i: nat, c0: int)
    requires 1 <= i < |s| && (forall k :: 0 <= k < i ==> s[k] == c0) && s[i] != c0
    ensures TwoColours(s, i + 1, c0, s[i], i, 0)
  {
    AllOne(s[..i], c0, c0);
    AllOne(s[..i], c0, s[i]);
    assert s[..i + 1][..i] == s[..i];
    assert s[..i + 1][0] == c0 && s[..i + 1][i] == s[i];
  }

  lemma TwoStep(s: seq<int>, i: nat, c0: int, c1: int, n0: int, n1: int)
    requires TwoColours(s, i, c0, c1, n0, n1) && i < |s|
    ensures s[i] == c0 ==> TwoColours(s, i + 1, c0, c1, n0 + 1, n1)
    ensures s[i] == c1 ==> TwoColours(s, i + 1, c0, c1, n0, n1 + 1)
  {
    var a, b := s[..i], s[..i + 1];
    assert b[..i] == a;
    if s[i] == c0 || s[i] == c1 {
      assert seq(1, _ => s[i]) == [s[i]] && a + [s[i]] == b;
      assert s[i] in [c0, c1];
      ColoursOfRun([c0, c1], a, s[i], 1, [c0, c1]);
    }
  }

  /** The count that FillPalette8, 16 and 32 find: exact while it is allowed, else 0. */
  ghost function NumColours(s: seq<int>, maxColors: int, limit: int): int {
    var d := |ColourSet(s)|;
    if d == 1 || (d <= maxColors && d <= limit) then d else 0
  }

  /** The two colours of a rectangle that has no more: the background is at least as
      frequent as the foreground. */
  ghost predicate Mono(s: seq<int>, bg: int, fg: int) {
    ColoursOf([bg, fg], s) && Occurrences(s, bg) >= Occurrences(s, fg)
  }

  /** The part that all three share. Either the count is known, or a third colour has been
      met at i. */
  method ScanTwo(data: array<int>, count: nat, maxColors: int)
    returns (known: bool, num: int, bg: int, fg: int, i: nat, c0: int, c1: int, n0: int, n1: int)
    requires 0 < count <= data.Length
    ensures known ==> forall limit :: limit >= 2 ==> num == NumColours(data[..count], maxColors, limit)
    ensures known && num == 2 ==> Mono(data[..count], bg, fg)
    ensures known ==> 0 <= num <= 2
    ensures !known ==> maxColors >= 2 && i < count && TwoColours(data[..count], i, c0, c1, n0, n1)
    ensures !known ==> data[i] != c0 && data[i] != c1
  {
    hide TwoColours;
    hide ColourSet;
    ghost var s := data[..count];
    known, num, bg, fg, n0, n1, c1 := true, 0, 0, 0, 0, 0, 0;
    c0 := data[0];
    i := 1;
    while i < count && data[i] == c0
      invariant 1 <= i <= count && forall k :: 0 <= k < i ==> data[k] == c0
    {
      i := i + 1;
    }
    if i == count {
      OneColour(s, c0);
      num := 1;
      return;
    }
    assert s[i] == data[i] && forall k :: 0 <= k < i ==> s[k] == c0;
    AtLeastTwo(s, c0, i);
    if maxColors < 2 { return; }
    n0, c1, n1 := i, data[i], 0;
    TwoStart(s, i, c0);
    i := i + 1;
    while i < count
      invariant i <= count && TwoColours(s, i, c0, c1, n0, n1)
    {
      TwoStep(s, i, c0, c1, n0, n1);
      if data[i] == c0 {
        n0 := n0 + 1;
      } else if data[i] == c1 {
        n1 := n1 + 1;
      } else {
        break;
      }
      i := i + 1;
    }
    if i < count { return false, 0, 0, 0, i, c0, c1, n0, n1; }
    TwoDone(s, c0, c1, n0, n1);
    if n0 > n1 {
      bg, fg := c0, c1;
    } else {
      bg, fg := c1, c0;
    }
    num := 2;
  }

  lemma OneColour(s: seq<int>, c: int)
    requires |s| > 0 && forall k :: 0 <= k < |s| ==> s[k] == c
    ensures |ColourSet(s)| == 1
  {
    assert s[0] == c;
    assert ColoursOf([c], s);
    HowMany([c], s);
  }

  lemma AtLeastTwo(s: seq<int>, c0: int, i: nat)
    requires 0 < i < |s| && s[0] == c0 && s[i] != c0
    ensures |ColourSet(s)| >= 2
  {
    assert s[..1] == [c0];
    assert ColoursOf([c0], s[..1]) by {
      assert s[..1][0] == c0;
    }
    OneMoreColour([c0], s[..1], s, s[i]);
  }

  lemma TwoDone(s: seq<int>, c0: int, c1: int, n0: int, n1: int)
    requires TwoColours(s, |s|, c0, c1, n0, n1)
    ensures |ColourSet(s)| == 2
    ensures if n0 > n1 then Mono(s, c0, c1) else Mono(s, c1, c0)
  {
    assert s[..|s|] == s;
    HowMany([c0, c1], s);
    assert ColoursOf([c1, c0], s) by {
      assert forall k :: 0 <= k < |s| ==> s[k] in [c0, c1];
      assert [c0, c1][0] in s && [c0, c1][1] in s;
    }
  }

  /** FillPalette8: no palette beyond two colours. */
  method FillPalette8(data: array<int>, count: nat, maxColors: int) returns (num: int, bg: int, fg: int)
    requires 0 < count <= data.Length
    ensures num == NumColours(data[..count], maxColors, 2)
    ensures num == 2 ==> Mono(data[..count], bg, fg)
  {
    var known, i, c0, c1, n0, n1;
    known, num, bg, fg, i, c0, c1, n0, n1 := ScanTwo(data, count, maxColors);
    if !known {
      OneMoreColour([c0, c1], data[..count][..i], data[..count], data[i]);
      num := 0;
    }
  }

  /** When a third colour is met. */
  lemma TwoFacts(s: seq<int>, i: nat, c0: int, c1: int, n0: int, n1: int)
    requires TwoColours(s, i, c0, c1, n0, n1) && i < |s| && s[i] != c0 && s[i] != c1
    ensures c0 != c1 && n0 >= 0 && n1 >= 0 && ColoursOf([c0, c1], s[..i]) && c0 in s && c1 in s
    ensures |ColourSet(s)| >= 3
  {
    OneMoreColour([c0, c1], s[..i], s, s[i]);
    assert [c0, c1][0] in s[..i] && [c0, c1][1] in s[..i];
  }

  /** A run goes into the palette; 0 when the palette is full, which is when there are more
      colours than it may have. */
  method InsertRun(palette: Palette, ghost s: seq<int>, ghost start: nat, ghost i: nat, ci: int, ni: int) returns (num: int)
    requires palette.Valid() && 2 <= palette.numColors <= palette.maxColors && palette.numColors <= 256
    requires start < i <= |s| && ni == i - start && (forall k :: start <= k < i ==> s[k] == ci) && IsPixel(ci, palette.bpp)
    requires ColoursOf(palette.Colours(), s[..start])
    modifies palette, palette.node, palette.numPixels, palette.hash, palette.next, palette.idx, palette.rgb
    ensures num == 0 ==> NumColours(s, palette.maxColors, 256) == 0
    ensures num != 0 ==> palette.Valid() && num == palette.numColors && 2 <= num <= palette.maxColors && num <= 256
    ensures num != 0 ==> ColoursOf(palette.Colours(), s[..i])
  {
    hide Order;
    hide Chains;
    hide Distinct;
    hide ColoursOf;
    hide ColourSet;
    ghost var c := palette.Colours();
    assert s[start] == ci;
    if ci !in c {
      OneMoreColour(c, s[..start], s, ci);
    }
    num := palette.Insert(ci, ni);
    if num != 0 {
      ColoursOfRun(c, s[..start], ci, i - start, palette.Colours());
      assert s[..start] + seq(i - start, _ => ci) == s[..i];
    }
  }

  /** FillPalette16 and FillPalette32. */
  method FillPalette(data: array<int>, count: nat, palette: Palette) returns (num: int, bg: int, fg: int)
    requires 0 < count <= data.Length && palette.Separate()
    requires data != palette.node && data != palette.numPixels && data != palette.hash
    requires data != palette.next && data != palette.idx && data != palette.rgb
    requires forall k :: 0 <= k < count ==> IsPixel(data[k], palette.bpp)
    modifies palette, palette.node, palette.numPixels, palette.hash, palette.next, palette.idx, palette.rgb
    ensures num == NumColours(data[..count], palette.maxColors, 256)
    ensures num == 2 ==> Mono(data[..count], bg, fg)
    ensures num > 2 ==> palette.Valid() && palette.numColors == num && ColoursOf(palette.Colours(), data[..count])
  {
    hide Order;
    hide Chains;
    hide Distinct;
    hide ColoursOf;
    hide ColourSet;
    hide TwoColours;
    hide Mono;
    var known, i, c0, c1, n0, n1;
    known, num, bg, fg, i, c0, c1, n0, n1 := ScanTwo(data, count, palette.maxColors);
    if known { return; }
    TwoFacts(data[..count], i, c0, c1, n0, n1);
    palette.Reset();
    var r := palette.Insert(c0, n0);
    r := palette.Insert(c1, n1);
    assert palette.Colours() == [c0, c1];
    num := FillRuns(data, count, palette, i);
  }

  /** The loop over the runs from i on, where a third colour begins. */
  method FillRuns(data: array<int>, count: nat, palette: Palette, from: nat) returns (num: int)
    requires from < count <= data.Length && palette.Valid()
    requires data != palette.node && data != palette.numPixels && data != palette.hash
    requires data != palette.next && data != palette.idx && data != palette.rgb
    requires forall k :: 0 <= k < count ==> IsPixel(data[k], palette.bpp)
    requires 2 == palette.numColors <= palette.maxColors
    requires ColoursOf(palette.Colours(), data[..count][..from]) && |ColourSet(data[..count])| >= 3
    modifies palette, palette.node, palette.numPixels, palette.hash, palette.next, palette.idx, palette.rgb
    ensures num == NumColours(data[..count], palette.maxColors, 256) && num != 2
    ensures num > 2 ==> palette.Valid() && palette.numColors == num && ColoursOf(palette.Colours(), data[..count])
  {
    hide Order;
    hide Chains;
    hide Distinct;
    hide ColoursOf;
    hide ColourSet;
    ghost var s := data[..count];
    var i := from;
    var ci, ni := data[i], 1;
    ghost var start := i;  // the run that has not been inserted yet
    i := i + 1;
    while i < count
      invariant start < i <= count && ni == i - start && palette.Valid()
      invariant 2 <= palette.numColors <= palette.maxColors && palette.numColors <= 256
      invariant ColoursOf(palette.Colours(), s[..start]) && s == data[..count]
      invariant ci == s[start] && forall k :: start <= k < i ==> s[k] == ci
    {
      assert data[i] == s[i];
      if data[i] == ci {
        ni := ni + 1;
      } else {
        num := InsertRun(palette, s, start, i, ci, ni);
        if num == 0 { return; }
        ci := data[i];
        ni, start := 1, i;
      }
      i := i + 1;
    }
    assert ci == data[start];
    num := InsertRun(palette, s, start, i, ci, ni);
    if num != 0 {
      assert s[..count] == s;
      HowMany(palette.Colours(), s);
    }
  }
}
