/** testColours of the Hextile encoder: one colour, two colours or more, and which of them
    to take as the background. */
module TileColours {
  import opened Images
  import opened Subrects

  ghost predicate Occurs(img: Image, w: nat, h: nat, c: int)
    requires IsImage(img, w, h)
  {
    exists j, i :: 0 <= j < h && 0 <= i < w && img[j][i] == c
  }

  /** No colours but a and b. */
  ghost predicate Only(img: Image, w: nat, h: nat, a: int, b: int)
    requires IsImage(img, w, h)
  {
    forall j, i :: 0 <= j < h && 0 <= i < w ==> img[j][i] == a || img[j][i] == b
  }

  /** What the test tells about a tile. In a tile of two colours the background is the
      one that at least half of the pixels have. */
  ghost predicate Tested(img: Image, w: nat, h: nat, mono: bool, solid: bool, bg: int, fg: int)
    requires IsImage(img, w, h)
  {
    && Occurs(img, w, h, bg)
    && (solid <==> Only(img, w, h, bg, bg))
    && (mono <==> exists c :: Only(img, w, h, bg, c))
    && (mono && !solid ==>
          && bg != fg && Occurs(img, w, h, fg) && Only(img, w, h, bg, fg)
          && 2 * |Foreground(img, w, h, bg)| <= w * h)
  }

  /** The pixels of colour c before (i, j) in reading order. */
  ghost function Seen(img: Image, w: nat, h: nat, j: int, i: int, c: int): set<(int, int)>
    requires IsImage(img, w, h)
  {
    set x, y | 0 <= x < w && 0 <= y < h && (y < j || (y == j && x < i)) && img[y][x] == c :: (x, y)
  }

  lemma SeenStep(img: Image, w: nat, h: nat, j: int, i: int, c: int)
    requires IsImage(img, w, h) && 0 <= j < h && 0 <= i < w
    ensures |Seen(img, w, h, j, i + 1, c)| == |Seen(img, w, h, j, i, c)| + if img[j][i] == c then 1 else 0
  {
    var a, b := Seen(img, w, h, j, i, c), Seen(img, w, h, j, i + 1, c);
    assert (i, j) !in a;
    if img[j][i] == c {
      assert b == a + {(i, j)};
    } else {
      assert b == a;
    }
  }

  /** The counts after the pixels before (i, j). */
  ghost predicate Counted(img: Image, w: nat, h: nat, j: int, i: int, solid: bool, colour1: int, colour2: int, n1: int, n2: int)
    requires IsImage(img, w, h)
  {
    && n1 + n2 == j * w + i && n2 >= 0 && (solid <==> n2 == 0)
    && (n1 == 0 ==> j == 0 && i == 0 && n2 == 0)
    && n1 == |Seen(img, w, h, j, i, colour1)|
    && (n1 > 0 ==> Occurs(img, w, h, colour1))
    && (n2 > 0 ==> colour1 != colour2 && Occurs(img, w, h, colour2) && n2 == |Seen(img, w, h, j, i, colour2)|)
    && forall y, x :: 0 <= x < w && 0 <= y < h && (y < j || (y == j && x < i)) ==>
         img[y][x] == colour1 || (n2 > 0 && img[y][x] == colour2)
  }

  lemma CountedRow(img: Image, w: nat, h: nat, j: int, solid: bool, colour1: int, colour2: int, n1: int, n2: int)
    requires IsImage(img, w, h) && 0 <= j < h && 0 < w
    requires Counted(img, w, h, j, w, solid, colour1, colour2, n1, n2)
    ensures Counted(img, w, h, j + 1, 0, solid, colour1, colour2, n1, n2)
  {
    assert Seen(img, w, h, j, w, colour1) == Seen(img, w, h, j + 1, 0, colour1);
    assert Seen(img, w, h, j, w, colour2) == Seen(img, w, h, j + 1, 0, colour2);
  }

  /** A colour that no pixel so far had. */
  lemma SeenNone(img: Image, w: nat, h: nat, j: int, i: int, c: int)
    requires IsImage(img, w, h)
    requires forall y, x :: 0 <= x < w && 0 <= y < h && (y < j || (y == j && x < i)) ==> img[y][x] != c
    ensures Seen(img, w, h, j, i, c) == {}
  {
  }

  lemma CountedDone(img: Image, w: nat, h: nat, solid: bool, colour1: int, colour2: int, n1: int, n2: int)
    requires IsImage(img, w, h) && 0 < w && 0 < h
    requires Counted(img, w, h, h, 0, solid, colour1, colour2, n1, n2)
    ensures var bg, fg := if n1 > n2 then colour1 else colour2, if n1 > n2 then colour2 else colour1;
      Tested(img, w, h, true, solid, bg, fg)
  {
    assert n1 > 0 by { assert h * w >= 1; }
    var bg, fg := if n1 > n2 then colour1 else colour2, if n1 > n2 then colour2 else colour1;
    if solid {
      assert Only(img, w, h, bg, bg);
    } else {
      assert Foreground(img, w, h, bg) == Seen(img, w, h, h, 0, fg);
      assert Only(img, w, h, bg, fg);
      assert 2 * |Foreground(img, w, h, bg)| <= n1 + n2;
    }
  }

  lemma ThreeColours(img: Image, w: nat, h: nat, colour1: int, colour2: int, colour3: int, bg: int)
    requires IsImage(img, w, h) && (bg == colour1 || bg == colour2)
    requires colour1 != colour2 && colour1 != colour3 && colour2 != colour3
    requires Occurs(img, w, h, colour1) && Occurs(img, w, h, colour2) && Occurs(img, w, h, colour3)
    ensures forall fg :: Tested(img, w, h, false, false, bg, fg)
  {
    forall c
      ensures !Only(img, w, h, bg, c)
    {
      assert Only(img, w, h, bg, c) ==> (colour1 == bg || colour1 == c);
      assert Only(img, w, h, bg, c) ==> (colour2 == bg || colour2 == c);
      assert Only(img, w, h, bg, c) ==> (colour3 == bg || colour3 == c);
    }
  }

  /** One more pixel, which is not a third colour. */
  lemma CountedStep(img: Image, w: nat, h: nat, j: int, i: int, solid: bool, colour1: int, colour2: int, n1: int, n2: int,
                    colour1': int, colour2': int)
    requires IsImage(img, w, h) && 0 <= j < h && 0 <= i < w
    requires Counted(img, w, h, j, i, solid, colour1, colour2, n1, n2)
    requires colour1' == if n1 == 0 then img[j][i] else colour1
    requires colour2' == if img[j][i] != colour1' && n2 == 0 then img[j][i] else colour2
    ensures n2 > 0 ==> !solid
    ensures img[j][i] == colour1' ==> Counted(img, w, h, j, i + 1, solid, colour1', colour2', n1 + 1, n2)
    ensures img[j][i] != colour1' && img[j][i] == colour2' ==>
      Counted(img, w, h, j, i + 1, false, colour1', colour2', n1, n2 + 1)
    ensures img[j][i] != colour1' && img[j][i] != colour2' ==>
      colour1' != colour2' && Occurs(img, w, h, colour1') && Occurs(img, w, h, colour2') && Occurs(img, w, h, img[j][i])
  {
    if n1 == 0 {
      SeenNone(img, w, h, j, i, colour1');
    }
    if n2 == 0 && img[j][i] != colour1' {
      SeenNone(img, w, h, j, i, colour2');
    }
    SeenStep(img, w, h, j, i, colour1');
    SeenStep(img, w, h, j, i, colour2');
  }

  method TestColours(data: array2<int>) returns (mono: bool, solid: bool, bg: int, fg: int)
    requires data.Length0 > 0 && data.Length1 > 0
    ensures Tested(Picture(data), data.Length1, data.Length0, mono, solid, bg, fg)
  {
    hide Counted;
    ghost var img := Picture(data);
    var w, h := data.Length1, data.Length0;
    var colour1, colour2, n1, n2 := 0, 0, 0, 0;
    mono, solid := true, true;
    ghost var third := 0;
    CountedStart(img, w, h);
    var j := 0;
    label pixels:
    while j < h
      invariant 0 <= j <= h && mono
      invariant Counted(img, w, h, j, 0, solid, colour1, colour2, n1, n2)
    {
      var i := 0;
      while i < w
        invariant 0 <= i <= w && mono
        invariant Counted(img, w, h, j, i, solid, colour1, colour2, n1, n2)
      {
        ghost var c1, c2, was := colour1, colour2, solid;
        if n1 == 0 { colour1 := data[j, i]; }
        if data[j, i] != colour1 && n2 == 0 {
          solid := false;
          colour2 := data[j, i];
        }
        CountedStep(img, w, h, j, i, was, c1, c2, n1, n2, colour1, colour2);
        if data[j, i] == colour1 {
          n1 := n1 + 1;
        } else if data[j, i] == colour2 {
          n2 := n2 + 1;
        } else {
          mono := false;
          third := data[j, i];
          break pixels;
        }
        i := i + 1;
      }
      CountedRow(img, w, h, j, solid, colour1, colour2, n1, n2);
      j := j + 1;
    }
    if n1 > n2 {
      bg, fg := colour1, colour2;
    } else {
      bg, fg := colour2, colour1;
    }
    if mono {
      CountedDone(img, w, h, solid, colour1, colour2, n1, n2);
    } else {
      ThreeColours(img, w, h, colour1, colour2, third, bg);
    }
  }

  lemma CountedStart(img: Image, w: nat, h: nat)
    requires IsImage(img, w, h)
    ensures Counted(img, w, h, 0, 0, true, 0, 0, 0, 0)
  {
    SeenNone(img, w, h, 0, 0, 0);
  }
}
