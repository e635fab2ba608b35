/** Colours as bit fields of a pixel: a shift and a greatest value for each of the three. */
module PixelFields {
  import opened Basics

  /** unit is 2 to the shift, and max + 1 the size of the field. */
  datatype Fields = Fields(unit: seq<int>, max: seq<int>)

  /** Field j lies above field i. */
  predicate Above(f: Fields, i: nat, j: nat)
    requires i < 3 && j < 3 && |f.unit| == 3 && |f.max| == 3 && f.unit[i] >= 1 && f.max[i] >= 0
  {
    Positive(f.unit[i], f.max[i] + 1);
    f.unit[j] % (f.unit[i] * (f.max[i] + 1)) == 0
  }

  lemma Positive(a: int, b: int)
    requires a >= 1 && b >= 1
    ensures a * b >= 1
  {
  }

  /** Three fields that do not overlap. */
  predicate IsFields(f: Fields) {
    && |f.unit| == 3 && |f.max| == 3
    && (forall c :: 0 <= c < 3 ==> f.unit[c] >= 1 && f.max[c] >= 1)
    && (Above(f, 0, 1) || Above(f, 1, 0)) && (Above(f, 0, 2) || Above(f, 2, 0)) && (Above(f, 1, 2) || Above(f, 2, 1))
  }

  /** (pix >> shift) & max. */
  function Field(pix: int, f: Fields, c: nat): int
    requires IsFields(f) && c < 3
  {
    pix / f.unit[c] % (f.max[c] + 1)
  }

  /** A greatest value of k ones masks a field out. */
  lemma FieldIsMasked(pix: int, f: Fields, c: nat, k: nat)
    requires IsFields(f) && c < 3 && f.max[c] == Pow2(k) - 1
    ensures Field(pix, f, c) == BitAnd(pix / f.unit[c], f.max[c])
  {
    LowBits(pix / f.unit[c], k);
  }

  function FieldsOf(pix: int, f: Fields): (s: seq<int>)
    requires IsFields(f)
    ensures |s| == 3
  {
    [Field(pix, f, 0), Field(pix, f, 1), Field(pix, f, 2)]
  }

  /** The or of three fields, each shifted to its place. */
  function Joined(d: seq<int>, f: Fields): int
    requires IsFields(f) && |d| == 3
  {
    d[0] * f.unit[0] + d[1] * f.unit[1] + d[2] * f.unit[2]
  }

  ghost predicate Fitting(d: seq<int>, f: Fields)
    requires IsFields(f)
  {
    |d| == 3 && forall c :: 0 <= c < 3 ==> 0 <= d[c] <= f.max[c]
  }

  /** What lies below unit u and in multiples of u * s above it does not disturb a field. */
  lemma Extract(low: int, d: int, u: int, s: int, t: int)
    requires 0 <= low < u && 0 <= d < s
    ensures (low + d * u + t * (u * s)) / u % s == d
  {
    var v := low + d * u + t * (u * s);
    assert t * (u * s) == (t * s) * u;
    assert v == (d + t * s) * u + low;
    QuotientUnique(v, u, d + t * s, low);
    QuotientUnique(d + t * s, s, t, d);
  }

  /** A field above contributes a multiple. */
  lemma FromAbove(d: int, u: int, m: int) returns (t: int)
    requires m >= 1 && u % m == 0
    ensures d * u == t * m
  {
    var k := u / m;
    assert u == k * m;
    Associate(d, k, m);
    t := d * k;
  }

  /** A field below stays below. */
  lemma FromBelow(d: int, max: int, low: int, u: int)
    requires 0 <= d <= max && low >= 1 && u >= 1 && low * (max + 1) >= 1 && u % (low * (max + 1)) == 0
    ensures 0 <= d * low <= u - low
  {
    var m := low * (max + 1);
    var k := u / m;
    assert u == k * m && k >= 1;
    MulMonotone(1, k, m);
    MulMonotone(d, max, low);
    MulMonotone(0, d, low);
    assert low * (max + 1) == max * low + low;
  }

  /** What field i contributes around field c: something below it, or multiples above. */
  lemma Part(d: seq<int>, f: Fields, c: nat, i: nat) returns (low: int, t: int)
    requires IsFields(f) && Fitting(d, f) && c < 3 && i < 3 && c != i
    ensures d[i] * f.unit[i] == low + t * (f.unit[c] * (f.max[c] + 1))
    ensures if Above(f, c, i) then low == 0 else Above(f, i, c) && t == 0 && 0 <= low <= f.unit[c] - f.unit[i]
  {
    Positive(f.unit[c], f.max[c] + 1);
    Positive(f.unit[i], f.max[i] + 1);
    low, t := 0, 0;
    if Above(f, c, i) {
      t := FromAbove(d[i], f.unit[i], f.unit[c] * (f.max[c] + 1));
    } else {
      FromBelow(d[i], f.max[i], f.unit[i], f.unit[c]);
      low := d[i] * f.unit[i];
    }
  }

  /** Two fields below a third do not reach it together. */
  lemma BothBelow(d: seq<int>, f: Fields, c: nat, i: nat, j: nat)
    requires IsFields(f) && Fitting(d, f) && c < 3 && i < 3 && j < 3 && i != j
    requires 0 <= d[i] * f.unit[i] <= f.unit[c] - f.unit[i] && 0 <= d[j] * f.unit[j] <= f.unit[c] - f.unit[j]
    ensures d[i] * f.unit[i] + d[j] * f.unit[j] < f.unit[c]
  {
    Positive(f.unit[i], f.max[i] + 1);
    Positive(f.unit[j], f.max[j] + 1);
    if Above(f, i, j) {
      FromBelow(d[i], f.max[i], f.unit[i], f.unit[j]);
    } else {
      FromBelow(d[j], f.max[j], f.unit[j], f.unit[i]);
    }
  }

  /** The other two fields around field c. */
  lemma Around(d: seq<int>, f: Fields, c: nat, i: nat, j: nat) returns (low: int, t: int)
    requires IsFields(f) && Fitting(d, f) && c < 3 && i < 3 && j < 3 && c != i && c != j && i != j
    ensures 0 <= low < f.unit[c]
    ensures d[i] * f.unit[i] + d[j] * f.unit[j] == low + t * (f.unit[c] * (f.max[c] + 1))
  {
    var li, ti := Part(d, f, c, i);
    var lj, tj := Part(d, f, c, j);
    if !Above(f, c, i) && !Above(f, c, j) {
      BothBelow(d, f, c, i, j);
    }
    hide Above;
    low, t := li + lj, ti + tj;
    Spread(ti, tj, f.unit[c] * (f.max[c] + 1));
  }

  lemma Spread(a: int, b: int, m: int)
    ensures (a + b) * m == a * m + b * m
  {
  }

  /** Every field is found again. */
  lemma FieldsRoundTrip(d: seq<int>, f: Fields)
    requires IsFields(f) && Fitting(d, f)
    ensures FieldsOf(Joined(d, f), f) == d
  {
    var l0, t0 := Around(d, f, 0, 1, 2);
    Extract(l0, d[0], f.unit[0], f.max[0] + 1, t0);
    var l1, t1 := Around(d, f, 1, 0, 2);
    Extract(l1, d[1], f.unit[1], f.max[1] + 1, t1);
    var l2, t2 := Around(d, f, 2, 0, 1);
    Extract(l2, d[2], f.unit[2], f.max[2] + 1, t2);
  }

  /** All fields lie within the first limit values. */
  predicate Within(f: Fields, limit: int)
    requires IsFields(f)
  {
    limit >= 1 && forall c :: 0 <= c < 3 ==>
      f.unit[c] * (f.max[c] + 1) >= 1 && limit % (f.unit[c] * (f.max[c] + 1)) == 0
  }

  lemma JoinedWithin(d: seq<int>, f: Fields, limit: int)
    requires IsFields(f) && Fitting(d, f) && Within(f, limit)
    ensures 0 <= Joined(d, f) < limit
  {
    FromBelow(d[0], f.max[0], f.unit[0], limit);
    FromBelow(d[1], f.max[1], f.unit[1], limit);
    FromBelow(d[2], f.max[2], f.unit[2], limit);
    Ordered(f, 0, 1);
    Ordered(f, 0, 2);
    Ordered(f, 1, 2);
    if f.unit[0] >= f.unit[1] && f.unit[0] >= f.unit[2] {
      TopField(d, f, limit, 0, 1, 2);
    } else if f.unit[1] >= f.unit[2] {
      TopField(d, f, limit, 1, 0, 2);
    } else {
      TopField(d, f, limit, 2, 0, 1);
    }
  }

  lemma TopField(d: seq<int>, f: Fields, limit: int, c: nat, i: nat, j: nat)
    requires IsFields(f) && Fitting(d, f) && c < 3 && i < 3 && j < 3 && c != i && c != j && i != j
    requires Above(f, i, c) && Above(f, j, c) && 0 <= d[c] * f.unit[c] <= limit - f.unit[c]
    ensures d[i] * f.unit[i] + d[j] * f.unit[j] + d[c] * f.unit[c] < limit
  {
    Positive(f.unit[i], f.max[i] + 1);
    Positive(f.unit[j], f.max[j] + 1);
    FromBelow(d[i], f.max[i], f.unit[i], f.unit[c]);
    FromBelow(d[j], f.max[j], f.unit[j], f.unit[c]);
    BothBelow(d, f, c, i, j);
  }

  /** The order of two fields is that of their units. */
  lemma Ordered(f: Fields, i: nat, j: nat)
    requires IsFields(f) && i < 3 && j < 3 && i != j
    ensures f.unit[i] < f.unit[j] ==> Above(f, i, j)
    ensures f.unit[j] <= f.unit[i] ==> Above(f, j, i)
  {
    if Above(f, i, j) {
      Higher(f, i, j);
    }
    if Above(f, j, i) {
      Higher(f, j, i);
    }
  }

  lemma Higher(f: Fields, i: nat, j: nat)
    requires IsFields(f) && i < 3 && j < 3 && Above(f, i, j)
    ensures f.unit[i] < f.unit[j]
  {
    Positive(f.unit[i], f.max[i] + 1);
    FromBelow(f.max[i], f.max[i], f.unit[i], f.unit[j]);
    MulMonotone(1, f.max[i], f.unit[i]);
  }
}
