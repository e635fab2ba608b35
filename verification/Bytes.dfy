/** Bytes on the wire, and the values written as bytes. */
module Bytes {
  datatype Option<+T> = None | Some(value: T)

  type Byte = x: int | 0 <= x < 256 witness 0

  lemma Parts(a: seq<Byte>, b: seq<Byte>)
    ensures (a + b)[..|a|] == a && (a + b)[|a|..] == b
  {
  }

  lemma Regroup(a: seq<Byte>, b: seq<Byte>, c: seq<Byte>)
    ensures (a + b) + c == a + (b + c)
  {
  }

  /** How many values n bytes can hold. */
  function Range(n: nat): (r: int)
    ensures r >= 1
  {
    if n == 0 then 1 else 256 * Range(n - 1)
  }

  /** The n bytes of a pixel in memory order, low byte first. */
  function PixelBytes(v: int, n: nat): (s: seq<Byte>)
    ensures |s| == n
    decreases n
  {
    if n == 0 then [] else [v % 256] + PixelBytes(v / 256, n - 1)
  }

  function PixelOf(s: seq<Byte>): int {
    if s == [] then 0 else s[0] as int + 256 * PixelOf(s[1..])
  }

  lemma {:induction false} PixelRoundTrip(v: int, n: nat)
    requires 0 <= v < Range(n)
    ensures PixelOf(PixelBytes(v, n)) == v
    decreases n
  {
    if n > 0 {
      PixelRoundTrip(v / 256, n - 1);
      assert PixelBytes(v, n)[1..] == PixelBytes(v / 256, n - 1);
    }
  }

  lemma {:induction false} PixelOfRange(s: seq<Byte>)
    ensures 0 <= PixelOf(s) < Range(|s|)
    decreases |s|
  {
    if s != [] {
      PixelOfRange(s[1..]);
    }
  }

  lemma {:induction false} BytesRoundTrip(s: seq<Byte>)
    ensures PixelBytes(PixelOf(s), |s|) == s
    decreases |s|
  {
    if s != [] {
      BytesRoundTrip(s[1..]);
      var v := PixelOf(s);
      assert v % 256 == s[0] && v / 256 == PixelOf(s[1..]);
      assert [s[0]] + s[1..] == s;
    }
  }

  function Reversed(s: seq<Byte>): (r: seq<Byte>)
    ensures |r| == |s| && forall i :: 0 <= i < |s| ==> r[i] == s[|s| - 1 - i]
  {
    seq(|s|, i requires 0 <= i < |s| => s[|s| - 1 - i])
  }

  /** Swap16 and Swap32: the bytes of a pixel in the other order. */
  function Swapped(v: int, n: nat): int {
    PixelOf(Reversed(PixelBytes(v, n)))
  }

  lemma SwappedTwice(v: int, n: nat)
    requires 0 <= v < Range(n)
    ensures 0 <= Swapped(v, n) < Range(n) && Swapped(Swapped(v, n), n) == v
  {
    var b := PixelBytes(v, n);
    PixelOfRange(Reversed(b));
    BytesRoundTrip(Reversed(b));
    assert Reversed(Reversed(b)) == b;
    PixelRoundTrip(v, n);
  }

  /** Header fields go out high byte first. */
  function Big16(v: int): (s: seq<Byte>)
    requires 0 <= v < 0x1_0000
    ensures |s| == 2
  {
    [v / 256, v % 256]
  }

  function Of16(s: seq<Byte>): int
    requires |s| == 2
  {
    256 * (s[0] as int) + s[1] as int
  }

  lemma Big16RoundTrip(v: int)
    requires 0 <= v < 0x1_0000
    ensures Of16(Big16(v)) == v
  {
  }

  function Big32(v: int): (s: seq<Byte>)
    requires 0 <= v < 0x1_0000_0000
    ensures |s| == 4
  {
    Big16(v / 0x1_0000) + Big16(v % 0x1_0000)
  }

  function Of32(s: seq<Byte>): int
    requires |s| == 4
  {
    0x1_0000 * Of16(s[..2]) + Of16(s[2..])
  }

  lemma Big32RoundTrip(v: int)
    requires 0 <= v < 0x1_0000_0000
    ensures Of32(Big32(v)) == v
  {
    var hi, lo := Big16(v / 0x1_0000), Big16(v % 0x1_0000);
    Big16RoundTrip(v / 0x1_0000);
    Big16RoundTrip(v % 0x1_0000);
    assert Big32(v)[..2] == hi && Big32(v)[2..] == lo;
  }

  // ---- Pixels in a row ----

  function RowBytes(row: seq<int>, n: nat): (s: seq<Byte>)
    ensures |s| == |row| * n
  {
    if row == [] then [] else
      assert |row| * n == n + (|row| - 1) * n;
      PixelBytes(row[0], n) + RowBytes(row[1..], n)
  }

  /** The next k pixels of the input, and what is left of it. */
  function ParseRow(s: seq<Byte>, k: nat, n: nat): (r: Option<(seq<int>, seq<Byte>)>)
    ensures r.Some? ==> |r.value.0| == k
    decreases k
  {
    if k == 0 then Some(([], s))
    else if |s| < n then None
    else
      match ParseRow(s[n..], k - 1, n)
      case None => None
      case Some((row, rest)) => Some(([PixelOf(s[..n])] + row, rest))
  }

  ghost predicate PixelsFit(row: seq<int>, n: nat) {
    forall i :: 0 <= i < |row| ==> 0 <= row[i] < Range(n)
  }

  /** Pixels of n bytes each. */
  ghost predicate PictureFits(img: seq<seq<int>>, n: nat) {
    forall j :: 0 <= j < |img| ==> PixelsFit(img[j], n)
  }

  lemma {:induction false} RowRoundTrip(row: seq<int>, n: nat, rest: seq<Byte>)
    requires PixelsFit(row, n)
    ensures ParseRow(RowBytes(row, n) + rest, |row|, n) == Some((row, rest))
    decreases |row|
  {
    if row == [] {
      assert RowBytes(row, n) + rest == rest;
    } else {
      var p, q := PixelBytes(row[0], n), RowBytes(row[1..], n);
      var s := RowBytes(row, n) + rest;
      assert s == p + (q + rest);
      assert s[..n] == p && s[n..] == q + rest;
      PixelRoundTrip(row[0], n);
      RowRoundTrip(row[1..], n, rest);
      assert [row[0]] + row[1..] == row;
    }
  }

  function RowsBytes(rows: seq<seq<int>>, n: nat): seq<Byte> {
    if rows == [] then [] else RowBytes(rows[0], n) + RowsBytes(rows[1..], n)
  }

  /** The next h rows of w pixels. */
  function ParseRows(s: seq<Byte>, w: nat, h: nat, n: nat): (r: Option<(seq<seq<int>>, seq<Byte>)>)
    ensures r.Some? ==> |r.value.0| == h && forall j :: 0 <= j < h ==> |r.value.0[j]| == w
    decreases h
  {
    if h == 0 then Some(([], s))
    else
      match ParseRow(s, w, n)
      case None => None
      case Some((row, tail)) =>
        match ParseRows(tail, w, h - 1, n)
        case None => None
        case Some((rows, rest)) => Some(([row] + rows, rest))
  }

  lemma {:induction false} RowsRoundTrip(rows: seq<seq<int>>, w: nat, n: nat, rest: seq<Byte>)
    requires forall j :: 0 <= j < |rows| ==> |rows[j]| == w && PixelsFit(rows[j], n)
    ensures ParseRows(RowsBytes(rows, n) + rest, w, |rows|, n) == Some((rows, rest))
    decreases |rows|
  {
    if rows == [] {
      assert RowsBytes(rows, n) + rest == rest;
    } else {
      var a, b := RowBytes(rows[0], n), RowsBytes(rows[1..], n);
      Regroup(a, b, rest);
      RowRoundTrip(rows[0], n, b + rest);
      RowsRoundTrip(rows[1..], w, n, rest);
      assert [rows[0]] + rows[1..] == rows;
    }
  }

  lemma {:induction false} RowsBytesConcat(a: seq<seq<int>>, b: seq<seq<int>>, n: nat)
    ensures RowsBytes(a + b, n) == RowsBytes(a, n) + RowsBytes(b, n)
    decreases |a|
  {
    if a == [] {
      assert a + b == b;
    } else {
      assert (a + b)[1..] == a[1..] + b;
      RowsBytesConcat(a[1..], b, n);
      Regroup(RowBytes(a[0], n), RowsBytes(a[1..], n), RowsBytes(b, n));
    }
  }

  lemma {:induction false} RowsBytesLength(rows: seq<seq<int>>, w: nat, n: nat)
    requires forall j :: 0 <= j < |rows| ==> |rows[j]| == w
    ensures |RowsBytes(rows, n)| == |rows| * (w * n)
    decreases |rows|
  {
    if rows != [] {
      RowsBytesLength(rows[1..], w, n);
      assert |rows| * (w * n) == w * n + (|rows| - 1) * (w * n);
    }
  }
}
