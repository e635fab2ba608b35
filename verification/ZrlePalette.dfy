/** The palette of a ZRLE tile: colours in order of first appearance, with a hash table
    that finds the index of a colour. Probing never wraps around: the table has as many
    slots beyond the last hash value as the palette has entries. */
module ZrlePalette {
  import opened Basics

  const MAX_SIZE := 127
  const HASH_SIZE := 4096
  const EMPTY := 255

  function Hash(pix: int): (r: int)
    requires 0 <= pix < 0x1_0000_0000
    ensures 0 <= r < HASH_SIZE
  {
    var p := pix as bv32;
    var m := (p ^ (p >> 17)) & 4095;
    assert m <= 4095;
    m as int
  }

  predicate IsPixel(pix: int) {
    0 <= pix < 0x1_0000_0000
  }

  lemma {:induction false} Pigeonhole(s: seq<int>, n: nat)
    requires forall i :: 0 <= i < |s| ==> 0 <= s[i] < n
    requires forall i, j :: 0 <= i < j < |s| ==> s[i] != s[j]
    ensures |s| <= n
    decreases n
  {
    if |s| > 0 {
      assert 0 <= s[0] < n;
      if n - 1 in s {
        var k :| 0 <= k < |s| && s[k] == n - 1;
        Pigeonhole(s[..k] + s[k + 1..], n - 1);
      } else {
        Pigeonhole(s, n - 1);
      }
    }
  }

  const SLOTS := HASH_SIZE + MAX_SIZE

  /** The table holds the first used colours of the palette; slot says where. Each is at its
      hash value or after it, with no empty slot in between. */
  ghost predicate Table(palette: seq<int>, index: seq<int>, key: seq<int>, used: int, slot: seq<int>) {
    && |palette| == MAX_SIZE && |index| == SLOTS && |key| == SLOTS && 0 <= used <= MAX_SIZE && |slot| == used
    && (forall p :: 0 <= p < used ==>
          IsPixel(palette[p]) && Hash(palette[p]) <= slot[p] < SLOTS && index[slot[p]] == p && key[slot[p]] == palette[p])
    && (forall i :: 0 <= i < SLOTS && index[i] != EMPTY ==> 0 <= index[i] < used && slot[index[i]] == i)
    && (forall p, i :: 0 <= p < used && Hash(palette[p]) <= i < slot[p] ==> index[i] != EMPTY)
  }

  /** A stretch of used slots is no longer than the palette. */
  lemma RunIsShort(palette: seq<int>, index: seq<int>, key: seq<int>, used: int, slot: seq<int>, from: int, to: int)
    requires Table(palette, index, key, used, slot) && 0 <= from <= to <= SLOTS
    requires forall i :: from <= i < to ==> index[i] != EMPTY
    ensures to - from <= used
  {
    var s := index[from..to];
    forall i, j | 0 <= i < j < |s|
      ensures s[i] != s[j]
    {
      assert slot[index[from + i]] == from + i && slot[index[from + j]] == from + j;
    }
    Pigeonhole(s, used);
  }

  /** Where the probe for pix stops. */
  lemma ProbeEnds(palette: seq<int>, index: seq<int>, key: seq<int>, used: int, slot: seq<int>, pix: int, i: int)
    requires Table(palette, index, key, used, slot) && IsPixel(pix) && Hash(pix) <= i < SLOTS
    requires forall k :: Hash(pix) <= k < i ==> index[k] != EMPTY && key[k] != pix
    ensures i - Hash(pix) <= used
    ensures index[i] != EMPTY ==> i + 1 - Hash(pix) <= used && palette[index[i]] == key[i]
    ensures index[i] == EMPTY ==> pix !in palette[..used]
  {
    RunIsShort(palette, index, key, used, slot, Hash(pix), i);
    if index[i] != EMPTY {
      RunIsShort(palette, index, key, used, slot, Hash(pix), i + 1);
    } else {
      forall p | 0 <= p < used
        ensures palette[p] != pix
      {
        assert slot[p] < i ==> key[slot[p]] == palette[p];
      }
    }
  }

  lemma TableInsert(palette: seq<int>, index: seq<int>, key: seq<int>, used: int, slot: seq<int>, pix: int, i: int)
    requires Table(palette, index, key, used, slot) && used < MAX_SIZE && IsPixel(pix) && Hash(pix) <= i < SLOTS
    requires (forall k :: Hash(pix) <= k < i ==> index[k] != EMPTY) && index[i] == EMPTY
    ensures Table(palette[used := pix], index[i := used], key[i := pix], used + 1, slot + [i])
    ensures palette[used := pix][..used + 1] == palette[..used] + [pix]
  {
    var slot' := slot + [i];
    forall p | 0 <= p < used
      ensures slot[p] != i && slot'[p] == slot[p]
    {
      assert index[slot[p]] == p;
    }
  }

  class PaletteHelper {
    const palette: array<int>
    const index: array<int>
    const key: array<int>
    var size: int
    ghost var slot: seq<int>  // where each palette entry is in the table

    /** How many of the colours the palette holds. */
    function Used(): int
      reads this
    {
      if size < MAX_SIZE then size else MAX_SIZE
    }

    ghost predicate Valid()
      reads this, palette, index, key
    {
      && palette.Length == MAX_SIZE && index.Length == SLOTS && key.Length == SLOTS
      && palette != index && palette != key && index != key && size >= 0
      && Table(palette[..], index[..], key[..], Used(), slot) && Distinct(palette[..Used()])
    }

    /** The colours so far. */
    ghost function Colours(): seq<int>
      requires Valid()
      reads this, palette, index, key
    {
      palette[..Used()]
    }

    constructor ()
      ensures Valid() && fresh(palette) && fresh(index) && fresh(key)
      ensures size == 0 && Colours() == []
    {
      palette := new int[MAX_SIZE](_ => 0);
      index := new int[HASH_SIZE + MAX_SIZE](_ => EMPTY);
      key := new int[HASH_SIZE + MAX_SIZE](_ => 0);
      size, slot := 0, [];
    }

    /** The probe that insert and lookup share: the slot of pix, or the first empty one. */
    method Probe(pix: int) returns (i: int)
      requires Valid() && IsPixel(pix)
      ensures Hash(pix) <= i < SLOTS && i - Hash(pix) <= Used()
      ensures forall k :: Hash(pix) <= k < i ==> index[k] != EMPTY
      ensures index[i] != EMPTY ==> 0 <= index[i] < Used() && palette[index[i]] == pix
      ensures index[i] == EMPTY <==> pix !in Colours()
    {
      i := Hash(pix);
      while index[i] != EMPTY && key[i] != pix
        invariant Hash(pix) <= i < SLOTS
        invariant forall k :: Hash(pix) <= k < i ==> index[k] != EMPTY && key[k] != pix
        decreases SLOTS - i
      {
        ProbeEnds(palette[..], index[..], key[..], Used(), slot, pix, i);
        i := i + 1;
      }
      ProbeEnds(palette[..], index[..], key[..], Used(), slot, pix, i);
      assert palette[..][..Used()] == Colours();
      if index[i] != EMPTY {
        assert Colours()[index[i]] == pix;
      }
    }

    method Insert(pix: int)
      requires Valid() && IsPixel(pix)
      modifies this, palette, index, key
      ensures Valid()
      ensures old(size) >= MAX_SIZE ==> size == old(size) + 1 && Colours() == old(Colours())
      ensures old(size) < MAX_SIZE && pix in old(Colours()) ==> size == old(size) && Colours() == old(Colours())
      ensures old(size) < MAX_SIZE && pix !in old(Colours()) ==> size == old(size) + 1 && Colours() == old(Colours()) + [pix]
    {
      hide Table;
      hide Distinct;
      if size < MAX_SIZE {
        var i := Probe(pix);
        if index[i] != EMPTY { return; }
        assert palette[..][..size] == Colours();
        TableInsert(palette[..], index[..], key[..], size, slot, pix, i);
        DistinctSnoc(Colours(), pix);
        ghost var p, x, y := palette[..], index[..], key[..];
        index[i] := size;
        key[i] := pix;
        palette[size] := pix;
        slot := slot + [i];
        assert palette[..] == p[size := pix] && index[..] == x[i := size] && key[..] == y[i := pix];
        assert palette[..size + 1] == p[size := pix][..size + 1];
      }
      size := size + 1;
    }

    /** The index of a colour, or -1. */
    method Lookup(pix: int) returns (r: int)
      requires Valid() && IsPixel(pix) && size <= MAX_SIZE
      ensures if pix in Colours() then 0 <= r < size && palette[r] == pix else r == -1
    {
      var i := Probe(pix);
      if index[i] != EMPTY { return index[i]; }
      r := -1;
    }
  }
}
