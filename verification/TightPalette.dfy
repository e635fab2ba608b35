/** The palette of the Tight encoder: colours sorted by how many pixels they have, and hash
    chains that lead from a colour to its place in that order. */
module TightPalette {
  import opened Basics

  const SIZE := 256
  const NULL := -1

  predicate IsPixel(rgb: int, bpp: int) {
    0 <= rgb < (if bpp == 16 then 0x1_0000 else 0x1_0000_0000)
  }

  /** HASH_FUNC16 and HASH_FUNC32. */
  function HashKey(rgb: int, bpp: int): (r: int)
    requires 0 <= rgb
    ensures 0 <= r < 256
  {
    if bpp == 16 then (rgb / 256 + rgb) % 256 else (rgb / 0x1_0000 + rgb / 256) % 256
  }

  /** The first n entries, which are sorted by count, and the first n nodes point at each
      other. */
  ghost predicate Order(node: seq<int>, count: seq<int>, idx: seq<int>, n: int) {
    && |node| == SIZE && |count| == SIZE && |idx| == SIZE && 0 <= n <= SIZE
    && (forall e :: 0 <= e < n ==> 0 <= node[e] < n && idx[node[e]] == e)
    && (forall k :: 0 <= k < n ==> 0 <= idx[k] < n && node[idx[k]] == k)
    && (forall e, f :: 0 <= e < f < n ==> count[e] >= count[f])
  }

  /** The chain of a key runs through all nodes with that key, in increasing order. */
  ghost predicate Chains(hash: seq<int>, next: seq<int>, rgb: seq<int>, n: int, bpp: int) {
    && |hash| == SIZE && |next| == SIZE && |rgb| == SIZE && 0 <= n <= SIZE
    && (forall k :: 0 <= k < n ==> IsPixel(rgb[k], bpp))
    && (forall b :: 0 <= b < SIZE ==>
          && (hash[b] == NULL || (0 <= hash[b] < n && HashKey(rgb[hash[b]], bpp) == b))
          && forall k :: 0 <= k < n && (hash[b] == NULL || k < hash[b]) ==> HashKey(rgb[k], bpp) != b)
    && (forall j :: 0 <= j < n ==>
          && (next[j] == NULL || (j < next[j] < n && HashKey(rgb[next[j]], bpp) == HashKey(rgb[j], bpp)))
          && forall k :: j < k < n && (next[j] == NULL || k < next[j]) ==> HashKey(rgb[k], bpp) != HashKey(rgb[j], bpp))
  }

  // ---- Moving entries ----

  /** The entry at from moved up to position to, with the ones between one place down. */
  function MovedUp(s: seq<int>, from: int, to: int, v: int): (r: seq<int>)
    requires 0 <= to <= from < |s|
    ensures |r| == |s| && r[to] == v
    ensures forall e :: 0 <= e < |s| ==> e < to || e > from ==> r[e] == s[e]
    ensures forall e :: to < e <= from ==> r[e] == s[e - 1]
  {
    s[..to] + [v] + s[to..from] + s[from + 1..]
  }

  /** Of the first n nodes, p takes entry to, and those it passes move down. */
  ghost predicate MovedNodes(idx: seq<int>, idx': seq<int>, n: int, from: int, to: int, p: int) {
    && |idx| == SIZE && |idx'| == SIZE && n <= SIZE
    && forall k :: 0 <= k < n ==>
         idx'[k] == if k == p then to else if to <= idx[k] < from then idx[k] + 1 else idx[k]
  }

  lemma CountsSorted(count: seq<int>, n: int, from: int, to: int, more: int)
    requires |count| == SIZE && 0 <= to <= from < n <= SIZE && forall e, f :: 0 <= e < f < n ==> count[e] >= count[f]
    requires count[from] <= more && (to > 0 ==> count[to - 1] >= more)
    requires forall e :: to <= e < from ==> count[e] < more
    ensures forall e, f :: 0 <= e < f < n ==> MovedUp(count, from, to, more)[e] >= MovedUp(count, from, to, more)[f]
  {
  }

  /** A colour that is there gets more pixels and moves up as far as they carry it. */
  lemma OrderBump(node: seq<int>, count: seq<int>, idx: seq<int>, n: int, p: int, to: int, more: int, idx': seq<int>)
    requires Order(node, count, idx, n) && 0 <= p < n && 0 <= to <= idx[p]
    requires count[idx[p]] <= more
    requires forall e :: to <= e < idx[p] ==> count[e] < more
    requires to > 0 ==> count[to - 1] >= more
    requires MovedNodes(idx, idx', n, idx[p], to, p)
    ensures Order(MovedUp(node, idx[p], to, p), MovedUp(count, idx[p], to, more), idx', n)
  {
    hide MovedUp;
    var from := idx[p];
    var node' := MovedUp(node, from, to, p);
    CountsSorted(count, n, from, to, more);
    forall e | 0 <= e < n
      ensures 0 <= node'[e] < n && idx'[node'[e]] == e
    {
      if e < to || e > from {
        assert idx[node[e]] == e && node[e] != p;
      } else if to < e {
        assert idx[node[e - 1]] == e - 1 && node[e - 1] != p;
      }
    }
    forall k | 0 <= k < n
      ensures 0 <= idx'[k] < n && node'[idx'[k]] == k
    {
      assert node[idx[k]] == k && (k != p ==> idx[k] != from);
    }
  }

  lemma BumpCounts(node: seq<int>, count: seq<int>, idx: seq<int>, n: int, p: int, to: int, more: int, idx': seq<int>)
    requires Order(node, count, idx, n) && 0 <= p < n && 0 <= to <= idx[p]
    requires MovedNodes(idx, idx', n, idx[p], to, p)
    ensures forall k :: 0 <= k < n ==> 0 <= idx'[k] < SIZE
    ensures forall k :: 0 <= k < n ==>
      MovedUp(count, idx[p], to, more)[idx'[k]] == if k == p then more else count[idx[k]]
  {
    hide MovedUp;
    forall k | 0 <= k < n && k != p
      ensures idx[k] != idx[p]
    {
      assert node[idx[k]] == k && node[idx[p]] == p;
    }
  }

  /** A new colour is put in before those with fewer pixels. */
  lemma OrderInsert(node: seq<int>, count: seq<int>, idx: seq<int>, n: int, to: int, more: int, idx': seq<int>)
    requires Order(node, count, idx, n) && n < SIZE && 0 <= to <= n
    requires forall e :: to <= e < n ==> count[e] < more
    requires to > 0 ==> count[to - 1] >= more
    requires |idx'| == SIZE && idx'[n] == to
    requires forall k :: 0 <= k < n ==> idx'[k] == if to <= idx[k] then idx[k] + 1 else idx[k]
    ensures Order(MovedUp(node, n, to, n), MovedUp(count, n, to, more), idx', n + 1)
    ensures forall k :: 0 <= k <= n ==>
      MovedUp(count, n, to, more)[idx'[k]] == if k == n then more else count[idx[k]]
  {
    hide MovedUp;
    var node', count' := MovedUp(node, n, to, n), MovedUp(count, n, to, more);
    forall e | 0 <= e < n + 1
      ensures 0 <= node'[e] < n + 1 && idx'[node'[e]] == e
    {
      if e < to {
        assert idx[node[e]] == e;
      } else if to < e {
        assert idx[node[e - 1]] == e - 1;
      }
    }
    forall k | 0 <= k < n + 1
      ensures 0 <= idx'[k] < n + 1 && node'[idx'[k]] == k
    {
      if k < n {
        assert node[idx[k]] == k;
      }
    }
  }

  /** A new node at the end of its chain. */
  lemma ChainsAppend(hash: seq<int>, next: seq<int>, rgb: seq<int>, n: int, bpp: int, v: int, prev: int,
                     hash': seq<int>, next': seq<int>)
    requires Chains(hash, next, rgb, n, bpp) && n < SIZE && IsPixel(v, bpp)
    requires if prev == NULL then hash[HashKey(v, bpp)] == NULL
      else 0 <= prev < n && HashKey(rgb[prev], bpp) == HashKey(v, bpp) && next[prev] == NULL
    requires hash' == if prev == NULL then hash[HashKey(v, bpp) := n] else hash
    requires next' == (if prev == NULL then next else next[prev := n])[n := NULL]
    ensures Chains(hash', next', rgb[n := v], n + 1, bpp)
  {
    var rgb' := rgb[n := v];
    forall b | 0 <= b < SIZE
      ensures hash'[b] == NULL || (0 <= hash'[b] < n + 1 && HashKey(rgb'[hash'[b]], bpp) == b)
      ensures forall k :: 0 <= k < n + 1 && (hash'[b] == NULL || k < hash'[b]) ==> HashKey(rgb'[k], bpp) != b
    {
      if prev != NULL {
        assert hash[b] == NULL ==> HashKey(rgb[prev], bpp) != b;
      }
    }
    forall j | 0 <= j < n + 1
      ensures next'[j] == NULL || (j < next'[j] < n + 1 && HashKey(rgb'[next'[j]], bpp) == HashKey(rgb'[j], bpp))
      ensures forall k :: j < k < n + 1 && (next'[j] == NULL || k < next'[j]) ==> HashKey(rgb'[k], bpp) != HashKey(rgb'[j], bpp)
    {
      if j < n && j != prev && next[j] == NULL {
        assert HashKey(rgb[j], bpp) != (if prev == NULL then HashKey(v, bpp) else HashKey(rgb[prev], bpp));
      }
    }
  }

  class Palette {
    const bpp: int
    const maxColors: int         // paletteMaxColors
    const node: array<int>       // entry[e].listNode
    const numPixels: array<int>  // entry[e].numPixels
    const hash: array<int>
    const next: array<int>       // list[k].next
    const idx: array<int>        // list[k].idx
    const rgb: array<int>        // list[k].rgb
    var numColors: int

    ghost predicate Separate() {
      && node != numPixels && node != hash && node != next && node != idx && node != rgb
      && numPixels != hash && numPixels != next && numPixels != idx && numPixels != rgb
      && hash != next && hash != idx && hash != rgb && next != idx && next != rgb && idx != rgb
      && node.Length == SIZE && numPixels.Length == SIZE && hash.Length == SIZE
      && next.Length == SIZE && idx.Length == SIZE && rgb.Length == SIZE
    }

    ghost predicate Valid()
      reads this, node, numPixels, hash, next, idx, rgb
    {
      && Separate() && 0 <= numColors <= SIZE
      && Order(node[..], numPixels[..], idx[..], numColors)
      && Chains(hash[..], next[..], rgb[..], numColors, bpp)
      && Distinct(rgb[..numColors])
    }

    /** The colours in order of insertion. */
    ghost function Colours(): seq<int>
      requires Valid()
      reads this, node, numPixels, hash, next, idx, rgb
    {
      rgb[..numColors]
    }

    /** How many pixels the k-th of them has been given. */
    ghost function Pixels(k: int): int
      requires Valid() && 0 <= k < numColors
      reads this, node, numPixels, hash, next, idx, rgb
    {
      numPixels[..][idx[..][k]]
    }

    /** palette.entry[e].listNode->rgb: what goes into the palette that is sent. */
    function Entry(e: int): int
      requires node.Length == SIZE && rgb.Length == SIZE && 0 <= e < SIZE && 0 <= node[e] < SIZE
      reads node, rgb
    {
      rgb[node[e]]
    }

    constructor (bpp: int, maxColors: int)
      ensures Separate() && fresh(node) && fresh(numPixels) && fresh(hash) && fresh(next) && fresh(idx) && fresh(rgb)
      ensures this.bpp == bpp && this.maxColors == maxColors
    {
      this.bpp, this.maxColors := bpp, maxColors;
      node, numPixels, hash := new int[SIZE], new int[SIZE], new int[SIZE];
      next, idx, rgb := new int[SIZE], new int[SIZE], new int[SIZE];
      numColors := 0;
    }

    /** PaletteReset. */
    method Reset()
      requires Separate()
      modifies this, hash
      ensures Valid() && Colours() == []
    {
      numColors := 0;
      var b := 0;
      while b < SIZE
        invariant 0 <= b <= SIZE && numColors == 0
        invariant forall k :: 0 <= k < b ==> hash[k] == NULL
      {
        hash[b] := NULL;
        b := b + 1;
      }
    }

    /** The walk along a chain: the node of a colour, or NULL and the last node passed. */
    method Find(v: int) returns (pnode: int, prev: int)
      requires Valid() && IsPixel(v, bpp)
      ensures pnode != NULL ==> 0 <= pnode < numColors && rgb[pnode] == v
      ensures pnode == NULL ==> v !in Colours()
      ensures pnode == NULL ==>
        if prev == NULL then hash[HashKey(v, bpp)] == NULL
        else 0 <= prev < numColors && HashKey(rgb[prev], bpp) == HashKey(v, bpp) && next[prev] == NULL
    {
      hide Order;
      hide Distinct;
      var key := HashKey(v, bpp);
      prev, pnode := NULL, hash[key];
      while pnode != NULL
        invariant pnode == NULL || (0 <= pnode < numColors && HashKey(rgb[pnode], bpp) == key)
        invariant forall k :: 0 <= k < numColors && (pnode == NULL || k < pnode) && HashKey(rgb[k], bpp) == key ==> rgb[k] != v
        invariant if prev == NULL then hash[key] == pnode
          else 0 <= prev < numColors && HashKey(rgb[prev], bpp) == key && next[prev] == pnode
        decreases if pnode == NULL then 0 else numColors - pnode
      {
        if rgb[pnode] == v { return; }
        prev := pnode;
        pnode := next[pnode];
      }
      assert forall k :: 0 <= k < numColors ==> rgb[k] != v;
    }

    /** The part of PaletteInsert for a colour that is there. */
    method Bump(p: int, more: int)
      requires Valid() && 0 <= p < numColors && Pixels(p) <= more
      modifies node, numPixels, idx
      ensures Valid()
      ensures forall k :: 0 <= k < numColors ==> Pixels(k) == if k == p then more else old(Pixels(k))
    {
      hide Chains;
      hide Distinct;
      hide MovedUp;
      ghost var N, C, I := node[..], numPixels[..], idx[..];
      var from := idx[p];
      var newIdx := from;
      if newIdx > 0 && numPixels[newIdx - 1] < more {
        newIdx := ShiftDown(from, numColors, more, p);
        node[newIdx] := p;
        idx[p] := newIdx;
      }
      numPixels[newIdx] := more;
      assert node[..] == MovedUp(N, from, newIdx, p);
      assert numPixels[..] == MovedUp(C, from, newIdx, more);
      OrderBump(N, C, I, numColors, p, newIdx, more, idx[..]);
      BumpCounts(N, C, I, numColors, p, newIdx, more, idx[..]);
    }

    /** The loop that moves entries with fewer pixels down, from an entry that is free. */
    method ShiftDown(from: int, n: int, more: int, ghost p: int) returns (newIdx: int)
      requires Separate() && 0 <= from < SIZE && 0 <= n <= SIZE && from <= n
      requires forall e :: 0 <= e < from ==> 0 <= node[e] < n && idx[node[e]] == e && node[e] != p
      requires forall k :: 0 <= k < n && k != p ==> idx[k] != from
      modifies node, numPixels, idx
      ensures 0 <= newIdx <= from && (newIdx > 0 ==> old(numPixels[newIdx - 1]) >= more)
      ensures forall e :: newIdx <= e < from ==> old(numPixels[e]) < more
      ensures forall e :: 0 <= e < SIZE ==>
        && node[e] == old(if newIdx < e <= from then node[e - 1] else node[e])
        && numPixels[e] == old(if newIdx < e <= from then numPixels[e - 1] else numPixels[e])
      ensures forall k :: 0 <= k < SIZE ==>
        idx[k] == old(if 0 <= k < n && k != p && newIdx <= idx[k] < from && node[idx[k]] == k then idx[k] + 1 else idx[k])
    {
      newIdx := from;
      while newIdx > 0 && numPixels[newIdx - 1] < more
        invariant 0 <= newIdx <= from
        invariant forall e :: newIdx <= e < from ==> old(numPixels[e]) < more
        invariant forall e :: 0 <= e < SIZE ==>
          && node[e] == old(if newIdx < e <= from then node[e - 1] else node[e])
          && numPixels[e] == old(if newIdx < e <= from then numPixels[e - 1] else numPixels[e])
        invariant forall k :: 0 <= k < SIZE ==>
          idx[k] == old(if 0 <= k < n && k != p && newIdx <= idx[k] < from && node[idx[k]] == k then idx[k] + 1 else idx[k])
      {
        assert node[newIdx - 1] == old(node[newIdx - 1]) && old(idx[node[newIdx - 1]]) == newIdx - 1;
        node[newIdx] := node[newIdx - 1];
        numPixels[newIdx] := numPixels[newIdx - 1];
        idx[node[newIdx]] := newIdx;
        newIdx := newIdx - 1;
      }
    }

    /** PaletteInsert. A colour that is there gets more pixels; a new one is added unless the
        palette is full, which makes the whole palette invalid. */
    method Insert(v: int, more: int) returns (r: int)
      requires Valid() && IsPixel(v, bpp) && 0 <= more
      modifies this, node, numPixels, hash, next, idx, rgb
      ensures r == numColors
      ensures v in old(Colours()) ==> r == old(numColors) && Valid() && Colours() == old(Colours())
      ensures v !in old(Colours()) ==>
        if old(numColors) == 256 || old(numColors) == maxColors then r == 0
        else r == old(numColors) + 1 && Valid() && Colours() == old(Colours()) + [v]
      ensures r > 0 ==> forall k :: 0 <= k < numColors ==>
        Pixels(k) == (if k < old(numColors) then old(Pixels(k)) else 0) + (if Colours()[k] == v then more else 0)
    {
      hide Order;
      hide Chains;
      hide Distinct;
      var pnode, prev := Find(v);
      if pnode != NULL {
        assert Colours()[pnode] == v;
        UniqueColour(Colours(), pnode);
        EntryInRange(pnode);
        var count := numPixels[idx[pnode]] + more;
        Bump(pnode, count);
        return numColors;
      }
      assert forall k :: 0 <= k < numColors ==> Colours()[k] != v;
      if numColors == 256 || numColors == maxColors {
        numColors := 0;
        return 0;
      }
      AddNode(v, more, prev);
      r := numColors;
    }

    lemma EntryInRange(k: int)
      requires Valid() && 0 <= k < numColors
      ensures 0 <= idx[k] < numColors && node[idx[k]] == k
    {
    }

    /** The end of PaletteInsert: the new colour takes the next node of the list. */
    method AddNode(v: int, more: int, prev: int)
      requires Valid() && numColors < SIZE && IsPixel(v, bpp) && v !in Colours()
      requires if prev == NULL then hash[HashKey(v, bpp)] == NULL
        else 0 <= prev < numColors && HashKey(rgb[prev], bpp) == HashKey(v, bpp) && next[prev] == NULL
      modifies this, node, numPixels, hash, next, idx, rgb
      ensures Valid() && numColors == old(numColors) + 1 && Colours() == old(Colours()) + [v]
      ensures forall k :: 0 <= k < numColors ==>
        Pixels(k) == if k < old(numColors) then old(numPixels[..][idx[..][k]]) else more
    {
      hide Order;
      hide Chains;
      hide Distinct;
      ghost var H, X, R, n := hash[..], next[..], rgb[..], numColors;
      var pnode := numColors;
      PlaceEntry(pnode, more);
      if prev != NULL {
        next[prev] := pnode;
      } else {
        hash[HashKey(v, bpp)] := pnode;
      }
      next[pnode] := NULL;
      rgb[pnode] := v;
      numColors := numColors + 1;
      ChainsAppend(H, X, R, n, bpp, v, prev, hash[..], next[..]);
      DistinctSnoc(R[..n], v);
      assert rgb[..] == R[n := v] && rgb[..n + 1] == R[..n] + [v];
    }

    /** The new node n is put in the order of the entries. */
    method PlaceEntry(n: int, more: int)
      requires Separate() && 0 <= n < SIZE && Order(node[..], numPixels[..], idx[..], n)
      modifies node, numPixels, idx
      ensures Order(node[..], numPixels[..], idx[..], n + 1)
      ensures forall k :: 0 <= k <= n ==>
        numPixels[..][idx[..][k]] == if k == n then more else old(numPixels[..][idx[..][k]])
    {
      ghost var N, C, I := node[..], numPixels[..], idx[..];
      var newIdx := ShiftDown(n, n, more, n);
      idx[n] := newIdx;
      node[newIdx] := n;
      numPixels[newIdx] := more;
      assert node[..] == MovedUp(N, n, newIdx, n) && numPixels[..] == MovedUp(C, n, newIdx, more);
      OrderInsert(N, C, I, n, newIdx, more, idx[..]);
    }
  }

  lemma UniqueColour(s: seq<int>, k: int)
    requires Distinct(s) && 0 <= k < |s|
    ensures forall j :: 0 <= j < |s| && s[j] == s[k] ==> j == k
  {
  }
}
