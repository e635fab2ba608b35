/** How compressed data of the Tight encoder goes out: a length of one to three bytes, and
    the data in portions that fit into the update buffer. */
module TightData {
  import opened Bytes
  import opened UpdateBuffer

  /** Seven bits in each of the first two bytes, whose top bit says that another follows,
      and eight in the third. */
  function CompactLength(len: nat): (s: seq<Byte>)
    ensures 1 <= |s| <= 3
  {
    if len <= 0x7F then [len]
    else if len <= 0x3FFF then [len % 128 + 128, len / 128]
    else [len % 128 + 128, len / 128 % 128 + 128, len / 0x4000 % 256]
  }

  function DecodeLength(s: seq<Byte>): Option<(nat, seq<Byte>)> {
    if s == [] then None
    else if s[0] < 128 then Some((s[0], s[1..]))
    else if |s| < 2 then None
    else if s[1] < 128 then Some((s[0] as int - 128 + 128 * (s[1] as int), s[2..]))
    else if |s| < 3 then None
    else Some((s[0] as int - 128 + 128 * (s[1] as int - 128) + 0x4000 * (s[2] as int), s[3..]))
  }

  /** The length is read back exactly while it has no more than 22 bits. */
  lemma LengthRoundTrip(len: nat, rest: seq<Byte>)
    ensures var r := DecodeLength(CompactLength(len) + rest);
      r.Some? && r.value.1 == rest && (r.value.0 == len <==> len < 0x40_0000)
  {
    Parts(CompactLength(len), rest);
  }

  /** SendCompressedData. */
  method SendCompressedData(cl: UpdateBuf, after: seq<Byte>) returns (ok: bool)
    requires cl.Valid() && cl.ublen + 3 <= UPDATE_BUF_SIZE
    modifies cl, cl.updateBuf
    ensures cl.Valid()
    ensures ok ==> cl.Stream() == old(cl.Stream()) + (CompactLength(|after|) + after)
    ensures cl.healthy ==> ok
  {
    hide CompactLength;
    ghost var before := cl.Stream();
    PutLength(cl, |after|);
    Regroup(before, CompactLength(|after|), after);
    ghost var headed := cl.Stream();
    assert after[..0] == [];
    assert headed + [] == headed;
    var portionLen := UPDATE_BUF_SIZE;
    var i := 0;
    ok := true;
    while i < |after|
      invariant 0 <= i <= |after| && cl.Valid() && 0 < portionLen <= UPDATE_BUF_SIZE && ok
      invariant cl.Stream() == headed + after[..i]
    {
      if i + portionLen > |after| {
        portionLen := |after| - i;
      }
      ok := cl.MakeRoom(portionLen);
      if !ok { return; }
      cl.Put(after[i..i + portionLen]);
      Regroup(headed, after[..i], after[i..i + portionLen]);
      assert after[..i] + after[i..i + portionLen] == after[..i + portionLen];
      i := i + portionLen;
    }
    assert after[..i] == after;
  }

  /** The bytes of the length, the earlier ones or-ed with 0x80 once another follows. */
  method PutLength(cl: UpdateBuf, len: nat)
    requires cl.Valid() && cl.ublen + 3 <= UPDATE_BUF_SIZE
    modifies cl`ublen, cl.updateBuf
    ensures cl.Valid() && cl.Stream() == old(cl.Stream()) + CompactLength(len)
  {
    ghost var pre := cl.Pending();
    cl.Put([len % 128]);
    if len > 0x7F {
      cl.Poke(cl.ublen - 1, cl.updateBuf[cl.ublen - 1] + 128);
      assert cl.Pending() == pre + [len % 128 + 128];
      cl.Put([len / 128 % 128]);
      assert cl.Pending() == pre + [len % 128 + 128, len / 128 % 128];
      if len > 0x3FFF {
        cl.Poke(cl.ublen - 1, cl.updateBuf[cl.ublen - 1] + 128);
        assert cl.Pending() == pre + [len % 128 + 128, len / 128 % 128 + 128];
        cl.Put([len / 0x4000 % 256]);
      }
    }
    assert cl.Pending() == pre + CompactLength(len);
    Regroup(cl.wire, pre, CompactLength(len));
  }
}
