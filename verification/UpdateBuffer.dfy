/** The update buffer of a client: bytes are collected in it and written to the client
    when it is full. */
module UpdateBuffer {
  import opened Bytes

  const UPDATE_BUF_SIZE := 30000

  class UpdateBuf {
    const updateBuf: array<Byte>
    var ublen: nat
    ghost var wire: seq<Byte>  // what has been written to the client
    const healthy: bool        // no write to this client fails

    ghost predicate Valid()
      reads this
    {
      updateBuf.Length == UPDATE_BUF_SIZE && ublen <= UPDATE_BUF_SIZE
    }

    /** What is in the buffer. */
    ghost function Pending(): (s: seq<Byte>)
      requires Valid()
      reads this, updateBuf
      ensures |s| == ublen
    {
      updateBuf[..ublen]
    }

    /** Everything the client gets: what was written and what is still in the buffer. */
    ghost function Stream(): seq<Byte>
      requires Valid()
      reads this, updateBuf
    {
      wire + Pending()
    }

    /** rfbSendUpdateBuf. Writing to the client can fail; then the client is closed. */
    method SendUpdateBuf() returns (ok: bool)
      requires Valid()
      modifies this
      ensures Valid()
      ensures ok ==> ublen == 0 && Stream() == old(Stream())
      ensures healthy ==> ok
    {
      ok := *;
      ok := ok || healthy;
      if ok {
        wire := wire + updateBuf[..ublen];
        ublen := 0;
      }
    }

    /** The buffer is written out first if k more bytes would not fit. */
    method MakeRoom(k: nat) returns (ok: bool)
      requires Valid() && k <= UPDATE_BUF_SIZE
      modifies this
      ensures Valid()
      ensures ok ==> ublen + k <= UPDATE_BUF_SIZE && Stream() == old(Stream())
      ensures healthy ==> ok
    {
      ok := true;
      if ublen + k > UPDATE_BUF_SIZE {
        ok := SendUpdateBuf();
      }
    }

    /** A memcpy of bytes that fit. */
    method Put(s: seq<Byte>)
      requires Valid() && ublen + |s| <= UPDATE_BUF_SIZE
      modifies this`ublen, updateBuf
      ensures Valid() && ublen == old(ublen) + |s|
      ensures Pending() == old(Pending()) + s && Stream() == old(Stream()) + s
    {
      var i := 0;
      while i < |s|
        invariant 0 <= i <= |s| && ublen == old(ublen)
        invariant updateBuf[..ublen + i] == old(updateBuf[..ublen]) + s[..i]
      {
        updateBuf[ublen + i] := s[i];
        i := i + 1;
      }
      ublen := ublen + |s|;
      assert s[..|s|] == s;
      assert updateBuf[..ublen] == old(updateBuf[..ublen]) + s;
      Regroup(wire, old(Pending()), s);
    }

    /** A byte that is filled in later. */
    method Skip()
      requires Valid() && ublen < UPDATE_BUF_SIZE
      modifies this`ublen
      ensures Valid() && ublen == old(ublen) + 1 && Pending()[..old(ublen)] == old(Pending())
    {
      ublen := ublen + 1;
    }

    method Poke(at: nat, b: Byte)
      requires Valid() && at < ublen
      modifies updateBuf
      ensures Valid() && Pending() == old(Pending())[at := b]
    {
      updateBuf[at] := b;
    }

    /** What was put after the first k bytes is forgotten. */
    method Rewind(k: nat)
      requires Valid() && k <= ublen
      modifies this`ublen
      ensures Valid() && ublen == k && Pending() == old(Pending())[..k]
    {
      ublen := k;
    }

    /** The copy loop of the RRE, CoRRE and Zlib encoders: the bytes go into the buffer in
        pieces, and whenever it is full it is sent. */
    method CopyOut(after: seq<Byte>) returns (ok: bool)
      requires Valid()
      modifies this, updateBuf
      ensures Valid()
      ensures ok ==> Stream() == old(Stream()) + after
      ensures healthy ==> ok
    {
      ok := true;
      var i := 0;
      assert after[..0] == [];
      while i < |after|
        invariant 0 <= i <= |after| && Valid()
        invariant Stream() == old(Stream()) + after[..i]
        decreases |after| - i, ublen
      {
        var bytesToCopy := UPDATE_BUF_SIZE - ublen;
        if i + bytesToCopy > |after| {
          bytesToCopy := |after| - i;
        }
        Put(after[i..i + bytesToCopy]);
        assert after[..i] + after[i..i + bytesToCopy] == after[..i + bytesToCopy];
        i := i + bytesToCopy;
        if ublen == UPDATE_BUF_SIZE {
          ok := SendUpdateBuf();
          if !ok { return; }
        }
      }
      assert after[..i] == after;
    }
  }
}
