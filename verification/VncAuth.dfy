/** Passwords kept in a file and used for the challenge of VNC authentication,
    section 7.2.2 of RFC 6143. */
module VncAuth {
  import opened Bytes
  import opened Des
  import opened KeyRegister
  import DesKeys
  import DesStandard
  import Fips46

  const FIXED_KEY: seq<bv8> := [23, 82, 107, 6, 35, 78, 88, 7]
  const CHALLENGE_SIZE := 16

  /** The key register that deskey leaves. */
  function Schedule(key: seq<bv8>, decrypt: bool): (keys: seq<bv32>)
    requires |key| == 8
    ensures |keys| == 32
  {
    seq(32, m requires 0 <= m < 32 => ScheduleWord(key, if decrypt then 15 - m / 2 else m / 2, m % 2 == 1))
  }

  lemma ScheduleIs(keys: seq<bv32>, key: seq<bv8>, decrypt: bool)
    requires |key| == 8
    ensures IsSchedule(keys, key, decrypt) <==> keys == Schedule(key, decrypt)
  {
    hide ScheduleWord;
    if IsSchedule(keys, key, decrypt) {
      forall m | 0 <= m < 32
        ensures keys[m] == Schedule(key, decrypt)[m]
      {
        var i := if decrypt then 15 - m / 2 else m / 2;
        assert keys[2 * (if decrypt then 15 - i else i)] == ScheduleWord(key, i, false);
        assert keys[2 * (if decrypt then 15 - i else i) + 1] == ScheduleWord(key, i, true);
        assert m == 2 * (m / 2) + m % 2;
      }
    }
  }

  function Encrypted(s: seq<bv8>, key: seq<bv8>): (r: seq<bv8>)
    requires |s| == 8 && |key| == 8
    ensures |r| == 8
  {
    DesBytes(s, Schedule(key, false))
  }

  function Decrypted(s: seq<bv8>, key: seq<bv8>): (r: seq<bv8>)
    requires |s| == 8 && |key| == 8
    ensures |r| == 8
  {
    DesBytes(s, Schedule(key, true))
  }

  /** Both are the Data Encryption Standard, on the bits of the block and those of the key, which
      are read from the lowest of each byte. */
  lemma IsStandard(s: seq<bv8>, key: seq<bv8>)
    requires |s| == 8 && |key| == 8
    ensures DesStandard.BlockBits(Encrypted(s, key)) == Fips46.Encipher(DesStandard.BlockBits(s), DesKeys.MirroredBits(key))
    ensures DesStandard.BlockBits(Decrypted(s, key)) == Fips46.Decipher(DesStandard.BlockBits(s), DesKeys.MirroredBits(key))
  {
    hide IsSchedule;
    hide DesBytes;
    hide DesStandard.BlockBits;
    hide DesKeys.MirroredBits;
    hide Fips46.Encipher;
    hide Fips46.Decipher;
    ScheduleIs(Schedule(key, false), key, false);
    ScheduleIs(Schedule(key, true), key, true);
    DesStandard.RegisterIsStandard(s, Schedule(key, false), key, false);
    DesStandard.RegisterIsStandard(s, Schedule(key, true), key, true);
  }

  /** des with either key schedule undoes des with the other, for every key and block. */
  lemma DecryptUndoesEncrypt(s: seq<bv8>, key: seq<bv8>)
    requires |s| == 8 && |key| == 8
    ensures Decrypted(Encrypted(s, key), key) == s && Encrypted(Decrypted(s, key), key) == s
  {
    hide IsSchedule;
    hide DesBytes;
    hide Opposite;
    var keys, yeks := Schedule(key, false), Schedule(key, true);
    ScheduleIs(keys, key, false);
    ScheduleIs(yeks, key, true);
    SchedulesOpposite(keys, yeks, key);
    DesBytesCancels(s, keys, yeks);
    DesBytesCancels(s, yeks, keys);
  }

  // ---- Passwords ----

  /** A C string without the null at its end. */
  ghost predicate IsCString(s: seq<bv8>) {
    forall k :: 0 <= k < |s| ==> s[k] != 0
  }

  /** The first eight characters, padded with nulls. */
  function Padded(passwd: seq<bv8>): (r: seq<bv8>)
    ensures |r| == 8
  {
    seq(8, i => if 0 <= i < |passwd| then passwd[i] else 0)
  }

  /** What a C program sees of an array: the characters before the first null. */
  function CString(s: seq<bv8>): (r: seq<bv8>)
    ensures |r| <= |s| && r == s[..|r|] && (|r| < |s| ==> s[|r|] == 0) && forall k :: 0 <= k < |r| ==> r[k] != 0
    decreases |s|
  {
    if s == [] || s[0] == 0 then [] else [s[0]] + CString(s[1..])
  }

  lemma PaddedString(passwd: seq<bv8>)
    requires IsCString(passwd)
    ensures CString(Padded(passwd) + [0]) == if |passwd| <= 8 then passwd else passwd[..8]
  {
    var s := Padded(passwd) + [0];
    var n := if |passwd| <= 8 then |passwd| else 8;
    CStringLength(s, n);
    assert CString(s) == passwd[..n];
  }

  lemma {:induction false} CStringLength(s: seq<bv8>, n: nat)
    requires n < |s| && s[n] == 0 && forall k :: 0 <= k < n ==> s[k] != 0
    ensures |CString(s)| == n
    decreases n
  {
    if n > 0 {
      CStringLength(s[1..], n - 1);
    }
  }

  /** The padding loops of vncauth.c. */
  method Pad(passwd: seq<bv8>) returns (block: array<bv8>)
    ensures fresh(block) && block.Length == 8 && block[..] == Padded(passwd)
  {
    block := new bv8[8](_ => 0);
    var i := 0;
    while i < 8
      invariant 0 <= i <= 8 && block.Length == 8
      invariant forall k :: 0 <= k < i ==> block[k] == Padded(passwd)[k]
    {
      if i < |passwd| {
        block[i] := passwd[i];
      } else {
        block[i] := 0;
      }
      i := i + 1;
    }
  }

  /** vncEncryptAndStorePasswd: what is written to the file. */
  method EncryptAndStorePasswd(reg: KeyRegister, passwd: seq<bv8>) returns (file: seq<bv8>)
    requires reg.Valid()
    modifies reg.knl
    ensures file == Encrypted(Padded(passwd), FIXED_KEY)
  {
    hide IsSchedule;
    hide DesBytes;
    var encryptedPasswd := Pad(passwd);
    assert encryptedPasswd[0..0 + 8] == Padded(passwd);
    reg.Deskey(FIXED_KEY, EN0);
    ScheduleIs(reg.knl[..], FIXED_KEY, false);
    reg.DesBlock(encryptedPasswd, 0, encryptedPasswd, 0);
    assert encryptedPasswd[0..0 + 8] == encryptedPasswd[..];
    file := encryptedPasswd[..];
  }

  /** vncDecryptPasswdFromFile: nothing when the file is missing or too short, else eight
      characters and a null. */
  method DecryptPasswdFromFile(reg: KeyRegister, file: Option<seq<bv8>>) returns (passwd: Option<seq<bv8>>)
    requires reg.Valid()
    modifies reg.knl
    ensures passwd == if file.None? || |file.value| < 8 then None else Some(Decrypted(file.value[..8], FIXED_KEY) + [0])
  {
    hide IsSchedule;
    hide DesBytes;
    if file.None? { return None; }
    var bytes := new bv8[9](_ => 0);
    var i := 0;
    while i < 8
      invariant 0 <= i <= 8 && bytes.Length == 9 && i <= |file.value|
      invariant forall k :: 0 <= k < i ==> bytes[k] == file.value[k]
    {
      if i >= |file.value| { return None; }
      bytes[i] := file.value[i];
      i := i + 1;
    }
    assert bytes[0..0 + 8] == file.value[..8];
    reg.Deskey(FIXED_KEY, DE1);
    ScheduleIs(reg.knl[..], FIXED_KEY, true);
    reg.DesBlock(bytes, 0, bytes, 0);
    bytes[8] := 0;
    assert bytes[..] == bytes[0..0 + 8] + [0];
    passwd := Some(bytes[..]);
  }

  /** A stored password is read back as its first eight characters. */
  method StoreAndReadBack(reg: KeyRegister, passwd: seq<bv8>) returns (read: Option<seq<bv8>>)
    requires reg.Valid() && IsCString(passwd)
    modifies reg.knl
    ensures read.Some? && CString(read.value) == if |passwd| <= 8 then passwd else passwd[..8]
  {
    hide DesBytes;
    var file := EncryptAndStorePasswd(reg, passwd);
    read := DecryptPasswdFromFile(reg, Some(file));
    assert file[..8] == file;
    DecryptUndoesEncrypt(Padded(passwd), FIXED_KEY);
    PaddedString(passwd);
  }

  // ---- The copy that stops at a null ----

  /** strncpy of eight bytes: once a null has been copied, only nulls follow. */
  function Strncpy(s: seq<bv8>): (r: seq<bv8>)
    requires |s| == 8
    ensures |r| == 8
  {
    Padded(CString(s))
  }

  /** No byte but nulls after a null. */
  ghost predicate NullsLast(s: seq<bv8>) {
    forall i, k :: 0 <= i < k < |s| && s[i] == 0 ==> s[k] == 0
  }

  lemma StrncpyExact(s: seq<bv8>)
    requires |s| == 8
    ensures Strncpy(s) == s <==> NullsLast(s)
  {
    var c, r := CString(s), Strncpy(s);
    assert forall k :: 0 <= k < |c| ==> r[k] == s[k];
    assert forall k :: |c| <= k < 8 ==> r[k] == 0;
    if NullsLast(s) {
      assert r == s;
    }
    if r == s {
      forall i, k | 0 <= i < k < 8 && s[i] == 0
        ensures s[k] == 0
      {
        assert i >= |c|;
      }
    }
  }

  /** vncEncryptPasswd copies the encrypted bytes with strncpy. The copy decrypts to the
      password exactly when no other byte comes after a null in them. */
  lemma EncryptPasswdReadsBack(passwd: seq<bv8>)
    ensures var e := Encrypted(Padded(passwd), FIXED_KEY);
      Decrypted(Strncpy(e), FIXED_KEY) == Padded(passwd) <==> NullsLast(e)
  {
    hide Encrypted;
    hide Decrypted;
    var e := Encrypted(Padded(passwd), FIXED_KEY);
    DecryptUndoesEncrypt(Padded(passwd), FIXED_KEY);
    DecryptUndoesEncrypt(Strncpy(e), FIXED_KEY);
    StrncpyExact(e);
  }

  // ---- The challenge ----

  /** A block of the response: the block of the challenge, enciphered by the standard with the
      padded password as the key, its bytes mirrored. */
  ghost predicate Responds(block: seq<bv8>, response: seq<bv8>, passwd: seq<bv8>)
    requires |block| == 8 && |response| == 8
  {
    DesStandard.BlockBits(response) == Fips46.Encipher(DesStandard.BlockBits(block), DesKeys.MirroredBits(Padded(passwd)))
  }

  /** vncEncryptBytes: each block of the challenge under the password as a key. */
  method EncryptBytes(reg: KeyRegister, bytes: array<bv8>, passwd: seq<bv8>)
    requires reg.Valid() && bytes.Length == CHALLENGE_SIZE
    modifies reg.knl, bytes
    ensures bytes[..8] == Encrypted(old(bytes[..8]), Padded(passwd))
    ensures bytes[8..] == Encrypted(old(bytes[8..]), Padded(passwd))
    ensures Responds(old(bytes[..8]), bytes[..8], passwd) && Responds(old(bytes[8..]), bytes[8..], passwd)
  {
    hide IsSchedule;
    hide DesBytes;
    var key := Pad(passwd);
    ghost var first, second := bytes[..8], bytes[8..];
    reg.Deskey(key[..], EN0);
    ScheduleIs(reg.knl[..], key[..], false);
    assert bytes[0..0 + 8] == first && bytes[8..8 + 8] == second;
    reg.DesBlock(bytes, 0, bytes, 0);
    assert bytes[0..0 + 8] == Encrypted(first, Padded(passwd));
    assert bytes[8..8 + 8] == second;
    ghost var done := bytes[..8];
    reg.DesBlock(bytes, 8, bytes, 8);
    assert bytes[..8] == done && bytes[8..] == bytes[8..8 + 8];
    hide Encrypted;
    hide DesStandard.BlockBits;
    hide Fips46.Encipher;
    hide DesKeys.MirroredBits;
    IsStandard(first, Padded(passwd));
    IsStandard(second, Padded(passwd));
  }

  /** Passwords that agree in the low seven bits of their first eight characters give the
      same response to any challenge. */
  lemma SameResponse(a: seq<bv8>, b: seq<bv8>, block: seq<bv8>)
    requires |block| == 8 && forall k :: 0 <= k < 8 ==> Padded(a)[k] & 0x7f == Padded(b)[k] & 0x7f
    ensures Encrypted(block, Padded(a)) == Encrypted(block, Padded(b))
  {
    hide IsSchedule;
    hide Schedule;
    ScheduleIs(Schedule(Padded(a), false), Padded(a), false);
    TopBitsIgnored(Padded(a), Padded(b), Schedule(Padded(a), false), false);
    ScheduleIs(Schedule(Padded(a), false), Padded(b), false);
  }
}
