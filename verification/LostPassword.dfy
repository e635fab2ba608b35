/** The encrypted form of one password, from its key words and rounds. A null byte is followed
    by others, so that a copy that stops at a null loses the password. */
module LostPassword {
  import opened Des
  import opened VncAuth
  import opened WorkedRounds
  import FixedKeyWords

  /** The block of the password, a single t. */
  const BLOCK: seq<bv8> := [116, 0, 0, 0, 0, 0, 0, 0]

  lemma StartIs()
    ensures InitialSwaps(Scrunched(BLOCK)) == START
  {
    assert Scrunched(BLOCK) == Halves(0x74000000, 0);
  }

  lemma WordsAre()
    ensures Schedule(FIXED_KEY, false) == FixedKeyWords.WORDS
  {
    hide ScheduleWord;
    var s, words := Schedule(FIXED_KEY, false), FixedKeyWords.WORDS;
    forall m | 0 <= m < 32
      ensures s[m] == words[m]
    {
      WordIs(m);
    }
    SameWords(s, words);
  }

  lemma SameWords(s: seq<bv32>, t: seq<bv32>)
    requires |s| == |t| && forall m :: 0 <= m < |s| ==> s[m] == t[m]
    ensures s == t
  {
  }

  lemma WordIs(m: nat)
    requires m < 32
    ensures Schedule(FIXED_KEY, false)[m] == FixedKeyWords.WORDS[m]
  {
    hide ScheduleWord;
    hide FixedKeyWords.WORDS;
    FixedKeyWords.Words(m / 2);
    SameKey();
    hide FIXED_KEY;
    assert Schedule(FIXED_KEY, false)[m] == ScheduleWord(FIXED_KEY, m / 2, m % 2 == 1);
    assert m == 2 * (m / 2) + m % 2;
  }

  lemma SameKey()
    ensures FIXED_KEY == FixedKeyWords.KEY && |FixedKeyWords.WORDS| == 32
  {
  }

  lemma CipherIs()
    ensures Encrypted(BLOCK, FIXED_KEY) == [162, 235, 137, 229, 183, 0, 116, 225]
  {
    StartIs();
    WordsAre();
    After16();
    hide Scrunched;
    hide Rounds;
    hide InitialSwaps;
    hide Schedule;
    assert FinalSwaps(END) == Halves(0xa2eb89e5, 0xb70074e1);
    hide FinalSwaps;
  }

  /** vncEncryptPasswd of the password t: the null in the sixth byte is followed by others,
      and what the string decrypts to is not the password. */
  lemma PasswordLost()
    ensures IsCString([116]) && !NullsLast(Encrypted(Padded([116]), FIXED_KEY))
    ensures Decrypted(Strncpy(Encrypted(Padded([116]), FIXED_KEY)), FIXED_KEY) != Padded([116])
  {
    hide Encrypted;
    hide Decrypted;
    assert Padded([116]) == BLOCK;
    CipherIs();
    var e := Encrypted(BLOCK, FIXED_KEY);
    assert e[5] == 0 && e[6] == 116;
    EncryptPasswdReadsBack([116]);
  }
}
