/** The key words that the fixed key of vncauth.c stands for. */
module FixedKeyWords {
  import opened Des
  import opened DesTables
  import opened KeyHalves

  const KEY: seq<bv8> := [23, 82, 107, 6, 35, 78, 88, 7]

  /** The halves of the selected bits of KEY. */
  const LEFT: bv32 := 0x95bfa96
  const RIGHT: bv32 := 0x6614434

  const WORDS: seq<bv32> :=
    [0x292b200b, 0x39362e0a, 0x3c1c1034, 0x0d1b120b, 0x192d0b00, 0x1917211c, 0x09231007, 0x3f171526] +
    [0x0f170122, 0x36320829, 0x3f163031, 0x24392115, 0x370c020e, 0x381d3838, 0x032a0434, 0x391f1501] +
    [0x3e1e0f29, 0x16090104, 0x143e2403, 0x191d0c32, 0x15230138, 0x1b171a01, 0x0d332e11, 0x3e262210] +
    [0x3e160a0c, 0x26261c06, 0x3e1c0512, 0x083d0602, 0x31083b01, 0x193f0005, 0x3e1f1802, 0x0e2a3830]

  predicate KeyBit(j: nat)
    requires j < 56
  {
    KEY[PC1[j] / 8] & BYTEBIT[PC1[j] % 8] != 0
  }

  lemma KeyBitAt(j: nat)
    requires j < 56
    ensures KeyBits(KEY)[j] == KeyBit(j)
  {
  }

  lemma Left0()
    ensures
      && KeyBit(0) == (And(LEFT, 0x8000000) != 0) && KeyBit(1) == (And(LEFT, 0x4000000) != 0)
      && KeyBit(2) == (And(LEFT, 0x2000000) != 0) && KeyBit(3) == (And(LEFT, 0x1000000) != 0)
      && KeyBit(4) == (And(LEFT, 0x800000) != 0) && KeyBit(5) == (And(LEFT, 0x400000) != 0)
      && KeyBit(6) == (And(LEFT, 0x200000) != 0)
  {
  }

  lemma Left7()
    ensures
      && KeyBit(7) == (And(LEFT, 0x100000) != 0) && KeyBit(8) == (And(LEFT, 0x80000) != 0)
      && KeyBit(9) == (And(LEFT, 0x40000) != 0) && KeyBit(10) == (And(LEFT, 0x20000) != 0)
      && KeyBit(11) == (And(LEFT, 0x10000) != 0) && KeyBit(12) == (And(LEFT, 0x8000) != 0)
      && KeyBit(13) == (And(LEFT, 0x4000) != 0)
  {
  }

  lemma Left14()
    ensures
      && KeyBit(14) == (And(LEFT, 0x2000) != 0) && KeyBit(15) == (And(LEFT, 0x1000) != 0)
      && KeyBit(16) == (And(LEFT, 0x800) != 0) && KeyBit(17) == (And(LEFT, 0x400) != 0)
      && KeyBit(18) == (And(LEFT, 0x200) != 0) && KeyBit(19) == (And(LEFT, 0x100) != 0)
      && KeyBit(20) == (And(LEFT, 0x80) != 0)
  {
  }

  lemma Left21()
    ensures
      && KeyBit(21) == (And(LEFT, 0x40) != 0) && KeyBit(22) == (And(LEFT, 0x20) != 0)
      && KeyBit(23) == (And(LEFT, 0x10) != 0) && KeyBit(24) == (And(LEFT, 0x8) != 0)
      && KeyBit(25) == (And(LEFT, 0x4) != 0) && KeyBit(26) == (And(LEFT, 0x2) != 0)
      && KeyBit(27) == (And(LEFT, 0x1) != 0)
  {
  }

  lemma LeftTop(j: nat)
    requires j < 28
    ensures KeyBit(j) == (And(LEFT, TOP[j]) != 0)
  {
    Left0(); Left7(); Left14(); Left21();
    Tops();
    hide TOP;
    hide And;
    hide KeyBit;
  }

  lemma LeftHolds()
    ensures Holds(KeyBits(KEY)[..28], LEFT)
  {
    var p := KeyBits(KEY)[..28];
    assert And(LEFT, 0xfffffff) == LEFT;
    hide TOP;
    hide And;
    forall j | 0 <= j < 28
      ensures p[j] == (And(LEFT, TOP[j]) != 0)
    {
      LeftTop(j);
      KeyBitAt(j);
    }
  }

  lemma Right0()
    ensures
      && KeyBit(28) == (And(RIGHT, 0x8000000) != 0) && KeyBit(29) == (And(RIGHT, 0x4000000) != 0)
      && KeyBit(30) == (And(RIGHT, 0x2000000) != 0) && KeyBit(31) == (And(RIGHT, 0x1000000) != 0)
      && KeyBit(32) == (And(RIGHT, 0x800000) != 0) && KeyBit(33) == (And(RIGHT, 0x400000) != 0)
      && KeyBit(34) == (And(RIGHT, 0x200000) != 0)
  {
  }

  lemma Right7()
    ensures
      && KeyBit(35) == (And(RIGHT, 0x100000) != 0) && KeyBit(36) == (And(RIGHT, 0x80000) != 0)
      && KeyBit(37) == (And(RIGHT, 0x40000) != 0) && KeyBit(38) == (And(RIGHT, 0x20000) != 0)
      && KeyBit(39) == (And(RIGHT, 0x10000) != 0) && KeyBit(40) == (And(RIGHT, 0x8000) != 0)
      && KeyBit(41) == (And(RIGHT, 0x4000) != 0)
  {
  }

  lemma Right14()
    ensures
      && KeyBit(42) == (And(RIGHT, 0x2000) != 0) && KeyBit(43) == (And(RIGHT, 0x1000) != 0)
      && KeyBit(44) == (And(RIGHT, 0x800) != 0) && KeyBit(45) == (And(RIGHT, 0x400) != 0)
      && KeyBit(46) == (And(RIGHT, 0x200) != 0) && KeyBit(47) == (And(RIGHT, 0x100) != 0)
      && KeyBit(48) == (And(RIGHT, 0x80) != 0)
  {
  }

  lemma Right21()
    ensures
      && KeyBit(49) == (And(RIGHT, 0x40) != 0) && KeyBit(50) == (And(RIGHT, 0x20) != 0)
      && KeyBit(51) == (And(RIGHT, 0x10) != 0) && KeyBit(52) == (And(RIGHT, 0x8) != 0)
      && KeyBit(53) == (And(RIGHT, 0x4) != 0) && KeyBit(54) == (And(RIGHT, 0x2) != 0)
      && KeyBit(55) == (And(RIGHT, 0x1) != 0)
  {
  }

  lemma RightTop(j: nat)
    requires j < 28
    ensures KeyBit(28 + j) == (And(RIGHT, TOP[j]) != 0)
  {
    Right0(); Right7(); Right14(); Right21();
    Tops();
    hide TOP;
    hide And;
    hide KeyBit;
  }

  lemma RightHolds()
    ensures Holds(KeyBits(KEY)[28..], RIGHT)
  {
    var p := KeyBits(KEY)[28..];
    assert And(RIGHT, 0xfffffff) == RIGHT;
    hide TOP;
    hide And;
    forall j | 0 <= j < 28
      ensures p[j] == (And(RIGHT, TOP[j]) != 0)
    {
      RightTop(j);
      KeyBitAt(28 + j);
    }
  }

  lemma AllTurned()
    ensures
      && Turned(LEFT, 1) == 0x2b7f52d && Turned(RIGHT, 1) == 0xcc28868
      && Turned(LEFT, 2) == 0x56fea5a && Turned(RIGHT, 2) == 0x98510d1
      && Turned(LEFT, 3) == 0xadfd4b4 && Turned(RIGHT, 3) == 0x30a21a3
      && Turned(LEFT, 4) == 0x5bfa969 && Turned(RIGHT, 4) == 0x6144346
      && Turned(LEFT, 5) == 0xb7f52d2 && Turned(RIGHT, 5) == 0xc28868c
      && Turned(LEFT, 6) == 0x6fea5a5 && Turned(RIGHT, 6) == 0x8510d19
      && Turned(LEFT, 7) == 0xdfd4b4a && Turned(RIGHT, 7) == 0x0a21a33
      && Turned(LEFT, 8) == 0xbfa9695 && Turned(RIGHT, 8) == 0x1443466
      && Turned(LEFT, 9) == 0x7f52d2b && Turned(RIGHT, 9) == 0x28868cc
      && Turned(LEFT, 10) == 0xfea5a56 && Turned(RIGHT, 10) == 0x510d198
      && Turned(LEFT, 11) == 0xfd4b4ad && Turned(RIGHT, 11) == 0xa21a330
      && Turned(LEFT, 12) == 0xfa9695b && Turned(RIGHT, 12) == 0x4434661
      && Turned(LEFT, 13) == 0xf52d2b7 && Turned(RIGHT, 13) == 0x8868cc2
      && Turned(LEFT, 14) == 0xea5a56f && Turned(RIGHT, 14) == 0x10d1985
      && Turned(LEFT, 15) == 0xd4b4adf && Turned(RIGHT, 15) == 0x21a330a
      && Turned(LEFT, 16) == 0xa9695bf && Turned(RIGHT, 16) == 0x4346614
      && Turned(LEFT, 17) == 0x52d2b7f && Turned(RIGHT, 17) == 0x868cc28
      && Turned(LEFT, 18) == 0xa5a56fe && Turned(RIGHT, 18) == 0x0d19851
      && Turned(LEFT, 19) == 0x4b4adfd && Turned(RIGHT, 19) == 0x1a330a2
      && Turned(LEFT, 20) == 0x9695bfa && Turned(RIGHT, 20) == 0x3466144
      && Turned(LEFT, 21) == 0x2d2b7f5 && Turned(RIGHT, 21) == 0x68cc288
      && Turned(LEFT, 22) == 0x5a56fea && Turned(RIGHT, 22) == 0xd198510
      && Turned(LEFT, 23) == 0xb4adfd4 && Turned(RIGHT, 23) == 0xa330a21
      && Turned(LEFT, 24) == 0x695bfa9 && Turned(RIGHT, 24) == 0x4661443
      && Turned(LEFT, 25) == 0xd2b7f52 && Turned(RIGHT, 25) == 0x8cc2886
      && Turned(LEFT, 26) == 0xa56fea5 && Turned(RIGHT, 26) == 0x198510d
      && Turned(LEFT, 27) == 0x4adfd4b && Turned(RIGHT, 27) == 0x330a21a
      && Turned(LEFT, 28) == 0x95bfa96 && Turned(RIGHT, 28) == 0x6614434
  {
  }

  lemma WordsFrom(i: nat, left: bv32, right: bv32)
    requires i < 16 && left == Turned(LEFT, TOTROT[i]) && right == Turned(RIGHT, TOTROT[i])
    ensures ScheduleWord(KEY, i, false) == Cooked(LowWord(left), HighWord(right), false)
    ensures ScheduleWord(KEY, i, true) == Cooked(LowWord(left), HighWord(right), true)
  {
    hide RawWord;
    hide LowWord;
    hide HighWord;
    hide Holds;
    hide Turned;
    LeftHolds();
    RightHolds();
    RawIs(KEY, LEFT, RIGHT, i);
    LowIs(left);
    HighIs(right);
    hide Cooked;
  }

  /** The words of round i are in WORDS. */
  ghost predicate WordsOf(i: nat)
    requires i < 16
  {
    ScheduleWord(KEY, i, false) == WORDS[2 * i] && ScheduleWord(KEY, i, true) == WORDS[2 * i + 1]
  }

  lemma Raw0()
    ensures LowWord(0x2b7f52d) == 0xa79af6 && HighWord(0xcc28868) == 0x82e2ca
  {
  }

  lemma Words0()
    ensures WordsOf(0)
  {
    hide ScheduleWord;
    hide Turned;
    hide LowWord;
    hide HighWord;
    assert Turned(LEFT, 1) == 0x2b7f52d && Turned(RIGHT, 1) == 0xcc28868 by { AllTurned(); }
    WordsFrom(0, 0x2b7f52d, 0xcc28868);
    Raw0();
  }

  lemma Raw1()
    ensures LowWord(0x56fea5a) == 0xf0d71b && HighWord(0x98510d1) == 0x412d0b
  {
  }

  lemma Words1()
    ensures WordsOf(1)
  {
    hide ScheduleWord;
    hide Turned;
    hide LowWord;
    hide HighWord;
    assert Turned(LEFT, 2) == 0x56fea5a && Turned(RIGHT, 2) == 0x98510d1 by { AllTurned(); }
    WordsFrom(1, 0x56fea5a, 0x98510d1);
    Raw1();
  }

  lemma Raw2()
    ensures LowWord(0x5bfa969) == 0x659b57 && HighWord(0x6144346) == 0x2e101c
  {
  }

  lemma Words2()
    ensures WordsOf(2)
  {
    hide ScheduleWord;
    hide Turned;
    hide LowWord;
    hide HighWord;
    assert Turned(LEFT, 4) == 0x5bfa969 && Turned(RIGHT, 4) == 0x6144346 by { AllTurned(); }
    WordsFrom(2, 0x5bfa969, 0x6144346);
    Raw2();
  }

  lemma Raw3()
    ensures LowWord(0x6fea5a5) == 0x27f8d7 && HighWord(0x8510d19) == 0x4151e6
  {
  }

  lemma Words3()
    ensures WordsOf(3)
  {
    hide ScheduleWord;
    hide Turned;
    hide LowWord;
    hide HighWord;
    assert Turned(LEFT, 6) == 0x6fea5a5 && Turned(RIGHT, 6) == 0x8510d19 by { AllTurned(); }
    WordsFrom(3, 0x6fea5a5, 0x8510d19);
    Raw3();
  }

  lemma Raw4()
    ensures LowWord(0xbfa9695) == 0x3f65f2 && HighWord(0x1443466) == 0x0488a9
  {
  }

  lemma Words4()
    ensures WordsOf(4)
  {
    hide ScheduleWord;
    hide Turned;
    hide LowWord;
    hide HighWord;
    assert Turned(LEFT, 8) == 0xbfa9695 && Turned(RIGHT, 8) == 0x1443466 by { AllTurned(); }
    WordsFrom(4, 0xbfa9695, 0x1443466);
    Raw4();
  }

  lemma Raw5()
    ensures LowWord(0xfea5a56) == 0xfe45b9 && HighWord(0x510d198) == 0xc21c55
  {
  }

  lemma Words5()
    ensures WordsOf(5)
  {
    hide ScheduleWord;
    hide Turned;
    hide LowWord;
    hide HighWord;
    assert Turned(LEFT, 10) == 0xfea5a56 && Turned(RIGHT, 10) == 0x510d198 by { AllTurned(); }
    WordsFrom(5, 0xfea5a56, 0x510d198);
    Raw5();
  }

  lemma Raw6()
    ensures LowWord(0xfa9695b) == 0xdf831d && HighWord(0x4434661) == 0x0b83b8
  {
  }

  lemma Words6()
    ensures WordsOf(6)
  {
    hide ScheduleWord;
    hide Turned;
    hide LowWord;
    hide HighWord;
    assert Turned(LEFT, 12) == 0xfa9695b && Turned(RIGHT, 12) == 0x4434661 by { AllTurned(); }
    WordsFrom(6, 0xfa9695b, 0x4434661);
    Raw6();
  }

  lemma Raw7()
    ensures LowWord(0xea5a56f) == 0x0f9a9f && HighWord(0x10d1985) == 0x115d01
  {
  }

  lemma Words7()
    ensures WordsOf(7)
  {
    hide ScheduleWord;
    hide Turned;
    hide LowWord;
    hide HighWord;
    assert Turned(LEFT, 14) == 0xea5a56f && Turned(RIGHT, 14) == 0x10d1985 by { AllTurned(); }
    WordsFrom(7, 0xea5a56f, 0x10d1985);
    Raw7();
  }

  lemma Raw8()
    ensures LowWord(0xd4b4adf) == 0xf96789 && HighWord(0x21a330a) == 0x3c1a44
  {
  }

  lemma Words8()
    ensures WordsOf(8)
  {
    hide ScheduleWord;
    hide Turned;
    hide LowWord;
    hide HighWord;
    assert Turned(LEFT, 15) == 0xd4b4adf && Turned(RIGHT, 15) == 0x21a330a by { AllTurned(); }
    WordsFrom(8, 0xd4b4adf, 0x21a330a);
    Raw8();
  }

  lemma Raw9()
    ensures LowWord(0x52d2b7f) == 0x519f9d && HighWord(0x868cc28) == 0x90c0f2
  {
  }

  lemma Words9()
    ensures WordsOf(9)
  {
    hide ScheduleWord;
    hide Turned;
    hide LowWord;
    hide HighWord;
    assert Turned(LEFT, 17) == 0x52d2b7f && Turned(RIGHT, 17) == 0x868cc28 by { AllTurned(); }
    WordsFrom(9, 0x52d2b7f, 0x868cc28);
    Raw9();
  }

  lemma Raw10()
    ensures LowWord(0x4b4adfd) == 0x55b8d7 && HighWord(0x1a330a2) == 0x05ae01
  {
  }

  lemma Words10()
    ensures WordsOf(10)
  {
    hide ScheduleWord;
    hide Turned;
    hide LowWord;
    hide HighWord;
    assert Turned(LEFT, 19) == 0x4b4adfd && Turned(RIGHT, 19) == 0x1a330a2 by { AllTurned(); }
    WordsFrom(10, 0x4b4adfd, 0x1a330a2);
    Raw10();
  }

  lemma Raw11()
    ensures LowWord(0x2d2b7f5) == 0x37ece6 && HighWord(0x68cc288) == 0xba2450
  {
  }

  lemma Words11()
    ensures WordsOf(11)
  {
    hide ScheduleWord;
    hide Turned;
    hide LowWord;
    hide HighWord;
    assert Turned(LEFT, 21) == 0x2d2b7f5 && Turned(RIGHT, 21) == 0x68cc288 by { AllTurned(); }
    WordsFrom(11, 0x2d2b7f5, 0x68cc288);
    Raw11();
  }

  lemma Raw12()
    ensures LowWord(0xb4adfd4) == 0xfa65a6 && HighWord(0xa330a21) == 0x29c306
  {
  }

  lemma Words12()
    ensures WordsOf(12)
  {
    hide ScheduleWord;
    hide Turned;
    hide LowWord;
    hide HighWord;
    assert Turned(LEFT, 23) == 0xb4adfd4 && Turned(RIGHT, 23) == 0xa330a21 by { AllTurned(); }
    WordsFrom(12, 0xb4adfd4, 0xa330a21);
    Raw12();
  }

  lemma Raw13()
    ensures LowWord(0xd2b7f52) == 0xf8873d && HighWord(0x8cc2886) == 0x146482
  {
  }

  lemma Words13()
    ensures WordsOf(13)
  {
    hide ScheduleWord;
    hide Turned;
    hide LowWord;
    hide HighWord;
    assert Turned(LEFT, 25) == 0xd2b7f52 && Turned(RIGHT, 25) == 0x8cc2886 by { AllTurned(); }
    WordsFrom(13, 0xd2b7f52, 0x8cc2886);
    Raw13();
  }

  lemma Raw14()
    ensures LowWord(0x4adfd4b) == 0xc5923f && HighWord(0x330a21a) == 0xec0045
  {
  }

  lemma Words14()
    ensures WordsOf(14)
  {
    hide ScheduleWord;
    hide Turned;
    hide LowWord;
    hide HighWord;
    assert Turned(LEFT, 27) == 0x4adfd4b && Turned(RIGHT, 27) == 0x330a21a by { AllTurned(); }
    WordsFrom(14, 0x4adfd4b, 0x330a21a);
    Raw14();
  }

  lemma Raw15()
    ensures LowWord(0x95bfa96) == 0xf8e7ea && HighWord(0x6614434) == 0x6380b0
  {
  }

  lemma Words15()
    ensures WordsOf(15)
  {
    hide ScheduleWord;
    hide Turned;
    hide LowWord;
    hide HighWord;
    assert Turned(LEFT, 28) == 0x95bfa96 && Turned(RIGHT, 28) == 0x6614434 by { AllTurned(); }
    WordsFrom(15, 0x95bfa96, 0x6614434);
    Raw15();
  }

  lemma Words(i: nat)
    requires i < 16
    ensures WordsOf(i)
  {
    hide WordsOf;
    Words0(); Words1(); Words2(); Words3();
    Words4(); Words5(); Words6(); Words7();
    Words8(); Words9(); Words10(); Words11();
    Words12(); Words13(); Words14(); Words15();
  }
}
