/** The sixteen rounds under the fixed key, for the block of the password t. */
module WorkedRounds {
  import opened Des
  import opened DesTables
  import opened FixedKeyWords

  const START := Halves(0x02020200, 0x00020000)
  const END := Halves(0x3fb60c27, 0x94a0b13d)

  /** Four boxes, from where they are read and what is there. */
  lemma OddBoxes(w: bv32, i0: nat, i1: nat, i2: nat, i3: nat, v0: bv32, v1: bv32, v2: bv32, v3: bv32)
    requires i0 < 64 && i1 < 64 && i2 < 64 && i3 < 64
    requires Six(w) == i0 && Six(ShiftRight(w, 8)) == i1 && Six(ShiftRight(w, 16)) == i2 && Six(ShiftRight(w, 24)) == i3
    requires SP7[i0] == v0 && SP5[i1] == v1 && SP3[i2] == v2 && SP1[i3] == v3
    ensures Boxes(w, 7, 5, 3, 1) == Or(Or(Or(v0, v1), v2), v3)
  {
    hide Or;
  }

  lemma EvenBoxes(w: bv32, i0: nat, i1: nat, i2: nat, i3: nat, v0: bv32, v1: bv32, v2: bv32, v3: bv32)
    requires i0 < 64 && i1 < 64 && i2 < 64 && i3 < 64
    requires Six(w) == i0 && Six(ShiftRight(w, 8)) == i1 && Six(ShiftRight(w, 16)) == i2 && Six(ShiftRight(w, 24)) == i3
    requires SP8[i0] == v0 && SP6[i1] == v1 && SP4[i2] == v2 && SP2[i3] == v3
    ensures Boxes(w, 8, 6, 4, 2) == Or(Or(Or(v0, v1), v2), v3)
  {
    hide Or;
  }

  lemma Odd1()
    ensures Boxes(0x292b000b, 7, 5, 3, 1) == 0x0c010302
  {
    hide Boxes;
    OddBoxes(0x292b000b, 11, 0, 43, 41, 0x04000002, 0x00000100, 0x08000200, 0x00010000);
  }

  lemma Even1()
    ensures Boxes(0x39342e0a, 8, 6, 4, 2) == 0x10c45041
  {
    hide Boxes;
    EvenBoxes(0x39342e0a, 10, 46, 52, 57, 0x10041040, 0x00404000, 0x00800001, 0x00000000);
  }

  lemma Round1()
    ensures Round(Halves(0x02020200, 0x00020000), true, 0x292b200b, 0x39362e0a) == Halves(0x1ec75143, 0x00020000)
  {
    Odd1();
    Even1();
    hide Boxes;
  }

  lemma Odd2()
    ensures Boxes(0x0df06520, 7, 5, 3, 1) == 0x0f09020c
  {
    hide Boxes;
    OddBoxes(0x0df06520, 32, 37, 48, 13, 0x04000000, 0x02080000, 0x08000208, 0x01010004);
  }

  lemma Even2()
    ensures Boxes(0x13dc4348, 8, 6, 4, 2) == 0x20446050
  {
    hide Boxes;
    EvenBoxes(0x13dc4348, 8, 3, 28, 19, 0x00040040, 0x20404010, 0x00002000, 0x00000000);
  }

  lemma Round2()
    ensures Round(Halves(0x1ec75143, 0x00020000), false, 0x3c1c1034, 0x0d1b120b) == Halves(0x1ec75143, 0x2f4f625c)
  {
    Odd2();
    Even2();
    hide Boxes;
  }

  lemma Odd3()
    ensures Boxes(0xdbd9fd25, 7, 5, 3, 1) == 0x442b0206
  {
    hide Boxes;
    OddBoxes(0xdbd9fd25, 37, 61, 25, 27, 0x04200002, 0x40080000, 0x00020200, 0x00010004);
  }

  lemma Even3()
    ensures Boxes(0x36584340, 8, 6, 4, 2) == 0xb0c050f1
  {
    hide Boxes;
    EvenBoxes(0x36584340, 0, 3, 24, 54, 0x10001040, 0x20404010, 0x00800081, 0x80000020);
  }

  lemma Round3()
    ensures Round(Halves(0x1ec75143, 0x2f4f625c), true, 0x192d0b00, 0x1917211c) == Halves(0xea2c03b4, 0x2f4f625c)
  {
    Odd3();
    Even3();
    hide Boxes;
  }

  lemma Odd4()
    ensures Boxes(0x4781d03c, 7, 5, 3, 1) == 0x0e030202
  {
    hide Boxes;
    OddBoxes(0x4781d03c, 60, 16, 1, 7, 0x04000002, 0x02000000, 0x08020200, 0x00010000);
  }

  lemma Even4()
    ensures Boxes(0xd53b1692, 8, 6, 4, 2) == 0x1080b011
  {
    hide Boxes;
    EvenBoxes(0xd53b1692, 18, 22, 59, 21, 0x10001000, 0x00000010, 0x00802001, 0x00008000);
  }

  lemma Round4()
    ensures Round(Halves(0xea2c03b4, 0x2f4f625c), false, 0x09231007, 0x3f171526) == Halves(0xea2c03b4, 0x31ccd04f)
  {
    Odd4();
    Even4();
    hide Boxes;
  }

  lemma Odd5()
    ensures Boxes(0xfc0bcc26, 7, 5, 3, 1) == 0x46230106
  {
    hide Boxes;
    OddBoxes(0xfc0bcc26, 38, 12, 11, 60, 0x04200002, 0x42000100, 0x00020000, 0x00010004);
  }

  lemma Even5()
    ensures Boxes(0x07fed866, 8, 6, 4, 2) == 0xa040b030
  {
    hide Boxes;
    EvenBoxes(0x07fed866, 38, 24, 62, 7, 0x00001000, 0x20400010, 0x00002000, 0x80008020);
  }

  lemma Round5()
    ensures Round(Halves(0xea2c03b4, 0x31ccd04f), true, 0x0f170122, 0x36320829) == Halves(0x0c4fb282, 0x31ccd04f)
  {
    Odd5();
    Even5();
    hide Boxes;
  }

  lemma Odd6()
    ensures Boxes(0x1fd2cb19, 7, 5, 3, 1) == 0x490a0b00
  {
    hide Boxes;
    OddBoxes(0x1fd2cb19, 25, 11, 18, 31, 0x00000800, 0x40080100, 0x08020200, 0x01000000);
  }

  lemma Even6()
    ensures Boxes(0x28769397, 8, 6, 4, 2) == 0x90947080
  {
    hide Boxes;
    EvenBoxes(0x28769397, 23, 19, 54, 40, 0x10041000, 0x00004000, 0x00802080, 0x80100000);
  }

  lemma Round6()
    ensures Round(Halves(0x0c4fb282, 0x31ccd04f), false, 0x3f163031, 0x24392115) == Halves(0x0c4fb282, 0xe852abcf)
  {
    Odd6();
    Even6();
    hide Boxes;
  }

  lemma Odd7()
    ensures Boxes(0xc98928b2, 7, 5, 3, 1) == 0x0f210d0a
  {
    hide Boxes;
    OddBoxes(0xc98928b2, 50, 40, 9, 9, 0x04200802, 0x02000100, 0x08000008, 0x01010400);
  }

  lemma Even7()
    ensures Boxes(0xd04f93f7, 8, 6, 4, 2) == 0x0090c001
  {
    hide Boxes;
    EvenBoxes(0xd04f93f7, 55, 19, 15, 16, 0x00000000, 0x00004000, 0x00800001, 0x00108000);
  }

  lemma Round7()
    ensures Round(Halves(0x0c4fb282, 0xe852abcf), true, 0x370c020e, 0x381d3838) == Halves(0x03fe7f89, 0xe852abcf)
  {
    Odd7();
    Even7();
    hide Boxes;
  }

  lemma Odd8()
    ensures Boxes(0x9315e3cc, 7, 5, 3, 1) == 0x0a030402
  {
    hide Boxes;
    OddBoxes(0x9315e3cc, 12, 35, 21, 19, 0x00000002, 0x02000000, 0x08020000, 0x00010400);
  }

  lemma Even8()
    ensures Boxes(0x3ae16a88, 8, 6, 4, 2) == 0xa0848041
  {
    hide Boxes;
    EvenBoxes(0x3ae16a88, 8, 42, 33, 58, 0x00040040, 0x20000000, 0x00800001, 0x80008000);
  }

  lemma Round8()
    ensures Round(Halves(0x03fe7f89, 0xe852abcf), false, 0x032a0434, 0x391f1501) == Halves(0x03fe7f89, 0x42d52f8c)
  {
    Odd8();
    Even8();
    hide Boxes;
  }

  lemma Odd9()
    ensures Boxes(0xfa335dd1, 7, 5, 3, 1) == 0x0b220e0a
  {
    hide Boxes;
    OddBoxes(0xfa335dd1, 17, 29, 51, 58, 0x00200802, 0x02000000, 0x08020208, 0x01000400);
  }

  lemma Even9()
    ensures Boxes(0x54dc2e88, 8, 6, 4, 2) == 0x80446040
  {
    hide Boxes;
    EvenBoxes(0x54dc2e88, 8, 46, 28, 20, 0x00040040, 0x00404000, 0x00002000, 0x80000000);
  }

  lemma Round9()
    ensures Round(Halves(0x03fe7f89, 0x42d52f8c), true, 0x3e1e0f29, 0x16090104) == Halves(0x889811c3, 0x42d52f8c)
  {
    Odd9();
    Even9();
    hide Boxes;
  }

  lemma Odd10()
    ensures Boxes(0x2cb7a51f, 7, 5, 3, 1) == 0x0a280c08
  {
    hide Boxes;
    OddBoxes(0x2cb7a51f, 31, 37, 55, 44, 0x00200800, 0x02080000, 0x08000008, 0x00000400);
  }

  lemma Even10()
    ensures Boxes(0x91851df1, 8, 6, 4, 2) == 0x10d450e1
  {
    hide Boxes;
    EvenBoxes(0x91851df1, 49, 29, 5, 17, 0x10041040, 0x00404000, 0x00800081, 0x00100020);
  }

  lemma Round10()
    ensures Round(Halves(0x889811c3, 0x42d52f8c), false, 0x143e2403, 0x191d0c32) == Halves(0x889811c3, 0x58297365)
  {
    Odd10();
    Even10();
    hide Boxes;
  }

  lemma Odd11()
    ensures Boxes(0x40a1960e, 7, 5, 3, 1) == 0x4f290502
  {
    hide Boxes;
    OddBoxes(0x40a1960e, 14, 22, 33, 0, 0x04200002, 0x42080100, 0x08000000, 0x01010400);
  }

  lemma Even11()
    ensures Boxes(0x433e6964, 8, 6, 4, 2) == 0x2010e060
  {
    hide Boxes;
    EvenBoxes(0x433e6964, 36, 41, 62, 3, 0x00000040, 0x20004000, 0x00002000, 0x00108020);
  }

  lemma Round11()
    ensures Round(Halves(0x889811c3, 0x58297365), true, 0x15230138, 0x1b171a01) == Halves(0xe7a1f4a1, 0x58297365)
  {
    Odd11();
    Even11();
    hide Boxes;
  }

  lemma Odd12()
    ensures Boxes(0x1349315b, 7, 5, 3, 1) == 0x0c290d0a
  {
    hide Boxes;
    OddBoxes(0x1349315b, 27, 49, 9, 19, 0x04200802, 0x00080100, 0x08000008, 0x00010400);
  }

  lemma Even12()
    ensures Boxes(0xd987d6b1, 8, 6, 4, 2) == 0x90043071
  {
    hide Boxes;
    EvenBoxes(0xd987d6b1, 49, 22, 7, 25, 0x10041040, 0x00000010, 0x00002001, 0x80000020);
  }

  lemma Round12()
    ensures Round(Halves(0xe7a1f4a1, 0x58297365), false, 0x0d332e11, 0x3e262210) == Halves(0xe7a1f4a1, 0xc4044e1e)
  {
    Odd12();
    Even12();
    hide Boxes;
  }

  lemma Odd13()
    ensures Boxes(0xd2564eed, 7, 5, 3, 1) == 0x090a0d0a
  {
    hide Boxes;
    OddBoxes(0xd2564eed, 45, 14, 22, 18, 0x00000802, 0x00080100, 0x08020008, 0x01000400);
  }

  lemma Even13()
    ensures Boxes(0xe2225218, 8, 6, 4, 2) == 0xa0907070
  {
    hide Boxes;
    EvenBoxes(0xe2225218, 24, 18, 34, 34, 0x00001040, 0x20004010, 0x00802000, 0x80100020);
  }

  lemma Round13()
    ensures Round(Halves(0xe7a1f4a1, 0xc4044e1e), true, 0x3e160a0c, 0x26261c06) == Halves(0x4e3b89db, 0xc4044e1e)
  {
    Odd13();
    Even13();
    hide Boxes;
  }

  lemma Odd14()
    ensures Boxes(0x8affbd8f, 7, 5, 3, 1) == 0x410b0e06
  {
    hide Boxes;
    OddBoxes(0x8affbd8f, 15, 61, 63, 10, 0x00000802, 0x40080000, 0x00020200, 0x01010404);
  }

  lemma Even14()
    ensures Boxes(0x46068fd9, 8, 6, 4, 2) == 0x80904031
  {
    hide Boxes;
    EvenBoxes(0x46068fd9, 25, 15, 6, 6, 0x00000000, 0x00004010, 0x00800001, 0x80100020);
  }

  lemma Round14()
    ensures Round(Halves(0x4e3b89db, 0xc4044e1e), false, 0x3e1c0512, 0x083d0602) == Halves(0x4e3b89db, 0x059f0029)
  {
    Odd14();
    Even14();
    hide Boxes;
  }

  lemma Odd15()
    ensures Boxes(0xa151cb03, 7, 5, 3, 1) == 0x4109050c
  {
    hide Boxes;
    OddBoxes(0xa151cb03, 3, 11, 17, 33, 0x00000000, 0x40080100, 0x00000008, 0x01010404);
  }

  lemma Even15()
    ensures Boxes(0x1ca0002c, 8, 6, 4, 2) == 0x308480f0
  {
    hide Boxes;
    EvenBoxes(0x1ca0002c, 44, 0, 32, 28, 0x10040040, 0x20000010, 0x00800080, 0x00008020);
  }

  lemma Round15()
    ensures Round(Halves(0x4e3b89db, 0x059f0029), true, 0x31083b01, 0x193f0005) == Halves(0x3fb60c27, 0x059f0029)
  {
    Odd15();
    Even15();
    hide Boxes;
  }

  lemma Odd16()
    ensures Boxes(0x4de478c0, 7, 5, 3, 1) == 0x012b0104
  {
    hide Boxes;
    OddBoxes(0x4de478c0, 0, 56, 36, 13, 0x00200000, 0x00080100, 0x00020000, 0x01010004);
  }

  lemma Even16()
    ensures Boxes(0x319c3417, 8, 6, 4, 2) == 0x9014b010
  {
    hide Boxes;
    EvenBoxes(0x319c3417, 23, 52, 28, 49, 0x10041000, 0x00000010, 0x00002000, 0x80108000);
  }

  lemma Round16()
    ensures Round(Halves(0x3fb60c27, 0x059f0029), false, 0x3e1f1802, 0x0e2a3830) == Halves(0x3fb60c27, 0x94a0b13d)
  {
    Odd16();
    Even16();
    hide Boxes;
  }

  lemma After4()
    ensures Rounds(START, WORDS, 4) == Halves(0xea2c03b4, 0x31ccd04f)
  {
    hide Round;
    Round1();
    assert Rounds(START, WORDS, 1) == Halves(0x1ec75143, 0x00020000);
    Round2();
    assert Rounds(START, WORDS, 2) == Halves(0x1ec75143, 0x2f4f625c);
    Round3();
    assert Rounds(START, WORDS, 3) == Halves(0xea2c03b4, 0x2f4f625c);
    Round4();
    assert Rounds(START, WORDS, 4) == Halves(0xea2c03b4, 0x31ccd04f);
  }

  lemma After8()
    ensures Rounds(START, WORDS, 8) == Halves(0x03fe7f89, 0x42d52f8c)
  {
    hide Round;
    After4();
    Round5();
    assert Rounds(START, WORDS, 5) == Halves(0x0c4fb282, 0x31ccd04f);
    Round6();
    assert Rounds(START, WORDS, 6) == Halves(0x0c4fb282, 0xe852abcf);
    Round7();
    assert Rounds(START, WORDS, 7) == Halves(0x03fe7f89, 0xe852abcf);
    Round8();
    assert Rounds(START, WORDS, 8) == Halves(0x03fe7f89, 0x42d52f8c);
  }

  lemma After12()
    ensures Rounds(START, WORDS, 12) == Halves(0xe7a1f4a1, 0xc4044e1e)
  {
    hide Round;
    After8();
    Round9();
    assert Rounds(START, WORDS, 9) == Halves(0x889811c3, 0x42d52f8c);
    Round10();
    assert Rounds(START, WORDS, 10) == Halves(0x889811c3, 0x58297365);
    Round11();
    assert Rounds(START, WORDS, 11) == Halves(0xe7a1f4a1, 0x58297365);
    Round12();
    assert Rounds(START, WORDS, 12) == Halves(0xe7a1f4a1, 0xc4044e1e);
  }

  lemma After16()
    ensures Rounds(START, WORDS, 16) == Halves(0x3fb60c27, 0x94a0b13d)
  {
    hide Round;
    After12();
    Round13();
    assert Rounds(START, WORDS, 13) == Halves(0x4e3b89db, 0xc4044e1e);
    Round14();
    assert Rounds(START, WORDS, 14) == Halves(0x4e3b89db, 0x059f0029);
    Round15();
    assert Rounds(START, WORDS, 15) == Halves(0x3fb60c27, 0x059f0029);
    Round16();
    assert Rounds(START, WORDS, 16) == Halves(0x3fb60c27, 0x94a0b13d);
  }
}
