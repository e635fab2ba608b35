/** The eight boxes of d3des.c are the selection functions of the standard followed by its
    permutation P. */
module DesBoxes {
  import opened Des
  import opened DesTables
  import opened WordBits
  import F = Fips46

  /** What S has for the index i of a box, whose bits are those of the six, the first on top. */
  function Value(n: nat, i: nat): F.Nibble
    requires 1 <= n <= 8 && i < 64
  {
    F.S(n)[Row(i)][Column(i)]
  }

  function Row(i: nat): (r: nat)
    requires i < 64
    ensures r < 4
  {
    2 * (i / 32) + i % 2
  }

  function Column(i: nat): (c: nat)
    requires i < 64
    ensures c < 16
  {
    i / 2 % 16
  }

  lemma Index0(i: nat)
    requires 0 <= i < 8
    ensures
      || (i == 0 && Row(i) == 0 && Column(i) == 0)
      || (i == 1 && Row(i) == 1 && Column(i) == 0)
      || (i == 2 && Row(i) == 0 && Column(i) == 1)
      || (i == 3 && Row(i) == 1 && Column(i) == 1)
      || (i == 4 && Row(i) == 0 && Column(i) == 2)
      || (i == 5 && Row(i) == 1 && Column(i) == 2)
      || (i == 6 && Row(i) == 0 && Column(i) == 3)
      || (i == 7 && Row(i) == 1 && Column(i) == 3)
  {
  }

  lemma Index1(i: nat)
    requires 8 <= i < 16
    ensures
      || (i == 8 && Row(i) == 0 && Column(i) == 4)
      || (i == 9 && Row(i) == 1 && Column(i) == 4)
      || (i == 10 && Row(i) == 0 && Column(i) == 5)
      || (i == 11 && Row(i) == 1 && Column(i) == 5)
      || (i == 12 && Row(i) == 0 && Column(i) == 6)
      || (i == 13 && Row(i) == 1 && Column(i) == 6)
      || (i == 14 && Row(i) == 0 && Column(i) == 7)
      || (i == 15 && Row(i) == 1 && Column(i) == 7)
  {
  }

  lemma Index2(i: nat)
    requires 16 <= i < 24
    ensures
      || (i == 16 && Row(i) == 0 && Column(i) == 8)
      || (i == 17 && Row(i) == 1 && Column(i) == 8)
      || (i == 18 && Row(i) == 0 && Column(i) == 9)
      || (i == 19 && Row(i) == 1 && Column(i) == 9)
      || (i == 20 && Row(i) == 0 && Column(i) == 10)
      || (i == 21 && Row(i) == 1 && Column(i) == 10)
      || (i == 22 && Row(i) == 0 && Column(i) == 11)
      || (i == 23 && Row(i) == 1 && Column(i) == 11)
  {
  }

  lemma Index3(i: nat)
    requires 24 <= i < 32
    ensures
      || (i == 24 && Row(i) == 0 && Column(i) == 12)
      || (i == 25 && Row(i) == 1 && Column(i) == 12)
      || (i == 26 && Row(i) == 0 && Column(i) == 13)
      || (i == 27 && Row(i) == 1 && Column(i) == 13)
      || (i == 28 && Row(i) == 0 && Column(i) == 14)
      || (i == 29 && Row(i) == 1 && Column(i) == 14)
      || (i == 30 && Row(i) == 0 && Column(i) == 15)
      || (i == 31 && Row(i) == 1 && Column(i) == 15)
  {
  }

  lemma Index4(i: nat)
    requires 32 <= i < 40
    ensures
      || (i == 32 && Row(i) == 2 && Column(i) == 0)
      || (i == 33 && Row(i) == 3 && Column(i) == 0)
      || (i == 34 && Row(i) == 2 && Column(i) == 1)
      || (i == 35 && Row(i) == 3 && Column(i) == 1)
      || (i == 36 && Row(i) == 2 && Column(i) == 2)
      || (i == 37 && Row(i) == 3 && Column(i) == 2)
      || (i == 38 && Row(i) == 2 && Column(i) == 3)
      || (i == 39 && Row(i) == 3 && Column(i) == 3)
  {
  }

  lemma Index5(i: nat)
    requires 40 <= i < 48
    ensures
      || (i == 40 && Row(i) == 2 && Column(i) == 4)
      || (i == 41 && Row(i) == 3 && Column(i) == 4)
      || (i == 42 && Row(i) == 2 && Column(i) == 5)
      || (i == 43 && Row(i) == 3 && Column(i) == 5)
      || (i == 44 && Row(i) == 2 && Column(i) == 6)
      || (i == 45 && Row(i) == 3 && Column(i) == 6)
      || (i == 46 && Row(i) == 2 && Column(i) == 7)
      || (i == 47 && Row(i) == 3 && Column(i) == 7)
  {
  }

  lemma Index6(i: nat)
    requires 48 <= i < 56
    ensures
      || (i == 48 && Row(i) == 2 && Column(i) == 8)
      || (i == 49 && Row(i) == 3 && Column(i) == 8)
      || (i == 50 && Row(i) == 2 && Column(i) == 9)
      || (i == 51 && Row(i) == 3 && Column(i) == 9)
      || (i == 52 && Row(i) == 2 && Column(i) == 10)
      || (i == 53 && Row(i) == 3 && Column(i) == 10)
      || (i == 54 && Row(i) == 2 && Column(i) == 11)
      || (i == 55 && Row(i) == 3 && Column(i) == 11)
  {
  }

  lemma Index7(i: nat)
    requires 56 <= i < 64
    ensures
      || (i == 56 && Row(i) == 2 && Column(i) == 12)
      || (i == 57 && Row(i) == 3 && Column(i) == 12)
      || (i == 58 && Row(i) == 2 && Column(i) == 13)
      || (i == 59 && Row(i) == 3 && Column(i) == 13)
      || (i == 60 && Row(i) == 2 && Column(i) == 14)
      || (i == 61 && Row(i) == 3 && Column(i) == 14)
      || (i == 62 && Row(i) == 2 && Column(i) == 15)
      || (i == 63 && Row(i) == 3 && Column(i) == 15)
  {
  }

  function Out1(v: F.Nibble): bv32 {
    match v
    case 0 => 0x00000000 case 1 => 0x00000004 case 2 => 0x00000400 case 3 => 0x00000404
    case 4 => 0x00010000 case 5 => 0x00010004 case 6 => 0x00010400 case 7 => 0x00010404
    case 8 => 0x01000000 case 9 => 0x01000004 case 10 => 0x01000400 case 11 => 0x01000404
    case 12 => 0x01010000 case 13 => 0x01010004 case 14 => 0x01010400 case 15 => 0x01010404
  }

  /** Entry i is what row r and column c stand for. */
  predicate At1(i: nat, r: nat, c: nat)
    requires i < 64 && r < 4 && c < 16
  {
    SP1[i] == Out1(F.S1[r][c])
  }

  lemma Box1Row0()
    ensures
      && At1(0, 0, 0) && At1(1, 1, 0) && At1(2, 0, 1) && At1(3, 1, 1)
      && At1(4, 0, 2) && At1(5, 1, 2) && At1(6, 0, 3) && At1(7, 1, 3)
  {
  }

  lemma Box1Row1()
    ensures
      && At1(8, 0, 4) && At1(9, 1, 4) && At1(10, 0, 5) && At1(11, 1, 5)
      && At1(12, 0, 6) && At1(13, 1, 6) && At1(14, 0, 7) && At1(15, 1, 7)
  {
  }

  lemma Box1Row2()
    ensures
      && At1(16, 0, 8) && At1(17, 1, 8) && At1(18, 0, 9) && At1(19, 1, 9)
      && At1(20, 0, 10) && At1(21, 1, 10) && At1(22, 0, 11) && At1(23, 1, 11)
  {
  }

  lemma Box1Row3()
    ensures
      && At1(24, 0, 12) && At1(25, 1, 12) && At1(26, 0, 13) && At1(27, 1, 13)
      && At1(28, 0, 14) && At1(29, 1, 14) && At1(30, 0, 15) && At1(31, 1, 15)
  {
  }

  lemma Box1Row4()
    ensures
      && At1(32, 2, 0) && At1(33, 3, 0) && At1(34, 2, 1) && At1(35, 3, 1)
      && At1(36, 2, 2) && At1(37, 3, 2) && At1(38, 2, 3) && At1(39, 3, 3)
  {
  }

  lemma Box1Row5()
    ensures
      && At1(40, 2, 4) && At1(41, 3, 4) && At1(42, 2, 5) && At1(43, 3, 5)
      && At1(44, 2, 6) && At1(45, 3, 6) && At1(46, 2, 7) && At1(47, 3, 7)
  {
  }

  lemma Box1Row6()
    ensures
      && At1(48, 2, 8) && At1(49, 3, 8) && At1(50, 2, 9) && At1(51, 3, 9)
      && At1(52, 2, 10) && At1(53, 3, 10) && At1(54, 2, 11) && At1(55, 3, 11)
  {
  }

  lemma Box1Row7()
    ensures
      && At1(56, 2, 12) && At1(57, 3, 12) && At1(58, 2, 13) && At1(59, 3, 13)
      && At1(60, 2, 14) && At1(61, 3, 14) && At1(62, 2, 15) && At1(63, 3, 15)
  {
  }

  lemma Box1(i: nat)
    requires i < 64
    ensures At1(i, Row(i), Column(i))
  {
    hide At1;
    hide Row;
    hide Column;
    if i < 32 {
      if i < 8 { Box1Row0(); Index0(i); }
      else if i < 16 { Box1Row1(); Index1(i); }
      else if i < 24 { Box1Row2(); Index2(i); }
      else { Box1Row3(); Index3(i); }
    } else {
      if i < 40 { Box1Row4(); Index4(i); }
      else if i < 48 { Box1Row5(); Index5(i); }
      else if i < 56 { Box1Row6(); Index6(i); }
      else { Box1Row7(); Index7(i); }
    }
  }

  function Out2(v: F.Nibble): bv32 {
    match v
    case 0 => 0x00000000 case 1 => 0x00008000 case 2 => 0x80000000 case 3 => 0x80008000
    case 4 => 0x00000020 case 5 => 0x00008020 case 6 => 0x80000020 case 7 => 0x80008020
    case 8 => 0x00100000 case 9 => 0x00108000 case 10 => 0x80100000 case 11 => 0x80108000
    case 12 => 0x00100020 case 13 => 0x00108020 case 14 => 0x80100020 case 15 => 0x80108020
  }

  /** Entry i is what row r and column c stand for. */
  predicate At2(i: nat, r: nat, c: nat)
    requires i < 64 && r < 4 && c < 16
  {
    SP2[i] == Out2(F.S2[r][c])
  }

  lemma Box2Row0()
    ensures
      && At2(0, 0, 0) && At2(1, 1, 0) && At2(2, 0, 1) && At2(3, 1, 1)
      && At2(4, 0, 2) && At2(5, 1, 2) && At2(6, 0, 3) && At2(7, 1, 3)
  {
  }

  lemma Box2Row1()
    ensures
      && At2(8, 0, 4) && At2(9, 1, 4) && At2(10, 0, 5) && At2(11, 1, 5)
      && At2(12, 0, 6) && At2(13, 1, 6) && At2(14, 0, 7) && At2(15, 1, 7)
  {
  }

  lemma Box2Row2()
    ensures
      && At2(16, 0, 8) && At2(17, 1, 8) && At2(18, 0, 9) && At2(19, 1, 9)
      && At2(20, 0, 10) && At2(21, 1, 10) && At2(22, 0, 11) && At2(23, 1, 11)
  {
  }

  lemma Box2Row3()
    ensures
      && At2(24, 0, 12) && At2(25, 1, 12) && At2(26, 0, 13) && At2(27, 1, 13)
      && At2(28, 0, 14) && At2(29, 1, 14) && At2(30, 0, 15) && At2(31, 1, 15)
  {
  }

  lemma Box2Row4()
    ensures
      && At2(32, 2, 0) && At2(33, 3, 0) && At2(34, 2, 1) && At2(35, 3, 1)
      && At2(36, 2, 2) && At2(37, 3, 2) && At2(38, 2, 3) && At2(39, 3, 3)
  {
  }

  lemma Box2Row5()
    ensures
      && At2(40, 2, 4) && At2(41, 3, 4) && At2(42, 2, 5) && At2(43, 3, 5)
      && At2(44, 2, 6) && At2(45, 3, 6) && At2(46, 2, 7) && At2(47, 3, 7)
  {
  }

  lemma Box2Row6()
    ensures
      && At2(48, 2, 8) && At2(49, 3, 8) && At2(50, 2, 9) && At2(51, 3, 9)
      && At2(52, 2, 10) && At2(53, 3, 10) && At2(54, 2, 11) && At2(55, 3, 11)
  {
  }

  lemma Box2Row7()
    ensures
      && At2(56, 2, 12) && At2(57, 3, 12) && At2(58, 2, 13) && At2(59, 3, 13)
      && At2(60, 2, 14) && At2(61, 3, 14) && At2(62, 2, 15) && At2(63, 3, 15)
  {
  }

  lemma Box2(i: nat)
    requires i < 64
    ensures At2(i, Row(i), Column(i))
  {
    hide At2;
    hide Row;
    hide Column;
    if i < 32 {
      if i < 8 { Box2Row0(); Index0(i); }
      else if i < 16 { Box2Row1(); Index1(i); }
      else if i < 24 { Box2Row2(); Index2(i); }
      else { Box2Row3(); Index3(i); }
    } else {
      if i < 40 { Box2Row4(); Index4(i); }
      else if i < 48 { Box2Row5(); Index5(i); }
      else if i < 56 { Box2Row6(); Index6(i); }
      else { Box2Row7(); Index7(i); }
    }
  }

  function Out3(v: F.Nibble): bv32 {
    match v
    case 0 => 0x00000000 case 1 => 0x08000000 case 2 => 0x00000008 case 3 => 0x08000008
    case 4 => 0x00020000 case 5 => 0x08020000 case 6 => 0x00020008 case 7 => 0x08020008
    case 8 => 0x00000200 case 9 => 0x08000200 case 10 => 0x00000208 case 11 => 0x08000208
    case 12 => 0x00020200 case 13 => 0x08020200 case 14 => 0x00020208 case 15 => 0x08020208
  }

  /** Entry i is what row r and column c stand for. */
  predicate At3(i: nat, r: nat, c: nat)
    requires i < 64 && r < 4 && c < 16
  {
    SP3[i] == Out3(F.S3[r][c])
  }

  lemma Box3Row0()
    ensures
      && At3(0, 0, 0) && At3(1, 1, 0) && At3(2, 0, 1) && At3(3, 1, 1)
      && At3(4, 0, 2) && At3(5, 1, 2) && At3(6, 0, 3) && At3(7, 1, 3)
  {
  }

  lemma Box3Row1()
    ensures
      && At3(8, 0, 4) && At3(9, 1, 4) && At3(10, 0, 5) && At3(11, 1, 5)
      && At3(12, 0, 6) && At3(13, 1, 6) && At3(14, 0, 7) && At3(15, 1, 7)
  {
  }

  lemma Box3Row2()
    ensures
      && At3(16, 0, 8) && At3(17, 1, 8) && At3(18, 0, 9) && At3(19, 1, 9)
      && At3(20, 0, 10) && At3(21, 1, 10) && At3(22, 0, 11) && At3(23, 1, 11)
  {
  }

  lemma Box3Row3()
    ensures
      && At3(24, 0, 12) && At3(25, 1, 12) && At3(26, 0, 13) && At3(27, 1, 13)
      && At3(28, 0, 14) && At3(29, 1, 14) && At3(30, 0, 15) && At3(31, 1, 15)
  {
  }

  lemma Box3Row4()
    ensures
      && At3(32, 2, 0) && At3(33, 3, 0) && At3(34, 2, 1) && At3(35, 3, 1)
      && At3(36, 2, 2) && At3(37, 3, 2) && At3(38, 2, 3) && At3(39, 3, 3)
  {
  }

  lemma Box3Row5()
    ensures
      && At3(40, 2, 4) && At3(41, 3, 4) && At3(42, 2, 5) && At3(43, 3, 5)
      && At3(44, 2, 6) && At3(45, 3, 6) && At3(46, 2, 7) && At3(47, 3, 7)
  {
  }

  lemma Box3Row6()
    ensures
      && At3(48, 2, 8) && At3(49, 3, 8) && At3(50, 2, 9) && At3(51, 3, 9)
      && At3(52, 2, 10) && At3(53, 3, 10) && At3(54, 2, 11) && At3(55, 3, 11)
  {
  }

  lemma Box3Row7()
    ensures
      && At3(56, 2, 12) && At3(57, 3, 12) && At3(58, 2, 13) && At3(59, 3, 13)
      && At3(60, 2, 14) && At3(61, 3, 14) && At3(62, 2, 15) && At3(63, 3, 15)
  {
  }

  lemma Box3(i: nat)
    requires i < 64
    ensures At3(i, Row(i), Column(i))
  {
    hide At3;
    hide Row;
    hide Column;
    if i < 32 {
      if i < 8 { Box3Row0(); Index0(i); }
      else if i < 16 { Box3Row1(); Index1(i); }
      else if i < 24 { Box3Row2(); Index2(i); }
      else { Box3Row3(); Index3(i); }
    } else {
      if i < 40 { Box3Row4(); Index4(i); }
      else if i < 48 { Box3Row5(); Index5(i); }
      else if i < 56 { Box3Row6(); Index6(i); }
      else { Box3Row7(); Index7(i); }
    }
  }

  function Out4(v: F.Nibble): bv32 {
    match v
    case 0 => 0x00000000 case 1 => 0x00000001 case 2 => 0x00800000 case 3 => 0x00800001
    case 4 => 0x00002000 case 5 => 0x00002001 case 6 => 0x00802000 case 7 => 0x00802001
    case 8 => 0x00000080 case 9 => 0x00000081 case 10 => 0x00800080 case 11 => 0x00800081
    case 12 => 0x00002080 case 13 => 0x00002081 case 14 => 0x00802080 case 15 => 0x00802081
  }

  /** Entry i is what row r and column c stand for. */
  predicate At4(i: nat, r: nat, c: nat)
    requires i < 64 && r < 4 && c < 16
  {
    SP4[i] == Out4(F.S4[r][c])
  }

  lemma Box4Row0()
    ensures
      && At4(0, 0, 0) && At4(1, 1, 0) && At4(2, 0, 1) && At4(3, 1, 1)
      && At4(4, 0, 2) && At4(5, 1, 2) && At4(6, 0, 3) && At4(7, 1, 3)
  {
  }

  lemma Box4Row1()
    ensures
      && At4(8, 0, 4) && At4(9, 1, 4) && At4(10, 0, 5) && At4(11, 1, 5)
      && At4(12, 0, 6) && At4(13, 1, 6) && At4(14, 0, 7) && At4(15, 1, 7)
  {
  }

  lemma Box4Row2()
    ensures
      && At4(16, 0, 8) && At4(17, 1, 8) && At4(18, 0, 9) && At4(19, 1, 9)
      && At4(20, 0, 10) && At4(21, 1, 10) && At4(22, 0, 11) && At4(23, 1, 11)
  {
  }

  lemma Box4Row3()
    ensures
      && At4(24, 0, 12) && At4(25, 1, 12) && At4(26, 0, 13) && At4(27, 1, 13)
      && At4(28, 0, 14) && At4(29, 1, 14) && At4(30, 0, 15) && At4(31, 1, 15)
  {
  }

  lemma Box4Row4()
    ensures
      && At4(32, 2, 0) && At4(33, 3, 0) && At4(34, 2, 1) && At4(35, 3, 1)
      && At4(36, 2, 2) && At4(37, 3, 2) && At4(38, 2, 3) && At4(39, 3, 3)
  {
  }

  lemma Box4Row5()
    ensures
      && At4(40, 2, 4) && At4(41, 3, 4) && At4(42, 2, 5) && At4(43, 3, 5)
      && At4(44, 2, 6) && At4(45, 3, 6) && At4(46, 2, 7) && At4(47, 3, 7)
  {
  }

  lemma Box4Row6()
    ensures
      && At4(48, 2, 8) && At4(49, 3, 8) && At4(50, 2, 9) && At4(51, 3, 9)
      && At4(52, 2, 10) && At4(53, 3, 10) && At4(54, 2, 11) && At4(55, 3, 11)
  {
  }

  lemma Box4Row7()
    ensures
      && At4(56, 2, 12) && At4(57, 3, 12) && At4(58, 2, 13) && At4(59, 3, 13)
      && At4(60, 2, 14) && At4(61, 3, 14) && At4(62, 2, 15) && At4(63, 3, 15)
  {
  }

  lemma Box4(i: nat)
    requires i < 64
    ensures At4(i, Row(i), Column(i))
  {
    hide At4;
    hide Row;
    hide Column;
    if i < 32 {
      if i < 8 { Box4Row0(); Index0(i); }
      else if i < 16 { Box4Row1(); Index1(i); }
      else if i < 24 { Box4Row2(); Index2(i); }
      else { Box4Row3(); Index3(i); }
    } else {
      if i < 40 { Box4Row4(); Index4(i); }
      else if i < 48 { Box4Row5(); Index5(i); }
      else if i < 56 { Box4Row6(); Index6(i); }
      else { Box4Row7(); Index7(i); }
    }
  }

  function Out5(v: F.Nibble): bv32 {
    match v
    case 0 => 0x00000000 case 1 => 0x40000000 case 2 => 0x00000100 case 3 => 0x40000100
    case 4 => 0x00080000 case 5 => 0x40080000 case 6 => 0x00080100 case 7 => 0x40080100
    case 8 => 0x02000000 case 9 => 0x42000000 case 10 => 0x02000100 case 11 => 0x42000100
    case 12 => 0x02080000 case 13 => 0x42080000 case 14 => 0x02080100 case 15 => 0x42080100
  }

  /** Entry i is what row r and column c stand for. */
  predicate At5(i: nat, r: nat, c: nat)
    requires i < 64 && r < 4 && c < 16
  {
    SP5[i] == Out5(F.S5[r][c])
  }

  lemma Box5Row0()
    ensures
      && At5(0, 0, 0) && At5(1, 1, 0) && At5(2, 0, 1) && At5(3, 1, 1)
      && At5(4, 0, 2) && At5(5, 1, 2) && At5(6, 0, 3) && At5(7, 1, 3)
  {
  }

  lemma Box5Row1()
    ensures
      && At5(8, 0, 4) && At5(9, 1, 4) && At5(10, 0, 5) && At5(11, 1, 5)
      && At5(12, 0, 6) && At5(13, 1, 6) && At5(14, 0, 7) && At5(15, 1, 7)
  {
  }

  lemma Box5Row2()
    ensures
      && At5(16, 0, 8) && At5(17, 1, 8) && At5(18, 0, 9) && At5(19, 1, 9)
      && At5(20, 0, 10) && At5(21, 1, 10) && At5(22, 0, 11) && At5(23, 1, 11)
  {
  }

  lemma Box5Row3()
    ensures
      && At5(24, 0, 12) && At5(25, 1, 12) && At5(26, 0, 13) && At5(27, 1, 13)
      && At5(28, 0, 14) && At5(29, 1, 14) && At5(30, 0, 15) && At5(31, 1, 15)
  {
  }

  lemma Box5Row4()
    ensures
      && At5(32, 2, 0) && At5(33, 3, 0) && At5(34, 2, 1) && At5(35, 3, 1)
      && At5(36, 2, 2) && At5(37, 3, 2) && At5(38, 2, 3) && At5(39, 3, 3)
  {
  }

  lemma Box5Row5()
    ensures
      && At5(40, 2, 4) && At5(41, 3, 4) && At5(42, 2, 5) && At5(43, 3, 5)
      && At5(44, 2, 6) && At5(45, 3, 6) && At5(46, 2, 7) && At5(47, 3, 7)
  {
  }

  lemma Box5Row6()
    ensures
      && At5(48, 2, 8) && At5(49, 3, 8) && At5(50, 2, 9) && At5(51, 3, 9)
      && At5(52, 2, 10) && At5(53, 3, 10) && At5(54, 2, 11) && At5(55, 3, 11)
  {
  }

  lemma Box5Row7()
    ensures
      && At5(56, 2, 12) && At5(57, 3, 12) && At5(58, 2, 13) && At5(59, 3, 13)
      && At5(60, 2, 14) && At5(61, 3, 14) && At5(62, 2, 15) && At5(63, 3, 15)
  {
  }

  lemma Box5(i: nat)
    requires i < 64
    ensures At5(i, Row(i), Column(i))
  {
    hide At5;
    hide Row;
    hide Column;
    if i < 32 {
      if i < 8 { Box5Row0(); Index0(i); }
      else if i < 16 { Box5Row1(); Index1(i); }
      else if i < 24 { Box5Row2(); Index2(i); }
      else { Box5Row3(); Index3(i); }
    } else {
      if i < 40 { Box5Row4(); Index4(i); }
      else if i < 48 { Box5Row5(); Index5(i); }
      else if i < 56 { Box5Row6(); Index6(i); }
      else { Box5Row7(); Index7(i); }
    }
  }

  function Out6(v: F.Nibble): bv32 {
    match v
    case 0 => 0x00000000 case 1 => 0x00004000 case 2 => 0x00400000 case 3 => 0x00404000
    case 4 => 0x00000010 case 5 => 0x00004010 case 6 => 0x00400010 case 7 => 0x00404010
    case 8 => 0x20000000 case 9 => 0x20004000 case 10 => 0x20400000 case 11 => 0x20404000
    case 12 => 0x20000010 case 13 => 0x20004010 case 14 => 0x20400010 case 15 => 0x20404010
  }

  /** Entry i is what row r and column c stand for. */
  predicate At6(i: nat, r: nat, c: nat)
    requires i < 64 && r < 4 && c < 16
  {
    SP6[i] == Out6(F.S6[r][c])
  }

  lemma Box6Row0()
    ensures
      && At6(0, 0, 0) && At6(1, 1, 0) && At6(2, 0, 1) && At6(3, 1, 1)
      && At6(4, 0, 2) && At6(5, 1, 2) && At6(6, 0, 3) && At6(7, 1, 3)
  {
  }

  lemma Box6Row1()
    ensures
      && At6(8, 0, 4) && At6(9, 1, 4) && At6(10, 0, 5) && At6(11, 1, 5)
      && At6(12, 0, 6) && At6(13, 1, 6) && At6(14, 0, 7) && At6(15, 1, 7)
  {
  }

  lemma Box6Row2()
    ensures
      && At6(16, 0, 8) && At6(17, 1, 8) && At6(18, 0, 9) && At6(19, 1, 9)
      && At6(20, 0, 10) && At6(21, 1, 10) && At6(22, 0, 11) && At6(23, 1, 11)
  {
  }

  lemma Box6Row3()
    ensures
      && At6(24, 0, 12) && At6(25, 1, 12) && At6(26, 0, 13) && At6(27, 1, 13)
      && At6(28, 0, 14) && At6(29, 1, 14) && At6(30, 0, 15) && At6(31, 1, 15)
  {
  }

  lemma Box6Row4()
    ensures
      && At6(32, 2, 0) && At6(33, 3, 0) && At6(34, 2, 1) && At6(35, 3, 1)
      && At6(36, 2, 2) && At6(37, 3, 2) && At6(38, 2, 3) && At6(39, 3, 3)
  {
  }

  lemma Box6Row5()
    ensures
      && At6(40, 2, 4) && At6(41, 3, 4) && At6(42, 2, 5) && At6(43, 3, 5)
      && At6(44, 2, 6) && At6(45, 3, 6) && At6(46, 2, 7) && At6(47, 3, 7)
  {
  }

  lemma Box6Row6()
    ensures
      && At6(48, 2, 8) && At6(49, 3, 8) && At6(50, 2, 9) && At6(51, 3, 9)
      && At6(52, 2, 10) && At6(53, 3, 10) && At6(54, 2, 11) && At6(55, 3, 11)
  {
  }

  lemma Box6Row7()
    ensures
      && At6(56, 2, 12) && At6(57, 3, 12) && At6(58, 2, 13) && At6(59, 3, 13)
      && At6(60, 2, 14) && At6(61, 3, 14) && At6(62, 2, 15) && At6(63, 3, 15)
  {
  }

  lemma Box6(i: nat)
    requires i < 64
    ensures At6(i, Row(i), Column(i))
  {
    hide At6;
    hide Row;
    hide Column;
    if i < 32 {
      if i < 8 { Box6Row0(); Index0(i); }
      else if i < 16 { Box6Row1(); Index1(i); }
      else if i < 24 { Box6Row2(); Index2(i); }
      else { Box6Row3(); Index3(i); }
    } else {
      if i < 40 { Box6Row4(); Index4(i); }
      else if i < 48 { Box6Row5(); Index5(i); }
      else if i < 56 { Box6Row6(); Index6(i); }
      else { Box6Row7(); Index7(i); }
    }
  }

  function Out7(v: F.Nibble): bv32 {
    match v
    case 0 => 0x00000000 case 1 => 0x04000000 case 2 => 0x00000800 case 3 => 0x04000800
    case 4 => 0x00200000 case 5 => 0x04200000 case 6 => 0x00200800 case 7 => 0x04200800
    case 8 => 0x00000002 case 9 => 0x04000002 case 10 => 0x00000802 case 11 => 0x04000802
    case 12 => 0x00200002 case 13 => 0x04200002 case 14 => 0x00200802 case 15 => 0x04200802
  }

  /** Entry i is what row r and column c stand for. */
  predicate At7(i: nat, r: nat, c: nat)
    requires i < 64 && r < 4 && c < 16
  {
    SP7[i] == Out7(F.S7[r][c])
  }

  lemma Box7Row0()
    ensures
      && At7(0, 0, 0) && At7(1, 1, 0) && At7(2, 0, 1) && At7(3, 1, 1)
      && At7(4, 0, 2) && At7(5, 1, 2) && At7(6, 0, 3) && At7(7, 1, 3)
  {
  }

  lemma Box7Row1()
    ensures
      && At7(8, 0, 4) && At7(9, 1, 4) && At7(10, 0, 5) && At7(11, 1, 5)
      && At7(12, 0, 6) && At7(13, 1, 6) && At7(14, 0, 7) && At7(15, 1, 7)
  {
  }

  lemma Box7Row2()
    ensures
      && At7(16, 0, 8) && At7(17, 1, 8) && At7(18, 0, 9) && At7(19, 1, 9)
      && At7(20, 0, 10) && At7(21, 1, 10) && At7(22, 0, 11) && At7(23, 1, 11)
  {
  }

  lemma Box7Row3()
    ensures
      && At7(24, 0, 12) && At7(25, 1, 12) && At7(26, 0, 13) && At7(27, 1, 13)
      && At7(28, 0, 14) && At7(29, 1, 14) && At7(30, 0, 15) && At7(31, 1, 15)
  {
  }

  lemma Box7Row4()
    ensures
      && At7(32, 2, 0) && At7(33, 3, 0) && At7(34, 2, 1) && At7(35, 3, 1)
      && At7(36, 2, 2) && At7(37, 3, 2) && At7(38, 2, 3) && At7(39, 3, 3)
  {
  }

  lemma Box7Row5()
    ensures
      && At7(40, 2, 4) && At7(41, 3, 4) && At7(42, 2, 5) && At7(43, 3, 5)
      && At7(44, 2, 6) && At7(45, 3, 6) && At7(46, 2, 7) && At7(47, 3, 7)
  {
  }

  lemma Box7Row6()
    ensures
      && At7(48, 2, 8) && At7(49, 3, 8) && At7(50, 2, 9) && At7(51, 3, 9)
      && At7(52, 2, 10) && At7(53, 3, 10) && At7(54, 2, 11) && At7(55, 3, 11)
  {
  }

  lemma Box7Row7()
    ensures
      && At7(56, 2, 12) && At7(57, 3, 12) && At7(58, 2, 13) && At7(59, 3, 13)
      && At7(60, 2, 14) && At7(61, 3, 14) && At7(62, 2, 15) && At7(63, 3, 15)
  {
  }

  lemma Box7(i: nat)
    requires i < 64
    ensures At7(i, Row(i), Column(i))
  {
    hide At7;
    hide Row;
    hide Column;
    if i < 32 {
      if i < 8 { Box7Row0(); Index0(i); }
      else if i < 16 { Box7Row1(); Index1(i); }
      else if i < 24 { Box7Row2(); Index2(i); }
      else { Box7Row3(); Index3(i); }
    } else {
      if i < 40 { Box7Row4(); Index4(i); }
      else if i < 48 { Box7Row5(); Index5(i); }
      else if i < 56 { Box7Row6(); Index6(i); }
      else { Box7Row7(); Index7(i); }
    }
  }

  function Out8(v: F.Nibble): bv32 {
    match v
    case 0 => 0x00000000 case 1 => 0x00001000 case 2 => 0x00040000 case 3 => 0x00041000
    case 4 => 0x00000040 case 5 => 0x00001040 case 6 => 0x00040040 case 7 => 0x00041040
    case 8 => 0x10000000 case 9 => 0x10001000 case 10 => 0x10040000 case 11 => 0x10041000
    case 12 => 0x10000040 case 13 => 0x10001040 case 14 => 0x10040040 case 15 => 0x10041040
  }

  /** Entry i is what row r and column c stand for. */
  predicate At8(i: nat, r: nat, c: nat)
    requires i < 64 && r < 4 && c < 16
  {
    SP8[i] == Out8(F.S8[r][c])
  }

  lemma Box8Row0()
    ensures
      && At8(0, 0, 0) && At8(1, 1, 0) && At8(2, 0, 1) && At8(3, 1, 1)
      && At8(4, 0, 2) && At8(5, 1, 2) && At8(6, 0, 3) && At8(7, 1, 3)
  {
  }

  lemma Box8Row1()
    ensures
      && At8(8, 0, 4) && At8(9, 1, 4) && At8(10, 0, 5) && At8(11, 1, 5)
      && At8(12, 0, 6) && At8(13, 1, 6) && At8(14, 0, 7) && At8(15, 1, 7)
  {
  }

  lemma Box8Row2()
    ensures
      && At8(16, 0, 8) && At8(17, 1, 8) && At8(18, 0, 9) && At8(19, 1, 9)
      && At8(20, 0, 10) && At8(21, 1, 10) && At8(22, 0, 11) && At8(23, 1, 11)
  {
  }

  lemma Box8Row3()
    ensures
      && At8(24, 0, 12) && At8(25, 1, 12) && At8(26, 0, 13) && At8(27, 1, 13)
      && At8(28, 0, 14) && At8(29, 1, 14) && At8(30, 0, 15) && At8(31, 1, 15)
  {
  }

  lemma Box8Row4()
    ensures
      && At8(32, 2, 0) && At8(33, 3, 0) && At8(34, 2, 1) && At8(35, 3, 1)
      && At8(36, 2, 2) && At8(37, 3, 2) && At8(38, 2, 3) && At8(39, 3, 3)
  {
  }

  lemma Box8Row5()
    ensures
      && At8(40, 2, 4) && At8(41, 3, 4) && At8(42, 2, 5) && At8(43, 3, 5)
      && At8(44, 2, 6) && At8(45, 3, 6) && At8(46, 2, 7) && At8(47, 3, 7)
  {
  }

  lemma Box8Row6()
    ensures
      && At8(48, 2, 8) && At8(49, 3, 8) && At8(50, 2, 9) && At8(51, 3, 9)
      && At8(52, 2, 10) && At8(53, 3, 10) && At8(54, 2, 11) && At8(55, 3, 11)
  {
  }

  lemma Box8Row7()
    ensures
      && At8(56, 2, 12) && At8(57, 3, 12) && At8(58, 2, 13) && At8(59, 3, 13)
      && At8(60, 2, 14) && At8(61, 3, 14) && At8(62, 2, 15) && At8(63, 3, 15)
  {
  }

  lemma Box8(i: nat)
    requires i < 64
    ensures At8(i, Row(i), Column(i))
  {
    hide At8;
    hide Row;
    hide Column;
    if i < 32 {
      if i < 8 { Box8Row0(); Index0(i); }
      else if i < 16 { Box8Row1(); Index1(i); }
      else if i < 24 { Box8Row2(); Index2(i); }
      else { Box8Row3(); Index3(i); }
    } else {
      if i < 40 { Box8Row4(); Index4(i); }
      else if i < 48 { Box8Row5(); Index5(i); }
      else if i < 56 { Box8Row6(); Index6(i); }
      else { Box8Row7(); Index7(i); }
    }
  }

}
