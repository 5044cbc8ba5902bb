/** Two of the test vectors of RFC 1321 (appendix A.5): the empty message, and the 62 letters and digits,
    which take two blocks.  Every step is written out: what the auxiliary function gives, and what the
    rotation does. */
module Md5Vectors {
  import opened Md5Spec

  /** One step, from what its auxiliary function and its rotation are known to give. */
  lemma Turned(i: nat, s: State, x: seq<Word>, f: Word, turned: Word) returns (t: State)
    requires |x| == 16 && i < 64 && Aux(i / 16, s.b, s.c, s.d) == f
    requires RotateLeft(Sum(s.a, Sum(Sum(f, x[WordIndex(i)]), Sine(i))), Shift(i / 16, i % 4)) == turned
    ensures t == State(s.d, Sum(turned, s.b), s.b, s.c)
    ensures StepsFrom(i, 64 - i, s, x) == StepsFrom(i + 1, 63 - i, t, x)
  {
    hide RotateLeft, Aux, Sine, Shift, WordIndex, Sum;
    t := StepOf(i, s, x);
  }

  lemma NoMore(s: State, x: seq<Word>)
    requires |x| == 16
    ensures StepsFrom(64, 0, s, x) == s
  {
  }

  lemma Places0()
    ensures WordIndex(0) == 0 && Shift(0, 0) == 7 && Sine(0) == 0xd76aa478
    ensures WordIndex(1) == 1 && Shift(0, 1) == 12 && Sine(1) == 0xe8c7b756
    ensures WordIndex(2) == 2 && Shift(0, 2) == 17 && Sine(2) == 0x242070db
    ensures WordIndex(3) == 3 && Shift(0, 3) == 22 && Sine(3) == 0xc1bdceee
  {
  }

  lemma Places4()
    ensures WordIndex(4) == 4 && Shift(0, 0) == 7 && Sine(4) == 0xf57c0faf
    ensures WordIndex(5) == 5 && Shift(0, 1) == 12 && Sine(5) == 0x4787c62a
    ensures WordIndex(6) == 6 && Shift(0, 2) == 17 && Sine(6) == 0xa8304613
    ensures WordIndex(7) == 7 && Shift(0, 3) == 22 && Sine(7) == 0xfd469501
  {
  }

  lemma Places8()
    ensures WordIndex(8) == 8 && Shift(0, 0) == 7 && Sine(8) == 0x698098d8
    ensures WordIndex(9) == 9 && Shift(0, 1) == 12 && Sine(9) == 0x8b44f7af
    ensures WordIndex(10) == 10 && Shift(0, 2) == 17 && Sine(10) == 0xffff5bb1
    ensures WordIndex(11) == 11 && Shift(0, 3) == 22 && Sine(11) == 0x895cd7be
  {
  }

  lemma Places12()
    ensures WordIndex(12) == 12 && Shift(0, 0) == 7 && Sine(12) == 0x6b901122
    ensures WordIndex(13) == 13 && Shift(0, 1) == 12 && Sine(13) == 0xfd987193
    ensures WordIndex(14) == 14 && Shift(0, 2) == 17 && Sine(14) == 0xa679438e
    ensures WordIndex(15) == 15 && Shift(0, 3) == 22 && Sine(15) == 0x49b40821
  {
  }

  lemma Places16()
    ensures WordIndex(16) == 1 && Shift(1, 0) == 5 && Sine(16) == 0xf61e2562
    ensures WordIndex(17) == 6 && Shift(1, 1) == 9 && Sine(17) == 0xc040b340
    ensures WordIndex(18) == 11 && Shift(1, 2) == 14 && Sine(18) == 0x265e5a51
    ensures WordIndex(19) == 0 && Shift(1, 3) == 20 && Sine(19) == 0xe9b6c7aa
  {
  }

  lemma Places20()
    ensures WordIndex(20) == 5 && Shift(1, 0) == 5 && Sine(20) == 0xd62f105d
    ensures WordIndex(21) == 10 && Shift(1, 1) == 9 && Sine(21) == 0x02441453
    ensures WordIndex(22) == 15 && Shift(1, 2) == 14 && Sine(22) == 0xd8a1e681
    ensures WordIndex(23) == 4 && Shift(1, 3) == 20 && Sine(23) == 0xe7d3fbc8
  {
  }

  lemma Places24()
    ensures WordIndex(24) == 9 && Shift(1, 0) == 5 && Sine(24) == 0x21e1cde6
    ensures WordIndex(25) == 14 && Shift(1, 1) == 9 && Sine(25) == 0xc33707d6
    ensures WordIndex(26) == 3 && Shift(1, 2) == 14 && Sine(26) == 0xf4d50d87
    ensures WordIndex(27) == 8 && Shift(1, 3) == 20 && Sine(27) == 0x455a14ed
  {
  }

  lemma Places28()
    ensures WordIndex(28) == 13 && Shift(1, 0) == 5 && Sine(28) == 0xa9e3e905
    ensures WordIndex(29) == 2 && Shift(1, 1) == 9 && Sine(29) == 0xfcefa3f8
    ensures WordIndex(30) == 7 && Shift(1, 2) == 14 && Sine(30) == 0x676f02d9
    ensures WordIndex(31) == 12 && Shift(1, 3) == 20 && Sine(31) == 0x8d2a4c8a
  {
  }

  lemma Places32()
    ensures WordIndex(32) == 5 && Shift(2, 0) == 4 && Sine(32) == 0xfffa3942
    ensures WordIndex(33) == 8 && Shift(2, 1) == 11 && Sine(33) == 0x8771f681
    ensures WordIndex(34) == 11 && Shift(2, 2) == 16 && Sine(34) == 0x6d9d6122
    ensures WordIndex(35) == 14 && Shift(2, 3) == 23 && Sine(35) == 0xfde5380c
  {
  }

  lemma Places36()
    ensures WordIndex(36) == 1 && Shift(2, 0) == 4 && Sine(36) == 0xa4beea44
    ensures WordIndex(37) == 4 && Shift(2, 1) == 11 && Sine(37) == 0x4bdecfa9
    ensures WordIndex(38) == 7 && Shift(2, 2) == 16 && Sine(38) == 0xf6bb4b60
    ensures WordIndex(39) == 10 && Shift(2, 3) == 23 && Sine(39) == 0xbebfbc70
  {
  }

  lemma Places40()
    ensures WordIndex(40) == 13 && Shift(2, 0) == 4 && Sine(40) == 0x289b7ec6
    ensures WordIndex(41) == 0 && Shift(2, 1) == 11 && Sine(41) == 0xeaa127fa
    ensures WordIndex(42) == 3 && Shift(2, 2) == 16 && Sine(42) == 0xd4ef3085
    ensures WordIndex(43) == 6 && Shift(2, 3) == 23 && Sine(43) == 0x04881d05
  {
  }

  lemma Places44()
    ensures WordIndex(44) == 9 && Shift(2, 0) == 4 && Sine(44) == 0xd9d4d039
    ensures WordIndex(45) == 12 && Shift(2, 1) == 11 && Sine(45) == 0xe6db99e5
    ensures WordIndex(46) == 15 && Shift(2, 2) == 16 && Sine(46) == 0x1fa27cf8
    ensures WordIndex(47) == 2 && Shift(2, 3) == 23 && Sine(47) == 0xc4ac5665
  {
  }

  lemma Places48()
    ensures WordIndex(48) == 0 && Shift(3, 0) == 6 && Sine(48) == 0xf4292244
    ensures WordIndex(49) == 7 && Shift(3, 1) == 10 && Sine(49) == 0x432aff97
    ensures WordIndex(50) == 14 && Shift(3, 2) == 15 && Sine(50) == 0xab9423a7
    ensures WordIndex(51) == 5 && Shift(3, 3) == 21 && Sine(51) == 0xfc93a039
  {
  }

  lemma Places52()
    ensures WordIndex(52) == 12 && Shift(3, 0) == 6 && Sine(52) == 0x655b59c3
    ensures WordIndex(53) == 3 && Shift(3, 1) == 10 && Sine(53) == 0x8f0ccc92
    ensures WordIndex(54) == 10 && Shift(3, 2) == 15 && Sine(54) == 0xffeff47d
    ensures WordIndex(55) == 1 && Shift(3, 3) == 21 && Sine(55) == 0x85845dd1
  {
  }

  lemma Places56()
    ensures WordIndex(56) == 8 && Shift(3, 0) == 6 && Sine(56) == 0x6fa87e4f
    ensures WordIndex(57) == 15 && Shift(3, 1) == 10 && Sine(57) == 0xfe2ce6e0
    ensures WordIndex(58) == 6 && Shift(3, 2) == 15 && Sine(58) == 0xa3014314
    ensures WordIndex(59) == 13 && Shift(3, 3) == 21 && Sine(59) == 0x4e0811a1
  {
  }

  lemma Places60()
    ensures WordIndex(60) == 4 && Shift(3, 0) == 6 && Sine(60) == 0xf7537e82
    ensures WordIndex(61) == 11 && Shift(3, 1) == 10 && Sine(61) == 0xbd3af235
    ensures WordIndex(62) == 2 && Shift(3, 2) == 15 && Sine(62) == 0x2ad7d2bb
    ensures WordIndex(63) == 9 && Shift(3, 3) == 21 && Sine(63) == 0xeb86d391
  {
  }

  const EMPTY: seq<Word> :=
    [0x00000080, 0x00000000, 0x00000000, 0x00000000, 0x00000000, 0x00000000, 0x00000000, 0x00000000,
     0x00000000, 0x00000000, 0x00000000, 0x00000000, 0x00000000, 0x00000000, 0x00000000, 0x00000000]

  lemma EmptyValues0()
    ensures Aux(0, 0xefcdab89, 0x98badcfe, 0x10325476) == 0x98badcfe
    ensures Aux(0, 0xa5202774, 0xefcdab89, 0x98badcfe) == 0xbd9afb8a
    ensures Aux(0, 0xf59592dd, 0xa5202774, 0xefcdab89) == 0xaf482b54
    ensures Aux(0, 0xe7f06b23, 0xf59592dd, 0xa5202774) == 0xe5900655
    ensures Aux(0, 0x1b163203, 0xe7f06b23, 0xf59592dd) == 0xe791a2df
    ensures Aux(0, 0x32033344, 0x1b163203, 0xe7f06b23) == 0xd7f27a23
    ensures Aux(0, 0x2f35d494, 0x32033344, 0x1b163203) == 0x32033207
    ensures Aux(0, 0xf5b158db, 0x2f35d494, 0x32033344) == 0x27337394
    ensures Aux(0, 0x9bc13ce9, 0xf5b158db, 0x2f35d494) == 0xb5b5d8dd
    ensures Aux(0, 0x3893b991, 0x9bc13ce9, 0xf5b158db) == 0xdda178cb
    ensures Aux(0, 0xfce4a312, 0x3893b991, 0x9bc13ce9) == 0x3b81bdf9
    ensures Aux(0, 0xe1ef0576, 0xfce4a312, 0x3893b991) == 0xf8f4b993
    ensures Aux(0, 0x70768a29, 0xe1ef0576, 0xfce4a312) == 0xece62132
    ensures Aux(0, 0xf56c7cf1, 0x70768a29, 0xe1ef0576) == 0x70e70927
    ensures Aux(0, 0x374943a7, 0xf56c7cf1, 0x70768a29) == 0x757ec8a9
    ensures Aux(0, 0x5aa53f75, 0x374943a7, 0xf56c7cf1) == 0xb74943a5
  {
  }

  lemma EmptyRotations0()
    ensures RotateLeft(0xd76aa4f7, 7) == 0xb5527beb
    ensures RotateLeft(0xb6950756, 12) == 0x50756b69
    ensures RotateLeft(0x6c23792d, 17) == 0xf25ad846
    ensures RotateLeft(0x971b80cc, 22) == 0x3325c6e0
    ensures RotateLeft(0x822dda02, 7) == 0x16ed0141
    ensures RotateLeft(0x150fd32a, 12) == 0xfd32a150
    ensures RotateLeft(0xc223e33d, 17) == 0xc67b8447
    ensures RotateLeft(0x3f903a98, 22) == 0xa60fe40e
    ensures RotateLeft(0x5139a4f9, 7) == 0x9cd27ca8
    ensures RotateLeft(0x981c450e, 12) == 0xc450e981
    ensures RotateLeft(0x31327285, 17) == 0xe50a6264
    ensures RotateLeft(0x1e12ce3a, 22) == 0x8e8784b3
    ensures RotateLeft(0x9109ebe5, 7) == 0x84f5f2c8
    ensures RotateLeft(0x6b641dcc, 12) == 0x41dcc6b6
    ensures RotateLeft(0xfde711ad, 17) == 0x235bfbce
    ensures RotateLeft(0x7173d5ef, 22) == 0x7bdc5cf5
  {
  }

  lemma EmptySteps0(x: seq<Word>)
    requires |x| == 16 && x[0] == 0x00000080 && x[1] == 0x00000000 && x[2] == 0x00000000
    requires x[3] == 0x00000000 && x[4] == 0x00000000 && x[5] == 0x00000000 && x[6] == 0x00000000
    requires x[7] == 0x00000000 && x[8] == 0x00000000 && x[9] == 0x00000000 && x[10] == 0x00000000
    requires x[11] == 0x00000000 && x[12] == 0x00000000 && x[13] == 0x00000000 && x[14] == 0x00000000
    requires x[15] == 0x00000000
    ensures StepsFrom(0, 64, State(0x67452301, 0xefcdab89, 0x98badcfe, 0x10325476), x)
         == StepsFrom(16, 48, State(0xf56c7cf1, 0xd6819c6a, 0x5aa53f75, 0x374943a7), x)
  {
    EmptyValues0();
    EmptyRotations0();
    Places0();
    Places4();
    Places8();
    Places12();
    hide Aux, RotateLeft, StepsFrom, WordIndex, Shift, Sine, StepOf, Mix;
    var s := State(0x67452301, 0xefcdab89, 0x98badcfe, 0x10325476);
    s := Turned(0, s, x, 0x98badcfe, 0xb5527beb);
    s := Turned(1, s, x, 0xbd9afb8a, 0x50756b69);
    s := Turned(2, s, x, 0xaf482b54, 0xf25ad846);
    s := Turned(3, s, x, 0xe5900655, 0x3325c6e0);
    s := Turned(4, s, x, 0xe791a2df, 0x16ed0141);
    s := Turned(5, s, x, 0xd7f27a23, 0xfd32a150);
    s := Turned(6, s, x, 0x32033207, 0xc67b8447);
    s := Turned(7, s, x, 0x27337394, 0xa60fe40e);
    s := Turned(8, s, x, 0xb5b5d8dd, 0x9cd27ca8);
    s := Turned(9, s, x, 0xdda178cb, 0xc450e981);
    s := Turned(10, s, x, 0x3b81bdf9, 0xe50a6264);
    s := Turned(11, s, x, 0xf8f4b993, 0x8e8784b3);
    s := Turned(12, s, x, 0xece62132, 0x84f5f2c8);
    s := Turned(13, s, x, 0x70e70927, 0x41dcc6b6);
    s := Turned(14, s, x, 0x757ec8a9, 0x235bfbce);
    s := Turned(15, s, x, 0xb74943a5, 0x7bdc5cf5);
  }

  lemma EmptyValues16()
    ensures Aux(1, 0xd6819c6a, 0x5aa53f75, 0x374943a7) == 0x5ea53c72
    ensures Aux(1, 0x1c7d7513, 0xd6819c6a, 0x5aa53f75) == 0x9c25b51b
    ensures Aux(1, 0x7bd57a3a, 0x1c7d7513, 0xd6819c6a) == 0x5afd793b
    ensures Aux(1, 0xc095f13a, 0x7bd57a3a, 0x1c7d7513) == 0x63957b3a
    ensures Aux(1, 0xbd782e17, 0xc095f13a, 0x7bd57a3a) == 0xb950ab12
    ensures Aux(1, 0x3d1e3e6c, 0xbd782e17, 0xc095f13a) == 0x3d7c3e2d
    ensures Aux(1, 0x68b7b3e3, 0x3d1e3e6c, 0xbd782e17) == 0x2836326b
    ensures Aux(1, 0xeb41643e, 0x68b7b3e3, 0x3d1e3e6c) == 0x69a1a5af
    ensures Aux(1, 0xe422531a, 0xeb41643e, 0x68b7b3e3) == 0xe362571e
    ensures Aux(1, 0x306ec122, 0xe422531a, 0xeb41643e) == 0x24625322
    ensures Aux(1, 0xd28c77c2, 0x306ec122, 0xe422531a) == 0xd04cd322
    ensures Aux(1, 0xa3c663da, 0xd28c77c2, 0x306ec122) == 0xe2c677c2
    ensures Aux(1, 0xa0572807, 0xa3c663da, 0xd28c77c2) == 0xa146201a
    ensures Aux(1, 0x13707036, 0xa0572807, 0xa3c663da) == 0x03516817
    ensures Aux(1, 0xae7813db, 0x13707036, 0xa0572807) == 0xb3705033
    ensures Aux(1, 0x1c31c384, 0xae7813db, 0x13707036) == 0xbc3843cd
  {
  }

  lemma EmptyRotations16()
    ensures RotateLeft(0x4a2fdec5, 5) == 0x45fbd8a9
    ensures RotateLeft(0x93afac02, 9) == 0x5f580527
    ensures RotateLeft(0xdc011301, 14) == 0x44c07700
    ensures RotateLeft(0x23cddfce, 20) == 0xfce23cdd
    ensures RotateLeft(0xabfd3082, 5) == 0x7fa61055
    ensures RotateLeft(0xbb95ccba, 9) == 0x2b997577
    ensures RotateLeft(0xc16e0a26, 14) == 0x8289b05b
    ensures RotateLeft(0x0eedcf8e, 20) == 0xf8e0eedc
    ensures RotateLeft(0x42626370, 5) == 0x4c4c6e08
    ensures RotateLeft(0x50510edb, 9) == 0xa21db6a0
    ensures RotateLeft(0xb06344e7, 14) == 0xd139ec18
    ensures RotateLeft(0x0c42dfc9, 20) == 0xfc90c42d
    ensures RotateLeft(0x7b98ca41, 5) == 0x7319482f
    ensures RotateLeft(0xd2cd83d1, 9) == 0x9b07a3a5
    ensures RotateLeft(0xbea5b6e6, 14) == 0x6db9afa9
    ensures RotateLeft(0xe9b9b85e, 20) == 0x85ee9b9b
  {
  }

  lemma EmptySteps16(x: seq<Word>)
    requires |x| == 16 && x[0] == 0x00000080 && x[1] == 0x00000000 && x[2] == 0x00000000
    requires x[3] == 0x00000000 && x[4] == 0x00000000 && x[5] == 0x00000000 && x[6] == 0x00000000
    requires x[7] == 0x00000000 && x[8] == 0x00000000 && x[9] == 0x00000000 && x[10] == 0x00000000
    requires x[11] == 0x00000000 && x[12] == 0x00000000 && x[13] == 0x00000000 && x[14] == 0x00000000
    requires x[15] == 0x00000000
    ensures StepsFrom(16, 48, State(0xf56c7cf1, 0xd6819c6a, 0x5aa53f75, 0x374943a7), x)
         == StepsFrom(32, 32, State(0x13707036, 0xa2205f1f, 0x1c31c384, 0xae7813db), x)
  {
    EmptyValues16();
    EmptyRotations16();
    Places16();
    Places20();
    Places24();
    Places28();
    hide Aux, RotateLeft, StepsFrom, WordIndex, Shift, Sine, StepOf, Mix;
    var s := State(0xf56c7cf1, 0xd6819c6a, 0x5aa53f75, 0x374943a7);
    s := Turned(16, s, x, 0x5ea53c72, 0x45fbd8a9);
    s := Turned(17, s, x, 0x9c25b51b, 0x5f580527);
    s := Turned(18, s, x, 0x5afd793b, 0x44c07700);
    s := Turned(19, s, x, 0x63957b3a, 0xfce23cdd);
    s := Turned(20, s, x, 0xb950ab12, 0x7fa61055);
    s := Turned(21, s, x, 0x3d7c3e2d, 0x2b997577);
    s := Turned(22, s, x, 0x2836326b, 0x8289b05b);
    s := Turned(23, s, x, 0x69a1a5af, 0xf8e0eedc);
    s := Turned(24, s, x, 0xe362571e, 0x4c4c6e08);
    s := Turned(25, s, x, 0x24625322, 0xa21db6a0);
    s := Turned(26, s, x, 0xd04cd322, 0xd139ec18);
    s := Turned(27, s, x, 0xe2c677c2, 0xfc90c42d);
    s := Turned(28, s, x, 0xa146201a, 0x7319482f);
    s := Turned(29, s, x, 0x03516817, 0x9b07a3a5);
    s := Turned(30, s, x, 0xb3705033, 0x6db9afa9);
    s := Turned(31, s, x, 0xbc3843cd, 0x85ee9b9b);
  }

  lemma EmptyValues32()
    ensures Aux(2, 0xa2205f1f, 0x1c31c384, 0xae7813db) == 0x10698f40
    ensures Aux(2, 0xdf63eaa1, 0xa2205f1f, 0x1c31c384) == 0x6172763a
    ensures Aux(2, 0xc3689f5b, 0xdf63eaa1, 0xa2205f1f) == 0xbe2b2ae5
    ensures Aux(2, 0x12f3e755, 0xc3689f5b, 0xdf63eaa1) == 0x0ef892af
    ensures Aux(2, 0x004b6669, 0x12f3e755, 0xc3689f5b) == 0xd1d01e67
    ensures Aux(2, 0x5f7a9b2e, 0x004b6669, 0x12f3e755) == 0x4dc21a12
    ensures Aux(2, 0xabc34e16, 0x5f7a9b2e, 0x004b6669) == 0xf4f2b351
    ensures Aux(2, 0x91ca4cb7, 0xabc34e16, 0x5f7a9b2e) == 0x6573998f
    ensures Aux(2, 0xc5dc8c15, 0x91ca4cb7, 0xabc34e16) == 0xffd58eb4
    ensures Aux(2, 0x4497169d, 0xc5dc8c15, 0x91ca4cb7) == 0x1081d63f
    ensures Aux(2, 0x76fd93d4, 0x4497169d, 0xc5dc8c15) == 0xf7b6095c
    ensures Aux(2, 0xfd95f243, 0x76fd93d4, 0x4497169d) == 0xcfff770a
    ensures Aux(2, 0x0fe32453, 0xfd95f243, 0x76fd93d4) == 0x848b45c4
    ensures Aux(2, 0x3f55edfd, 0x0fe32453, 0xfd95f243) == 0xcd233bed
    ensures Aux(2, 0x22a31f54, 0x3f55edfd, 0x0fe32453) == 0x1215d6fa
    ensures Aux(2, 0x68d84ea2, 0x22a31f54, 0x3f55edfd) == 0x752ebc0b
  {
  }

  lemma EmptyRotations32()
    ensures RotateLeft(0x23d438b8, 4) == 0x3d438b82
    ensures RotateLeft(0x975c8096, 11) == 0xe404b4ba
    ensures RotateLeft(0x47fa4f8b, 16) == 0x4f8b47fa
    ensures RotateLeft(0xaefe29da, 23) == 0xed577f14
    ensures RotateLeft(0x55f2f34c, 4) == 0x5f2f34c5
    ensures RotateLeft(0x5d098916, 11) == 0x4c48b2e8
    ensures RotateLeft(0xfea1e606, 16) == 0xe606fea1
    ensures RotateLeft(0x247ebc68, 23) == 0x34123f5e
    ensures RotateLeft(0x87eba8a8, 4) == 0x7eba8a88
    ensures RotateLeft(0xa6e64ccf, 11) == 0x32667d37
    ensures RotateLeft(0x5e6f8698, 16) == 0x86985e6f
    ensures RotateLeft(0x9a642024, 23) == 0x124d3210
    ensures RotateLeft(0xa2f72c9a, 4) == 0x2f72c9aa
    ensures RotateLeft(0x2afc69a6, 11) == 0xe34d3157
    ensures RotateLeft(0x2f4e4635, 16) == 0x46352f4e
    ensures RotateLeft(0x49be36c3, 23) == 0x61a4df1b
  {
  }

  lemma EmptySteps32(x: seq<Word>)
    requires |x| == 16 && x[0] == 0x00000080 && x[1] == 0x00000000 && x[2] == 0x00000000
    requires x[3] == 0x00000000 && x[4] == 0x00000000 && x[5] == 0x00000000 && x[6] == 0x00000000
    requires x[7] == 0x00000000 && x[8] == 0x00000000 && x[9] == 0x00000000 && x[10] == 0x00000000
    requires x[11] == 0x00000000 && x[12] == 0x00000000 && x[13] == 0x00000000 && x[14] == 0x00000000
    requires x[15] == 0x00000000
    ensures StepsFrom(32, 32, State(0x13707036, 0xa2205f1f, 0x1c31c384, 0xae7813db), x)
         == StepsFrom(48, 16, State(0x3f55edfd, 0xca7d2dbd, 0x68d84ea2, 0x22a31f54), x)
  {
    EmptyValues32();
    EmptyRotations32();
    Places32();
    Places36();
    Places40();
    Places44();
    hide Aux, RotateLeft, StepsFrom, WordIndex, Shift, Sine, StepOf, Mix;
    var s := State(0x13707036, 0xa2205f1f, 0x1c31c384, 0xae7813db);
    s := Turned(32, s, x, 0x10698f40, 0x3d438b82);
    s := Turned(33, s, x, 0x6172763a, 0xe404b4ba);
    s := Turned(34, s, x, 0xbe2b2ae5, 0x4f8b47fa);
    s := Turned(35, s, x, 0x0ef892af, 0xed577f14);
    s := Turned(36, s, x, 0xd1d01e67, 0x5f2f34c5);
    s := Turned(37, s, x, 0x4dc21a12, 0x4c48b2e8);
    s := Turned(38, s, x, 0xf4f2b351, 0xe606fea1);
    s := Turned(39, s, x, 0x6573998f, 0x34123f5e);
    s := Turned(40, s, x, 0xffd58eb4, 0x7eba8a88);
    s := Turned(41, s, x, 0x1081d63f, 0x32667d37);
    s := Turned(42, s, x, 0xf7b6095c, 0x86985e6f);
    s := Turned(43, s, x, 0xcfff770a, 0x124d3210);
    s := Turned(44, s, x, 0x848b45c4, 0x2f72c9aa);
    s := Turned(45, s, x, 0xcd233bed, 0xe34d3157);
    s := Turned(46, s, x, 0x1215d6fa, 0x46352f4e);
    s := Turned(47, s, x, 0x752ebc0b, 0x61a4df1b);
  }

  lemma EmptyValues48()
    ensures Aux(3, 0xca7d2dbd, 0x68d84ea2, 0x22a31f54) == 0xb7a5a31d
    ensures Aux(3, 0x93aa2577, 0xca7d2dbd, 0x68d84ea2) == 0x5dd298c2
    ensures Aux(3, 0x1688dc85, 0x93aa2577, 0xca7d2dbd) == 0xa420fbb0
    ensures Aux(3, 0xcd85b8cb, 0x1688dc85, 0x93aa2577) == 0xfb5d264e
    ensures Aux(3, 0x561e0689, 0xcd85b8cb, 0x1688dc85) == 0x32fa9f30
    ensures Aux(3, 0x5625a114, 0x561e0689, 0xcd85b8cb) == 0x2061e1bd
    ensures Aux(3, 0x3450f42b, 0x5625a114, 0x561e0689) == 0xebd45c6b
    ensures Aux(3, 0x392ad0d0, 0x3450f42b, 0x5625a114) == 0x8daa2ad0
    ensures Aux(3, 0x1e77fa61, 0x392ad0d0, 0x3450f42b) == 0xe6d52b25
    ensures Aux(3, 0x474a9c8c, 0x1e77fa61, 0x392ad0d0) == 0xd9a845ce
    ensures Aux(3, 0xdfce00bc, 0x474a9c8c, 0x1e77fa61) == 0xb8849932
    ensures Aux(3, 0x36594b14, 0xdfce00bc, 0x474a9c8c) == 0x61336bcb
    ensures Aux(3, 0x30130182, 0x36594b14, 0xdfce00bc) == 0x066ab4d7
    ensures Aux(3, 0x7246fad3, 0x30130182, 0x36594b14) == 0xcbf5ff79
    ensures Aux(3, 0x6e10a476, 0x7246fad3, 0x30130182) == 0x9dba04ac
    ensures Aux(3, 0xff4ea3eb, 0x6e10a476, 0x7246fad3) == 0x91ef0399
  {
  }

  lemma EmptyRotations48()
    ensures RotateLeft(0xeb24b3de, 6) == 0xc92cf7ba
    ensures RotateLeft(0xc3a0b7ad, 10) == 0x82deb70e
    ensures RotateLeft(0xb88d6df9, 15) == 0xb6fcdc46
    ensures RotateLeft(0xc26df444, 21) == 0x88984dbe
    ensures RotateLeft(0x2c001e6a, 6) == 0x00079a8b
    ensures RotateLeft(0xc5f78ad4, 10) == 0xde2b5317
    ensures RotateLeft(0xb94a09b3, 15) == 0x04d9dca5
    ensures RotateLeft(0x694c8f2a, 21) == 0xe54d2991
    ensures RotateLeft(0xaca34a88, 6) == 0x28d2a22b
    ensures RotateLeft(0x0c2620d9, 10) == 0x98836430
    ensures RotateLeft(0x94b0ad16, 15) == 0x568b4a58
    ensures RotateLeft(0xcdb377cd, 21) == 0xf9b9b66e
    ensures RotateLeft(0x4508cfe5, 6) == 0x4233f951
    ensures RotateLeft(0x68fef26a, 10) == 0xfbc9a9a3
    ensures RotateLeft(0xfeeb227b, 15) == 0x913dff75
    ensures RotateLeft(0xad88d8ac, 21) == 0x1595b11b
  {
  }

  lemma EmptySteps48(x: seq<Word>)
    requires |x| == 16 && x[0] == 0x00000080 && x[1] == 0x00000000 && x[2] == 0x00000000
    requires x[3] == 0x00000000 && x[4] == 0x00000000 && x[5] == 0x00000000 && x[6] == 0x00000000
    requires x[7] == 0x00000000 && x[8] == 0x00000000 && x[9] == 0x00000000 && x[10] == 0x00000000
    requires x[11] == 0x00000000 && x[12] == 0x00000000 && x[13] == 0x00000000 && x[14] == 0x00000000
    requires x[15] == 0x00000000
    ensures StepsFrom(48, 16, State(0x3f55edfd, 0xca7d2dbd, 0x68d84ea2, 0x22a31f54), x)
         == StepsFrom(64, 0, State(0x7246fad3, 0x14e45506, 0xff4ea3eb, 0x6e10a476), x)
  {
    EmptyValues48();
    EmptyRotations48();
    Places48();
    Places52();
    Places56();
    Places60();
    hide Aux, RotateLeft, StepsFrom, WordIndex, Shift, Sine, StepOf, Mix;
    var s := State(0x3f55edfd, 0xca7d2dbd, 0x68d84ea2, 0x22a31f54);
    s := Turned(48, s, x, 0xb7a5a31d, 0xc92cf7ba);
    s := Turned(49, s, x, 0x5dd298c2, 0x82deb70e);
    s := Turned(50, s, x, 0xa420fbb0, 0xb6fcdc46);
    s := Turned(51, s, x, 0xfb5d264e, 0x88984dbe);
    s := Turned(52, s, x, 0x32fa9f30, 0x00079a8b);
    s := Turned(53, s, x, 0x2061e1bd, 0xde2b5317);
    s := Turned(54, s, x, 0xebd45c6b, 0x04d9dca5);
    s := Turned(55, s, x, 0x8daa2ad0, 0xe54d2991);
    s := Turned(56, s, x, 0xe6d52b25, 0x28d2a22b);
    s := Turned(57, s, x, 0xd9a845ce, 0x98836430);
    s := Turned(58, s, x, 0xb8849932, 0x568b4a58);
    s := Turned(59, s, x, 0x61336bcb, 0xf9b9b66e);
    s := Turned(60, s, x, 0x066ab4d7, 0x4233f951);
    s := Turned(61, s, x, 0xcbf5ff79, 0xfbc9a9a3);
    s := Turned(62, s, x, 0x9dba04ac, 0x913dff75);
    s := Turned(63, s, x, 0x91ef0399, 0x1595b11b);
  }

  lemma EmptyCompressed(block: seq<Byte>)
    requires |block| == 64 && WordsOf(block) == EMPTY
    ensures Compress(State(0x67452301, 0xefcdab89, 0x98badcfe, 0x10325476), block) == State(0xd98c1dd4, 0x04b2008f, 0x980980e9, 0x7e42f8ec)
  {
    hide StepsFrom, WordsOf;
    var x := EMPTY;
    EmptySteps0(x);
    EmptySteps16(x);
    EmptySteps32(x);
    EmptySteps48(x);
    NoMore(State(0x7246fad3, 0x14e45506, 0xff4ea3eb, 0x6e10a476), x);
  }

  const FIRST: seq<Word> :=
    [0x44434241, 0x48474645, 0x4c4b4a49, 0x504f4e4d, 0x54535251, 0x58575655, 0x62615a59, 0x66656463,
     0x6a696867, 0x6e6d6c6b, 0x7271706f, 0x76757473, 0x7a797877, 0x33323130, 0x37363534, 0x00803938]

  const SECOND: seq<Word> :=
    [0x00000000, 0x00000000, 0x00000000, 0x00000000, 0x00000000, 0x00000000, 0x00000000, 0x00000000,
     0x00000000, 0x00000000, 0x00000000, 0x00000000, 0x00000000, 0x00000000, 0x000001f0, 0x00000000]

  lemma FirstValues0()
    ensures Aux(0, 0xefcdab89, 0x98badcfe, 0x10325476) == 0x98badcfe
    ensures Aux(0, 0xc6c10796, 0xefcdab89, 0x98badcfe) == 0xdefbdbe8
    ensures Aux(0, 0x99a09999, 0xc6c10796, 0xefcdab89) == 0xe6cd2390
    ensures Aux(0, 0x11067980, 0x99a09999, 0xc6c10796) == 0xd7c11f96
    ensures Aux(0, 0x27bce07a, 0x11067980, 0x99a09999) == 0x99047981
    ensures Aux(0, 0xf22e6c4e, 0x27bce07a, 0x11067980) == 0x232c71ca
    ensures Aux(0, 0xb4ac9218, 0xf22e6c4e, 0x27bce07a) == 0xb33c606a
    ensures Aux(0, 0xa95a2fc0, 0xb4ac9218, 0xf22e6c4e) == 0xf22c420e
    ensures Aux(0, 0xa4799506, 0xa95a2fc0, 0xb4ac9218) == 0xb0dc0718
    ensures Aux(0, 0x1eb3e7c1, 0xa4799506, 0xa95a2fc0) == 0xa5798d00
    ensures Aux(0, 0xa6e70cfe, 0x1eb3e7c1, 0xa4799506) == 0x06bb95c0
    ensures Aux(0, 0xca27520b, 0xa6e70cfe, 0x1eb3e7c1) == 0x96b7a5ca
    ensures Aux(0, 0x8a7612ec, 0xca27520b, 0xa6e70cfe) == 0xaea71e1a
    ensures Aux(0, 0x3cbdcd45, 0x8a7612ec, 0xca27520b) == 0xca36124e
    ensures Aux(0, 0xb8dec763, 0x3cbdcd45, 0x8a7612ec) == 0x3abcd5cd
    ensures Aux(0, 0xfa148c8a, 0xb8dec763, 0x3cbdcd45) == 0xbcbdc547
  {
  }

  lemma FirstRotations0()
    ensures RotateLeft(0x1bade6b8, 7) == 0xd6f35c0d
    ensures RotateLeft(0x203d2df9, 12) == 0xd2df9203
    ensures RotateLeft(0xeff3bbb2, 17) == 0x7765dfe7
    ensures RotateLeft(0xd99be85a, 22) == 0x16b666fa
    ensures RotateLeft(0xa994e317, 7) == 0xca718bd4
    ensures RotateLeft(0x5cac27e2, 12) == 0xc27e25ca
    ensures RotateLeft(0xced47a56, 17) == 0xf4ad9da8
    ensures RotateLeft(0x7d951bec, 22) == 0xfb1f6546
    ensures RotateLeft(0x76f474a5, 7) == 0x7a3a52bb
    ensures RotateLeft(0x53d88332, 12) == 0x8833253d
    ensures RotateLeft(0x228691a0, 17) == 0x2340450d
    ensures RotateLeft(0x3b038701, 22) == 0xc04ec0e1
    ensures RotateLeft(0xb3648f74, 7) == 0xb247ba59
    ensures RotateLeft(0xa1e7c20f, 12) == 0x7c20fa1e
    ensures RotateLeft(0xe293a09a, 17) == 0x4135c527
    ensures RotateLeft(0x9168198c, 22) == 0x63245a06
  {
  }

  lemma FirstSteps0(x: seq<Word>)
    requires |x| == 16 && x[0] == 0x44434241 && x[1] == 0x48474645 && x[2] == 0x4c4b4a49
    requires x[3] == 0x504f4e4d && x[4] == 0x54535251 && x[5] == 0x58575655 && x[6] == 0x62615a59
    requires x[7] == 0x66656463 && x[8] == 0x6a696867 && x[9] == 0x6e6d6c6b && x[10] == 0x7271706f
    requires x[11] == 0x76757473 && x[12] == 0x7a797877 && x[13] == 0x33323130 && x[14] == 0x37363534
    requires x[15] == 0x00803938
    ensures StepsFrom(0, 64, State(0x67452301, 0xefcdab89, 0x98badcfe, 0x10325476), x)
         == StepsFrom(16, 48, State(0x3cbdcd45, 0x5d38e690, 0xfa148c8a, 0xb8dec763), x)
  {
    FirstValues0();
    FirstRotations0();
    Places0();
    Places4();
    Places8();
    Places12();
    hide Aux, RotateLeft, StepsFrom, WordIndex, Shift, Sine, StepOf, Mix;
    var s := State(0x67452301, 0xefcdab89, 0x98badcfe, 0x10325476);
    s := Turned(0, s, x, 0x98badcfe, 0xd6f35c0d);
    s := Turned(1, s, x, 0xdefbdbe8, 0xd2df9203);
    s := Turned(2, s, x, 0xe6cd2390, 0x7765dfe7);
    s := Turned(3, s, x, 0xd7c11f96, 0x16b666fa);
    s := Turned(4, s, x, 0x99047981, 0xca718bd4);
    s := Turned(5, s, x, 0x232c71ca, 0xc27e25ca);
    s := Turned(6, s, x, 0xb33c606a, 0xf4ad9da8);
    s := Turned(7, s, x, 0xf22c420e, 0xfb1f6546);
    s := Turned(8, s, x, 0xb0dc0718, 0x7a3a52bb);
    s := Turned(9, s, x, 0xa5798d00, 0x8833253d);
    s := Turned(10, s, x, 0x06bb95c0, 0x2340450d);
    s := Turned(11, s, x, 0x96b7a5ca, 0xc04ec0e1);
    s := Turned(12, s, x, 0xaea71e1a, 0xb247ba59);
    s := Turned(13, s, x, 0xca36124e, 0x7c20fa1e);
    s := Turned(14, s, x, 0x3abcd5cd, 0x4135c527);
    s := Turned(15, s, x, 0xbcbdc547, 0x63245a06);
  }

  lemma FirstValues16()
    ensures Aux(1, 0x5d38e690, 0xfa148c8a, 0xb8dec763) == 0x5a18ce88
    ensures Aux(1, 0x04b9d52a, 0x5d38e690, 0xfa148c8a) == 0x0538e61a
    ensures Aux(1, 0x783002eb, 0x04b9d52a, 0x5d38e690) == 0x58b113aa
    ensures Aux(1, 0xd3ee3ed1, 0x783002eb, 0x04b9d52a) == 0x78a816c1
    ensures Aux(1, 0x47ae7c81, 0xd3ee3ed1, 0x783002eb) == 0xc3ee3c91
    ensures Aux(1, 0x2d7d8a3f, 0x47ae7c81, 0xd3ee3ed1) == 0x056c4a11
    ensures Aux(1, 0xd1210823, 0x2d7d8a3f, 0x47ae7c81) == 0x69718a3f
    ensures Aux(1, 0x4b534dc3, 0xd1210823, 0x2d7d8a3f) == 0xd9510803
    ensures Aux(1, 0x75292030, 0x4b534dc3, 0xd1210823) == 0x5b7345e0
    ensures Aux(1, 0x9d2a6e33, 0x75292030, 0x4b534dc3) == 0x3d2a6c33
    ensures Aux(1, 0x0e8d2e44, 0x9d2a6e33, 0x75292030) == 0x8c0b6e03
    ensures Aux(1, 0xd473b564, 0x0e8d2e44, 0x9d2a6e33) == 0x96a72464
    ensures Aux(1, 0xf2ff6ea0, 0xd473b564, 0x0e8d2e44) == 0xd2ffbf20
    ensures Aux(1, 0x9b085fa9, 0xf2ff6ea0, 0xd473b564) == 0xb28c5fa0
    ensures Aux(1, 0x4400a9bd, 0x9b085fa9, 0xf2ff6ea0) == 0x490039a9
    ensures Aux(1, 0x5993248f, 0x4400a9bd, 0x9b085fa9) == 0x5d00a49d
  {
  }

  lemma FirstRotations16()
    ensures RotateLeft(0xd53c0774, 5) == 0xa780ee9a
    ensures RotateLeft(0xe0b9bb16, 9) == 0x73762dc1
    ensures RotateLeft(0xef996ef8, 14) == 0x5bbe3be6
    ensures RotateLeft(0x03db073c, 20) == 0x73c03db0
    ensures RotateLeft(0xf72e786d, 5) == 0xe5cf0dbe
    ensures RotateLeft(0xf251d1be, 9) == 0xa3a37de4
    ensures RotateLeft(0x1681e8c9, 14) == 0x7a3245a0
    ensures RotateLeft(0x5d26d29d, 20) == 0x29d5d26d
    ensures RotateLeft(0x19400a70, 5) == 0x28014e03
    ensures RotateLeft(0x08b8b160, 9) == 0x7162c011
    ensures RotateLeft(0x1c83179a, 14) == 0xc5e68720
    ensures RotateLeft(0xbb93c1e8, 20) == 0x1e8bb93c
    ensures RotateLeft(0x4d404788, 5) == 0xa808f109
    ensures RotateLeft(0x0a547c25, 9) == 0xa8f84a14
    ensures RotateLeft(0xeb485649, 14) == 0x15927ad2
    ensures RotateLeft(0x57a3d83e, 20) == 0x83e57a3d
  {
  }

  lemma FirstSteps16(x: seq<Word>)
    requires |x| == 16 && x[0] == 0x44434241 && x[1] == 0x48474645 && x[2] == 0x4c4b4a49
    requires x[3] == 0x504f4e4d && x[4] == 0x54535251 && x[5] == 0x58575655 && x[6] == 0x62615a59
    requires x[7] == 0x66656463 && x[8] == 0x6a696867 && x[9] == 0x6e6d6c6b && x[10] == 0x7271706f
    requires x[11] == 0x76757473 && x[12] == 0x7a797877 && x[13] == 0x33323130 && x[14] == 0x37363534
    requires x[15] == 0x00803938
    ensures StepsFrom(16, 48, State(0x3cbdcd45, 0x5d38e690, 0xfa148c8a, 0xb8dec763), x)
         == StepsFrom(32, 32, State(0x9b085fa9, 0xdd789ecc, 0x5993248f, 0x4400a9bd), x)
  {
    FirstValues16();
    FirstRotations16();
    Places16();
    Places20();
    Places24();
    Places28();
    hide Aux, RotateLeft, StepsFrom, WordIndex, Shift, Sine, StepOf, Mix;
    var s := State(0x3cbdcd45, 0x5d38e690, 0xfa148c8a, 0xb8dec763);
    s := Turned(16, s, x, 0x5a18ce88, 0xa780ee9a);
    s := Turned(17, s, x, 0x0538e61a, 0x73762dc1);
    s := Turned(18, s, x, 0x58b113aa, 0x5bbe3be6);
    s := Turned(19, s, x, 0x78a816c1, 0x73c03db0);
    s := Turned(20, s, x, 0xc3ee3c91, 0xe5cf0dbe);
    s := Turned(21, s, x, 0x056c4a11, 0xa3a37de4);
    s := Turned(22, s, x, 0x69718a3f, 0x7a3245a0);
    s := Turned(23, s, x, 0xd9510803, 0x29d5d26d);
    s := Turned(24, s, x, 0x5b7345e0, 0x28014e03);
    s := Turned(25, s, x, 0x3d2a6c33, 0x7162c011);
    s := Turned(26, s, x, 0x8c0b6e03, 0xc5e68720);
    s := Turned(27, s, x, 0x96a72464, 0x1e8bb93c);
    s := Turned(28, s, x, 0xd2ffbf20, 0xa808f109);
    s := Turned(29, s, x, 0xb28c5fa0, 0xa8f84a14);
    s := Turned(30, s, x, 0x490039a9, 0x15927ad2);
    s := Turned(31, s, x, 0x5d00a49d, 0x83e57a3d);
  }

  lemma FirstValues32()
    ensures Aux(2, 0xdd789ecc, 0x5993248f, 0x4400a9bd) == 0xc0eb13fe
    ensures Aux(2, 0x21c8d2b7, 0xdd789ecc, 0x5993248f) == 0xa52368f4
    ensures Aux(2, 0x1d55a18e, 0x21c8d2b7, 0xdd789ecc) == 0xe1e5edf5
    ensures Aux(2, 0x056ec119, 0x1d55a18e, 0x21c8d2b7) == 0x39f3b220
    ensures Aux(2, 0x1b9504f8, 0x056ec119, 0x1d55a18e) == 0x03ae646f
    ensures Aux(2, 0x436b7fe9, 0x1b9504f8, 0x056ec119) == 0x5d90ba08
    ensures Aux(2, 0x075800c1, 0x436b7fe9, 0x1b9504f8) == 0x5fa67bd0
    ensures Aux(2, 0xf404c2f6, 0x075800c1, 0x436b7fe9) == 0xb037bdde
    ensures Aux(2, 0xcf0341ed, 0xf404c2f6, 0x075800c1) == 0x3c5f83da
    ensures Aux(2, 0x888e7d8a, 0xcf0341ed, 0xf404c2f6) == 0xb389fe91
    ensures Aux(2, 0xbbdaecd8, 0x888e7d8a, 0xcf0341ed) == 0xfc57d0bf
    ensures Aux(2, 0xce620273, 0xbbdaecd8, 0x888e7d8a) == 0xfd369321
    ensures Aux(2, 0x047b9419, 0xce620273, 0xbbdaecd8) == 0x71c37ab2
    ensures Aux(2, 0x2dbee21d, 0x047b9419, 0xce620273) == 0xe7a77477
    ensures Aux(2, 0xe95c3a43, 0x2dbee21d, 0x047b9419) == 0xc0994c47
    ensures Aux(2, 0xee46e961, 0xe95c3a43, 0x2dbee21d) == 0x2aa4313f
  {
  }

  lemma FirstRotations32()
    ensures RotateLeft(0xb445033e, 4) == 0x445033eb
    ensures RotateLeft(0xdaff7199, 11) == 0xfb8cced7
    ensures RotateLeft(0x1f8be819, 16) == 0xe8191f8b
    ensures RotateLeft(0x4c87be2c, 23) == 0x162643df
    ensures RotateLeft(0x127d67af, 4) == 0x27d67af1
    ensures RotateLeft(0x1b187d90, 11) == 0xc3ec80d8
    ensures RotateLeft(0xc235ecac, 16) == 0xecacc235
    ensures RotateLeft(0xfcfdefb5, 23) == 0xdafe7ef7
    ensures RotateLeft(0xdb98b3b9, 4) == 0xb98b3b9d
    ensures RotateLeft(0xe9c6698d, 11) == 0x334c6f4e
    ensures RotateLeft(0x159b1287, 16) == 0x1287159b
    ensures RotateLeft(0x33234c6c, 23) == 0x361991a6
    ensures RotateLeft(0x429434e0, 4) == 0x29434e04
    ensures RotateLeft(0x04d773ab, 11) == 0xbb9d5826
    ensures RotateLeft(0xaf1e04ea, 16) == 0x04eaaf1e
    ensures RotateLeft(0x40176606, 23) == 0x03200bb3
  {
  }

  lemma FirstSteps32(x: seq<Word>)
    requires |x| == 16 && x[0] == 0x44434241 && x[1] == 0x48474645 && x[2] == 0x4c4b4a49
    requires x[3] == 0x504f4e4d && x[4] == 0x54535251 && x[5] == 0x58575655 && x[6] == 0x62615a59
    requires x[7] == 0x66656463 && x[8] == 0x6a696867 && x[9] == 0x6e6d6c6b && x[10] == 0x7271706f
    requires x[11] == 0x76757473 && x[12] == 0x7a797877 && x[13] == 0x33323130 && x[14] == 0x37363534
    requires x[15] == 0x00803938
    ensures StepsFrom(32, 32, State(0x9b085fa9, 0xdd789ecc, 0x5993248f, 0x4400a9bd), x)
         == StepsFrom(48, 16, State(0x2dbee21d, 0xf166f514, 0xee46e961, 0xe95c3a43), x)
  {
    FirstValues32();
    FirstRotations32();
    Places32();
    Places36();
    Places40();
    Places44();
    hide Aux, RotateLeft, StepsFrom, WordIndex, Shift, Sine, StepOf, Mix;
    var s := State(0x9b085fa9, 0xdd789ecc, 0x5993248f, 0x4400a9bd);
    s := Turned(32, s, x, 0xc0eb13fe, 0x445033eb);
    s := Turned(33, s, x, 0xa52368f4, 0xfb8cced7);
    s := Turned(34, s, x, 0xe1e5edf5, 0xe8191f8b);
    s := Turned(35, s, x, 0x39f3b220, 0x162643df);
    s := Turned(36, s, x, 0x03ae646f, 0x27d67af1);
    s := Turned(37, s, x, 0x5d90ba08, 0xc3ec80d8);
    s := Turned(38, s, x, 0x5fa67bd0, 0xecacc235);
    s := Turned(39, s, x, 0xb037bdde, 0xdafe7ef7);
    s := Turned(40, s, x, 0x3c5f83da, 0xb98b3b9d);
    s := Turned(41, s, x, 0xb389fe91, 0x334c6f4e);
    s := Turned(42, s, x, 0xfc57d0bf, 0x1287159b);
    s := Turned(43, s, x, 0xfd369321, 0x361991a6);
    s := Turned(44, s, x, 0x71c37ab2, 0x29434e04);
    s := Turned(45, s, x, 0xe7a77477, 0xbb9d5826);
    s := Turned(46, s, x, 0xc0994c47, 0x04eaaf1e);
    s := Turned(47, s, x, 0x2aa4313f, 0x03200bb3);
  }

  lemma FirstValues48()
    ensures Aux(3, 0xf166f514, 0xee46e961, 0xe95c3a43) == 0x19a11cdd
    ensures Aux(3, 0xe47fd4f3, 0xf166f514, 0xee46e961) == 0x049923eb
    ensures Aux(3, 0xfb887751, 0xe47fd4f3, 0xf166f514) == 0x1be6ab08
    ensures Aux(3, 0xf22aedcc, 0xfb887751, 0xe47fd4f3) == 0x0022989d
    ensures Aux(3, 0x7a13bc5c, 0xf22aedcc, 0xfb887751) == 0x8c5d5132
    ensures Aux(3, 0xa691d430, 0x7a13bc5c, 0xf22aedcc) == 0xd5c66a6f
    ensures Aux(3, 0x528452f2, 0xa691d430, 0x7a13bc5c) == 0x717d87c3
    ensures Aux(3, 0x3fc23df6, 0x528452f2, 0xa691d430) == 0x2d6a6d0d
    ensures Aux(3, 0xefb0e72f, 0x3fc23df6, 0x528452f2) == 0xd039d2d9
    ensures Aux(3, 0x27145703, 0xefb0e72f, 0x3fc23df6) == 0x088d3024
    ensures Aux(3, 0x21a11069, 0x27145703, 0xefb0e72f) == 0x16fb4ffa
    ensures Aux(3, 0x374fbe79, 0x21a11069, 0x27145703) == 0xde4eae94
    ensures Aux(3, 0x49d9a5b4, 0x374fbe79, 0x21a11069) == 0xe89051cf
    ensures Aux(3, 0x1cb80f0a, 0x49d9a5b4, 0x374fbe79) == 0x9561ea3a
    ensures Aux(3, 0xea3d3eb4, 0x1cb80f0a, 0x49d9a5b4) == 0xe28771f5
    ensures Aux(3, 0x10f68731, 0xea3d3eb4, 0x1cb80f0a) == 0x19cac941
  {
  }

  lemma FirstRotations48()
    ensures RotateLeft(0x7fcc637f, 6) == 0xf318dfdf
    ensures RotateLeft(0x9785c228, 10) == 0x1708a25e
    ensures RotateLeft(0xecf7ed44, 15) == 0xf6a2767b
    ensures RotateLeft(0x4674843f, 21) == 0x87e8ce90
    ensures RotateLeft(0x50b1f85f, 6) == 0x2c7e17d4
    ensures RotateLeft(0xb0aafc9f, 10) == 0xabf27ec2
    ensures RotateLeft(0xd609da7b, 15) == 0xed3deb04
    ensures RotateLeft(0x7549cd7f, 21) == 0xafeea939
    ensures RotateLeft(0x50dd8dbf, 6) == 0x37636fd4
    ensures RotateLeft(0x59bea32e, 10) == 0xfa8cb966
    ensures RotateLeft(0x5c202b5d, 15) == 0x15aeae10
    ensures RotateLeft(0x4f39d894, 21) == 0x1289e73b
    ensures RotateLeft(0x5b4b79a5, 6) == 0xd2de6956
    ensures RotateLeft(0xeab3614b, 10) == 0xcd852faa
    ensures RotateLeft(0x90fa4d72, 15) == 0x26b9487d
    ensures RotateLeft(0xbd98aef1, 21) == 0xde37b315
  {
  }

  lemma FirstSteps48(x: seq<Word>)
    requires |x| == 16 && x[0] == 0x44434241 && x[1] == 0x48474645 && x[2] == 0x4c4b4a49
    requires x[3] == 0x504f4e4d && x[4] == 0x54535251 && x[5] == 0x58575655 && x[6] == 0x62615a59
    requires x[7] == 0x66656463 && x[8] == 0x6a696867 && x[9] == 0x6e6d6c6b && x[10] == 0x7271706f
    requires x[11] == 0x76757473 && x[12] == 0x7a797877 && x[13] == 0x33323130 && x[14] == 0x37363534
    requires x[15] == 0x00803938
    ensures StepsFrom(48, 16, State(0x2dbee21d, 0xf166f514, 0xee46e961, 0xe95c3a43), x)
         == StepsFrom(64, 0, State(0x1cb80f0a, 0xef2e3a46, 0x10f68731, 0xea3d3eb4), x)
  {
    FirstValues48();
    FirstRotations48();
    Places48();
    Places52();
    Places56();
    Places60();
    hide Aux, RotateLeft, StepsFrom, WordIndex, Shift, Sine, StepOf, Mix;
    var s := State(0x2dbee21d, 0xf166f514, 0xee46e961, 0xe95c3a43);
    s := Turned(48, s, x, 0x19a11cdd, 0xf318dfdf);
    s := Turned(49, s, x, 0x049923eb, 0x1708a25e);
    s := Turned(50, s, x, 0x1be6ab08, 0xf6a2767b);
    s := Turned(51, s, x, 0x0022989d, 0x87e8ce90);
    s := Turned(52, s, x, 0x8c5d5132, 0x2c7e17d4);
    s := Turned(53, s, x, 0xd5c66a6f, 0xabf27ec2);
    s := Turned(54, s, x, 0x717d87c3, 0xed3deb04);
    s := Turned(55, s, x, 0x2d6a6d0d, 0xafeea939);
    s := Turned(56, s, x, 0xd039d2d9, 0x37636fd4);
    s := Turned(57, s, x, 0x088d3024, 0xfa8cb966);
    s := Turned(58, s, x, 0x16fb4ffa, 0x15aeae10);
    s := Turned(59, s, x, 0xde4eae94, 0x1289e73b);
    s := Turned(60, s, x, 0xe89051cf, 0xd2de6956);
    s := Turned(61, s, x, 0x9561ea3a, 0xcd852faa);
    s := Turned(62, s, x, 0xe28771f5, 0x26b9487d);
    s := Turned(63, s, x, 0x19cac941, 0xde37b315);
  }

  lemma FirstCompressed(block: seq<Byte>)
    requires |block| == 64 && WordsOf(block) == FIRST
    ensures Compress(State(0x67452301, 0xefcdab89, 0x98badcfe, 0x10325476), block) == State(0x83fd320b, 0xdefbe5cf, 0xa9b1642f, 0xfa6f932a)
  {
    hide StepsFrom, WordsOf;
    var x := FIRST;
    FirstSteps0(x);
    FirstSteps16(x);
    FirstSteps32(x);
    FirstSteps48(x);
    NoMore(State(0x1cb80f0a, 0xef2e3a46, 0x10f68731, 0xea3d3eb4), x);
  }

  lemma SecondValues0()
    ensures Aux(0, 0xdefbe5cf, 0xa9b1642f, 0xfa6f932a) == 0xa8b5762f
    ensures Aux(0, 0xeda23ed1, 0xdefbe5cf, 0xa9b1642f) == 0xccb364ef
    ensures Aux(0, 0x989939cf, 0xeda23ed1, 0xdefbe5cf) == 0xcee2fcc1
    ensures Aux(0, 0x3c307338, 0x989939cf, 0xeda23ed1) == 0xd9923dc9
    ensures Aux(0, 0xddcf0634, 0x3c307338, 0x989939cf) == 0x1c103bfb
    ensures Aux(0, 0x75144433, 0xddcf0634, 0x3c307338) == 0x5d243738
    ensures Aux(0, 0xc8875807, 0x75144433, 0xddcf0634) == 0x554c4633
    ensures Aux(0, 0xc783cb60, 0xc8875807, 0x75144433) == 0xf0974c13
    ensures Aux(0, 0x99b6b699, 0xc783cb60, 0xc8875807) == 0xc183ca06
    ensures Aux(0, 0xa60a3f69, 0x99b6b699, 0xc783cb60) == 0xc183f609
    ensures Aux(0, 0xaa6630be, 0xa60a3f69, 0x99b6b699) == 0xb392b629
    ensures Aux(0, 0x64db26e9, 0xaa6630be, 0xa60a3f69) == 0xa24239a8
    ensures Aux(0, 0x64cc7c5a, 0x64db26e9, 0xaa6630be) == 0xeeea24ec
    ensures Aux(0, 0xa70737da, 0x64cc7c5a, 0x64db26e9) == 0x64dc347b
    ensures Aux(0, 0x5473f8a7, 0xa70737da, 0x64cc7c5a) == 0x248f34da
    ensures Aux(0, 0x96f6586e, 0x5473f8a7, 0xa70737da) == 0x35737fb6
  {
  }

  lemma SecondRotations0()
    ensures RotateLeft(0x041d4cb2, 7) == 0x0ea65902
    ensures RotateLeft(0xafeaaf6f, 12) == 0xaaf6fafe
    ensures RotateLeft(0x9cb4d1cb, 17) == 0xa3973969
    ensures RotateLeft(0x7a4bf286, 22) == 0xa19e92fc
    ensures RotateLeft(0xff2e8a7b, 7) == 0x97453dff
    ensures RotateLeft(0x3d453731, 12) == 0x537313d4
    ensures RotateLeft(0x39acff7e, 17) == 0xfefc7359
    ensures RotateLeft(0xcbace748, 22) == 0xd232eb39
    ensures RotateLeft(0xa018a711, 7) == 0x0c5388d0
    ensures RotateLeft(0x155045bf, 12) == 0x045bf155
    ensures RotateLeft(0x7b15dd3a, 17) == 0xba74f62b
    ensures RotateLeft(0xc555c7ff, 22) == 0xfff15571
    ensures RotateLeft(0x00847577, 7) == 0x423abb80
    ensures RotateLeft(0x0cdad6cc, 12) == 0xad6cc0cd
    ensures RotateLeft(0x2fe3a141, 17) == 0x42825fc7
    ensures RotateLeft(0xe3f40431, 22) == 0x0c78fd01
  {
  }

  lemma SecondSteps0(x: seq<Word>)
    requires |x| == 16 && x[0] == 0x00000000 && x[1] == 0x00000000 && x[2] == 0x00000000
    requires x[3] == 0x00000000 && x[4] == 0x00000000 && x[5] == 0x00000000 && x[6] == 0x00000000
    requires x[7] == 0x00000000 && x[8] == 0x00000000 && x[9] == 0x00000000 && x[10] == 0x00000000
    requires x[11] == 0x00000000 && x[12] == 0x00000000 && x[13] == 0x00000000 && x[14] == 0x000001f0
    requires x[15] == 0x00000000
    ensures StepsFrom(0, 64, State(0x83fd320b, 0xdefbe5cf, 0xa9b1642f, 0xfa6f932a), x)
         == StepsFrom(16, 48, State(0xa70737da, 0xa36f556f, 0x96f6586e, 0x5473f8a7), x)
  {
    SecondValues0();
    SecondRotations0();
    Places0();
    Places4();
    Places8();
    Places12();
    hide Aux, RotateLeft, StepsFrom, WordIndex, Shift, Sine, StepOf, Mix;
    var s := State(0x83fd320b, 0xdefbe5cf, 0xa9b1642f, 0xfa6f932a);
    s := Turned(0, s, x, 0xa8b5762f, 0x0ea65902);
    s := Turned(1, s, x, 0xccb364ef, 0xaaf6fafe);
    s := Turned(2, s, x, 0xcee2fcc1, 0xa3973969);
    s := Turned(3, s, x, 0xd9923dc9, 0xa19e92fc);
    s := Turned(4, s, x, 0x1c103bfb, 0x97453dff);
    s := Turned(5, s, x, 0x5d243738, 0x537313d4);
    s := Turned(6, s, x, 0x554c4633, 0xfefc7359);
    s := Turned(7, s, x, 0xf0974c13, 0xd232eb39);
    s := Turned(8, s, x, 0xc183ca06, 0x0c5388d0);
    s := Turned(9, s, x, 0xc183f609, 0x045bf155);
    s := Turned(10, s, x, 0xb392b629, 0xba74f62b);
    s := Turned(11, s, x, 0xa24239a8, 0xfff15571);
    s := Turned(12, s, x, 0xeeea24ec, 0x423abb80);
    s := Turned(13, s, x, 0x64dc347b, 0xad6cc0cd);
    s := Turned(14, s, x, 0x248f34da, 0x42825fc7);
    s := Turned(15, s, x, 0x35737fb6, 0x0c78fd01);
  }

  lemma SecondValues16()
    ensures Aux(1, 0xa36f556f, 0x96f6586e, 0x5473f8a7) == 0x82e7506f
    ensures Aux(1, 0xa5050ad3, 0xa36f556f, 0x96f6586e) == 0xa50d0d43
    ensures Aux(1, 0x28776046, 0xa5050ad3, 0xa36f556f) == 0x24674ad6
    ensures Aux(1, 0x27dcd8b4, 0x28776046, 0xa5050ad3) == 0x2d766894
    ensures Aux(1, 0x82b8827c, 0x27dcd8b4, 0x28776046) == 0x07b898f4
    ensures Aux(1, 0xe04f070c, 0x82b8827c, 0x27dcd8b4) == 0xa06c024c
    ensures Aux(1, 0x2f3cd2a2, 0xe04f070c, 0x82b8827c) == 0x627f8720
    ensures Aux(1, 0xc0d22b61, 0x2f3cd2a2, 0xe04f070c) == 0xcf72d3a2
    ensures Aux(1, 0xdf35cb56, 0xc0d22b61, 0x2f3cd2a2) == 0xcff6eb43
    ensures Aux(1, 0x242dd210, 0xdf35cb56, 0xc0d22b61) == 0x1f25c216
    ensures Aux(1, 0x576ace33, 0x242dd210, 0xdf35cb56) == 0x7728da12
    ensures Aux(1, 0x5c295967, 0x576ace33, 0x242dd210) == 0x576b5c23
    ensures Aux(1, 0x2291191a, 0x5c295967, 0x576ace33) == 0x0a011956
    ensures Aux(1, 0x24eba695, 0x2291191a, 0x5c295967) == 0x26b9001d
    ensures Aux(1, 0x4bd0378b, 0x24eba695, 0x2291191a) == 0x06fab78f
    ensures Aux(1, 0x10c42a2f, 0x4bd0378b, 0x24eba695) == 0x4bd0330f
  {
  }

  lemma SecondRotations16()
    ensures RotateLeft(0x200cadab, 5) == 0x0195b564
    ensures RotateLeft(0xb9c1b92a, 9) == 0x83725573
    ensures RotateLeft(0xe1bbfd95, 14) == 0xff65786e
    ensures RotateLeft(0xba9c85ad, 20) == 0x5adba9c8
    ensures RotateLeft(0x82ecb424, 5) == 0x5d968490
    ensures RotateLeft(0xcb2776e5, 9) == 0x4eedcb96
    ensures RotateLeft(0x62fe4655, 14) == 0x919558bf
    ensures RotateLeft(0x39ff51e6, 20) == 0x1e639ff5
    ensures RotateLeft(0xd227c035, 5) == 0x44f806ba
    ensures RotateLeft(0x11999e7e, 9) == 0x333cfc23
    ensures RotateLeft(0x2cd012fa, 14) == 0x04be8b34
    ensures RotateLeft(0x7bfb3c66, 20) == 0xc667bfb3
    ensures RotateLeft(0xd812d46b, 5) == 0x025a8d7b
    ensures RotateLeft(0x7b137248, 9) == 0x26e490f6
    ensures RotateLeft(0xca9313cf, 14) == 0xc4f3f2a4
    ensures RotateLeft(0xfb8b98b3, 20) == 0x8b3fb8b9
  {
  }

  lemma SecondSteps16(x: seq<Word>)
    requires |x| == 16 && x[0] == 0x00000000 && x[1] == 0x00000000 && x[2] == 0x00000000
    requires x[3] == 0x00000000 && x[4] == 0x00000000 && x[5] == 0x00000000 && x[6] == 0x00000000
    requires x[7] == 0x00000000 && x[8] == 0x00000000 && x[9] == 0x00000000 && x[10] == 0x00000000
    requires x[11] == 0x00000000 && x[12] == 0x00000000 && x[13] == 0x00000000 && x[14] == 0x000001f0
    requires x[15] == 0x00000000
    ensures StepsFrom(16, 48, State(0xa70737da, 0xa36f556f, 0x96f6586e, 0x5473f8a7), x)
         == StepsFrom(32, 32, State(0x24eba695, 0x9c03e2e8, 0x10c42a2f, 0x4bd0378b), x)
  {
    SecondValues16();
    SecondRotations16();
    Places16();
    Places20();
    Places24();
    Places28();
    hide Aux, RotateLeft, StepsFrom, WordIndex, Shift, Sine, StepOf, Mix;
    var s := State(0xa70737da, 0xa36f556f, 0x96f6586e, 0x5473f8a7);
    s := Turned(16, s, x, 0x82e7506f, 0x0195b564);
    s := Turned(17, s, x, 0xa50d0d43, 0x83725573);
    s := Turned(18, s, x, 0x24674ad6, 0xff65786e);
    s := Turned(19, s, x, 0x2d766894, 0x5adba9c8);
    s := Turned(20, s, x, 0x07b898f4, 0x5d968490);
    s := Turned(21, s, x, 0xa06c024c, 0x4eedcb96);
    s := Turned(22, s, x, 0x627f8720, 0x919558bf);
    s := Turned(23, s, x, 0xcf72d3a2, 0x1e639ff5);
    s := Turned(24, s, x, 0xcff6eb43, 0x44f806ba);
    s := Turned(25, s, x, 0x1f25c216, 0x333cfc23);
    s := Turned(26, s, x, 0x7728da12, 0x04be8b34);
    s := Turned(27, s, x, 0x576b5c23, 0xc667bfb3);
    s := Turned(28, s, x, 0x0a011956, 0x025a8d7b);
    s := Turned(29, s, x, 0x26b9001d, 0x26e490f6);
    s := Turned(30, s, x, 0x06fab78f, 0xc4f3f2a4);
    s := Turned(31, s, x, 0x4bd0330f, 0x8b3fb8b9);
  }

  lemma SecondValues32()
    ensures Aux(2, 0x9c03e2e8, 0x10c42a2f, 0x4bd0378b) == 0xc717ff4c
    ensures Aux(2, 0x5be1d526, 0x9c03e2e8, 0x10c42a2f) == 0xd7261de1
    ensures Aux(2, 0x9e414279, 0x5be1d526, 0x9c03e2e8) == 0x59a375b7
    ensures Aux(2, 0x9f4a1a7e, 0x9e414279, 0x5be1d526) == 0x5aea8d21
    ensures Aux(2, 0xa2448453, 0x9f4a1a7e, 0x9e414279) == 0xa34fdc54
    ensures Aux(2, 0xe14e403d, 0xa2448453, 0x9f4a1a7e) == 0xdc40de10
    ensures Aux(2, 0xe8cfd670, 0xe14e403d, 0xa2448453) == 0xabc5121e
    ensures Aux(2, 0x60cc183a, 0xe8cfd670, 0xe14e403d) == 0x694d8e77
    ensures Aux(2, 0xfe314121, 0x60cc183a, 0xe8cfd670) == 0x76328f6b
    ensures Aux(2, 0xfff62809, 0xfe314121, 0x60cc183a) == 0x610b7112
    ensures Aux(2, 0xe37209ac, 0xfff62809, 0xfe314121) == 0xe2b56084
    ensures Aux(2, 0x8cb5221c, 0xe37209ac, 0xfff62809) == 0x903103b9
    ensures Aux(2, 0x7c7e974c, 0x8cb5221c, 0xe37209ac) == 0x13b9bcfc
    ensures Aux(2, 0x54c9eb3a, 0x7c7e974c, 0x8cb5221c) == 0xa4025e6a
    ensures Aux(2, 0xd4d9c6ac, 0x54c9eb3a, 0x7c7e974c) == 0xfc6ebada
    ensures Aux(2, 0x2ec86f72, 0xd4d9c6ac, 0x54c9eb3a) == 0xaed842e4
  {
  }

  lemma SecondRotations32()
    ensures RotateLeft(0xebfddf23, 4) == 0xbfddf23e
    ensures RotateLeft(0xaa684bed, 11) == 0x425f6d53
    ensures RotateLeft(0xd8050108, 16) == 0x0108d805
    ensures RotateLeft(0xf4d3aa05, 23) == 0x02fa69d5
    ensures RotateLeft(0xa3f09bbe, 4) == 0x3f09bbea
    ensures RotateLeft(0xc660f032, 11) == 0x07819633
    ensures RotateLeft(0x41ca77fc, 16) == 0x77fc41ca
    ensures RotateLeft(0xca51cf3a, 23) == 0x9d6528e7
    ensures RotateLeft(0x801c4e6e, 4) == 0x01c4e6e8
    ensures RotateLeft(0x347c6f7c, 11) == 0xe37be1a3
    ensures RotateLeft(0x1870a943, 16) == 0xa9431870
    ensures RotateLeft(0x92ea61df, 23) == 0xefc97530
    ensures RotateLeft(0xed84b53e, 4) == 0xd84b53ee
    ensures RotateLeft(0x6e5001fb, 11) == 0x800fdb72
    ensures RotateLeft(0xa8c659ee, 16) == 0x59eea8c6
    ensures RotateLeft(0xf0033095, 23) == 0x4af80198
  {
  }

  lemma SecondSteps32(x: seq<Word>)
    requires |x| == 16 && x[0] == 0x00000000 && x[1] == 0x00000000 && x[2] == 0x00000000
    requires x[3] == 0x00000000 && x[4] == 0x00000000 && x[5] == 0x00000000 && x[6] == 0x00000000
    requires x[7] == 0x00000000 && x[8] == 0x00000000 && x[9] == 0x00000000 && x[10] == 0x00000000
    requires x[11] == 0x00000000 && x[12] == 0x00000000 && x[13] == 0x00000000 && x[14] == 0x000001f0
    requires x[15] == 0x00000000
    ensures StepsFrom(32, 32, State(0x24eba695, 0x9c03e2e8, 0x10c42a2f, 0x4bd0378b), x)
         == StepsFrom(48, 16, State(0x54c9eb3a, 0x79c0710a, 0x2ec86f72, 0xd4d9c6ac), x)
  {
    SecondValues32();
    SecondRotations32();
    Places32();
    Places36();
    Places40();
    Places44();
    hide Aux, RotateLeft, StepsFrom, WordIndex, Shift, Sine, StepOf, Mix;
    var s := State(0x24eba695, 0x9c03e2e8, 0x10c42a2f, 0x4bd0378b);
    s := Turned(32, s, x, 0xc717ff4c, 0xbfddf23e);
    s := Turned(33, s, x, 0xd7261de1, 0x425f6d53);
    s := Turned(34, s, x, 0x59a375b7, 0x0108d805);
    s := Turned(35, s, x, 0x5aea8d21, 0x02fa69d5);
    s := Turned(36, s, x, 0xa34fdc54, 0x3f09bbea);
    s := Turned(37, s, x, 0xdc40de10, 0x07819633);
    s := Turned(38, s, x, 0xabc5121e, 0x77fc41ca);
    s := Turned(39, s, x, 0x694d8e77, 0x9d6528e7);
    s := Turned(40, s, x, 0x76328f6b, 0x01c4e6e8);
    s := Turned(41, s, x, 0x610b7112, 0xe37be1a3);
    s := Turned(42, s, x, 0xe2b56084, 0xa9431870);
    s := Turned(43, s, x, 0x903103b9, 0xefc97530);
    s := Turned(44, s, x, 0x13b9bcfc, 0xd84b53ee);
    s := Turned(45, s, x, 0xa4025e6a, 0x800fdb72);
    s := Turned(46, s, x, 0xfc6ebada, 0x59eea8c6);
    s := Turned(47, s, x, 0xaed842e4, 0x4af80198);
  }

  lemma SecondValues48()
    ensures Aux(3, 0x79c0710a, 0x2ec86f72, 0xd4d9c6ac) == 0x552e1629
    ensures Aux(3, 0x02095af1, 0x79c0710a, 0x2ec86f72) == 0xaaffabf7
    ensures Aux(3, 0x13d245fd, 0x02095af1, 0x79c0710a) == 0x95f6950c
    ensures Aux(3, 0xa8dcfe26, 0x13d245fd, 0x02095af1) == 0xee2cbad3
    ensures Aux(3, 0x2ba98e3f, 0xa8dcfe26, 0x13d245fd) == 0x47714019
    ensures Aux(3, 0xe126c1aa, 0x2ba98e3f, 0xa8dcfe26) == 0xdc8e4fc4
    ensures Aux(3, 0x96b00fa7, 0xe126c1aa, 0x2ba98e3f) == 0x37d0be4d
    ensures Aux(3, 0x6f287ff5, 0x96b00fa7, 0xe126c1aa) == 0xe9497052
    ensures Aux(3, 0xfb7bcee0, 0x6f287ff5, 0x96b00fa7) == 0x9457810d
    ensures Aux(3, 0x452c1099, 0xfb7bcee0, 0x6f287ff5) == 0x2e845e7b
    ensures Aux(3, 0xca801ba6, 0x452c1099, 0xfb7bcee0) == 0x8ba82b26
    ensures Aux(3, 0xc197ea8e, 0xca801ba6, 0x452c1099) == 0x3157f448
    ensures Aux(3, 0x5ac74608, 0xc197ea8e, 0xca801ba6) == 0xbe680cd7
    ensures Aux(3, 0x14ae42c6, 0x5ac74608, 0xc197ea8e) == 0x642911ff
    ensures Aux(3, 0xa52dae75, 0x14ae42c6, 0x5ac74608) == 0xb193fd31
    ensures Aux(3, 0x826afd76, 0xa52dae75, 0x14ae42c6) == 0x4e56530a
  {
  }

  lemma SecondRotations48()
    ensures RotateLeft(0x9e2123a7, 6) == 0x8848e9e7
    ensures RotateLeft(0xc304723a, 10) == 0x11c8eb0c
    ensures RotateLeft(0x70532a15, 15) == 0x950ab829
    ensures RotateLeft(0x6480cc16, 21) == 0x82cc9019
    ensures RotateLeft(0xaed5f4cd, 6) == 0xb57d336b
    ensures RotateLeft(0x7f6d6253, 10) == 0xb5894dfd
    ensures RotateLeft(0xe09db0f0, 15) == 0xd878704e
    ensures RotateLeft(0x9a775c62, 21) == 0x8c534eeb
    ensures RotateLeft(0xe526c106, 6) == 0x49b041b9
    ensures RotateLeft(0xc3615502, 10) == 0x85540b0d
    ensures RotateLeft(0x9dd1ee2f, 15) == 0xf717cee8
    ensures RotateLeft(0x7adbd4c9, 21) == 0x992f5b7a
    ensures RotateLeft(0xfae79bf2, 6) == 0xb9e6fcbe
    ensures RotateLeft(0xebe41fda, 10) == 0x907f6baf
    ensures RotateLeft(0x9e03ba7a, 15) == 0xdd3d4f01
    ensures RotateLeft(0x94a46ca3, 21) == 0x9472948d
  {
  }

  lemma SecondSteps48(x: seq<Word>)
    requires |x| == 16 && x[0] == 0x00000000 && x[1] == 0x00000000 && x[2] == 0x00000000
    requires x[3] == 0x00000000 && x[4] == 0x00000000 && x[5] == 0x00000000 && x[6] == 0x00000000
    requires x[7] == 0x00000000 && x[8] == 0x00000000 && x[9] == 0x00000000 && x[10] == 0x00000000
    requires x[11] == 0x00000000 && x[12] == 0x00000000 && x[13] == 0x00000000 && x[14] == 0x000001f0
    requires x[15] == 0x00000000
    ensures StepsFrom(48, 16, State(0x54c9eb3a, 0x79c0710a, 0x2ec86f72, 0xd4d9c6ac), x)
         == StepsFrom(64, 0, State(0x14ae42c6, 0x16dd9203, 0x826afd76, 0xa52dae75), x)
  {
    SecondValues48();
    SecondRotations48();
    Places48();
    Places52();
    Places56();
    Places60();
    hide Aux, RotateLeft, StepsFrom, WordIndex, Shift, Sine, StepOf, Mix;
    var s := State(0x54c9eb3a, 0x79c0710a, 0x2ec86f72, 0xd4d9c6ac);
    s := Turned(48, s, x, 0x552e1629, 0x8848e9e7);
    s := Turned(49, s, x, 0xaaffabf7, 0x11c8eb0c);
    s := Turned(50, s, x, 0x95f6950c, 0x950ab829);
    s := Turned(51, s, x, 0xee2cbad3, 0x82cc9019);
    s := Turned(52, s, x, 0x47714019, 0xb57d336b);
    s := Turned(53, s, x, 0xdc8e4fc4, 0xb5894dfd);
    s := Turned(54, s, x, 0x37d0be4d, 0xd878704e);
    s := Turned(55, s, x, 0xe9497052, 0x8c534eeb);
    s := Turned(56, s, x, 0x9457810d, 0x49b041b9);
    s := Turned(57, s, x, 0x2e845e7b, 0x85540b0d);
    s := Turned(58, s, x, 0x8ba82b26, 0xf717cee8);
    s := Turned(59, s, x, 0x3157f448, 0x992f5b7a);
    s := Turned(60, s, x, 0xbe680cd7, 0xb9e6fcbe);
    s := Turned(61, s, x, 0x642911ff, 0x907f6baf);
    s := Turned(62, s, x, 0xb193fd31, 0xdd3d4f01);
    s := Turned(63, s, x, 0x4e56530a, 0x9472948d);
  }

  lemma SecondCompressed(block: seq<Byte>)
    requires |block| == 64 && WordsOf(block) == SECOND
    ensures Compress(State(0x83fd320b, 0xdefbe5cf, 0xa9b1642f, 0xfa6f932a), block) == State(0x98ab74d1, 0xf5d977d2, 0x2c1c61a5, 0x9f9d419f)
  {
    hide StepsFrom, WordsOf;
    var x := SECOND;
    SecondSteps0(x);
    SecondSteps16(x);
    SecondSteps32(x);
    SecondSteps48(x);
    NoMore(State(0x14ae42c6, 0x16dd9203, 0x826afd76, 0xa52dae75), x);
  }

  // ---------------------------------------------------------------- from bytes to words

  lemma WordAt(block: seq<Byte>, k: nat)
    requires |block| == 64 && k < 16
    ensures var b0: int, b1: int, b2: int, b3: int := block[4 * k], block[4 * k + 1], block[4 * k + 2], block[4 * k + 3];
      WordsOf(block)[k] == b0 + 0x100 * b1 + 0x1_0000 * b2 + 0x100_0000 * b3
  {
    var b := block[4 * k..4 * k + 4];
    assert b[0] == block[4 * k] && b[1] == block[4 * k + 1] && b[2] == block[4 * k + 2] && b[3] == block[4 * k + 3];
  }

  function EmptyByte(i: nat): int { if i == 0 then 0x80 else 0 }

  /** The upper-case letters, the lower-case letters and the digits; the first padding byte. */
  function FirstByte(i: nat): int {
    if i < 26 then 'A' as int + i
    else if i < 52 then 'a' as int + i - 26
    else if i < 62 then '0' as int + i - 52
    else if i == 62 then 0x80 else 0
  }

  /** Zeros, and the length of 496 bits. */
  function SecondByte(i: nat): int { if i == 56 then 0xf0 else if i == 57 then 0x01 else 0 }

  lemma EmptyWords(block: seq<Byte>)
    requires |block| == 64 && forall i :: 0 <= i < 64 ==> block[i] == EmptyByte(i)
    ensures WordsOf(block) == EMPTY
  {
    hide LittleEndian;
    forall k | 0 <= k < 16 ensures WordsOf(block)[k] == EMPTY[k] {
      WordAt(block, k);
      EmptyWord(k);
    }
  }

  lemma EmptyWord(k: nat)
    requires k < 16
    ensures EmptyByte(4 * k) + 0x100 * EmptyByte(4 * k + 1) + 0x1_0000 * EmptyByte(4 * k + 2) + 0x100_0000 * EmptyByte(4 * k + 3)
         == EMPTY[k]
  {
  }

  lemma FirstWords(block: seq<Byte>)
    requires |block| == 64 && forall i :: 0 <= i < 64 ==> block[i] == FirstByte(i)
    ensures WordsOf(block) == FIRST
  {
    hide LittleEndian;
    forall k | 0 <= k < 16 ensures WordsOf(block)[k] == FIRST[k] {
      WordAt(block, k);
      FirstWord(k);
    }
  }

  lemma FirstWord(k: nat)
    requires k < 16
    ensures FirstByte(4 * k) + 0x100 * FirstByte(4 * k + 1) + 0x1_0000 * FirstByte(4 * k + 2) + 0x100_0000 * FirstByte(4 * k + 3)
         == FIRST[k]
  {
  }

  lemma SecondWords(block: seq<Byte>)
    requires |block| == 64 && forall i :: 0 <= i < 64 ==> block[i] == SecondByte(i)
    ensures WordsOf(block) == SECOND
  {
    hide LittleEndian;
    forall k | 0 <= k < 16 ensures WordsOf(block)[k] == SECOND[k] {
      WordAt(block, k);
      SecondWord(k);
    }
  }

  lemma SecondWord(k: nat)
    requires k < 16
    ensures SecondByte(4 * k) + 0x100 * SecondByte(4 * k + 1) + 0x1_0000 * SecondByte(4 * k + 2) + 0x100_0000 * SecondByte(4 * k + 3)
         == SECOND[k]
  {
  }

  // ---------------------------------------------------------------- digests

  lemma FourWords(a: Word, b: Word, c: Word, d: Word)
    ensures AllBytes([a, b, c, d]) == BytesOf(a) + BytesOf(b) + BytesOf(c) + BytesOf(d)
  {
    hide BytesOf;
    assert [a, b, c, d][1..][1..] == [c, d] && [a, b, c, d][1..][0] == b;
    TwoWords(c, d);
    var w, x, y, z := BytesOf(a), BytesOf(b), BytesOf(c), BytesOf(d);
    assert AllBytes([a, b, c, d][1..]) == x + (y + z);
    assert w + (x + (y + z)) == w + x + y + z;
  }

  lemma TwoWords(a: Word, b: Word)
    ensures AllBytes([a, b]) == BytesOf(a) + BytesOf(b)
  {
    hide BytesOf;
    assert [a, b][1..] == [b] && [b][1..] == [];
    assert AllBytes([]) == [];
    assert AllBytes([b]) == BytesOf(b) + [] == BytesOf(b);
  }

  lemma OneBlock(s: State, block: seq<Byte>, rest: seq<Byte>)
    requires |block| == 64
    ensures Blocks(s, block + rest) == Blocks(Compress(s, block), rest)
  {
    hide Compress;
    assert (block + rest)[..64] == block && (block + rest)[64..] == rest;
  }

  lemma NoBlock(s: State)
    ensures Blocks(s, []) == s
  {
  }

  lemma EmptyPadded()
    ensures var m := Padded([]);
      |m| == 64 && forall i :: 0 <= i < 64 ==> m[i] == EmptyByte(i)
  {
    hide AllBytes;
    TwoWords(0, 0);
    assert AllBytes([0, 0]) == [0, 0, 0, 0, 0, 0, 0, 0];
  }

  /** `MD5 ("")` */
  lemma EmptyDigest()
    ensures Digest([]) == [0xd4, 0x1d, 0x8c, 0xd9, 0x8f, 0x00, 0xb2, 0x04, 0xe9, 0x80, 0x09, 0x98, 0xec, 0xf8, 0x42, 0x7e]
  {
    hide Compress, Blocks, WordsOf, AllBytes, Padded;
    var m := Padded([]);
    EmptyPadded();
    assert m == m + [];
    EmptyWords(m);
    OneBlock(INITIAL, m, []);
    EmptyCompressed(m);
    NoBlock(State(0xd98c1dd4, 0x04b2008f, 0x980980e9, 0x7e42f8ec));
    EmptyBytes();
  }

  lemma EmptyBytes()
    ensures AllBytes([0xd98c1dd4, 0x04b2008f, 0x980980e9, 0x7e42f8ec])
         == [0xd4, 0x1d, 0x8c, 0xd9, 0x8f, 0x00, 0xb2, 0x04, 0xe9, 0x80, 0x09, 0x98, 0xec, 0xf8, 0x42, 0x7e]
  {
    hide AllBytes;
    FourWords(0xd98c1dd4, 0x04b2008f, 0x980980e9, 0x7e42f8ec);
  }

  lemma LettersPadded(m: seq<Byte>)
    requires |m| == 62 && forall i :: 0 <= i < 62 ==> m[i] == FirstByte(i)
    ensures var p := Padded(m);
      && |p| == 128
      && (forall i :: 0 <= i < 64 ==> p[i] == FirstByte(i)) && (forall i :: 0 <= i < 64 ==> p[64 + i] == SecondByte(i))
  {
    hide AllBytes;
    TwoWords(496, 0);
    assert AllBytes([496, 0]) == [0xf0, 1, 0, 0, 0, 0, 0, 0];
  }

  /** `MD5 ("ABCDEFGHIJKLMNOPQRSTUVWXYZabcdefghijklmnopqrstuvwxyz0123456789")` */
  lemma LettersDigest(m: seq<Byte>)
    requires |m| == 62 && forall i :: 0 <= i < 62 ==> m[i] == FirstByte(i)
    ensures Digest(m) == [0xd1, 0x74, 0xab, 0x98, 0xd2, 0x77, 0xd9, 0xf5, 0xa5, 0x61, 0x1c, 0x2c, 0x9f, 0x41, 0x9d, 0x9f]
  {
    hide Compress, Blocks, WordsOf, AllBytes, Padded, FirstByte, SecondByte;
    LettersPadded(m);
    var p := Padded(m);
    var first, second := p[..64], p[64..];
    assert p == first + second && second == second + [];
    FirstWords(first);
    SecondWords(second);
    OneBlock(INITIAL, first, second);
    FirstCompressed(first);
    OneBlock(State(0x83fd320b, 0xdefbe5cf, 0xa9b1642f, 0xfa6f932a), second, []);
    SecondCompressed(second);
    NoBlock(State(0x98ab74d1, 0xf5d977d2, 0x2c1c61a5, 0x9f9d419f));
    LettersBytes();
  }

  lemma LettersBytes()
    ensures AllBytes([0x98ab74d1, 0xf5d977d2, 0x2c1c61a5, 0x9f9d419f])
         == [0xd1, 0x74, 0xab, 0x98, 0xd2, 0x77, 0xd9, 0xf5, 0xa5, 0x61, 0x1c, 0x2c, 0x9f, 0x41, 0x9d, 0x9f]
  {
    hide AllBytes;
    FourWords(0x98ab74d1, 0xf5d977d2, 0x2c1c61a5, 0x9f9d419f);
  }
}
