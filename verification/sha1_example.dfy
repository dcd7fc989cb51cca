/**
  The digest that Appendix A of FIPS PUB 180-1 publishes for the message "abc", round by round: it
  settles the constants, the functions, the word sequence, the rotation and the order of octets.
 */
module Sha1Example {
  import opened Bytes
  import opened Sha1Spec

  const ABC: seq<Byte> := [0x61, 0x62, 0x63]

  /** The one block of the padded message. */
  const BLOCK: Block := ABC + [0x80] + Zeros(52) + [0, 0, 0, 0, 0, 0, 0, 24]

  /** Words t to t + 15 of the sequence. */
  ghost predicate WordsFrom(t: nat, w: seq<bv32>)
    requires |w| == 16
  {
    && W(BLOCK, t) == w[0] && W(BLOCK, t + 1) == w[1] && W(BLOCK, t + 2) == w[2] && W(BLOCK, t + 3) == w[3]
    && W(BLOCK, t + 4) == w[4] && W(BLOCK, t + 5) == w[5] && W(BLOCK, t + 6) == w[6] && W(BLOCK, t + 7) == w[7]
    && W(BLOCK, t + 8) == w[8] && W(BLOCK, t + 9) == w[9] && W(BLOCK, t + 10) == w[10] && W(BLOCK, t + 11) == w[11]
    && W(BLOCK, t + 12) == w[12] && W(BLOCK, t + 13) == w[13] && W(BLOCK, t + 14) == w[14] && W(BLOCK, t + 15) == w[15]
  }

  /** Word t, from the sixteen words before it. */
  lemma NextWord(t: nat, w: bv32)
    requires t >= 16 && Rotate(Xor(W(BLOCK, t - 3), W(BLOCK, t - 8), W(BLOCK, t - 14), W(BLOCK, t - 16)), 1) == w
    ensures W(BLOCK, t) == w
  {
  }

  const WORDS0: seq<bv32> := [
    0x61626380, 0x00000000, 0x00000000, 0x00000000, 0x00000000, 0x00000000, 0x00000000, 0x00000000,
    0x00000000, 0x00000000, 0x00000000, 0x00000000, 0x00000000, 0x00000000, 0x00000000, 0x00000018
  ]

  const WORDS16: seq<bv32> := [
    0xC2C4C700, 0x00000000, 0x00000030, 0x85898E01, 0x00000000, 0x00000060, 0x0B131C03, 0x00000030,
    0x85898EC1, 0x16263806, 0x00000000, 0x00000180, 0x2C4C700C, 0x000000F0, 0x93AFB507, 0x5898E048
  ]

  const WORDS32: seq<bv32> := [
    0x8E9A9202, 0x00000600, 0xB131C0F0, 0x16263BC6, 0x4EBED41E, 0x626380A1, 0x16263806, 0x000018C0,
    0xD2E138C4, 0x00000F00, 0x3AFB5079, 0x898E04E5, 0xE2BA3C2B, 0x000060C0, 0x053A37CD, 0x74458547
  ]

  const WORDS48: seq<bv32> := [
    0xDA9415ED, 0x26380A16, 0x626383A1, 0x4EBF54DE, 0x3835B44B, 0x0000F600, 0x1E84C7A3, 0x98E04D98,
    0x651D16A0, 0x62658CA1, 0x458544D6, 0x44584CB7, 0x7BA06619, 0x6380AEA2, 0x0AE55269, 0x627B49A1
  ]

  const WORDS64: seq<bv32> := [
    0x7CD45C9D, 0x000F0000, 0xFB50753A, 0xEC6765E8, 0xBA3C2BE2, 0x0060C000, 0x3A37CD05, 0x458546F4,
    0xB8599DD6, 0x380A1A26, 0x01E02203, 0xE7CC3456, 0xE6E60B69, 0x00F60A00, 0x5795EF4F, 0x822E0879
  ]

  lemma OctetsOfBlock()
    ensures BLOCK[0] == 0x61 && BLOCK[1] == 0x62 && BLOCK[2] == 0x63 && BLOCK[3] == 0x80 && BLOCK[63] == 24
    ensures forall i | 4 <= i < 63 :: BLOCK[i] == 0
  {
  }

  lemma FirstWord(t: nat)
    requires t < 16
    ensures W(BLOCK, t) == if t == 0 then 0x61626380 else if t == 15 then 24 else 0
  {
    OctetsOfBlock();
    SomeWords();
    hide Word;
  }

  lemma SomeWords()
    ensures Word(0x61, 0x62, 0x63, 0x80) == 0x61626380 && Word(0, 0, 0, 24) == 24 && Word(0, 0, 0, 0) == 0
  {
  }

  lemma FirstWords()
    ensures WordsFrom(0, WORDS0)
  {
    hide W;
    forall t: nat | t < 16 ensures W(BLOCK, t) == if t == 0 then 0x61626380 else if t == 15 then 24 else 0 {
      FirstWord(t);
    }
  }

  lemma WordsTo31()
    requires WordsFrom(0, WORDS0)
    ensures WordsFrom(16, WORDS16)
  {
    hide W;
    NextWord(16, 0xC2C4C700);
    NextWord(17, 0x00000000);
    NextWord(18, 0x00000030);
    NextWord(19, 0x85898E01);
    NextWord(20, 0x00000000);
    NextWord(21, 0x00000060);
    NextWord(22, 0x0B131C03);
    NextWord(23, 0x00000030);
    NextWord(24, 0x85898EC1);
    NextWord(25, 0x16263806);
    NextWord(26, 0x00000000);
    NextWord(27, 0x00000180);
    NextWord(28, 0x2C4C700C);
    NextWord(29, 0x000000F0);
    NextWord(30, 0x93AFB507);
    NextWord(31, 0x5898E048);
  }

  lemma WordsTo47()
    requires WordsFrom(16, WORDS16)
    ensures WordsFrom(32, WORDS32)
  {
    hide W;
    NextWord(32, 0x8E9A9202);
    NextWord(33, 0x00000600);
    NextWord(34, 0xB131C0F0);
    NextWord(35, 0x16263BC6);
    NextWord(36, 0x4EBED41E);
    NextWord(37, 0x626380A1);
    NextWord(38, 0x16263806);
    NextWord(39, 0x000018C0);
    NextWord(40, 0xD2E138C4);
    NextWord(41, 0x00000F00);
    NextWord(42, 0x3AFB5079);
    NextWord(43, 0x898E04E5);
    NextWord(44, 0xE2BA3C2B);
    NextWord(45, 0x000060C0);
    NextWord(46, 0x053A37CD);
    NextWord(47, 0x74458547);
  }

  lemma WordsTo63()
    requires WordsFrom(32, WORDS32)
    ensures WordsFrom(48, WORDS48)
  {
    hide W;
    NextWord(48, 0xDA9415ED);
    NextWord(49, 0x26380A16);
    NextWord(50, 0x626383A1);
    NextWord(51, 0x4EBF54DE);
    NextWord(52, 0x3835B44B);
    NextWord(53, 0x0000F600);
    NextWord(54, 0x1E84C7A3);
    NextWord(55, 0x98E04D98);
    NextWord(56, 0x651D16A0);
    NextWord(57, 0x62658CA1);
    NextWord(58, 0x458544D6);
    NextWord(59, 0x44584CB7);
    NextWord(60, 0x7BA06619);
    NextWord(61, 0x6380AEA2);
    NextWord(62, 0x0AE55269);
    NextWord(63, 0x627B49A1);
  }

  lemma WordsTo79()
    requires WordsFrom(48, WORDS48)
    ensures WordsFrom(64, WORDS64)
  {
    hide W;
    NextWord(64, 0x7CD45C9D);
    NextWord(65, 0x000F0000);
    NextWord(66, 0xFB50753A);
    NextWord(67, 0xEC6765E8);
    NextWord(68, 0xBA3C2BE2);
    NextWord(69, 0x0060C000);
    NextWord(70, 0x3A37CD05);
    NextWord(71, 0x458546F4);
    NextWord(72, 0xB8599DD6);
    NextWord(73, 0x380A1A26);
    NextWord(74, 0x01E02203);
    NextWord(75, 0xE7CC3456);
    NextWord(76, 0xE6E60B69);
    NextWord(77, 0x00F60A00);
    NextWord(78, 0x5795EF4F);
    NextWord(79, 0x822E0879);
  }

  /** Round t gives A a new value and moves the others on. */
  lemma Turn(t: nat, w: bv32, h: Hash, a: bv32) returns (h1: Hash)
    requires Rounds(START, BLOCK, t) == h && W(BLOCK, t) == w
    requires Plus(Plus(Plus(Plus(Rotate(h.a, 5), F(t, h.b, h.c, h.d)), h.e), w), K(t)) == a
    ensures h1 == Hash(a, h.a, Rotate(h.b, 30), h.c, h.d) && Rounds(START, BLOCK, t + 1) == h1
  {
    hide W, Plus, F, K, Rotate;
    h1 := Hash(a, h.a, Rotate(h.b, 30), h.c, h.d);
  }

  lemma RoundsTo15()
    requires WordsFrom(0, WORDS0)
    ensures Rounds(START, BLOCK, 16)
            == Hash(0x20BDD62F, 0x196BEE77, 0x644A3DA5, 0x1181ED99, 0x18C623F9)
  {
    hide W;
    var h := START;
    h := Turn(0, 0x61626380, h, 0x0116FC33);
    h := Turn(1, 0x00000000, h, 0x8990536D);
    h := Turn(2, 0x00000000, h, 0xA1390F08);
    h := Turn(3, 0x00000000, h, 0xCDD8E11B);
    h := Turn(4, 0x00000000, h, 0xCFD499DE);
    h := Turn(5, 0x00000000, h, 0x3FC7CA40);
    h := Turn(6, 0x00000000, h, 0x993E30C1);
    h := Turn(7, 0x00000000, h, 0x9E8C07D4);
    h := Turn(8, 0x00000000, h, 0x4B6AE328);
    h := Turn(9, 0x00000000, h, 0x8351F929);
    h := Turn(10, 0x00000000, h, 0xFBDA9E89);
    h := Turn(11, 0x00000000, h, 0x63188FE4);
    h := Turn(12, 0x00000000, h, 0x4607B664);
    h := Turn(13, 0x00000000, h, 0x9128F695);
    h := Turn(14, 0x00000000, h, 0x196BEE77);
    h := Turn(15, 0x00000018, h, 0x20BDD62F);
  }

  lemma RoundsTo31()
    requires WordsFrom(16, WORDS16)
    requires Rounds(START, BLOCK, 16) == Hash(0x20BDD62F, 0x196BEE77, 0x644A3DA5, 0x1181ED99, 0x18C623F9)
    ensures Rounds(START, BLOCK, 32)
            == Hash(0x3B845D33, 0x1267B407, 0x717EEBD7, 0xA0DC2D4B, 0xD2AA1365)
  {
    hide W, Rounds;
    var h := Hash(0x20BDD62F, 0x196BEE77, 0x644A3DA5, 0x1181ED99, 0x18C623F9);
    h := Turn(16, 0xC2C4C700, h, 0x4E925823);
    h := Turn(17, 0x00000000, h, 0x82AA6728);
    h := Turn(18, 0x00000030, h, 0xDC64901D);
    h := Turn(19, 0x85898E01, h, 0xFD9E1D7D);
    h := Turn(20, 0x00000000, h, 0x1A37B0CA);
    h := Turn(21, 0x00000060, h, 0x33A23BFC);
    h := Turn(22, 0x0B131C03, h, 0x21283486);
    h := Turn(23, 0x00000030, h, 0xD541F12D);
    h := Turn(24, 0x85898EC1, h, 0xC7567DC6);
    h := Turn(25, 0x16263806, h, 0x48413BA4);
    h := Turn(26, 0x00000000, h, 0xBE35FBD5);
    h := Turn(27, 0x00000180, h, 0x4AA84D97);
    h := Turn(28, 0x2C4C700C, h, 0x8370B52E);
    h := Turn(29, 0x000000F0, h, 0xC5FBAF5D);
    h := Turn(30, 0x93AFB507, h, 0x1267B407);
    h := Turn(31, 0x5898E048, h, 0x3B845D33);
  }

  lemma RoundsTo47()
    requires WordsFrom(32, WORDS32)
    requires Rounds(START, BLOCK, 32) == Hash(0x3B845D33, 0x1267B407, 0x717EEBD7, 0xA0DC2D4B, 0xD2AA1365)
    ensures Rounds(START, BLOCK, 48)
            == Hash(0xBEAD02CA, 0xA01B846C, 0x8714787C, 0x503CA382, 0xFB86C6AB)
  {
    hide W, Rounds;
    var h := Hash(0x3B845D33, 0x1267B407, 0x717EEBD7, 0xA0DC2D4B, 0xD2AA1365);
    h := Turn(32, 0x8E9A9202, h, 0x046FAA0A);
    h := Turn(33, 0x00000600, h, 0x2C0EBC11);
    h := Turn(34, 0xB131C0F0, h, 0x21796AD4);
    h := Turn(35, 0x16263BC6, h, 0xDCBBB0CB);
    h := Turn(36, 0x4EBED41E, h, 0x0F511FD8);
    h := Turn(37, 0x626380A1, h, 0xDC63973F);
    h := Turn(38, 0x16263806, h, 0x4C986405);
    h := Turn(39, 0x000018C0, h, 0x32DE1CBA);
    h := Turn(40, 0xD2E138C4, h, 0xFC87DEDF);
    h := Turn(41, 0x00000F00, h, 0x970A0D5C);
    h := Turn(42, 0x3AFB5079, h, 0x7F193DC5);
    h := Turn(43, 0x898E04E5, h, 0xEE1B1AAF);
    h := Turn(44, 0xE2BA3C2B, h, 0x40F28E09);
    h := Turn(45, 0x000060C0, h, 0x1C51E1F2);
    h := Turn(46, 0x053A37CD, h, 0xA01B846C);
    h := Turn(47, 0x74458547, h, 0xBEAD02CA);
  }

  lemma RoundsTo63()
    requires WordsFrom(48, WORDS48)
    requires Rounds(START, BLOCK, 48) == Hash(0xBEAD02CA, 0xA01B846C, 0x8714787C, 0x503CA382, 0xFB86C6AB)
    ensures Rounds(START, BLOCK, 64)
            == Hash(0x6B61C9E1, 0xB66C020B, 0x9523272C, 0xF5D5B051, 0x8FD4B796)
  {
    hide W, Rounds;
    var h := Hash(0xBEAD02CA, 0xA01B846C, 0x8714787C, 0x503CA382, 0xFB86C6AB);
    h := Turn(48, 0xDA9415ED, h, 0xBAF39337);
    h := Turn(49, 0x26380A16, h, 0x120731C5);
    h := Turn(50, 0x626383A1, h, 0x641DB2CE);
    h := Turn(51, 0x4EBF54DE, h, 0x3847AD66);
    h := Turn(52, 0x3835B44B, h, 0xE490436D);
    h := Turn(53, 0x0000F600, h, 0x27E9F1D8);
    h := Turn(54, 0x1E84C7A3, h, 0x7B71F76D);
    h := Turn(55, 0x98E04D98, h, 0x5E6456AF);
    h := Turn(56, 0x651D16A0, h, 0xC846093F);
    h := Turn(57, 0x62658CA1, h, 0xD262FF50);
    h := Turn(58, 0x458544D6, h, 0x09D785FD);
    h := Turn(59, 0x44584CB7, h, 0x3F52DE5A);
    h := Turn(60, 0x7BA06619, h, 0xD756C147);
    h := Turn(61, 0x6380AEA2, h, 0x548C9CB2);
    h := Turn(62, 0x0AE55269, h, 0xB66C020B);
    h := Turn(63, 0x627B49A1, h, 0x6B61C9E1);
  }

  lemma RoundsTo79()
    requires WordsFrom(64, WORDS64)
    requires Rounds(START, BLOCK, 64) == Hash(0x6B61C9E1, 0xB66C020B, 0x9523272C, 0xF5D5B051, 0x8FD4B796)
    ensures Rounds(START, BLOCK, 80)
            == Hash(0x42541B35, 0x5738D5E1, 0x21834873, 0x681E6DF6, 0xD8FDF6AD)
  {
    hide W, Rounds;
    var h := Hash(0x6B61C9E1, 0xB66C020B, 0x9523272C, 0xF5D5B051, 0x8FD4B796);
    h := Turn(64, 0x7CD45C9D, h, 0x19DFA7AC);
    h := Turn(65, 0x000F0000, h, 0x101655F9);
    h := Turn(66, 0xFB50753A, h, 0x0C3DF2B4);
    h := Turn(67, 0xEC6765E8, h, 0x78DD4D2B);
    h := Turn(68, 0xBA3C2BE2, h, 0x497093C0);
    h := Turn(69, 0x0060C000, h, 0x3F2588C2);
    h := Turn(70, 0x3A37CD05, h, 0xC199F8C7);
    h := Turn(71, 0x458546F4, h, 0x39859DE7);
    h := Turn(72, 0xB8599DD6, h, 0xEDB42DE4);
    h := Turn(73, 0x380A1A26, h, 0x11793F6F);
    h := Turn(74, 0x01E02203, h, 0x5EE76897);
    h := Turn(75, 0xE7CC3456, h, 0x63F7DAB7);
    h := Turn(76, 0xE6E60B69, h, 0xA079B7D9);
    h := Turn(77, 0x00F60A00, h, 0x860D21CC);
    h := Turn(78, 0x5795EF4F, h, 0x5738D5E1);
    h := Turn(79, 0x822E0879, h, 0x42541B35);
  }

  lemma AbcIsPadded()
    ensures Pad(ABC) == BLOCK
  {
    assert LengthField(24) == [0, 0, 0, 0, 0, 0, 0, 24];
  }

  lemma AbcRounds()
    ensures Rounds(START, BLOCK, 80) == Hash(0x42541B35, 0x5738D5E1, 0x21834873, 0x681E6DF6, 0xD8FDF6AD)
  {
    FirstWords();
    WordsTo31();
    WordsTo47();
    WordsTo63();
    WordsTo79();
    hide WordsFrom, Rounds;
    RoundsTo15();
    RoundsTo31();
    RoundsTo47();
    RoundsTo63();
    RoundsTo79();
  }

  lemma AbcHash()
    ensures Fold(START, Pad(ABC)) == Hash(0xA9993E36, 0x4706816A, 0xBA3E2571, 0x7850C26C, 0x9CD0D89D)
  {
    AbcIsPadded();
    FoldOne(START, BLOCK);
    AbcRounds();
    hide Rounds, Pad, Fold;
  }

  lemma AbcOctets()
    ensures Octets(0xA9993E36) == [0xA9, 0x99, 0x3E, 0x36]
    ensures Octets(0x4706816A) == [0x47, 0x06, 0x81, 0x6A]
    ensures Octets(0xBA3E2571) == [0xBA, 0x3E, 0x25, 0x71]
    ensures Octets(0x7850C26C) == [0x78, 0x50, 0xC2, 0x6C]
    ensures Octets(0x9CD0D89D) == [0x9C, 0xD0, 0xD8, 0x9D]
  {
  }

  /** The published digest of "abc". */
  lemma AbcDigest()
    ensures Sha1(ABC) == [
      0xA9, 0x99, 0x3E, 0x36, 0x47, 0x06, 0x81, 0x6A, 0xBA, 0x3E,
      0x25, 0x71, 0x78, 0x50, 0xC2, 0x6C, 0x9C, 0xD0, 0xD8, 0x9D
    ]
  {
    AbcHash();
    AbcOctets();
    hide Fold, Pad, Octets;
  }
}
