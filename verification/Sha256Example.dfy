/** The first example of FIPS 180-4: the digest of the message "abc", computed from the
    specification word by word. It ties every function, constant and order of the
    specification to known values. */
module Sha256Example {
  import opened Sha256Spec

  /** The bytes of "abc". */
  const ABC: seq<Byte> := [0x61, 0x62, 0x63]

  function Block(): (block: seq<Byte>)
    ensures |block| == 64
  {
    ABC + [0x80] + Zeros(52) + LengthField(24)
  }

  lemma PaddedExample()
    ensures ABC + Padding(3) == Block()
  {
    assert ZeroBytes(3) == 52 && 8 * 3 % LENGTHS == 24;
    assert Padding(3) == [0x80] + Zeros(52) + LengthField(24);
  }

  lemma LastBytes()
    ensures LengthField(24) == Zeros(7) + [24]
  {
    assert Power256(1) == 256;
    forall i | 0 <= i < 8 ensures LengthField(24)[i] == (Zeros(7) + [24])[i] {
      if i < 7 {
        AtLeast256(7 - i);
      } else {
        assert Power256(0) == 1;
      }
    }
  }

  lemma {:induction false} AtLeast256(i: nat)
    requires 0 < i
    ensures Power256(i) >= 256
  {
    if i > 1 {
      AtLeast256(i - 1);
    } else {
      assert Power256(0) == 1;
    }
  }

  lemma BlockBytes()
    ensures Block()[0] == 0x61 && Block()[1] == 0x62 && Block()[2] == 0x63 && Block()[3] == 0x80 && Block()[63] == 24
    ensures forall i :: 4 <= i < 63 ==> Block()[i] == 0
  {
    LastBytes();
    hide LengthField;
    assert Block() == ABC + [0x80] + Zeros(52) + (Zeros(7) + [24]);
  }

  lemma Joined()
    ensures FromBigEndian(0x61, 0x62, 0x63, 0x80) == 0x61626380
    ensures FromBigEndian(0, 0, 0, 0) == 0 && FromBigEndian(0, 0, 0, 24) == 24
  {
  }

  lemma FirstWords()
    ensures W(Block(), 0) == 0x61626380 && W(Block(), 15) == 24
    ensures forall t :: 1 <= t < 15 ==> W(Block(), t) == 0
  {
    hide Block, FromBigEndian;
    BlockBytes();
    Joined();
    var block := Block();
    forall t | 1 <= t < 15 ensures W(block, t) == 0 {
      assert block[4 * t] == block[4 * t + 1] == block[4 * t + 2] == block[4 * t + 3] == 0;
      assert WordAt(block, t) == FromBigEndian(0, 0, 0, 0);
    }
    assert WordAt(block, 0) == FromBigEndian(0x61, 0x62, 0x63, 0x80);
    assert WordAt(block, 15) == FromBigEndian(0, 0, 0, 24);
  }

  // ---------- the message schedule ----------

  lemma NextWord(t: nat, w16: Word, w15: Word, w7: Word, w2: Word, w: Word)
    requires 16 <= t && W(Block(), t - 16) == w16 && W(Block(), t - 15) == w15
    requires W(Block(), t - 7) == w7 && W(Block(), t - 2) == w2
    requires Sum4(SmallSigma1(w2), w7, SmallSigma0(w15), w16) == w
    ensures W(Block(), t) == w
  {
    hide Block, Sum4, SmallSigma0, SmallSigma1;
  }

  lemma Words16()
    ensures W(Block(), 16) == 0x61626380 && W(Block(), 17) == 0x000f0000 && W(Block(), 18) == 0x7da86405
    ensures W(Block(), 19) == 0x600003c6 && W(Block(), 20) == 0x3e9d7b78 && W(Block(), 21) == 0x0183fc00
    ensures W(Block(), 22) == 0x12dcbfdb && W(Block(), 23) == 0xe2e2c38e
  {
    hide Block, W;
    FirstWords();
    NextWord(16, 0x61626380, 0x00000000, 0x00000000, 0x00000000, 0x61626380);
    NextWord(17, 0x00000000, 0x00000000, 0x00000000, 0x00000018, 0x000f0000);
    NextWord(18, 0x00000000, 0x00000000, 0x00000000, 0x61626380, 0x7da86405);
    NextWord(19, 0x00000000, 0x00000000, 0x00000000, 0x000f0000, 0x600003c6);
    NextWord(20, 0x00000000, 0x00000000, 0x00000000, 0x7da86405, 0x3e9d7b78);
    NextWord(21, 0x00000000, 0x00000000, 0x00000000, 0x600003c6, 0x0183fc00);
    NextWord(22, 0x00000000, 0x00000000, 0x00000018, 0x3e9d7b78, 0x12dcbfdb);
    NextWord(23, 0x00000000, 0x00000000, 0x61626380, 0x0183fc00, 0xe2e2c38e);
  }

  lemma Words24()
    ensures W(Block(), 24) == 0xc8215c1a && W(Block(), 25) == 0xb73679a2 && W(Block(), 26) == 0xe5bc3909
    ensures W(Block(), 27) == 0x32663c5b && W(Block(), 28) == 0x9d209d67 && W(Block(), 29) == 0xec8726cb
    ensures W(Block(), 30) == 0x702138a4 && W(Block(), 31) == 0xd3b7973b
  {
    hide Block, W;
    FirstWords();
    Words16();
    NextWord(24, 0x00000000, 0x00000000, 0x000f0000, 0x12dcbfdb, 0xc8215c1a);
    NextWord(25, 0x00000000, 0x00000000, 0x7da86405, 0xe2e2c38e, 0xb73679a2);
    NextWord(26, 0x00000000, 0x00000000, 0x600003c6, 0xc8215c1a, 0xe5bc3909);
    NextWord(27, 0x00000000, 0x00000000, 0x3e9d7b78, 0xb73679a2, 0x32663c5b);
    NextWord(28, 0x00000000, 0x00000000, 0x0183fc00, 0xe5bc3909, 0x9d209d67);
    NextWord(29, 0x00000000, 0x00000000, 0x12dcbfdb, 0x32663c5b, 0xec8726cb);
    NextWord(30, 0x00000000, 0x00000018, 0xe2e2c38e, 0x9d209d67, 0x702138a4);
    NextWord(31, 0x00000018, 0x61626380, 0xc8215c1a, 0xec8726cb, 0xd3b7973b);
  }

  lemma Words32()
    ensures W(Block(), 32) == 0x93f5997f && W(Block(), 33) == 0x3b68ba73 && W(Block(), 34) == 0xaff4ffc1
    ensures W(Block(), 35) == 0xf10a5c62 && W(Block(), 36) == 0x0a8b3996 && W(Block(), 37) == 0x72af830a
    ensures W(Block(), 38) == 0x9409e33e && W(Block(), 39) == 0x24641522
  {
    hide Block, W;
    Words24();
    Words16();
    NextWord(32, 0x61626380, 0x000f0000, 0xb73679a2, 0x702138a4, 0x93f5997f);
    NextWord(33, 0x000f0000, 0x7da86405, 0xe5bc3909, 0xd3b7973b, 0x3b68ba73);
    NextWord(34, 0x7da86405, 0x600003c6, 0x32663c5b, 0x93f5997f, 0xaff4ffc1);
    NextWord(35, 0x600003c6, 0x3e9d7b78, 0x9d209d67, 0x3b68ba73, 0xf10a5c62);
    NextWord(36, 0x3e9d7b78, 0x0183fc00, 0xec8726cb, 0xaff4ffc1, 0x0a8b3996);
    NextWord(37, 0x0183fc00, 0x12dcbfdb, 0x702138a4, 0xf10a5c62, 0x72af830a);
    NextWord(38, 0x12dcbfdb, 0xe2e2c38e, 0xd3b7973b, 0x0a8b3996, 0x9409e33e);
    NextWord(39, 0xe2e2c38e, 0xc8215c1a, 0x93f5997f, 0x72af830a, 0x24641522);
  }

  lemma Words40()
    ensures W(Block(), 40) == 0x9f47bf94 && W(Block(), 41) == 0xf0a64f5a && W(Block(), 42) == 0x3e246a79
    ensures W(Block(), 43) == 0x27333ba3 && W(Block(), 44) == 0x0c4763f2 && W(Block(), 45) == 0x840abf27
    ensures W(Block(), 46) == 0x7a290d5d && W(Block(), 47) == 0x065c43da
  {
    hide Block, W;
    Words32();
    Words24();
    NextWord(40, 0xc8215c1a, 0xb73679a2, 0x3b68ba73, 0x9409e33e, 0x9f47bf94);
    NextWord(41, 0xb73679a2, 0xe5bc3909, 0xaff4ffc1, 0x24641522, 0xf0a64f5a);
    NextWord(42, 0xe5bc3909, 0x32663c5b, 0xf10a5c62, 0x9f47bf94, 0x3e246a79);
    NextWord(43, 0x32663c5b, 0x9d209d67, 0x0a8b3996, 0xf0a64f5a, 0x27333ba3);
    NextWord(44, 0x9d209d67, 0xec8726cb, 0x72af830a, 0x3e246a79, 0x0c4763f2);
    NextWord(45, 0xec8726cb, 0x702138a4, 0x9409e33e, 0x27333ba3, 0x840abf27);
    NextWord(46, 0x702138a4, 0xd3b7973b, 0x24641522, 0x0c4763f2, 0x7a290d5d);
    NextWord(47, 0xd3b7973b, 0x93f5997f, 0x9f47bf94, 0x840abf27, 0x065c43da);
  }

  lemma Words48()
    ensures W(Block(), 48) == 0xfb3e89cb && W(Block(), 49) == 0xcc7617db && W(Block(), 50) == 0xb9e66c34
    ensures W(Block(), 51) == 0xa9993667 && W(Block(), 52) == 0x84badedd && W(Block(), 53) == 0xc21462bc
    ensures W(Block(), 54) == 0x1487472c && W(Block(), 55) == 0xb20f7a99
  {
    hide Block, W;
    Words40();
    Words32();
    NextWord(48, 0x93f5997f, 0x3b68ba73, 0xf0a64f5a, 0x7a290d5d, 0xfb3e89cb);
    NextWord(49, 0x3b68ba73, 0xaff4ffc1, 0x3e246a79, 0x065c43da, 0xcc7617db);
    NextWord(50, 0xaff4ffc1, 0xf10a5c62, 0x27333ba3, 0xfb3e89cb, 0xb9e66c34);
    NextWord(51, 0xf10a5c62, 0x0a8b3996, 0x0c4763f2, 0xcc7617db, 0xa9993667);
    NextWord(52, 0x0a8b3996, 0x72af830a, 0x840abf27, 0xb9e66c34, 0x84badedd);
    NextWord(53, 0x72af830a, 0x9409e33e, 0x7a290d5d, 0xa9993667, 0xc21462bc);
    NextWord(54, 0x9409e33e, 0x24641522, 0x065c43da, 0x84badedd, 0x1487472c);
    NextWord(55, 0x24641522, 0x9f47bf94, 0xfb3e89cb, 0xc21462bc, 0xb20f7a99);
  }

  lemma Words56()
    ensures W(Block(), 56) == 0xef57b9cd && W(Block(), 57) == 0xebe6b238 && W(Block(), 58) == 0x9fe3095e
    ensures W(Block(), 59) == 0x78bc8d4b && W(Block(), 60) == 0xa43fcf15 && W(Block(), 61) == 0x668b2ff8
    ensures W(Block(), 62) == 0xeeaba2cc && W(Block(), 63) == 0x12b1edeb
  {
    hide Block, W;
    Words48();
    Words40();
    NextWord(56, 0x9f47bf94, 0xf0a64f5a, 0xcc7617db, 0x1487472c, 0xef57b9cd);
    NextWord(57, 0xf0a64f5a, 0x3e246a79, 0xb9e66c34, 0xb20f7a99, 0xebe6b238);
    NextWord(58, 0x3e246a79, 0x27333ba3, 0xa9993667, 0xef57b9cd, 0x9fe3095e);
    NextWord(59, 0x27333ba3, 0x0c4763f2, 0x84badedd, 0xebe6b238, 0x78bc8d4b);
    NextWord(60, 0x0c4763f2, 0x840abf27, 0xc21462bc, 0x9fe3095e, 0xa43fcf15);
    NextWord(61, 0x840abf27, 0x7a290d5d, 0x1487472c, 0x78bc8d4b, 0x668b2ff8);
    NextWord(62, 0x7a290d5d, 0x065c43da, 0xb20f7a99, 0xa43fcf15, 0xeeaba2cc);
    NextWord(63, 0x065c43da, 0xfb3e89cb, 0xef57b9cd, 0x668b2ff8, 0x12b1edeb);
  }

  // ---------- the rounds ----------

  lemma NextRegisters(t: nat, a: Word, b: Word, c: Word, d: Word, e: Word, f: Word, g: Word, h: Word,
                      w: Word, a1: Word, e1: Word)
    requires t < 64 && Rounds(FromHash(H0), Block(), t) == Registers(a, b, c, d, e, f, g, h)
    requires W(Block(), t) == w
    requires Round(Registers(a, b, c, d, e, f, g, h), K(t), w) == Registers(a1, a, b, c, e1, e, f, g)
    ensures Rounds(FromHash(H0), Block(), t + 1) == Registers(a1, a, b, c, e1, e, f, g)
  {
    hide Block, W, Round, K, FromHash;
  }

  lemma Rounds8()
    ensures Rounds(FromHash(H0), Block(), 8)
            == Registers(0x85a07b5f, 0xe5030380, 0x2b4209f5, 0x04409a6a, 0x0c657a79, 0x9b27a401, 0x714260ad, 0x43ada245)
  {
    hide Block, W, Rounds;
    FirstWords();
    Begin();
    NextRegisters(0, 0x6a09e667, 0xbb67ae85, 0x3c6ef372, 0xa54ff53a, 0x510e527f,
                  0x9b05688c, 0x1f83d9ab, 0x5be0cd19, 0x61626380, 0x5d6aebcd, 0xfa2a4622);
    NextRegisters(1, 0x5d6aebcd, 0x6a09e667, 0xbb67ae85, 0x3c6ef372, 0xfa2a4622,
                  0x510e527f, 0x9b05688c, 0x1f83d9ab, 0x00000000, 0x5a6ad9ad, 0x78ce7989);
    NextRegisters(2, 0x5a6ad9ad, 0x5d6aebcd, 0x6a09e667, 0xbb67ae85, 0x78ce7989,
                  0xfa2a4622, 0x510e527f, 0x9b05688c, 0x00000000, 0xc8c347a7, 0xf92939eb);
    NextRegisters(3, 0xc8c347a7, 0x5a6ad9ad, 0x5d6aebcd, 0x6a09e667, 0xf92939eb,
                  0x78ce7989, 0xfa2a4622, 0x510e527f, 0x00000000, 0xd550f666, 0x24e00850);
    NextRegisters(4, 0xd550f666, 0xc8c347a7, 0x5a6ad9ad, 0x5d6aebcd, 0x24e00850,
                  0xf92939eb, 0x78ce7989, 0xfa2a4622, 0x00000000, 0x04409a6a, 0x43ada245);
    NextRegisters(5, 0x04409a6a, 0xd550f666, 0xc8c347a7, 0x5a6ad9ad, 0x43ada245,
                  0x24e00850, 0xf92939eb, 0x78ce7989, 0x00000000, 0x2b4209f5, 0x714260ad);
    NextRegisters(6, 0x2b4209f5, 0x04409a6a, 0xd550f666, 0xc8c347a7, 0x714260ad,
                  0x43ada245, 0x24e00850, 0xf92939eb, 0x00000000, 0xe5030380, 0x9b27a401);
    NextRegisters(7, 0xe5030380, 0x2b4209f5, 0x04409a6a, 0xd550f666, 0x9b27a401,
                  0x714260ad, 0x43ada245, 0x24e00850, 0x00000000, 0x85a07b5f, 0x0c657a79);
  }

  lemma Rounds16()
    ensures Rounds(FromHash(H0), Block(), 16)
            == Registers(0xb0fa238e, 0xc0645fde, 0xd932eb16, 0x87912990, 0x07590dcd, 0x0b92f20c, 0x745a48de, 0x1e578218)
  {
    hide Block, W, Rounds;
    FirstWords();
    Rounds8();
    NextRegisters(8, 0x85a07b5f, 0xe5030380, 0x2b4209f5, 0x04409a6a, 0x0c657a79,
                  0x9b27a401, 0x714260ad, 0x43ada245, 0x00000000, 0x8e04ecb9, 0x32ca2d8c);
    NextRegisters(9, 0x8e04ecb9, 0x85a07b5f, 0xe5030380, 0x2b4209f5, 0x32ca2d8c,
                  0x0c657a79, 0x9b27a401, 0x714260ad, 0x00000000, 0x8c87346b, 0x1cc92596);
    NextRegisters(10, 0x8c87346b, 0x8e04ecb9, 0x85a07b5f, 0xe5030380, 0x1cc92596,
                  0x32ca2d8c, 0x0c657a79, 0x9b27a401, 0x00000000, 0x4798a3f4, 0x436b23e8);
    NextRegisters(11, 0x4798a3f4, 0x8c87346b, 0x8e04ecb9, 0x85a07b5f, 0x436b23e8,
                  0x1cc92596, 0x32ca2d8c, 0x0c657a79, 0x00000000, 0xf71fc5a9, 0x816fd6e9);
    NextRegisters(12, 0xf71fc5a9, 0x4798a3f4, 0x8c87346b, 0x8e04ecb9, 0x816fd6e9,
                  0x436b23e8, 0x1cc92596, 0x32ca2d8c, 0x00000000, 0x87912990, 0x1e578218);
    NextRegisters(13, 0x87912990, 0xf71fc5a9, 0x4798a3f4, 0x8c87346b, 0x1e578218,
                  0x816fd6e9, 0x436b23e8, 0x1cc92596, 0x00000000, 0xd932eb16, 0x745a48de);
    NextRegisters(14, 0xd932eb16, 0x87912990, 0xf71fc5a9, 0x4798a3f4, 0x745a48de,
                  0x1e578218, 0x816fd6e9, 0x436b23e8, 0x00000000, 0xc0645fde, 0x0b92f20c);
    NextRegisters(15, 0xc0645fde, 0xd932eb16, 0x87912990, 0xf71fc5a9, 0x0b92f20c,
                  0x745a48de, 0x1e578218, 0x816fd6e9, 0x00000018, 0xb0fa238e, 0x07590dcd);
  }

  lemma Rounds24()
    ensures Rounds(FromHash(H0), Block(), 24)
            == Registers(0xc5d53d8d, 0xa7a3623f, 0xc2606d6d, 0x9dc68b63, 0xaa47c347, 0x49f5114a, 0xe1257970, 0x8ada8930)
  {
    hide Block, W, Rounds;
    Words16();
    Rounds16();
    NextRegisters(16, 0xb0fa238e, 0xc0645fde, 0xd932eb16, 0x87912990, 0x07590dcd,
                  0x0b92f20c, 0x745a48de, 0x1e578218, 0x61626380, 0x21da9a9b, 0x8034229c);
    NextRegisters(17, 0x21da9a9b, 0xb0fa238e, 0xc0645fde, 0xd932eb16, 0x8034229c,
                  0x07590dcd, 0x0b92f20c, 0x745a48de, 0x000f0000, 0xc2fbd9d1, 0x846ee454);
    NextRegisters(18, 0xc2fbd9d1, 0x21da9a9b, 0xb0fa238e, 0xc0645fde, 0x846ee454,
                  0x8034229c, 0x07590dcd, 0x0b92f20c, 0x7da86405, 0xfe777bbf, 0xcc899961);
    NextRegisters(19, 0xfe777bbf, 0xc2fbd9d1, 0x21da9a9b, 0xb0fa238e, 0xcc899961,
                  0x846ee454, 0x8034229c, 0x07590dcd, 0x600003c6, 0xe1f20c33, 0xb0638179);
    NextRegisters(20, 0xe1f20c33, 0xfe777bbf, 0xc2fbd9d1, 0x21da9a9b, 0xb0638179,
                  0xcc899961, 0x846ee454, 0x8034229c, 0x3e9d7b78, 0x9dc68b63, 0x8ada8930);
    NextRegisters(21, 0x9dc68b63, 0xe1f20c33, 0xfe777bbf, 0xc2fbd9d1, 0x8ada8930,
                  0xb0638179, 0xcc899961, 0x846ee454, 0x0183fc00, 0xc2606d6d, 0xe1257970);
    NextRegisters(22, 0xc2606d6d, 0x9dc68b63, 0xe1f20c33, 0xfe777bbf, 0xe1257970,
                  0x8ada8930, 0xb0638179, 0xcc899961, 0x12dcbfdb, 0xa7a3623f, 0x49f5114a);
    NextRegisters(23, 0xa7a3623f, 0xc2606d6d, 0x9dc68b63, 0xe1f20c33, 0x49f5114a,
                  0xe1257970, 0x8ada8930, 0xb0638179, 0xe2e2c38e, 0xc5d53d8d, 0xaa47c347);
  }

  lemma Rounds32()
    ensures Rounds(FromHash(H0), Block(), 32)
            == Registers(0x73b33bf5, 0xea992a22, 0xa0060b30, 0x363482c9, 0xba591112, 0x0109ab3a, 0xade79437, 0x6112a3b7)
  {
    hide Block, W, Rounds;
    Words24();
    Rounds24();
    NextRegisters(24, 0xc5d53d8d, 0xa7a3623f, 0xc2606d6d, 0x9dc68b63, 0xaa47c347,
                  0x49f5114a, 0xe1257970, 0x8ada8930, 0xc8215c1a, 0x1c2c2838, 0x2823ef91);
    NextRegisters(25, 0x1c2c2838, 0xc5d53d8d, 0xa7a3623f, 0xc2606d6d, 0x2823ef91,
                  0xaa47c347, 0x49f5114a, 0xe1257970, 0xb73679a2, 0xcde8037d, 0x14383d8e);
    NextRegisters(26, 0xcde8037d, 0x1c2c2838, 0xc5d53d8d, 0xa7a3623f, 0x14383d8e,
                  0x2823ef91, 0xaa47c347, 0x49f5114a, 0xe5bc3909, 0xb62ec4bc, 0xc74c6516);
    NextRegisters(27, 0xb62ec4bc, 0xcde8037d, 0x1c2c2838, 0xc5d53d8d, 0xc74c6516,
                  0x14383d8e, 0x2823ef91, 0xaa47c347, 0x32663c5b, 0x77d37528, 0xedffbff8);
    NextRegisters(28, 0x77d37528, 0xb62ec4bc, 0xcde8037d, 0x1c2c2838, 0xedffbff8,
                  0xc74c6516, 0x14383d8e, 0x2823ef91, 0x9d209d67, 0x363482c9, 0x6112a3b7);
    NextRegisters(29, 0x363482c9, 0x77d37528, 0xb62ec4bc, 0xcde8037d, 0x6112a3b7,
                  0xedffbff8, 0xc74c6516, 0x14383d8e, 0xec8726cb, 0xa0060b30, 0xade79437);
    NextRegisters(30, 0xa0060b30, 0x363482c9, 0x77d37528, 0xb62ec4bc, 0xade79437,
                  0x6112a3b7, 0xedffbff8, 0xc74c6516, 0x702138a4, 0xea992a22, 0x0109ab3a);
    NextRegisters(31, 0xea992a22, 0xa0060b30, 0x363482c9, 0x77d37528, 0x0109ab3a,
                  0xade79437, 0x6112a3b7, 0xedffbff8, 0xd3b7973b, 0x73b33bf5, 0xba591112);
  }

  lemma Rounds40()
    ensures Rounds(FromHash(H0), Block(), 40)
            == Registers(0x79ea687a, 0x6dc57a8a, 0x34df1604, 0x41a65cb1, 0x1efbc0a0, 0xf0781bc8, 0xa507a53d, 0x0772a26b)
  {
    hide Block, W, Rounds;
    Words32();
    Rounds32();
    NextRegisters(32, 0x73b33bf5, 0xea992a22, 0xa0060b30, 0x363482c9, 0xba591112,
                  0x0109ab3a, 0xade79437, 0x6112a3b7, 0x93f5997f, 0x98e12507, 0x9cd9f5f6);
    NextRegisters(33, 0x98e12507, 0x73b33bf5, 0xea992a22, 0xa0060b30, 0x9cd9f5f6,
                  0xba591112, 0x0109ab3a, 0xade79437, 0x3b68ba73, 0xfe604df5, 0x59249dd3);
    NextRegisters(34, 0xfe604df5, 0x98e12507, 0x73b33bf5, 0xea992a22, 0x59249dd3,
                  0x9cd9f5f6, 0xba591112, 0x0109ab3a, 0xaff4ffc1, 0xa9a7738c, 0x085f3833);
    NextRegisters(35, 0xa9a7738c, 0xfe604df5, 0x98e12507, 0x73b33bf5, 0x085f3833,
                  0x59249dd3, 0x9cd9f5f6, 0xba591112, 0xf10a5c62, 0x65a0cfe4, 0xf4b002d6);
    NextRegisters(36, 0x65a0cfe4, 0xa9a7738c, 0xfe604df5, 0x98e12507, 0xf4b002d6,
                  0x085f3833, 0x59249dd3, 0x9cd9f5f6, 0x0a8b3996, 0x41a65cb1, 0x0772a26b);
    NextRegisters(37, 0x41a65cb1, 0x65a0cfe4, 0xa9a7738c, 0xfe604df5, 0x0772a26b,
                  0xf4b002d6, 0x085f3833, 0x59249dd3, 0x72af830a, 0x34df1604, 0xa507a53d);
    NextRegisters(38, 0x34df1604, 0x41a65cb1, 0x65a0cfe4, 0xa9a7738c, 0xa507a53d,
                  0x0772a26b, 0xf4b002d6, 0x085f3833, 0x9409e33e, 0x6dc57a8a, 0xf0781bc8);
    NextRegisters(39, 0x6dc57a8a, 0x34df1604, 0x41a65cb1, 0x65a0cfe4, 0xf0781bc8,
                  0xa507a53d, 0x0772a26b, 0xf4b002d6, 0x24641522, 0x79ea687a, 0x1efbc0a0);
  }

  lemma Rounds48()
    ensures Rounds(FromHash(H0), Block(), 48)
            == Registers(0x4172328d, 0xa14c14b0, 0x72ab4b91, 0x26628815, 0xfecf0bc6, 0xd57b94a9, 0xb7755da1, 0xa80f11f0)
  {
    hide Block, W, Rounds;
    Words40();
    Rounds40();
    NextRegisters(40, 0x79ea687a, 0x6dc57a8a, 0x34df1604, 0x41a65cb1, 0x1efbc0a0,
                  0xf0781bc8, 0xa507a53d, 0x0772a26b, 0x9f47bf94, 0xd6670766, 0x26352d63);
    NextRegisters(41, 0xd6670766, 0x79ea687a, 0x6dc57a8a, 0x34df1604, 0x26352d63,
                  0x1efbc0a0, 0xf0781bc8, 0xa507a53d, 0xf0a64f5a, 0xdf46652f, 0x838b2711);
    NextRegisters(42, 0xdf46652f, 0xd6670766, 0x79ea687a, 0x6dc57a8a, 0x838b2711,
                  0x26352d63, 0x1efbc0a0, 0xf0781bc8, 0x3e246a79, 0x17aa0dfe, 0xdecd4715);
    NextRegisters(43, 0x17aa0dfe, 0xdf46652f, 0xd6670766, 0x79ea687a, 0xdecd4715,
                  0x838b2711, 0x26352d63, 0x1efbc0a0, 0x27333ba3, 0x9d4baf93, 0xfda24c2e);
    NextRegisters(44, 0x9d4baf93, 0x17aa0dfe, 0xdf46652f, 0xd6670766, 0xfda24c2e,
                  0xdecd4715, 0x838b2711, 0x26352d63, 0x0c4763f2, 0x26628815, 0xa80f11f0);
    NextRegisters(45, 0x26628815, 0x9d4baf93, 0x17aa0dfe, 0xdf46652f, 0xa80f11f0,
                  0xfda24c2e, 0xdecd4715, 0x838b2711, 0x840abf27, 0x72ab4b91, 0xb7755da1);
    NextRegisters(46, 0x72ab4b91, 0x26628815, 0x9d4baf93, 0x17aa0dfe, 0xb7755da1,
                  0xa80f11f0, 0xfda24c2e, 0xdecd4715, 0x7a290d5d, 0xa14c14b0, 0xd57b94a9);
    NextRegisters(47, 0xa14c14b0, 0x72ab4b91, 0x26628815, 0x9d4baf93, 0xd57b94a9,
                  0xb7755da1, 0xa80f11f0, 0xfda24c2e, 0x065c43da, 0x4172328d, 0xfecf0bc6);
  }

  lemma Rounds56()
    ensures Rounds(FromHash(H0), Block(), 56)
            == Registers(0x38cc9913, 0x3ec45cdb, 0xf5702fdb, 0x101fd28f, 0x54cb266b, 0xe50e1b4f, 0x9f4787c3, 0x529e7d00)
  {
    hide Block, W, Rounds;
    Words48();
    Rounds48();
    NextRegisters(48, 0x4172328d, 0xa14c14b0, 0x72ab4b91, 0x26628815, 0xfecf0bc6,
                  0xd57b94a9, 0xb7755da1, 0xa80f11f0, 0xfb3e89cb, 0x05757ceb, 0xbd714038);
    NextRegisters(49, 0x05757ceb, 0x4172328d, 0xa14c14b0, 0x72ab4b91, 0xbd714038,
                  0xfecf0bc6, 0xd57b94a9, 0xb7755da1, 0xcc7617db, 0xf11bfaa8, 0x6e5c390c);
    NextRegisters(50, 0xf11bfaa8, 0x05757ceb, 0x4172328d, 0xa14c14b0, 0x6e5c390c,
                  0xbd714038, 0xfecf0bc6, 0xd57b94a9, 0xb9e66c34, 0x7a0508a1, 0x52f1ccf7);
    NextRegisters(51, 0x7a0508a1, 0xf11bfaa8, 0x05757ceb, 0x4172328d, 0x52f1ccf7,
                  0x6e5c390c, 0xbd714038, 0xfecf0bc6, 0xa9993667, 0x886e7a22, 0x49231c1e);
    NextRegisters(52, 0x886e7a22, 0x7a0508a1, 0xf11bfaa8, 0x05757ceb, 0x49231c1e,
                  0x52f1ccf7, 0x6e5c390c, 0xbd714038, 0x84badedd, 0x101fd28f, 0x529e7d00);
    NextRegisters(53, 0x101fd28f, 0x886e7a22, 0x7a0508a1, 0xf11bfaa8, 0x529e7d00,
                  0x49231c1e, 0x52f1ccf7, 0x6e5c390c, 0xc21462bc, 0xf5702fdb, 0x9f4787c3);
    NextRegisters(54, 0xf5702fdb, 0x101fd28f, 0x886e7a22, 0x7a0508a1, 0x9f4787c3,
                  0x529e7d00, 0x49231c1e, 0x52f1ccf7, 0x1487472c, 0x3ec45cdb, 0xe50e1b4f);
    NextRegisters(55, 0x3ec45cdb, 0xf5702fdb, 0x101fd28f, 0x886e7a22, 0xe50e1b4f,
                  0x9f4787c3, 0x529e7d00, 0x49231c1e, 0xb20f7a99, 0x38cc9913, 0x54cb266b);
  }

  lemma Rounds64()
    ensures Rounds(FromHash(H0), Block(), 64)
            == Registers(0x506e3058, 0xd39a2165, 0x04d24d6c, 0xb85e2ce9, 0x5ef50f24, 0xfb121210, 0x948d25b6, 0x961f4894)
  {
    hide Block, W, Rounds;
    Words56();
    Rounds56();
    NextRegisters(56, 0x38cc9913, 0x3ec45cdb, 0xf5702fdb, 0x101fd28f, 0x54cb266b,
                  0xe50e1b4f, 0x9f4787c3, 0x529e7d00, 0xef57b9cd, 0xfcd1887b, 0x9b5e906c);
    NextRegisters(57, 0xfcd1887b, 0x38cc9913, 0x3ec45cdb, 0xf5702fdb, 0x9b5e906c,
                  0x54cb266b, 0xe50e1b4f, 0x9f4787c3, 0xebe6b238, 0xc062d46f, 0x7e44008e);
    NextRegisters(58, 0xc062d46f, 0xfcd1887b, 0x38cc9913, 0x3ec45cdb, 0x7e44008e,
                  0x9b5e906c, 0x54cb266b, 0xe50e1b4f, 0x9fe3095e, 0xffb70472, 0x6d83bfc6);
    NextRegisters(59, 0xffb70472, 0xc062d46f, 0xfcd1887b, 0x38cc9913, 0x6d83bfc6,
                  0x7e44008e, 0x9b5e906c, 0x54cb266b, 0x78bc8d4b, 0xb6ae8fff, 0xb21bad3d);
    NextRegisters(60, 0xb6ae8fff, 0xffb70472, 0xc062d46f, 0xfcd1887b, 0xb21bad3d,
                  0x6d83bfc6, 0x7e44008e, 0x9b5e906c, 0xa43fcf15, 0xb85e2ce9, 0x961f4894);
    NextRegisters(61, 0xb85e2ce9, 0xb6ae8fff, 0xffb70472, 0xc062d46f, 0x961f4894,
                  0xb21bad3d, 0x6d83bfc6, 0x7e44008e, 0x668b2ff8, 0x04d24d6c, 0x948d25b6);
    NextRegisters(62, 0x04d24d6c, 0xb85e2ce9, 0xb6ae8fff, 0xffb70472, 0x948d25b6,
                  0x961f4894, 0xb21bad3d, 0x6d83bfc6, 0xeeaba2cc, 0xd39a2165, 0xfb121210);
    NextRegisters(63, 0xd39a2165, 0x04d24d6c, 0xb85e2ce9, 0xb6ae8fff, 0xfb121210,
                  0x948d25b6, 0x961f4894, 0xb21bad3d, 0x12b1edeb, 0x506e3058, 0x5ef50f24);
  }

  lemma Begin()
    ensures Rounds(FromHash(H0), Block(), 0)
            == Registers(0x6a09e667, 0xbb67ae85, 0x3c6ef372, 0xa54ff53a, 0x510e527f, 0x9b05688c, 0x1f83d9ab, 0x5be0cd19)
  {
    hide Block;
  }

  // ---------- the digest ----------

  lemma FinalSum()
    ensures AddHash(H0, Registers(0x506e3058, 0xd39a2165, 0x04d24d6c, 0xb85e2ce9,
                                  0x5ef50f24, 0xfb121210, 0x948d25b6, 0x961f4894))
            == [0xba7816bf, 0x8f01cfea, 0x414140de, 0x5dae2223, 0xb00361a3, 0x96177a9c, 0xb410ff61, 0xf20015ad]
  {
    assert Sum(0x6a09e667, 0x506e3058) == 0xba7816bf;
    assert Sum(0xbb67ae85, 0xd39a2165) == 0x8f01cfea;
    assert Sum(0x3c6ef372, 0x04d24d6c) == 0x414140de;
    assert Sum(0xa54ff53a, 0xb85e2ce9) == 0x5dae2223;
    assert Sum(0x510e527f, 0x5ef50f24) == 0xb00361a3;
    assert Sum(0x9b05688c, 0xfb121210) == 0x96177a9c;
    assert Sum(0x1f83d9ab, 0x948d25b6) == 0xb410ff61;
    assert Sum(0x5be0cd19, 0x961f4894) == 0xf20015ad;
  }

  /** The digest of "abc", as the standard's example prints it. */
  lemma DigestOfAbc()
    ensures Digest(ABC) == HashBytes([
      0xba7816bf, 0x8f01cfea, 0x414140de, 0x5dae2223, 0xb00361a3, 0x96177a9c, 0xb410ff61, 0xf20015ad])
  {
    hide *;
    PaddedExample();
    OneBlock();
    Rounds64();
    FinalSum();
  }

  lemma OneBlock()
    ensures Digest(ABC) == HashBytes(HashBlocks(H0, ABC + Padding(3)))
    ensures HashBlocks(H0, Block()) == AddHash(H0, Rounds(FromHash(H0), Block(), 64))
  {
    hide Block, HashBytes, Rounds, AddHash, Padding, H0;
    assert Block()[..64] == Block() && Block()[64..] == [];
    assert HashBlocks(H0, Block()) == Compress(H0, Block());
  }
}
