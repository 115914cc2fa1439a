/**
 The published example of SHA-256, step by step: the digest of the message "abc".
 */
module Sha256Example {
  import opened Words
  import opened Sha256
  import opened Sha256Constants

  /** "abc" with a one bit, zeros, and its length of 24 bits. */
  ghost predicate IsBlock(p: seq<Byte>) {
    p == [0x61, 0x62, 0x63, 0x80] + seq(59, _ => 0) + [24]
  }

  lemma PaddedMessage()
    ensures IsBlock(Pad([0x61, 0x62, 0x63]))
  {
    assert BigEndian(24, 8) == seq(7, _ => 0) + [24] by {
      LengthBytes();
    }
  }

  lemma LengthBytes()
    ensures BigEndian(24, 8) == [0, 0, 0, 0, 0, 0, 0, 24]
  {
    assert ToByte(24) == 24;
    assert BigEndian(0, 4) == [0, 0, 0, 0];
  }

  lemma Words0To15(p: seq<Byte>)
    requires IsBlock(p)
    ensures |p| == 64 && Schedule(p, 0, 0) == 0x61626380 && Schedule(p, 0, 15) == 0x00000018
    ensures forall t: nat | 0 < t < 15 :: Schedule(p, 0, t) == 0
  {
  }

  lemma Words16To31(p: seq<Byte>)
    requires IsBlock(p)
    ensures |p| == 64
    ensures Schedule(p, 0, 16) == 0x61626380 && Schedule(p, 0, 17) == 0x000f0000
    ensures Schedule(p, 0, 18) == 0x7da86405 && Schedule(p, 0, 19) == 0x600003c6
    ensures Schedule(p, 0, 20) == 0x3e9d7b78 && Schedule(p, 0, 21) == 0x0183fc00
    ensures Schedule(p, 0, 22) == 0x12dcbfdb && Schedule(p, 0, 23) == 0xe2e2c38e
    ensures Schedule(p, 0, 24) == 0xc8215c1a && Schedule(p, 0, 25) == 0xb73679a2
    ensures Schedule(p, 0, 26) == 0xe5bc3909 && Schedule(p, 0, 27) == 0x32663c5b
    ensures Schedule(p, 0, 28) == 0x9d209d67 && Schedule(p, 0, 29) == 0xec8726cb
    ensures Schedule(p, 0, 30) == 0x702138a4 && Schedule(p, 0, 31) == 0xd3b7973b
  {
    Words0To15(p);
    hide MessageWord;
  }

  lemma Words32To47(p: seq<Byte>)
    requires IsBlock(p)
    ensures |p| == 64
    ensures Schedule(p, 0, 32) == 0x93f5997f && Schedule(p, 0, 33) == 0x3b68ba73
    ensures Schedule(p, 0, 34) == 0xaff4ffc1 && Schedule(p, 0, 35) == 0xf10a5c62
    ensures Schedule(p, 0, 36) == 0x0a8b3996 && Schedule(p, 0, 37) == 0x72af830a
    ensures Schedule(p, 0, 38) == 0x9409e33e && Schedule(p, 0, 39) == 0x24641522
    ensures Schedule(p, 0, 40) == 0x9f47bf94 && Schedule(p, 0, 41) == 0xf0a64f5a
    ensures Schedule(p, 0, 42) == 0x3e246a79 && Schedule(p, 0, 43) == 0x27333ba3
    ensures Schedule(p, 0, 44) == 0x0c4763f2 && Schedule(p, 0, 45) == 0x840abf27
    ensures Schedule(p, 0, 46) == 0x7a290d5d && Schedule(p, 0, 47) == 0x065c43da
  {
    Words16To31(p);
    Words0To15(p);
    hide MessageWord;
  }

  lemma Words48To63(p: seq<Byte>)
    requires IsBlock(p)
    ensures |p| == 64
    ensures Schedule(p, 0, 48) == 0xfb3e89cb && Schedule(p, 0, 49) == 0xcc7617db
    ensures Schedule(p, 0, 50) == 0xb9e66c34 && Schedule(p, 0, 51) == 0xa9993667
    ensures Schedule(p, 0, 52) == 0x84badedd && Schedule(p, 0, 53) == 0xc21462bc
    ensures Schedule(p, 0, 54) == 0x1487472c && Schedule(p, 0, 55) == 0xb20f7a99
    ensures Schedule(p, 0, 56) == 0xef57b9cd && Schedule(p, 0, 57) == 0xebe6b238
    ensures Schedule(p, 0, 58) == 0x9fe3095e && Schedule(p, 0, 59) == 0x78bc8d4b
    ensures Schedule(p, 0, 60) == 0xa43fcf15 && Schedule(p, 0, 61) == 0x668b2ff8
    ensures Schedule(p, 0, 62) == 0xeeaba2cc && Schedule(p, 0, 63) == 0x12b1edeb
  {
    Words32To47(p);
    hide MessageWord;
  }

  /** One round with known operands. */
  lemma NextRound(p: seq<Byte>, t: nat, k: Word, w: Word, after: seq<Word>)
    requires |p| == 64 && t < 64 && ROUND_CONSTANTS[t] == k && Schedule(p, 0, t) == w
    requires Round(Rounds(INITIAL_HASH, p, 0, t), k, w) == after
    ensures Rounds(INITIAL_HASH, p, 0, t + 1) == after
  {
    hide Round, Schedule;
  }

  lemma Constants0To7()
    ensures ROUND_CONSTANTS[0] == 0x428a2f98 && ROUND_CONSTANTS[1] == 0x71374491
    ensures ROUND_CONSTANTS[2] == 0xb5c0fbcf && ROUND_CONSTANTS[3] == 0xe9b5dba5
    ensures ROUND_CONSTANTS[4] == 0x3956c25b && ROUND_CONSTANTS[5] == 0x59f111f1
    ensures ROUND_CONSTANTS[6] == 0x923f82a4 && ROUND_CONSTANTS[7] == 0xab1c5ed5
  {
  }

  lemma Constants8To15()
    ensures ROUND_CONSTANTS[8] == 0xd807aa98 && ROUND_CONSTANTS[9] == 0x12835b01
    ensures ROUND_CONSTANTS[10] == 0x243185be && ROUND_CONSTANTS[11] == 0x550c7dc3
    ensures ROUND_CONSTANTS[12] == 0x72be5d74 && ROUND_CONSTANTS[13] == 0x80deb1fe
    ensures ROUND_CONSTANTS[14] == 0x9bdc06a7 && ROUND_CONSTANTS[15] == 0xc19bf174
  {
  }

  lemma Constants16To23()
    ensures ROUND_CONSTANTS[16] == 0xe49b69c1 && ROUND_CONSTANTS[17] == 0xefbe4786
    ensures ROUND_CONSTANTS[18] == 0x0fc19dc6 && ROUND_CONSTANTS[19] == 0x240ca1cc
    ensures ROUND_CONSTANTS[20] == 0x2de92c6f && ROUND_CONSTANTS[21] == 0x4a7484aa
    ensures ROUND_CONSTANTS[22] == 0x5cb0a9dc && ROUND_CONSTANTS[23] == 0x76f988da
  {
  }

  lemma Constants24To31()
    ensures ROUND_CONSTANTS[24] == 0x983e5152 && ROUND_CONSTANTS[25] == 0xa831c66d
    ensures ROUND_CONSTANTS[26] == 0xb00327c8 && ROUND_CONSTANTS[27] == 0xbf597fc7
    ensures ROUND_CONSTANTS[28] == 0xc6e00bf3 && ROUND_CONSTANTS[29] == 0xd5a79147
    ensures ROUND_CONSTANTS[30] == 0x06ca6351 && ROUND_CONSTANTS[31] == 0x14292967
  {
  }

  lemma Constants32To39()
    ensures ROUND_CONSTANTS[32] == 0x27b70a85 && ROUND_CONSTANTS[33] == 0x2e1b2138
    ensures ROUND_CONSTANTS[34] == 0x4d2c6dfc && ROUND_CONSTANTS[35] == 0x53380d13
    ensures ROUND_CONSTANTS[36] == 0x650a7354 && ROUND_CONSTANTS[37] == 0x766a0abb
    ensures ROUND_CONSTANTS[38] == 0x81c2c92e && ROUND_CONSTANTS[39] == 0x92722c85
  {
  }

  lemma Constants40To47()
    ensures ROUND_CONSTANTS[40] == 0xa2bfe8a1 && ROUND_CONSTANTS[41] == 0xa81a664b
    ensures ROUND_CONSTANTS[42] == 0xc24b8b70 && ROUND_CONSTANTS[43] == 0xc76c51a3
    ensures ROUND_CONSTANTS[44] == 0xd192e819 && ROUND_CONSTANTS[45] == 0xd6990624
    ensures ROUND_CONSTANTS[46] == 0xf40e3585 && ROUND_CONSTANTS[47] == 0x106aa070
  {
  }

  lemma Constants48To55()
    ensures ROUND_CONSTANTS[48] == 0x19a4c116 && ROUND_CONSTANTS[49] == 0x1e376c08
    ensures ROUND_CONSTANTS[50] == 0x2748774c && ROUND_CONSTANTS[51] == 0x34b0bcb5
    ensures ROUND_CONSTANTS[52] == 0x391c0cb3 && ROUND_CONSTANTS[53] == 0x4ed8aa4a
    ensures ROUND_CONSTANTS[54] == 0x5b9cca4f && ROUND_CONSTANTS[55] == 0x682e6ff3
  {
  }

  lemma Constants56To63()
    ensures ROUND_CONSTANTS[56] == 0x748f82ee && ROUND_CONSTANTS[57] == 0x78a5636f
    ensures ROUND_CONSTANTS[58] == 0x84c87814 && ROUND_CONSTANTS[59] == 0x8cc70208
    ensures ROUND_CONSTANTS[60] == 0x90befffa && ROUND_CONSTANTS[61] == 0xa4506ceb
    ensures ROUND_CONSTANTS[62] == 0xbef9a3f7 && ROUND_CONSTANTS[63] == 0xc67178f2
  {
  }

  lemma Rounds0To7(p: seq<Byte>)
    requires IsBlock(p) && |p| == 64
    ensures Rounds(INITIAL_HASH, p, 0, 8)
         == [0x85a07b5f, 0xe5030380, 0x2b4209f5, 0x04409a6a, 0x0c657a79, 0x9b27a401, 0x714260ad, 0x43ada245]
  {
    Words0To15(p);
    Constants0To7();
    hide Schedule, Rounds, IsBlock;
    NextRound(p, 0, 0x428a2f98, 0x61626380,
              [0x5d6aebcd, 0x6a09e667, 0xbb67ae85, 0x3c6ef372, 0xfa2a4622, 0x510e527f, 0x9b05688c, 0x1f83d9ab]);
    NextRound(p, 1, 0x71374491, 0x00000000,
              [0x5a6ad9ad, 0x5d6aebcd, 0x6a09e667, 0xbb67ae85, 0x78ce7989, 0xfa2a4622, 0x510e527f, 0x9b05688c]);
    NextRound(p, 2, 0xb5c0fbcf, 0x00000000,
              [0xc8c347a7, 0x5a6ad9ad, 0x5d6aebcd, 0x6a09e667, 0xf92939eb, 0x78ce7989, 0xfa2a4622, 0x510e527f]);
    NextRound(p, 3, 0xe9b5dba5, 0x00000000,
              [0xd550f666, 0xc8c347a7, 0x5a6ad9ad, 0x5d6aebcd, 0x24e00850, 0xf92939eb, 0x78ce7989, 0xfa2a4622]);
    NextRound(p, 4, 0x3956c25b, 0x00000000,
              [0x04409a6a, 0xd550f666, 0xc8c347a7, 0x5a6ad9ad, 0x43ada245, 0x24e00850, 0xf92939eb, 0x78ce7989]);
    NextRound(p, 5, 0x59f111f1, 0x00000000,
              [0x2b4209f5, 0x04409a6a, 0xd550f666, 0xc8c347a7, 0x714260ad, 0x43ada245, 0x24e00850, 0xf92939eb]);
    NextRound(p, 6, 0x923f82a4, 0x00000000,
              [0xe5030380, 0x2b4209f5, 0x04409a6a, 0xd550f666, 0x9b27a401, 0x714260ad, 0x43ada245, 0x24e00850]);
    NextRound(p, 7, 0xab1c5ed5, 0x00000000,
              [0x85a07b5f, 0xe5030380, 0x2b4209f5, 0x04409a6a, 0x0c657a79, 0x9b27a401, 0x714260ad, 0x43ada245]);
  }

  lemma Rounds8To15(p: seq<Byte>)
    requires IsBlock(p) && |p| == 64
    ensures Rounds(INITIAL_HASH, p, 0, 16)
         == [0xb0fa238e, 0xc0645fde, 0xd932eb16, 0x87912990, 0x07590dcd, 0x0b92f20c, 0x745a48de, 0x1e578218]
  {
    Rounds0To7(p);
    Words0To15(p);
    Constants8To15();
    hide Schedule, Rounds, IsBlock;
    NextRound(p, 8, 0xd807aa98, 0x00000000,
              [0x8e04ecb9, 0x85a07b5f, 0xe5030380, 0x2b4209f5, 0x32ca2d8c, 0x0c657a79, 0x9b27a401, 0x714260ad]);
    NextRound(p, 9, 0x12835b01, 0x00000000,
              [0x8c87346b, 0x8e04ecb9, 0x85a07b5f, 0xe5030380, 0x1cc92596, 0x32ca2d8c, 0x0c657a79, 0x9b27a401]);
    NextRound(p, 10, 0x243185be, 0x00000000,
              [0x4798a3f4, 0x8c87346b, 0x8e04ecb9, 0x85a07b5f, 0x436b23e8, 0x1cc92596, 0x32ca2d8c, 0x0c657a79]);
    NextRound(p, 11, 0x550c7dc3, 0x00000000,
              [0xf71fc5a9, 0x4798a3f4, 0x8c87346b, 0x8e04ecb9, 0x816fd6e9, 0x436b23e8, 0x1cc92596, 0x32ca2d8c]);
    NextRound(p, 12, 0x72be5d74, 0x00000000,
              [0x87912990, 0xf71fc5a9, 0x4798a3f4, 0x8c87346b, 0x1e578218, 0x816fd6e9, 0x436b23e8, 0x1cc92596]);
    NextRound(p, 13, 0x80deb1fe, 0x00000000,
              [0xd932eb16, 0x87912990, 0xf71fc5a9, 0x4798a3f4, 0x745a48de, 0x1e578218, 0x816fd6e9, 0x436b23e8]);
    NextRound(p, 14, 0x9bdc06a7, 0x00000000,
              [0xc0645fde, 0xd932eb16, 0x87912990, 0xf71fc5a9, 0x0b92f20c, 0x745a48de, 0x1e578218, 0x816fd6e9]);
    NextRound(p, 15, 0xc19bf174, 0x00000018,
              [0xb0fa238e, 0xc0645fde, 0xd932eb16, 0x87912990, 0x07590dcd, 0x0b92f20c, 0x745a48de, 0x1e578218]);
  }

  lemma Rounds16To23(p: seq<Byte>)
    requires IsBlock(p) && |p| == 64
    ensures Rounds(INITIAL_HASH, p, 0, 24)
         == [0xc5d53d8d, 0xa7a3623f, 0xc2606d6d, 0x9dc68b63, 0xaa47c347, 0x49f5114a, 0xe1257970, 0x8ada8930]
  {
    Rounds8To15(p);
    Words16To31(p);
    Constants16To23();
    hide Schedule, Rounds, IsBlock;
    NextRound(p, 16, 0xe49b69c1, 0x61626380,
              [0x21da9a9b, 0xb0fa238e, 0xc0645fde, 0xd932eb16, 0x8034229c, 0x07590dcd, 0x0b92f20c, 0x745a48de]);
    NextRound(p, 17, 0xefbe4786, 0x000f0000,
              [0xc2fbd9d1, 0x21da9a9b, 0xb0fa238e, 0xc0645fde, 0x846ee454, 0x8034229c, 0x07590dcd, 0x0b92f20c]);
    NextRound(p, 18, 0x0fc19dc6, 0x7da86405,
              [0xfe777bbf, 0xc2fbd9d1, 0x21da9a9b, 0xb0fa238e, 0xcc899961, 0x846ee454, 0x8034229c, 0x07590dcd]);
    NextRound(p, 19, 0x240ca1cc, 0x600003c6,
              [0xe1f20c33, 0xfe777bbf, 0xc2fbd9d1, 0x21da9a9b, 0xb0638179, 0xcc899961, 0x846ee454, 0x8034229c]);
    NextRound(p, 20, 0x2de92c6f, 0x3e9d7b78,
              [0x9dc68b63, 0xe1f20c33, 0xfe777bbf, 0xc2fbd9d1, 0x8ada8930, 0xb0638179, 0xcc899961, 0x846ee454]);
    NextRound(p, 21, 0x4a7484aa, 0x0183fc00,
              [0xc2606d6d, 0x9dc68b63, 0xe1f20c33, 0xfe777bbf, 0xe1257970, 0x8ada8930, 0xb0638179, 0xcc899961]);
    NextRound(p, 22, 0x5cb0a9dc, 0x12dcbfdb,
              [0xa7a3623f, 0xc2606d6d, 0x9dc68b63, 0xe1f20c33, 0x49f5114a, 0xe1257970, 0x8ada8930, 0xb0638179]);
    NextRound(p, 23, 0x76f988da, 0xe2e2c38e,
              [0xc5d53d8d, 0xa7a3623f, 0xc2606d6d, 0x9dc68b63, 0xaa47c347, 0x49f5114a, 0xe1257970, 0x8ada8930]);
  }

  lemma Rounds24To31(p: seq<Byte>)
    requires IsBlock(p) && |p| == 64
    ensures Rounds(INITIAL_HASH, p, 0, 32)
         == [0x73b33bf5, 0xea992a22, 0xa0060b30, 0x363482c9, 0xba591112, 0x0109ab3a, 0xade79437, 0x6112a3b7]
  {
    Rounds16To23(p);
    Words16To31(p);
    Constants24To31();
    hide Schedule, Rounds, IsBlock;
    NextRound(p, 24, 0x983e5152, 0xc8215c1a,
              [0x1c2c2838, 0xc5d53d8d, 0xa7a3623f, 0xc2606d6d, 0x2823ef91, 0xaa47c347, 0x49f5114a, 0xe1257970]);
    NextRound(p, 25, 0xa831c66d, 0xb73679a2,
              [0xcde8037d, 0x1c2c2838, 0xc5d53d8d, 0xa7a3623f, 0x14383d8e, 0x2823ef91, 0xaa47c347, 0x49f5114a]);
    NextRound(p, 26, 0xb00327c8, 0xe5bc3909,
              [0xb62ec4bc, 0xcde8037d, 0x1c2c2838, 0xc5d53d8d, 0xc74c6516, 0x14383d8e, 0x2823ef91, 0xaa47c347]);
    NextRound(p, 27, 0xbf597fc7, 0x32663c5b,
              [0x77d37528, 0xb62ec4bc, 0xcde8037d, 0x1c2c2838, 0xedffbff8, 0xc74c6516, 0x14383d8e, 0x2823ef91]);
    NextRound(p, 28, 0xc6e00bf3, 0x9d209d67,
              [0x363482c9, 0x77d37528, 0xb62ec4bc, 0xcde8037d, 0x6112a3b7, 0xedffbff8, 0xc74c6516, 0x14383d8e]);
    NextRound(p, 29, 0xd5a79147, 0xec8726cb,
              [0xa0060b30, 0x363482c9, 0x77d37528, 0xb62ec4bc, 0xade79437, 0x6112a3b7, 0xedffbff8, 0xc74c6516]);
    NextRound(p, 30, 0x06ca6351, 0x702138a4,
              [0xea992a22, 0xa0060b30, 0x363482c9, 0x77d37528, 0x0109ab3a, 0xade79437, 0x6112a3b7, 0xedffbff8]);
    NextRound(p, 31, 0x14292967, 0xd3b7973b,
              [0x73b33bf5, 0xea992a22, 0xa0060b30, 0x363482c9, 0xba591112, 0x0109ab3a, 0xade79437, 0x6112a3b7]);
  }

  lemma Rounds32To39(p: seq<Byte>)
    requires IsBlock(p) && |p| == 64
    ensures Rounds(INITIAL_HASH, p, 0, 40)
         == [0x79ea687a, 0x6dc57a8a, 0x34df1604, 0x41a65cb1, 0x1efbc0a0, 0xf0781bc8, 0xa507a53d, 0x0772a26b]
  {
    Rounds24To31(p);
    Words32To47(p);
    Constants32To39();
    hide Schedule, Rounds, IsBlock;
    NextRound(p, 32, 0x27b70a85, 0x93f5997f,
              [0x98e12507, 0x73b33bf5, 0xea992a22, 0xa0060b30, 0x9cd9f5f6, 0xba591112, 0x0109ab3a, 0xade79437]);
    NextRound(p, 33, 0x2e1b2138, 0x3b68ba73,
              [0xfe604df5, 0x98e12507, 0x73b33bf5, 0xea992a22, 0x59249dd3, 0x9cd9f5f6, 0xba591112, 0x0109ab3a]);
    NextRound(p, 34, 0x4d2c6dfc, 0xaff4ffc1,
              [0xa9a7738c, 0xfe604df5, 0x98e12507, 0x73b33bf5, 0x085f3833, 0x59249dd3, 0x9cd9f5f6, 0xba591112]);
    NextRound(p, 35, 0x53380d13, 0xf10a5c62,
              [0x65a0cfe4, 0xa9a7738c, 0xfe604df5, 0x98e12507, 0xf4b002d6, 0x085f3833, 0x59249dd3, 0x9cd9f5f6]);
    NextRound(p, 36, 0x650a7354, 0x0a8b3996,
              [0x41a65cb1, 0x65a0cfe4, 0xa9a7738c, 0xfe604df5, 0x0772a26b, 0xf4b002d6, 0x085f3833, 0x59249dd3]);
    NextRound(p, 37, 0x766a0abb, 0x72af830a,
              [0x34df1604, 0x41a65cb1, 0x65a0cfe4, 0xa9a7738c, 0xa507a53d, 0x0772a26b, 0xf4b002d6, 0x085f3833]);
    NextRound(p, 38, 0x81c2c92e, 0x9409e33e,
              [0x6dc57a8a, 0x34df1604, 0x41a65cb1, 0x65a0cfe4, 0xf0781bc8, 0xa507a53d, 0x0772a26b, 0xf4b002d6]);
    NextRound(p, 39, 0x92722c85, 0x24641522,
              [0x79ea687a, 0x6dc57a8a, 0x34df1604, 0x41a65cb1, 0x1efbc0a0, 0xf0781bc8, 0xa507a53d, 0x0772a26b]);
  }

  lemma Rounds40To47(p: seq<Byte>)
    requires IsBlock(p) && |p| == 64
    ensures Rounds(INITIAL_HASH, p, 0, 48)
         == [0x4172328d, 0xa14c14b0, 0x72ab4b91, 0x26628815, 0xfecf0bc6, 0xd57b94a9, 0xb7755da1, 0xa80f11f0]
  {
    Rounds32To39(p);
    Words32To47(p);
    Constants40To47();
    hide Schedule, Rounds, IsBlock;
    NextRound(p, 40, 0xa2bfe8a1, 0x9f47bf94,
              [0xd6670766, 0x79ea687a, 0x6dc57a8a, 0x34df1604, 0x26352d63, 0x1efbc0a0, 0xf0781bc8, 0xa507a53d]);
    NextRound(p, 41, 0xa81a664b, 0xf0a64f5a,
              [0xdf46652f, 0xd6670766, 0x79ea687a, 0x6dc57a8a, 0x838b2711, 0x26352d63, 0x1efbc0a0, 0xf0781bc8]);
    NextRound(p, 42, 0xc24b8b70, 0x3e246a79,
              [0x17aa0dfe, 0xdf46652f, 0xd6670766, 0x79ea687a, 0xdecd4715, 0x838b2711, 0x26352d63, 0x1efbc0a0]);
    NextRound(p, 43, 0xc76c51a3, 0x27333ba3,
              [0x9d4baf93, 0x17aa0dfe, 0xdf46652f, 0xd6670766, 0xfda24c2e, 0xdecd4715, 0x838b2711, 0x26352d63]);
    NextRound(p, 44, 0xd192e819, 0x0c4763f2,
              [0x26628815, 0x9d4baf93, 0x17aa0dfe, 0xdf46652f, 0xa80f11f0, 0xfda24c2e, 0xdecd4715, 0x838b2711]);
    NextRound(p, 45, 0xd6990624, 0x840abf27,
              [0x72ab4b91, 0x26628815, 0x9d4baf93, 0x17aa0dfe, 0xb7755da1, 0xa80f11f0, 0xfda24c2e, 0xdecd4715]);
    NextRound(p, 46, 0xf40e3585, 0x7a290d5d,
              [0xa14c14b0, 0x72ab4b91, 0x26628815, 0x9d4baf93, 0xd57b94a9, 0xb7755da1, 0xa80f11f0, 0xfda24c2e]);
    NextRound(p, 47, 0x106aa070, 0x065c43da,
              [0x4172328d, 0xa14c14b0, 0x72ab4b91, 0x26628815, 0xfecf0bc6, 0xd57b94a9, 0xb7755da1, 0xa80f11f0]);
  }

  lemma Rounds48To55(p: seq<Byte>)
    requires IsBlock(p) && |p| == 64
    ensures Rounds(INITIAL_HASH, p, 0, 56)
         == [0x38cc9913, 0x3ec45cdb, 0xf5702fdb, 0x101fd28f, 0x54cb266b, 0xe50e1b4f, 0x9f4787c3, 0x529e7d00]
  {
    Rounds40To47(p);
    Words48To63(p);
    Constants48To55();
    hide Schedule, Rounds, IsBlock;
    NextRound(p, 48, 0x19a4c116, 0xfb3e89cb,
              [0x05757ceb, 0x4172328d, 0xa14c14b0, 0x72ab4b91, 0xbd714038, 0xfecf0bc6, 0xd57b94a9, 0xb7755da1]);
    NextRound(p, 49, 0x1e376c08, 0xcc7617db,
              [0xf11bfaa8, 0x05757ceb, 0x4172328d, 0xa14c14b0, 0x6e5c390c, 0xbd714038, 0xfecf0bc6, 0xd57b94a9]);
    NextRound(p, 50, 0x2748774c, 0xb9e66c34,
              [0x7a0508a1, 0xf11bfaa8, 0x05757ceb, 0x4172328d, 0x52f1ccf7, 0x6e5c390c, 0xbd714038, 0xfecf0bc6]);
    NextRound(p, 51, 0x34b0bcb5, 0xa9993667,
              [0x886e7a22, 0x7a0508a1, 0xf11bfaa8, 0x05757ceb, 0x49231c1e, 0x52f1ccf7, 0x6e5c390c, 0xbd714038]);
    NextRound(p, 52, 0x391c0cb3, 0x84badedd,
              [0x101fd28f, 0x886e7a22, 0x7a0508a1, 0xf11bfaa8, 0x529e7d00, 0x49231c1e, 0x52f1ccf7, 0x6e5c390c]);
    NextRound(p, 53, 0x4ed8aa4a, 0xc21462bc,
              [0xf5702fdb, 0x101fd28f, 0x886e7a22, 0x7a0508a1, 0x9f4787c3, 0x529e7d00, 0x49231c1e, 0x52f1ccf7]);
    NextRound(p, 54, 0x5b9cca4f, 0x1487472c,
              [0x3ec45cdb, 0xf5702fdb, 0x101fd28f, 0x886e7a22, 0xe50e1b4f, 0x9f4787c3, 0x529e7d00, 0x49231c1e]);
    NextRound(p, 55, 0x682e6ff3, 0xb20f7a99,
              [0x38cc9913, 0x3ec45cdb, 0xf5702fdb, 0x101fd28f, 0x54cb266b, 0xe50e1b4f, 0x9f4787c3, 0x529e7d00]);
  }

  lemma Rounds56To63(p: seq<Byte>)
    requires IsBlock(p) && |p| == 64
    ensures Rounds(INITIAL_HASH, p, 0, 64)
         == [0x506e3058, 0xd39a2165, 0x04d24d6c, 0xb85e2ce9, 0x5ef50f24, 0xfb121210, 0x948d25b6, 0x961f4894]
  {
    Rounds48To55(p);
    Words48To63(p);
    Constants56To63();
    hide Schedule, Rounds, IsBlock;
    NextRound(p, 56, 0x748f82ee, 0xef57b9cd,
              [0xfcd1887b, 0x38cc9913, 0x3ec45cdb, 0xf5702fdb, 0x9b5e906c, 0x54cb266b, 0xe50e1b4f, 0x9f4787c3]);
    NextRound(p, 57, 0x78a5636f, 0xebe6b238,
              [0xc062d46f, 0xfcd1887b, 0x38cc9913, 0x3ec45cdb, 0x7e44008e, 0x9b5e906c, 0x54cb266b, 0xe50e1b4f]);
    NextRound(p, 58, 0x84c87814, 0x9fe3095e,
              [0xffb70472, 0xc062d46f, 0xfcd1887b, 0x38cc9913, 0x6d83bfc6, 0x7e44008e, 0x9b5e906c, 0x54cb266b]);
    NextRound(p, 59, 0x8cc70208, 0x78bc8d4b,
              [0xb6ae8fff, 0xffb70472, 0xc062d46f, 0xfcd1887b, 0xb21bad3d, 0x6d83bfc6, 0x7e44008e, 0x9b5e906c]);
    NextRound(p, 60, 0x90befffa, 0xa43fcf15,
              [0xb85e2ce9, 0xb6ae8fff, 0xffb70472, 0xc062d46f, 0x961f4894, 0xb21bad3d, 0x6d83bfc6, 0x7e44008e]);
    NextRound(p, 61, 0xa4506ceb, 0x668b2ff8,
              [0x04d24d6c, 0xb85e2ce9, 0xb6ae8fff, 0xffb70472, 0x948d25b6, 0x961f4894, 0xb21bad3d, 0x6d83bfc6]);
    NextRound(p, 62, 0xbef9a3f7, 0xeeaba2cc,
              [0xd39a2165, 0x04d24d6c, 0xb85e2ce9, 0xb6ae8fff, 0xfb121210, 0x948d25b6, 0x961f4894, 0xb21bad3d]);
    NextRound(p, 63, 0xc67178f2, 0x12b1edeb,
              [0x506e3058, 0xd39a2165, 0x04d24d6c, 0xb85e2ce9, 0x5ef50f24, 0xfb121210, 0x948d25b6, 0x961f4894]);
  }

  /** The digest that FIPS 180 publishes for "abc". */
  lemma DigestOfAbc()
    ensures Hash([0x61, 0x62, 0x63])
         == WordsToBytes([0xba7816bf, 0x8f01cfea, 0x414140de, 0x5dae2223, 0xb00361a3, 0x96177a9c, 0xb410ff61, 0xf20015ad])
  {
    hide Pad, Rounds, WordsToBytes, HashValue, BigEndian;
    PaddedMessage();
    var p := Pad([0x61, 0x62, 0x63]);
    assert |p| == 64;
    Rounds56To63(p);
    OneBlock(p);
    LastSums(HashValue(p, 1));
  }

  lemma OneBlock(p: seq<Byte>)
    requires |p| == 64
    ensures HashValue(p, 1) == ZipWith(Add, INITIAL_HASH, Rounds(INITIAL_HASH, p, 0, 64))
  {
    hide Rounds, ZipWith;
    assert HashValue(p, 0) == INITIAL_HASH;
  }

  lemma LastSums(h: seq<Word>)
    requires h == ZipWith(Add, INITIAL_HASH,
                          [0x506e3058, 0xd39a2165, 0x04d24d6c, 0xb85e2ce9, 0x5ef50f24, 0xfb121210, 0x948d25b6, 0x961f4894])
    ensures h == [0xba7816bf, 0x8f01cfea, 0x414140de, 0x5dae2223, 0xb00361a3, 0x96177a9c, 0xb410ff61, 0xf20015ad]
  {
    var last := [0x506e3058, 0xd39a2165, 0x04d24d6c, 0xb85e2ce9, 0x5ef50f24, 0xfb121210, 0x948d25b6, 0x961f4894];
    SumAt(h, last, 0, 0x6a09e667, 0x506e3058);
    SumAt(h, last, 1, 0xbb67ae85, 0xd39a2165);
    SumAt(h, last, 2, 0x3c6ef372, 0x04d24d6c);
    SumAt(h, last, 3, 0xa54ff53a, 0xb85e2ce9);
    SumAt(h, last, 4, 0x510e527f, 0x5ef50f24);
    SumAt(h, last, 5, 0x9b05688c, 0xfb121210);
    SumAt(h, last, 6, 0x1f83d9ab, 0x948d25b6);
    SumAt(h, last, 7, 0x5be0cd19, 0x961f4894);
  }

  lemma SumAt(h: seq<Word>, last: seq<Word>, i: nat, a: Word, b: Word)
    requires |last| == 8 && h == ZipWith(Add, INITIAL_HASH, last) && i < 8 && INITIAL_HASH[i] == a && last[i] == b
    ensures h[i] == a + b
  {
    assert h[i] == Add(INITIAL_HASH[i], last[i]);
  }
}
