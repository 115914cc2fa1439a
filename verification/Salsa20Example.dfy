/**
 The published example of the Salsa20/8 core (RFC 7914, section 8), round by round.
 */
module Salsa20Example {
  import opened Words
  import opened Salsa20

  const BLOCK: seq<Word> :=
    [0x219a877e, 0x86c93e4f, 0xe640a97c, 0x268f7141, 0x5b55eeba, 0xb5c1618c, 0x1146f80d, 0x1d3bcd6d,
     0x19f324ee, 0x853d9bdf, 0x4b1e1214, 0x32aac55a, 0x291d0276, 0x2948c709, 0x8dc6ebed, 0x5ec2b8b8]
  const RESULT: seq<Word> :=
    [0x9c851fa4, 0x99cc0866, 0xcbca813b, 0x05ef0c02, 0x81214b04, 0x7d33fda2, 0x631c7bfd, 0x292f6896,
     0x683139b4, 0xbce6c9e3, 0xb7c56bfe, 0xba966da0, 0x10cc24e4, 0x5c74912c, 0x3d67ad24, 0x818f61c7]

  lemma ColumnRound1()
    ensures Transpose(RowRound(QuarterRound, Transpose(
              [0x219a877e, 0x86c93e4f, 0xe640a97c, 0x268f7141, 0x5b55eeba, 0xb5c1618c, 0x1146f80d, 0x1d3bcd6d,
               0x19f324ee, 0x853d9bdf, 0x4b1e1214, 0x32aac55a, 0x291d0276, 0x2948c709, 0x8dc6ebed, 0x5ec2b8b8])))
         == [0x08857f83, 0xbc4dffa4, 0x225a0768, 0x90307809, 0x0091149f, 0xc3e54d59, 0xd113843e, 0xfb5a4eb0,
             0x4ecb1eaa, 0xc0727641, 0x6585dfa2, 0x6a7df42b, 0xaf742b9d, 0x4ee75de5, 0xbf43fb43, 0x55af2fd9]
  {
    assert QuarterRound(Quarter(0x219a877e, 0x5b55eeba, 0x19f324ee, 0x291d0276))
        == Quarter(0x08857f83, 0x0091149f, 0x4ecb1eaa, 0xaf742b9d);
    assert QuarterRound(Quarter(0xb5c1618c, 0x853d9bdf, 0x2948c709, 0x86c93e4f))
        == Quarter(0xc3e54d59, 0xc0727641, 0x4ee75de5, 0xbc4dffa4);
    assert QuarterRound(Quarter(0x4b1e1214, 0x8dc6ebed, 0xe640a97c, 0x1146f80d))
        == Quarter(0x6585dfa2, 0xbf43fb43, 0x225a0768, 0xd113843e);
    assert QuarterRound(Quarter(0x5ec2b8b8, 0x268f7141, 0x1d3bcd6d, 0x32aac55a))
        == Quarter(0x55af2fd9, 0x90307809, 0xfb5a4eb0, 0x6a7df42b);
    hide QuarterRound;
  }

  lemma RowRound1()
    ensures RowRound(QuarterRound,
              [0x08857f83, 0xbc4dffa4, 0x225a0768, 0x90307809, 0x0091149f, 0xc3e54d59, 0xd113843e, 0xfb5a4eb0,
               0x4ecb1eaa, 0xc0727641, 0x6585dfa2, 0x6a7df42b, 0xaf742b9d, 0x4ee75de5, 0xbf43fb43, 0x55af2fd9])
         == [0x482665b1, 0xe6b639e8, 0x5528d0b6, 0x7163bf72, 0x93580e01, 0x0c50b5fd, 0xea23785c, 0xead125ec,
             0xf701a95d, 0xd590a7ea, 0x209aedeb, 0x965705b9, 0xd6e1a597, 0x6f4dbdbc, 0x53299386, 0x10a42604]
  {
    assert QuarterRound(Quarter(0x08857f83, 0xbc4dffa4, 0x225a0768, 0x90307809))
        == Quarter(0x482665b1, 0xe6b639e8, 0x5528d0b6, 0x7163bf72);
    assert QuarterRound(Quarter(0xc3e54d59, 0xd113843e, 0xfb5a4eb0, 0x0091149f))
        == Quarter(0x0c50b5fd, 0xea23785c, 0xead125ec, 0x93580e01);
    assert QuarterRound(Quarter(0x6585dfa2, 0x6a7df42b, 0x4ecb1eaa, 0xc0727641))
        == Quarter(0x209aedeb, 0x965705b9, 0xf701a95d, 0xd590a7ea);
    assert QuarterRound(Quarter(0x55af2fd9, 0xaf742b9d, 0x4ee75de5, 0xbf43fb43))
        == Quarter(0x10a42604, 0xd6e1a597, 0x6f4dbdbc, 0x53299386);
    hide QuarterRound;
  }

  lemma ColumnRound2()
    ensures Transpose(RowRound(QuarterRound, Transpose(
              [0x482665b1, 0xe6b639e8, 0x5528d0b6, 0x7163bf72, 0x93580e01, 0x0c50b5fd, 0xea23785c, 0xead125ec,
               0xf701a95d, 0xd590a7ea, 0x209aedeb, 0x965705b9, 0xd6e1a597, 0x6f4dbdbc, 0x53299386, 0x10a42604])))
         == [0xb4cf7248, 0xb8e79720, 0x3e130cef, 0x0cf661a1, 0x175daa0e, 0xde3bd4f1, 0x5dbd3119, 0xdfde6fd7,
             0xff1ed7e2, 0x56e75513, 0xd8b882ab, 0x0c781823, 0x46dfa758, 0x1f5b9d7a, 0x0c1ab003, 0x0f4f975e]
  {
    assert QuarterRound(Quarter(0x482665b1, 0x93580e01, 0xf701a95d, 0xd6e1a597))
        == Quarter(0xb4cf7248, 0x175daa0e, 0xff1ed7e2, 0x46dfa758);
    assert QuarterRound(Quarter(0x0c50b5fd, 0xd590a7ea, 0x6f4dbdbc, 0xe6b639e8))
        == Quarter(0xde3bd4f1, 0x56e75513, 0x1f5b9d7a, 0xb8e79720);
    assert QuarterRound(Quarter(0x209aedeb, 0x53299386, 0x5528d0b6, 0xea23785c))
        == Quarter(0xd8b882ab, 0x0c1ab003, 0x3e130cef, 0x5dbd3119);
    assert QuarterRound(Quarter(0x10a42604, 0x7163bf72, 0xead125ec, 0x965705b9))
        == Quarter(0x0f4f975e, 0x0cf661a1, 0xdfde6fd7, 0x0c781823);
    hide QuarterRound;
  }

  lemma RowRound2()
    ensures RowRound(QuarterRound,
              [0xb4cf7248, 0xb8e79720, 0x3e130cef, 0x0cf661a1, 0x175daa0e, 0xde3bd4f1, 0x5dbd3119, 0xdfde6fd7,
               0xff1ed7e2, 0x56e75513, 0xd8b882ab, 0x0c781823, 0x46dfa758, 0x1f5b9d7a, 0x0c1ab003, 0x0f4f975e])
         == [0xe9e67835, 0x5a0e63c0, 0x85bf1cf2, 0xbce03a58, 0x95e02c9d, 0x10a33116, 0x91024ee3, 0xa399c709,
             0x678d68da, 0x70e69077, 0x3dffe364, 0xc393c734, 0xf3fc17d5, 0x8805fb7c, 0x4e709f83, 0x64b0ce84]
  {
    assert QuarterRound(Quarter(0xb4cf7248, 0xb8e79720, 0x3e130cef, 0x0cf661a1))
        == Quarter(0xe9e67835, 0x5a0e63c0, 0x85bf1cf2, 0xbce03a58);
    assert QuarterRound(Quarter(0xde3bd4f1, 0x5dbd3119, 0xdfde6fd7, 0x175daa0e))
        == Quarter(0x10a33116, 0x91024ee3, 0xa399c709, 0x95e02c9d);
    assert QuarterRound(Quarter(0xd8b882ab, 0x0c781823, 0xff1ed7e2, 0x56e75513))
        == Quarter(0x3dffe364, 0xc393c734, 0x678d68da, 0x70e69077);
    assert QuarterRound(Quarter(0x0f4f975e, 0x46dfa758, 0x1f5b9d7a, 0x0c1ab003))
        == Quarter(0x64b0ce84, 0xf3fc17d5, 0x8805fb7c, 0x4e709f83);
    hide QuarterRound;
  }

  lemma ColumnRound3()
    ensures Transpose(RowRound(QuarterRound, Transpose(
              [0xe9e67835, 0x5a0e63c0, 0x85bf1cf2, 0xbce03a58, 0x95e02c9d, 0x10a33116, 0x91024ee3, 0xa399c709,
               0x678d68da, 0x70e69077, 0x3dffe364, 0xc393c734, 0xf3fc17d5, 0x8805fb7c, 0x4e709f83, 0x64b0ce84])))
         == [0xfbef1227, 0x12c789d1, 0x56808ce8, 0x9eaae64c, 0x64a829f3, 0x43dbdd85, 0xd82bca5e, 0x14f0670f,
             0x7ac93847, 0x282cfb42, 0x60e759d5, 0xaa38b147, 0xdfbb4c3b, 0x285d4b0d, 0xcf69bc64, 0x05ea3220]
  {
    assert QuarterRound(Quarter(0xe9e67835, 0x95e02c9d, 0x678d68da, 0xf3fc17d5))
        == Quarter(0xfbef1227, 0x64a829f3, 0x7ac93847, 0xdfbb4c3b);
    assert QuarterRound(Quarter(0x10a33116, 0x70e69077, 0x8805fb7c, 0x5a0e63c0))
        == Quarter(0x43dbdd85, 0x282cfb42, 0x285d4b0d, 0x12c789d1);
    assert QuarterRound(Quarter(0x3dffe364, 0x4e709f83, 0x85bf1cf2, 0x91024ee3))
        == Quarter(0x60e759d5, 0xcf69bc64, 0x56808ce8, 0xd82bca5e);
    assert QuarterRound(Quarter(0x64b0ce84, 0xbce03a58, 0xa399c709, 0xc393c734))
        == Quarter(0x05ea3220, 0x9eaae64c, 0x14f0670f, 0xaa38b147);
    hide QuarterRound;
  }

  lemma RowRound3()
    ensures RowRound(QuarterRound,
              [0xfbef1227, 0x12c789d1, 0x56808ce8, 0x9eaae64c, 0x64a829f3, 0x43dbdd85, 0xd82bca5e, 0x14f0670f,
               0x7ac93847, 0x282cfb42, 0x60e759d5, 0xaa38b147, 0xdfbb4c3b, 0x285d4b0d, 0xcf69bc64, 0x05ea3220])
         == [0x28f2a180, 0x5e3bb01c, 0x03040a5c, 0x69e5ea6b, 0x997f9f3c, 0x1c650ad9, 0x9a28760a, 0x1c5778b3,
             0x89e18946, 0x5055ce7c, 0x3fec3108, 0x20123a83, 0x764c0e51, 0x44dda9f5, 0xf8616b01, 0x5632c6dc]
  {
    assert QuarterRound(Quarter(0xfbef1227, 0x12c789d1, 0x56808ce8, 0x9eaae64c))
        == Quarter(0x28f2a180, 0x5e3bb01c, 0x03040a5c, 0x69e5ea6b);
    assert QuarterRound(Quarter(0x43dbdd85, 0xd82bca5e, 0x14f0670f, 0x64a829f3))
        == Quarter(0x1c650ad9, 0x9a28760a, 0x1c5778b3, 0x997f9f3c);
    assert QuarterRound(Quarter(0x60e759d5, 0xaa38b147, 0x7ac93847, 0x282cfb42))
        == Quarter(0x3fec3108, 0x20123a83, 0x89e18946, 0x5055ce7c);
    assert QuarterRound(Quarter(0x05ea3220, 0xdfbb4c3b, 0x285d4b0d, 0xcf69bc64))
        == Quarter(0x5632c6dc, 0x764c0e51, 0x44dda9f5, 0xf8616b01);
    hide QuarterRound;
  }

  lemma ColumnRound4()
    ensures Transpose(RowRound(QuarterRound, Transpose(
              [0x28f2a180, 0x5e3bb01c, 0x03040a5c, 0x69e5ea6b, 0x997f9f3c, 0x1c650ad9, 0x9a28760a, 0x1c5778b3,
               0x89e18946, 0x5055ce7c, 0x3fec3108, 0x20123a83, 0x764c0e51, 0x44dda9f5, 0xf8616b01, 0x5632c6dc])))
         == [0xb0e98b83, 0x346a63e9, 0x3d22e238, 0x4b6545d0, 0x062877f3, 0x1abe5aed, 0x22bcf3e0, 0x2c4e21f0,
             0xbfd36f18, 0x0008b4c1, 0x678d4e77, 0x4cea3475, 0x0aad76ee, 0x9fa29dcd, 0xf232e26c, 0x0fa7223d]
  {
    assert QuarterRound(Quarter(0x28f2a180, 0x997f9f3c, 0x89e18946, 0x764c0e51))
        == Quarter(0xb0e98b83, 0x062877f3, 0xbfd36f18, 0x0aad76ee);
    assert QuarterRound(Quarter(0x1c650ad9, 0x5055ce7c, 0x44dda9f5, 0x5e3bb01c))
        == Quarter(0x1abe5aed, 0x0008b4c1, 0x9fa29dcd, 0x346a63e9);
    assert QuarterRound(Quarter(0x3fec3108, 0xf8616b01, 0x03040a5c, 0x9a28760a))
        == Quarter(0x678d4e77, 0xf232e26c, 0x3d22e238, 0x22bcf3e0);
    assert QuarterRound(Quarter(0x5632c6dc, 0x69e5ea6b, 0x1c5778b3, 0x20123a83))
        == Quarter(0x0fa7223d, 0x4b6545d0, 0x2c4e21f0, 0x4cea3475);
    hide QuarterRound;
  }

  lemma RowRound4()
    ensures RowRound(QuarterRound,
              [0xb0e98b83, 0x346a63e9, 0x3d22e238, 0x4b6545d0, 0x062877f3, 0x1abe5aed, 0x22bcf3e0, 0x2c4e21f0,
               0xbfd36f18, 0x0008b4c1, 0x678d4e77, 0x4cea3475, 0x0aad76ee, 0x9fa29dcd, 0xf232e26c, 0x0fa7223d])
         == [0x7aea9826, 0x1302ca17, 0xe589d7bf, 0xdf5f9ac1, 0x25cb5c4a, 0xc7729c16, 0x51d583f0, 0x0bf39b29,
             0x4e3e14c6, 0x37a92e04, 0x6ca759ea, 0x87eba846, 0xe7af226e, 0x332bca23, 0xafa0c137, 0x22cca90f]
  {
    assert QuarterRound(Quarter(0xb0e98b83, 0x346a63e9, 0x3d22e238, 0x4b6545d0))
        == Quarter(0x7aea9826, 0x1302ca17, 0xe589d7bf, 0xdf5f9ac1);
    assert QuarterRound(Quarter(0x1abe5aed, 0x22bcf3e0, 0x2c4e21f0, 0x062877f3))
        == Quarter(0xc7729c16, 0x51d583f0, 0x0bf39b29, 0x25cb5c4a);
    assert QuarterRound(Quarter(0x678d4e77, 0x4cea3475, 0xbfd36f18, 0x0008b4c1))
        == Quarter(0x6ca759ea, 0x87eba846, 0x4e3e14c6, 0x37a92e04);
    assert QuarterRound(Quarter(0x0fa7223d, 0x0aad76ee, 0x9fa29dcd, 0xf232e26c))
        == Quarter(0x22cca90f, 0xe7af226e, 0x332bca23, 0xafa0c137);
    hide QuarterRound;
  }

  /** The core of the published block is the published result. */
  lemma CoreOfBlock()
    ensures Core(BLOCK) == RESULT
  {
    hide RowRound, Transpose, QuarterRound;
    ColumnRound1();
    RowRound1();
    ColumnRound2();
    RowRound2();
    ColumnRound3();
    RowRound3();
    ColumnRound4();
    RowRound4();
    assert DoubleRounds(QuarterRound, BLOCK, 0) == BLOCK;
    assert DoubleRounds(QuarterRound, BLOCK, 1) == DoubleRound(QuarterRound, BLOCK);
    assert DoubleRounds(QuarterRound, BLOCK, 2) == DoubleRound(QuarterRound, DoubleRounds(QuarterRound, BLOCK, 1));
    assert DoubleRounds(QuarterRound, BLOCK, 3) == DoubleRound(QuarterRound, DoubleRounds(QuarterRound, BLOCK, 2));
    LastSums(DoubleRounds(QuarterRound, BLOCK, 4));
  }

  lemma LastSums(x: seq<Word>)
    requires x == [0x7aea9826, 0x1302ca17, 0xe589d7bf, 0xdf5f9ac1, 0x25cb5c4a, 0xc7729c16, 0x51d583f0, 0x0bf39b29,
                   0x4e3e14c6, 0x37a92e04, 0x6ca759ea, 0x87eba846, 0xe7af226e, 0x332bca23, 0xafa0c137, 0x22cca90f]
    ensures ZipWith(Add, BLOCK, x) == RESULT
  {
    var z := ZipWith(Add, BLOCK, x);
    SumAt(x, 0, 0x219a877e, 0x7aea9826);
    SumAt(x, 1, 0x86c93e4f, 0x1302ca17);
    SumAt(x, 2, 0xe640a97c, 0xe589d7bf);
    SumAt(x, 3, 0x268f7141, 0xdf5f9ac1);
    SumAt(x, 4, 0x5b55eeba, 0x25cb5c4a);
    SumAt(x, 5, 0xb5c1618c, 0xc7729c16);
    SumAt(x, 6, 0x1146f80d, 0x51d583f0);
    SumAt(x, 7, 0x1d3bcd6d, 0x0bf39b29);
    SumAt(x, 8, 0x19f324ee, 0x4e3e14c6);
    SumAt(x, 9, 0x853d9bdf, 0x37a92e04);
    SumAt(x, 10, 0x4b1e1214, 0x6ca759ea);
    SumAt(x, 11, 0x32aac55a, 0x87eba846);
    SumAt(x, 12, 0x291d0276, 0xe7af226e);
    SumAt(x, 13, 0x2948c709, 0x332bca23);
    SumAt(x, 14, 0x8dc6ebed, 0xafa0c137);
    SumAt(x, 15, 0x5ec2b8b8, 0x22cca90f);
  }

  lemma SumAt(x: seq<Word>, i: nat, a: Word, b: Word)
    requires |x| == 16 && i < 16 && BLOCK[i] == a && x[i] == b
    ensures ZipWith(Add, BLOCK, x)[i] == a + b
  {
    assert ZipWith(Add, BLOCK, x)[i] == Add(BLOCK[i], x[i]);
  }
}
