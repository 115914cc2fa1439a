/**
 The constants of SHA-256. FIPS 180-4 defines them (sections 4.2.2 and 5.3.3) as the first 32 bits of the fractional
 parts of the cube roots of the first 64 primes and of the square roots of the first eight. The tables of the source
 are checked against that definition.
 */
module Sha256Constants {

  const ROW_0: seq<bv32> := [
    0x428a2f98, 0x71374491, 0xb5c0fbcf, 0xe9b5dba5, 0x3956c25b, 0x59f111f1, 0x923f82a4, 0xab1c5ed5]
  const ROW_1: seq<bv32> := [
    0xd807aa98, 0x12835b01, 0x243185be, 0x550c7dc3, 0x72be5d74, 0x80deb1fe, 0x9bdc06a7, 0xc19bf174]
  const ROW_2: seq<bv32> := [
    0xe49b69c1, 0xefbe4786, 0x0fc19dc6, 0x240ca1cc, 0x2de92c6f, 0x4a7484aa, 0x5cb0a9dc, 0x76f988da]
  const ROW_3: seq<bv32> := [
    0x983e5152, 0xa831c66d, 0xb00327c8, 0xbf597fc7, 0xc6e00bf3, 0xd5a79147, 0x06ca6351, 0x14292967]
  const ROW_4: seq<bv32> := [
    0x27b70a85, 0x2e1b2138, 0x4d2c6dfc, 0x53380d13, 0x650a7354, 0x766a0abb, 0x81c2c92e, 0x92722c85]
  const ROW_5: seq<bv32> := [
    0xa2bfe8a1, 0xa81a664b, 0xc24b8b70, 0xc76c51a3, 0xd192e819, 0xd6990624, 0xf40e3585, 0x106aa070]
  const ROW_6: seq<bv32> := [
    0x19a4c116, 0x1e376c08, 0x2748774c, 0x34b0bcb5, 0x391c0cb3, 0x4ed8aa4a, 0x5b9cca4f, 0x682e6ff3]
  const ROW_7: seq<bv32> := [
    0x748f82ee, 0x78a5636f, 0x84c87814, 0x8cc70208, 0x90befffa, 0xa4506ceb, 0xbef9a3f7, 0xc67178f2]

  /** The constants K of the source, which lists them in eight rows. */
  const ROUND_CONSTANTS: seq<bv32> := ROW_0 + ROW_1 + ROW_2 + ROW_3 + ROW_4 + ROW_5 + ROW_6 + ROW_7

  /** The initial value of h in the source. */
  const INITIAL_HASH: seq<bv32> := [
    0x6a09e667, 0xbb67ae85, 0x3c6ef372, 0xa54ff53a, 0x510e527f, 0x9b05688c, 0x1f83d9ab, 0x5be0cd19]

  const PRIMES_0: seq<nat> := [2, 3, 5, 7, 11, 13, 17, 19]
  const PRIMES_1: seq<nat> := [23, 29, 31, 37, 41, 43, 47, 53]
  const PRIMES_2: seq<nat> := [59, 61, 67, 71, 73, 79, 83, 89]
  const PRIMES_3: seq<nat> := [97, 101, 103, 107, 109, 113, 127, 131]
  const PRIMES_4: seq<nat> := [137, 139, 149, 151, 157, 163, 167, 173]
  const PRIMES_5: seq<nat> := [179, 181, 191, 193, 197, 199, 211, 223]
  const PRIMES_6: seq<nat> := [227, 229, 233, 239, 241, 251, 257, 263]
  const PRIMES_7: seq<nat> := [269, 271, 277, 281, 283, 293, 307, 311]

  /** The first 64 primes, in eight rows. */
  const PRIMES: seq<nat> :=
    PRIMES_0 + PRIMES_1 + PRIMES_2 + PRIMES_3 + PRIMES_4 + PRIMES_5 + PRIMES_6 + PRIMES_7

  /** The number whole.f, with the 32 bits f after the binary point, is the square root of p rounded down. */
  ghost predicate SquareRoot(whole: nat, f: bv32, p: nat) {
    var v := whole * 0x1_0000_0000 + (f as nat);
    v * v <= p * 0x1_0000_0000_0000_0000 < (v + 1) * (v + 1)
  }

  /** The number whole.f, with the 32 bits f after the binary point, is the cube root of p rounded down. */
  ghost predicate CubeRoot(whole: nat, f: bv32, p: nat) {
    var v := whole * 0x1_0000_0000 + (f as nat);
    v * v * v <= p * 0x1_0000_0000_0000_0000_0000_0000 < (v + 1) * (v + 1) * (v + 1)
  }

  /** f holds the first 32 bits after the binary point of the cube root of p. */
  ghost predicate CubeRootBits(f: bv32, p: nat) {
    exists whole :: CubeRoot(whole, f, p)
  }

  ghost predicate CubeRoots(fs: seq<bv32>, ps: seq<nat>) {
    |fs| == |ps| && forall i | 0 <= i < |fs| :: CubeRootBits(fs[i], ps[i])
  }

  ghost predicate SquareRoots(fs: seq<bv32>, ps: seq<nat>) {
    |fs| == |ps| && forall i | 0 <= i < |fs| :: exists whole :: SquareRoot(whole, fs[i], ps[i])
  }

  /** The initial hash value that `Hash` starts from belongs to the first eight primes. */
  lemma InitialHashIsSquareRoots()
    ensures |INITIAL_HASH| == 8 && SquareRoots(INITIAL_HASH, PRIMES[..8])
  {
    assert PRIMES[..8] == PRIMES_0;
    assert SquareRoot(1, INITIAL_HASH[0], PRIMES_0[0]) && SquareRoot(1, INITIAL_HASH[1], PRIMES_0[1]);
    assert SquareRoot(2, INITIAL_HASH[2], PRIMES_0[2]) && SquareRoot(2, INITIAL_HASH[3], PRIMES_0[3]);
    assert SquareRoot(3, INITIAL_HASH[4], PRIMES_0[4]) && SquareRoot(3, INITIAL_HASH[5], PRIMES_0[5]);
    assert SquareRoot(4, INITIAL_HASH[6], PRIMES_0[6]) && SquareRoot(4, INITIAL_HASH[7], PRIMES_0[7]);
    hide SquareRoot;
  }

  lemma Row0First()
    ensures CubeRoot(1, ROW_0[0], PRIMES_0[0]) && CubeRoot(1, ROW_0[1], PRIMES_0[1])
    ensures CubeRoot(1, ROW_0[2], PRIMES_0[2]) && CubeRoot(1, ROW_0[3], PRIMES_0[3])
  {
  }

  lemma Row0Last()
    ensures CubeRoot(2, ROW_0[4], PRIMES_0[4]) && CubeRoot(2, ROW_0[5], PRIMES_0[5])
    ensures CubeRoot(2, ROW_0[6], PRIMES_0[6]) && CubeRoot(2, ROW_0[7], PRIMES_0[7])
  {
  }

  lemma Row0()
    ensures CubeRoots(ROW_0, PRIMES_0)
  {
    hide CubeRoot;
    Row0First();
    Row0Last();
  }

  lemma Row1First()
    ensures CubeRoot(2, ROW_1[0], PRIMES_1[0]) && CubeRoot(3, ROW_1[1], PRIMES_1[1])
    ensures CubeRoot(3, ROW_1[2], PRIMES_1[2]) && CubeRoot(3, ROW_1[3], PRIMES_1[3])
  {
  }

  lemma Row1Last()
    ensures CubeRoot(3, ROW_1[4], PRIMES_1[4]) && CubeRoot(3, ROW_1[5], PRIMES_1[5])
    ensures CubeRoot(3, ROW_1[6], PRIMES_1[6]) && CubeRoot(3, ROW_1[7], PRIMES_1[7])
  {
  }

  lemma Row1()
    ensures CubeRoots(ROW_1, PRIMES_1)
  {
    hide CubeRoot;
    Row1First();
    Row1Last();
  }

  lemma Row2First()
    ensures CubeRoot(3, ROW_2[0], PRIMES_2[0]) && CubeRoot(3, ROW_2[1], PRIMES_2[1])
    ensures CubeRoot(4, ROW_2[2], PRIMES_2[2]) && CubeRoot(4, ROW_2[3], PRIMES_2[3])
  {
  }

  lemma Row2Last()
    ensures CubeRoot(4, ROW_2[4], PRIMES_2[4]) && CubeRoot(4, ROW_2[5], PRIMES_2[5])
    ensures CubeRoot(4, ROW_2[6], PRIMES_2[6]) && CubeRoot(4, ROW_2[7], PRIMES_2[7])
  {
  }

  lemma Row2()
    ensures CubeRoots(ROW_2, PRIMES_2)
  {
    hide CubeRoot;
    Row2First();
    Row2Last();
  }

  lemma Row3First()
    ensures CubeRoot(4, ROW_3[0], PRIMES_3[0]) && CubeRoot(4, ROW_3[1], PRIMES_3[1])
    ensures CubeRoot(4, ROW_3[2], PRIMES_3[2]) && CubeRoot(4, ROW_3[3], PRIMES_3[3])
  {
  }

  lemma Row3Last()
    ensures CubeRoot(4, ROW_3[4], PRIMES_3[4]) && CubeRoot(4, ROW_3[5], PRIMES_3[5])
    ensures CubeRoot(5, ROW_3[6], PRIMES_3[6]) && CubeRoot(5, ROW_3[7], PRIMES_3[7])
  {
  }

  lemma Row3()
    ensures CubeRoots(ROW_3, PRIMES_3)
  {
    hide CubeRoot;
    Row3First();
    Row3Last();
  }

  lemma Row4First()
    ensures CubeRoot(5, ROW_4[0], PRIMES_4[0]) && CubeRoot(5, ROW_4[1], PRIMES_4[1])
    ensures CubeRoot(5, ROW_4[2], PRIMES_4[2]) && CubeRoot(5, ROW_4[3], PRIMES_4[3])
  {
  }

  lemma Row4Last()
    ensures CubeRoot(5, ROW_4[4], PRIMES_4[4]) && CubeRoot(5, ROW_4[5], PRIMES_4[5])
    ensures CubeRoot(5, ROW_4[6], PRIMES_4[6]) && CubeRoot(5, ROW_4[7], PRIMES_4[7])
  {
  }

  lemma Row4()
    ensures CubeRoots(ROW_4, PRIMES_4)
  {
    hide CubeRoot;
    Row4First();
    Row4Last();
  }

  lemma Row5First()
    ensures CubeRoot(5, ROW_5[0], PRIMES_5[0]) && CubeRoot(5, ROW_5[1], PRIMES_5[1])
    ensures CubeRoot(5, ROW_5[2], PRIMES_5[2]) && CubeRoot(5, ROW_5[3], PRIMES_5[3])
  {
  }

  lemma Row5Last()
    ensures CubeRoot(5, ROW_5[4], PRIMES_5[4]) && CubeRoot(5, ROW_5[5], PRIMES_5[5])
    ensures CubeRoot(5, ROW_5[6], PRIMES_5[6]) && CubeRoot(6, ROW_5[7], PRIMES_5[7])
  {
  }

  lemma Row5()
    ensures CubeRoots(ROW_5, PRIMES_5)
  {
    hide CubeRoot;
    Row5First();
    Row5Last();
  }

  lemma Row6First()
    ensures CubeRoot(6, ROW_6[0], PRIMES_6[0]) && CubeRoot(6, ROW_6[1], PRIMES_6[1])
    ensures CubeRoot(6, ROW_6[2], PRIMES_6[2]) && CubeRoot(6, ROW_6[3], PRIMES_6[3])
  {
  }

  lemma Row6Last()
    ensures CubeRoot(6, ROW_6[4], PRIMES_6[4]) && CubeRoot(6, ROW_6[5], PRIMES_6[5])
    ensures CubeRoot(6, ROW_6[6], PRIMES_6[6]) && CubeRoot(6, ROW_6[7], PRIMES_6[7])
  {
  }

  lemma Row6()
    ensures CubeRoots(ROW_6, PRIMES_6)
  {
    hide CubeRoot;
    Row6First();
    Row6Last();
  }

  lemma Row7First()
    ensures CubeRoot(6, ROW_7[0], PRIMES_7[0]) && CubeRoot(6, ROW_7[1], PRIMES_7[1])
    ensures CubeRoot(6, ROW_7[2], PRIMES_7[2]) && CubeRoot(6, ROW_7[3], PRIMES_7[3])
  {
  }

  lemma Row7Last()
    ensures CubeRoot(6, ROW_7[4], PRIMES_7[4]) && CubeRoot(6, ROW_7[5], PRIMES_7[5])
    ensures CubeRoot(6, ROW_7[6], PRIMES_7[6]) && CubeRoot(6, ROW_7[7], PRIMES_7[7])
  {
  }

  lemma Row7()
    ensures CubeRoots(ROW_7, PRIMES_7)
  {
    hide CubeRoot;
    Row7First();
    Row7Last();
  }

  lemma Join(fs: seq<bv32>, ps: seq<nat>, gs: seq<bv32>, qs: seq<nat>)
    requires CubeRoots(fs, ps) && CubeRoots(gs, qs)
    ensures CubeRoots(fs + gs, ps + qs)
  {
    hide CubeRootBits;
  }

  /** The table of round constants belongs to the first 64 primes, in their order. */
  lemma RoundConstantsAreCubeRoots()
    ensures |ROUND_CONSTANTS| == 64 && CubeRoots(ROUND_CONSTANTS, PRIMES)
  {
    hide CubeRoots;
    Row0();
    Row1();
    Row2();
    Row3();
    Row4();
    Row5();
    Row6();
    Row7();
    Join(ROW_0, PRIMES_0, ROW_1, PRIMES_1);
    Join(ROW_0 + ROW_1, PRIMES_0 + PRIMES_1, ROW_2, PRIMES_2);
    Join(ROW_0 + ROW_1 + ROW_2, PRIMES_0 + PRIMES_1 + PRIMES_2, ROW_3, PRIMES_3);
    var k4, p4 := ROW_0 + ROW_1 + ROW_2 + ROW_3, PRIMES_0 + PRIMES_1 + PRIMES_2 + PRIMES_3;
    Join(k4, p4, ROW_4, PRIMES_4);
    Join(k4 + ROW_4, p4 + PRIMES_4, ROW_5, PRIMES_5);
    Join(k4 + ROW_4 + ROW_5, p4 + PRIMES_4 + PRIMES_5, ROW_6, PRIMES_6);
    Join(k4 + ROW_4 + ROW_5 + ROW_6, p4 + PRIMES_4 + PRIMES_5 + PRIMES_6, ROW_7, PRIMES_7);
  }
}
