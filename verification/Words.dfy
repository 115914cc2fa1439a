/**
 Unsigned 32-bit words and bytes, as typed arrays hold them.

 A number that reaches a `Uint32Array` element, a shift or a bitwise operator is reduced modulo 2^32 there.
 A word is therefore a `bv32`, whose `+` already wraps. Only three places of the modelled code mix words with
 ordinary numbers (an index taken from a word, a mask, a length); `ToWord` and `Value` connect the two worlds there,
 one bit at a time.
 */
module Words {

  type Word = bv32
  type Byte = bv8

  function Rotl(x: Word, n: bv32): Word
    requires 0 < n < 32
  {
    (x << n) | (x >> (32 - n))
  }

  function Rotr(x: Word, n: bv32): Word
    requires 0 < n < 32
  {
    (x >> n) | (x << (32 - n))
  }

  function Add(x: Word, y: Word): Word { x + y }

  function Xor(x: Word, y: Word): Word { x ^ y }

  /** A binary operation, element by element. */
  function ZipWith<T>(f: (T, T) -> T, x: seq<T>, y: seq<T>): (z: seq<T>)
    requires |x| == |y|
    ensures |z| == |x|
  {
    seq(|x|, i requires 0 <= i < |x| => f(x[i], y[i]))
  }

  /** The loop `for w: x[w] = f(x[w], y[w])`. */
  method ZipInPlace<T>(f: (T, T) -> T, x: array<T>, y: seq<T>)
    requires x.Length == |y|
    modifies x
    ensures x[..] == ZipWith(f, old(x[..]), y)
  {
    var i := 0;
    while i < x.Length
      invariant 0 <= i <= x.Length
      invariant forall k :: 0 <= k < i ==> x[k] == f(old(x[k]), y[k])
      invariant forall k :: i <= k < x.Length ==> x[k] == old(x[k])
    {
      x[i] := f(x[i], y[i]);
      i := i + 1;
    }
  }

  /** `dst.set(src, off)` of a typed array. */
  method SetAt<T>(dst: array<T>, src: seq<T>, off: nat)
    requires off + |src| <= dst.Length
    modifies dst
    ensures dst[..] == old(dst[..off]) + src + old(dst[off + |src|..])
  {
    var i := 0;
    while i < |src|
      invariant 0 <= i <= |src|
      invariant forall k :: 0 <= k < i ==> dst[off + k] == src[k]
      invariant forall k :: 0 <= k < off || off + i <= k < dst.Length ==> dst[k] == old(dst[k])
    {
      dst[off + i] := src[i];
      i := i + 1;
    }
  }

  // -- Bytes -----------------------------------------------------------------------------------

  function LowByte(w: Word): Byte {
    (w & 0xff) as Byte
  }

  function Byte1(w: Word): Byte {
    LowByte(w >> 8)
  }

  function Byte2(w: Word): Byte {
    LowByte(w >> 16)
  }

  function Byte3(w: Word): Byte {
    LowByte(w >> 24)
  }

  function WordLE(b0: Byte, b1: Byte, b2: Byte, b3: Byte): Word {
    (b0 as Word) | ((b1 as Word) << 8) | ((b2 as Word) << 16) | ((b3 as Word) << 24)
  }

  /** Four bytes, least significant first. */
  function BytesLE(w: Word): (b: seq<Byte>)
    ensures |b| == 4
  {
    [LowByte(w), Byte1(w), Byte2(w), Byte3(w)]
  }

  /** `getUint32`: four bytes, most significant first. */
  function WordBE(b0: Byte, b1: Byte, b2: Byte, b3: Byte): Word {
    WordLE(b3, b2, b1, b0)
  }

  /** `setUint32`. */
  function BytesBE(w: Word): (b: seq<Byte>)
    ensures |b| == 4
  {
    [Byte3(w), Byte2(w), Byte1(w), LowByte(w)]
  }

  lemma ByteWordRoundTrip(b0: Byte, b1: Byte, b2: Byte, b3: Byte)
    ensures BytesLE(WordLE(b0, b1, b2, b3)) == [b0, b1, b2, b3]
  {
    var w := WordLE(b0, b1, b2, b3);
    assert LowByte(w) == b0 && Byte1(w) == b1 && Byte2(w) == b2 && Byte3(w) == b3;
  }

  // -- Numbers as bytes --------------------------------------------------------------------------

  /** ToUint32 of a non-negative number: its value modulo 2^32, as a word. */
  function ToWord(n: nat): Word {
    if n == 0 then 0 else (ToWord(n / 2) << 1) | Bit(n)
  }

  function Bit(n: nat): Word {
    if n % 2 == 1 then 1 else 0
  }

  /** A number modulo 256, as a byte. */
  function ToByte(n: nat): Byte {
    if n == 0 then 0 else (ToByte(n / 2) << 1) | (if n % 2 == 1 then 1 else 0)
  }

  /** A number as k bytes, most significant first. */
  function BigEndian(n: nat, k: nat): (b: seq<Byte>)
    ensures |b| == k
  {
    if k == 0 then [] else BigEndian(n / 256, k - 1) + [ToByte(n)]
  }

  lemma ToWordStep(n: nat)
    ensures ToWord(n) == Push(ToWord(n / 2), Bit(n))
  {
  }

  lemma {:induction false} ToWordLowByte(n: nat)
    ensures LowByte(ToWord(n)) == ToByte(n)
  {
    if n > 0 {
      ToWordLowByte(n / 2);
    }
  }

  function Push(w: Word, bit: Word): Word {
    (w << 1) | bit
  }

  /** The word w is u shifted up by one byte, with some low byte. */
  ghost predicate WithoutLowByte(w: Word, u: Word) {
    w >> 8 << 8 == u << 8
  }

  function Append(u: Word, b: Byte): Word {
    (u << 8) | (b as Word)
  }

  lemma EightPushes(w: Word, b7: Word, b6: Word, b5: Word, b4: Word, b3: Word, b2: Word, b1: Word, b0: Word)
    requires b7 <= 1 && b6 <= 1 && b5 <= 1 && b4 <= 1 && b3 <= 1 && b2 <= 1 && b1 <= 1 && b0 <= 1
    ensures WithoutLowByte(Push(Push(Push(Push(Push(Push(Push(Push(w, b7), b6), b5), b4), b3), b2), b1), b0), w)
  {
  }

  /** Each halving of a number shifts its word by one bit, so eight of them move the high bits as a whole. */
  lemma ToWordShift(n: nat)
    ensures WithoutLowByte(ToWord(n), ToWord(n / 256))
  {
    hide Push, Bit, ToWord, WithoutLowByte;
    var n1 := n / 2;
    var n2 := n1 / 2;
    var n3 := n2 / 2;
    var n4 := n3 / 2;
    var n5 := n4 / 2;
    var n6 := n5 / 2;
    var n7 := n6 / 2;
    var n8 := n7 / 2;
    assert n4 == n / 16 && n8 == n4 / 16;
    ToWordStep(n);
    ToWordStep(n1);
    ToWordStep(n2);
    ToWordStep(n3);
    ToWordStep(n4);
    ToWordStep(n5);
    ToWordStep(n6);
    ToWordStep(n7);
    BitBound(n);
    BitBound(n1);
    BitBound(n2);
    BitBound(n3);
    BitBound(n4);
    BitBound(n5);
    BitBound(n6);
    BitBound(n7);
    EightPushes(ToWord(n8), Bit(n7), Bit(n6), Bit(n5), Bit(n4), Bit(n3), Bit(n2), Bit(n1), Bit(n));
  }

  lemma BitBound(n: nat)
    ensures Bit(n) <= 1
  {
  }

  lemma LowBytePart(w: Word, u: Word)
    requires WithoutLowByte(w, u)
    ensures w == Append(u, LowByte(w))
  {
  }

  lemma ToWordHighPart(n: nat)
    ensures ToWord(n) == Append(ToWord(n / 256), ToByte(n))
  {
    hide ToWord, ToByte, LowByte, Append, WithoutLowByte;
    ToWordLowByte(n);
    ToWordShift(n);
    LowBytePart(ToWord(n), ToWord(n / 256));
  }

  lemma BytesOfParts(w3: Word, b2: Byte, b1: Byte, b0: Byte)
    ensures
      var w := Append(Append(Append(w3, b2), b1), b0);
      Byte3(w) == LowByte(w3) && Byte2(w) == b2 && Byte1(w) == b1 && LowByte(w) == b0
  {
  }

  lemma BigEndianOfFour(n: nat)
    ensures BigEndian(n, 4) == [ToByte(n / 256 / 256 / 256), ToByte(n / 256 / 256), ToByte(n / 256), ToByte(n)]
  {
    hide ToByte;
    var n1 := n / 256;
    var n2 := n1 / 256;
    var n3 := n2 / 256;
    assert BigEndian(n3, 1) == [ToByte(n3)];
    assert BigEndian(n2, 2) == [ToByte(n3), ToByte(n2)];
    assert BigEndian(n1, 3) == [ToByte(n3), ToByte(n2), ToByte(n1)];
  }

  /** `setUint32` of a number stores its four low bytes. */
  lemma SetUint32IsBigEndian(n: nat)
    ensures BytesBE(ToWord(n)) == BigEndian(n, 4)
  {
    hide ToWord, ToByte, LowByte, Byte1, Byte2, Byte3, Append, BigEndian;
    var n1 := n / 256;
    var n2 := n1 / 256;
    var n3 := n2 / 256;
    ToWordHighPart(n);
    ToWordHighPart(n1);
    ToWordHighPart(n2);
    ToWordLowByte(n3);
    BytesOfParts(ToWord(n3), ToByte(n2), ToByte(n1), ToByte(n));
    BigEndianOfFour(n);
  }

  /** Two `setUint32` calls store a number of up to 64 bits: its quotient and remainder by 2^32. */
  lemma TwoWordsAreBigEndian(n: nat)
    ensures BytesBE(ToWord(n / 0x1_0000_0000)) + BytesBE(ToWord(n)) == BigEndian(n, 8)
  {
    hide ToWord, ToByte, BytesBE, BigEndian;
    SetUint32IsBigEndian(n / 0x1_0000_0000);
    SetUint32IsBigEndian(n);
    BigEndianSplit(n, 4, 4);
    ShiftOfFour(n);
  }

  lemma ShiftOfFour(n: nat)
    ensures Shift(n, 4) == n / 0x1_0000_0000
  {
    var n1 := n / 256;
    var n2 := n1 / 256;
    var n3 := n2 / 256;
    assert Shift(n3, 1) == Shift(n3 / 256, 0) == n3 / 256;
    assert Shift(n, 4) == Shift(n1, 3) == Shift(n2, 2) == Shift(n3, 1);
  }

  lemma {:induction false} BigEndianSplit(n: nat, j: nat, k: nat)
    ensures BigEndian(n, j + k) == BigEndian(Shift(n, k), j) + BigEndian(n, k)
  {
    if k > 0 {
      BigEndianSplit(n / 256, j, k - 1);
    }
  }

  /** n without its k low bytes. */
  function Shift(n: nat, k: nat): nat {
    if k == 0 then n else Shift(n / 256, k - 1)
  }

  // -- Numbers ---------------------------------------------------------------------------------

  /** Bit i of a word. */
  predicate HasBit(x: Word, i: bv32)
    requires i < 32
  {
    (x >> i) & 1 == 1
  }

  /** The low `k` bits of `w` as a number. */
  function Low(w: Word, k: bv32): (v: nat)
    requires k <= 32
    decreases k
  {
    if k == 0 then 0 else Low(w, k - 1) + (if HasBit(w, k - 1) then Weight(k - 1) else 0)
  }

  /** 2^k for a bit position k. */
  function Weight(k: bv32): (p: nat)
    requires k <= 32
    ensures p > 0
    decreases k
  {
    if k == 0 then 1 else 2 * Weight(k - 1)
  }

  /** A word of k ones. */
  function Mask(k: bv32): Word
    requires k <= 31
  {
    (1 << k) - 1
  }

  lemma TwoTo32()
    ensures Weight(32) == 0x1_0000_0000
  {
    assert Weight(4) == 0x10;
    assert Weight(8) == 0x100;
    assert Weight(12) == 0x1000;
    assert Weight(16) == 0x1_0000;
    assert Weight(20) == 0x10_0000;
    assert Weight(24) == 0x100_0000;
    assert Weight(28) == 0x1000_0000;
  }

  function Value(w: Word): nat {
    Low(w, 32)
  }

  lemma {:induction false} LowBound(w: Word, k: bv32)
    requires k <= 32
    ensures Low(w, k) < Weight(k)
    decreases k
  {
    if k != 0 {
      LowBound(w, k - 1);
    }
  }

  lemma BitOfMasked(w: Word, k: bv32, bit: bv32)
    requires k <= 31 && bit < 32
    ensures HasBit(w & Mask(k), bit) <==> bit < k && HasBit(w, bit)
  {
  }

  /** Only the low k bits are left by a mask of k ones. */
  lemma {:induction false} LowOfMasked(w: Word, k: bv32, i: bv32)
    requires k <= 31 && i <= 32
    ensures Low(w & Mask(k), i) == Low(w, if i <= k then i else k)
    decreases i
  {
    hide Mask, HasBit;
    if i != 0 {
      LowOfMasked(w, k, i - 1);
      BitOfMasked(w, k, i - 1);
    }
  }

  lemma {:induction false} WeightSplits(k: bv32, i: bv32) returns (q: nat)
    requires k <= i <= 32
    ensures Weight(i) == q * Weight(k)
    decreases i
  {
    if i == k {
      q := 1;
    } else {
      q := WeightSplits(k, i - 1);
      q := 2 * q;
    }
  }

  /** A word's number is its low k bits plus a multiple of 2^k. */
  lemma {:induction false} LowSplits(w: Word, k: bv32, i: bv32) returns (q: nat)
    requires k <= i <= 32
    ensures Low(w, i) == q * Weight(k) + Low(w, k)
    decreases i
  {
    hide HasBit;
    if i == k {
      q := 0;
    } else {
      q := LowSplits(w, k, i - 1);
      var p := WeightSplits(k, i - 1);
      if HasBit(w, i - 1) {
        assert (q + p) * Weight(k) == q * Weight(k) + p * Weight(k);
        q := q + p;
      }
    }
  }

  lemma MulMonotone(a: nat, b: nat, c: nat)
    requires a <= b
    ensures 0 <= a * c <= b * c
  {
    assert a * c >= 0;
    assert (b - a) * c >= 0;
    assert (b - a) * c == b * c - a * c;
  }

  lemma NonzeroMultiple(d: int, m: int)
    requires m > 0
    ensures d == 0 || d * m >= m || d * m <= -m
  {
    if d >= 1 {
      assert d * m >= m;
    } else if d <= -1 {
      assert d * m <= -m;
    }
  }

  lemma DivModUnique(a: int, q: int, r: int, m: int)
    requires 0 <= r < m && a == q * m + r
    ensures a / m == q && a % m == r
  {
    var d := a / m - q;
    assert d * m == r - a % m;
    NonzeroMultiple(d, m);
  }

  /** The word of 2^k - 1 is a mask of k ones. */
  lemma {:induction false} WordOfMask(k: bv32)
    requires k <= 31
    ensures ToWord(Weight(k) - 1) == Mask(k)
    decreases k
  {
    if k != 0 {
      WordOfMask(k - 1);
      assert (Weight(k) - 1) / 2 == Weight(k - 1) - 1 && (Weight(k) - 1) % 2 == 1;
      assert (Mask(k - 1) << 1) | 1 == Mask(k);
    }
  }

  lemma MaskedLow(w: Word, k: bv32, i: bv32)
    requires k <= 31 && k <= i <= 32
    ensures Low(w & ToWord(Weight(k) - 1), i) == Low(w, i) % Weight(k)
  {
    hide Low, ToWord, Mask, Weight;
    WordOfMask(k);
    LowOfMasked(w, k, i);
    var q := LowSplits(w, k, i);
    LowBound(w, k);
    DivModUnique(Low(w, i), q, Low(w, k), Weight(k));
  }

  // -- Words as numbers ------------------------------------------------------------------------------

  lemma BitOfPush(u: Word, b: Word, i: bv32)
    requires b <= 1 && i < 32
    ensures i == 0 ==> (HasBit(Push(u, b), i) <==> b == 1)
    ensures i > 0 ==> (HasBit(Push(u, b), i) <==> HasBit(u, i - 1))
  {
  }

  /** Pushing a bit doubles the number and adds the bit. */
  lemma {:induction false} LowOfPush(u: Word, b: Word, i: bv32)
    requires b <= 1 && 0 < i <= 32
    ensures Low(Push(u, b), i) == 2 * Low(u, i - 1) + (if b == 1 then 1 else 0)
    decreases i
  {
    hide Push, HasBit;
    BitOfPush(u, b, i - 1);
    if i == 1 {
      assert Low(Push(u, b), 0) == 0;
    } else {
      LowOfPush(u, b, i - 1);
    }
  }

  lemma HalfModulo(n: nat, m: nat)
    requires m > 0
    ensures 2 * (n / 2 % m) + n % 2 == n % (2 * m)
  {
    var q := n / 2 / m;
    assert n == q * (2 * m) + (2 * (n / 2 % m) + n % 2);
    DivModUnique(n, q, 2 * (n / 2 % m) + n % 2, 2 * m);
  }

  lemma {:induction false} LowOfToWord(n: nat, k: bv32)
    requires k <= 32
    ensures Low(ToWord(n), k) == n % Weight(k)
    decreases k
  {
    hide Push;
    if k != 0 {
      LowOfToWord(n / 2, k - 1);
      ToWordStep(n);
      LowOfPush(ToWord(n / 2), Bit(n), k);
      HalfModulo(n, Weight(k - 1));
    }
  }

  /** ToUint32 reduces modulo 2^32. */
  lemma ValueOfToWord(n: nat)
    ensures Value(ToWord(n)) == n % 0x1_0000_0000
  {
    hide Low, ToWord, Weight;
    LowOfToWord(n, 32);
    TwoTo32();
  }

  function ByteValue(b: Byte): nat {
    Low(b as Word, 8)
  }

  lemma BitOfAppend(u: Word, b: Byte, i: bv32)
    requires i < 32
    ensures i < 8 ==> (HasBit(Append(u, b), i) <==> HasBit(b as Word, i))
    ensures i >= 8 ==> (HasBit(Append(u, b), i) <==> HasBit(u, i - 8))
  {
  }

  lemma {:induction false} WeightOfByte(i: bv32)
    requires 8 <= i <= 32
    ensures Weight(i) == 256 * Weight(i - 8)
    decreases i
  {
    if i > 8 {
      WeightOfByte(i - 1);
    } else {
      assert i == 8;
      assert Weight(4) == 16;
      assert Weight(8) == 256;
    }
  }

  /** Appending a byte multiplies by 256 and adds the byte. */
  lemma {:induction false} LowOfAppend(u: Word, b: Byte, i: bv32)
    requires i <= 32
    ensures Low(Append(u, b), i) == if i <= 8 then Low(b as Word, i) else 256 * Low(u, i - 8) + ByteValue(b)
    decreases i
  {
    hide Append, HasBit;
    if i != 0 {
      LowOfAppend(u, b, i - 1);
      BitOfAppend(u, b, i - 1);
      if i > 8 {
        WeightOfByte(i - 1);
      }
    }
  }

  lemma WordBEAppends(b0: Byte, b1: Byte, b2: Byte, b3: Byte)
    ensures WordBE(b0, b1, b2, b3) == Append(Append(Append(b0 as Word, b1), b2), b3)
  {
  }

  /** The first byte that `getUint32` reads weighs most. */
  lemma ValueOfWordBE(b0: Byte, b1: Byte, b2: Byte, b3: Byte)
    ensures Value(WordBE(b0, b1, b2, b3))
         == 256 * (256 * (256 * ByteValue(b0) + ByteValue(b1)) + ByteValue(b2)) + ByteValue(b3)
  {
    hide WordBE, Append, Low;
    WordBEAppends(b0, b1, b2, b3);
    var w0 := b0 as Word;
    var w1 := Append(w0, b1);
    var w2 := Append(w1, b2);
    LowOfAppend(w2, b3, 32);
    LowOfAppend(w1, b2, 24);
    LowOfAppend(w0, b1, 16);
  }

  lemma WordLEAppends(b0: Byte, b1: Byte, b2: Byte, b3: Byte)
    ensures WordLE(b0, b1, b2, b3) == Append(Append(Append(b3 as Word, b2), b1), b0)
  {
  }

  /** In a little-endian view the first byte weighs least. */
  lemma ValueOfWordLE(b0: Byte, b1: Byte, b2: Byte, b3: Byte)
    ensures Value(WordLE(b0, b1, b2, b3))
         == ByteValue(b0) + 256 * (ByteValue(b1) + 256 * (ByteValue(b2) + 256 * ByteValue(b3)))
  {
    hide WordLE, Append, Low;
    WordLEAppends(b0, b1, b2, b3);
    var w3 := b3 as Word;
    var w2 := Append(w3, b2);
    var w1 := Append(w2, b1);
    LowOfAppend(w1, b0, 32);
    LowOfAppend(w2, b1, 24);
    LowOfAppend(w3, b2, 16);
  }

  /** `getUint32` undoes `setUint32`, and the other way round. */
  lemma BigEndianRoundTrip(b0: Byte, b1: Byte, b2: Byte, b3: Byte)
    ensures BytesBE(WordBE(b0, b1, b2, b3)) == [b0, b1, b2, b3]
  {
    ByteWordRoundTrip(b3, b2, b1, b0);
    hide LowByte, Byte1, Byte2, Byte3, WordLE;
  }

  // -- Single bits -------------------------------------------------------------------------------------

  // -- Bits ------------------------------------------------------------------------------------------

  lemma BitsOfOr(x: Word, y: Word, i: bv32)
    requires i < 32
    ensures HasBit(x | y, i) <==> (HasBit(x, i) || HasBit(y, i))
  {
  }

  lemma BitsOfXor(x: Word, y: Word, i: bv32)
    requires i < 32
    ensures HasBit(x ^ y, i) <==> (HasBit(x, i) != HasBit(y, i))
  {
  }

  /** Rotation to the left moves every bit up by n places, */
  lemma RotlMovesUp(x: Word, n: bv32, i: bv32)
    requires 0 < n < 32 && i < 32 && i + n < 32
    ensures HasBit(Rotl(x, n), i + n) <==> HasBit(x, i)
  {
  }

  /** and the uppermost n bits to the bottom. */
  lemma RotlWraps(x: Word, n: bv32, i: bv32)
    requires 0 < n < 32 && 32 - n <= i < 32
    ensures HasBit(Rotl(x, n), i - (32 - n)) <==> HasBit(x, i)
  {
  }

  /** A rotation to the right is the rest of a full turn to the left. */
  lemma RotrTurnsBack(x: Word, n: bv32)
    requires 0 < n < 32
    ensures Rotr(x, n) == Rotl(x, 32 - n)
  {
    assert 32 - (32 - n) == n;
  }

  /** Masking with n - 1 is reduction modulo n when n is a power of two. */
  lemma MaskIsModulo(w: Word, k: bv32)
    requires k <= 31
    ensures Value(w & ToWord(Weight(k) - 1)) == Value(w) % Weight(k)
  {
    hide Low, ToWord, Weight;
    MaskedLow(w, k, 32);
  }

  // -- Powers of two -----------------------------------------------------------------------------

  ghost predicate IsPowerOfTwo(n: nat) {
    exists k: bv32 :: k <= 31 && n == Weight(k)
  }

  lemma PushBelowMask(u: Word, b: Word, k: bv32)
    requires 1 <= k <= 31 && u <= Mask(k - 1) && b <= 1
    ensures Push(u, b) <= Mask(k)
  {
  }

  lemma {:induction false} ToWordBound(n: nat, k: bv32)
    requires k <= 31 && n < Weight(k)
    ensures ToWord(n) <= Mask(k)
    decreases k
  {
    hide Push, Bit, Mask;
    if k != 0 {
      ToWordBound(n / 2, k - 1);
      ToWordStep(n);
      BitBound(n);
      PushBelowMask(ToWord(n / 2), Bit(n), k);
    } else {
      assert ToWord(n) == 0;
    }
  }

  lemma TwoTo31()
    ensures Weight(31) == 0x8000_0000
  {
    TwoTo32();
  }

  lemma ToWordTopBit(n: nat)
    requires n < 0x8000_0000
    ensures ToWord(n) < 0x8000_0000
  {
    TwoTo31();
    ToWordBound(n, 31);
    assert Mask(31) == 0x7fff_ffff;
  }

  lemma {:induction false} ToWordNonzero(n: nat)
    requires 0 < n < 0x1_0000_0000
    ensures ToWord(n) != 0
  {
    ToWordStep(n);
    if n % 2 == 0 {
      ToWordNonzero(n / 2);
      ToWordTopBit(n / 2);
      PushNonzero(ToWord(n / 2), 0);
    } else {
      ToWordTopBit(n / 2);
      PushNonzero(ToWord(n / 2), 1);
    }
  }

  lemma PushNonzero(u: Word, b: Word)
    requires u < 0x8000_0000 && b <= 1 && (u != 0 || b == 1)
    ensures Push(u, b) != 0
  {
  }

  predicate DisjointBits(u: Word, v: Word) {
    u & v == 0
  }

  lemma PushEven(u: Word, v: Word)
    requires u < 0x8000_0000
    ensures DisjointBits(Push(u, 0), Push(v, 1)) <==> DisjointBits(u, v)
  {
  }

  lemma PushOdd(u: Word)
    requires 0 < u < 0x8000_0000
    ensures !DisjointBits(Push(u, 1), Push(u, 0))
  {
  }

  /** `n & (n - 1)` is zero exactly for powers of two. */
  lemma {:induction false} PowerOfTwoTest(n: nat)
    requires 2 <= n < 0x1_0000_0000
    ensures DisjointBits(ToWord(n), ToWord(n - 1)) <==> IsPowerOfTwo(n)
  {
    hide Push, ToWord, DisjointBits, IsPowerOfTwo;
    ToWordStep(n);
    ToWordStep(n - 1);
    ToWordTopBit(n / 2);
    if n % 2 == 0 {
      assert (n - 1) / 2 == n / 2 - 1 && Bit(n) == 0 && Bit(n - 1) == 1;
      PushEven(ToWord(n / 2), ToWord(n / 2 - 1));
      PowersHalve(n);
      if n > 2 {
        PowerOfTwoTest(n / 2);
      } else {
        PowersAtOne();
      }
    } else {
      assert (n - 1) / 2 == n / 2 && Bit(n) == 1 && Bit(n - 1) == 0;
      ToWordNonzero(n / 2);
      PushOdd(ToWord(n / 2));
      PowersAreEven(n);
    }
  }

  lemma PowersAtOne()
    ensures IsPowerOfTwo(1) && DisjointBits(ToWord(1), ToWord(0))
  {
    assert ToWord(0) == 0;
    assert Weight(0) == 1;
  }

  lemma PowersHalve(n: nat)
    requires 2 <= n < 0x1_0000_0000 && n % 2 == 0
    ensures IsPowerOfTwo(n) <==> IsPowerOfTwo(n / 2)
  {
    if IsPowerOfTwo(n) {
      var k: bv32 :| k <= 31 && n == Weight(k);
      assert k != 0;
      assert n / 2 == Weight(k - 1);
    }
    if IsPowerOfTwo(n / 2) {
      var k: bv32 :| k <= 31 && n / 2 == Weight(k);
      TwoTo31();
      assert k != 31;
      assert n == Weight(k + 1);
    }
  }

  lemma PowersAreEven(n: nat)
    requires n >= 2 && n % 2 == 1
    ensures !IsPowerOfTwo(n)
  {
    forall k: bv32 | k <= 31 ensures n != Weight(k) {
      if k != 0 {
        assert Weight(k) == 2 * Weight(k - 1);
      }
    }
  }
}
