/**
 SHA-256 as FIPS 180-4 defines it (padding in section 5.1.1, functions in 4.1.2, hash computation in 6.2.2), and the
 source's loops over typed arrays that compute it.
 */
module Sha256 {
  import opened Words
  import opened Sha256Constants
  import opened Wrappers

  // -- Functions -----------------------------------------------------------------------------------

  function Choose(x: Word, y: Word, z: Word): Word {
    (x & y) ^ (!x & z)
  }

  function Majority(x: Word, y: Word, z: Word): Word {
    (x & y) ^ (x & z) ^ (y & z)
  }

  function BigSigma0(x: Word): Word {
    Rotr(x, 2) ^ Rotr(x, 13) ^ Rotr(x, 22)
  }

  function BigSigma1(x: Word): Word {
    Rotr(x, 6) ^ Rotr(x, 11) ^ Rotr(x, 25)
  }

  function SmallSigma0(x: Word): Word {
    Rotr(x, 7) ^ Rotr(x, 18) ^ (x >> 3)
  }

  function SmallSigma1(x: Word): Word {
    Rotr(x, 17) ^ Rotr(x, 19) ^ (x >> 10)
  }

  function Sum4(a: Word, b: Word, c: Word, d: Word): Word {
    a + b + c + d
  }

  function Sum5(a: Word, b: Word, c: Word, d: Word, e: Word): Word {
    a + b + c + d + e
  }

  /** Choose takes the bits of y where x has ones, and those of z elsewhere. */
  lemma ChooseSelects(x: Word, y: Word, z: Word)
    ensures Choose(x, y, z) & x == y & x && Choose(x, y, z) & !x == z & !x
  {
  }

  /** Majority has the bits of x where x and y agree, and those of z elsewhere. */
  lemma MajorityAgrees(x: Word, y: Word, z: Word)
    ensures Majority(x, y, z) & !(x ^ y) == x & !(x ^ y) && Majority(x, y, z) & (x ^ y) == z & (x ^ y)
  {
  }

  // -- Specification -------------------------------------------------------------------------------

  ghost predicate Fills(length: nat, k: nat) {
    (length + 1 + k) % 64 == 56
  }

  /** The smallest number of zero bytes that makes the message, 0x80 and an 8-byte length a multiple of 64. */
  function ZeroBytes(length: nat): (k: nat)
    ensures Fills(length, k)
    ensures forall j: nat | j < k :: !Fills(length, j)
  {
    (119 - length % 64) % 64
  }

  /** The message, a one bit, zero bits, and the message length in bits as a 64-bit big-endian number. */
  function Pad(m: seq<Byte>): (p: seq<Byte>)
    ensures |p| % 64 == 0
  {
    m + [0x80] + seq(ZeroBytes(|m|), _ => 0) + BigEndian(8 * |m|, 8)
  }

  /** Word t of message block i. */
  function MessageWord(p: seq<Byte>, i: nat, t: nat): Word
    requires t < 16 && 64 * i + 64 <= |p|
  {
    var o := 64 * i + 4 * t;
    WordBE(p[o], p[o + 1], p[o + 2], p[o + 3])
  }

  /** W_t of block i. */
  function Schedule(p: seq<Byte>, i: nat, t: nat): Word
    requires t < 64 && 64 * i + 64 <= |p|
  {
    if t < 16 then MessageWord(p, i, t)
    else Sum4(SmallSigma1(Schedule(p, i, t - 2)), Schedule(p, i, t - 7),
              SmallSigma0(Schedule(p, i, t - 15)), Schedule(p, i, t - 16))
  }

  /** One iteration of step 3 on the working variables a to h. */
  function Round(s: seq<Word>, k: Word, w: Word): (s': seq<Word>)
    requires |s| == 8
    ensures |s'| == 8
  {
    var t1 := Sum5(s[7], BigSigma1(s[4]), Choose(s[4], s[5], s[6]), k, w);
    var t2 := Add(BigSigma0(s[0]), Majority(s[0], s[1], s[2]));
    [Add(t1, t2), s[0], s[1], s[2], Add(s[3], t1), s[4], s[5], s[6]]
  }

  function Rounds(s: seq<Word>, p: seq<Byte>, i: nat, t: nat): (s': seq<Word>)
    requires |s| == 8 && t <= |ROUND_CONSTANTS| == 64 && 64 * i + 64 <= |p|
    ensures |s'| == 8
  {
    if t == 0 then s
    else Round(Rounds(s, p, i, t - 1), ROUND_CONSTANTS[t - 1], Schedule(p, i, t - 1))
  }

  /** The intermediate hash value after the first n blocks. */
  function HashValue(p: seq<Byte>, n: nat): (h: seq<Word>)
    requires 64 * n <= |p|
    ensures |h| == 8
  {
    if n == 0 then
      INITIAL_HASH
    else
      var h := HashValue(p, n - 1);
      ZipWith(Add, h, Rounds(h, p, n - 1, |ROUND_CONSTANTS|))
  }

  /** Words as bytes, most significant first. */
  function WordsToBytes(w: seq<Word>): (b: seq<Byte>)
    ensures |b| == 4 * |w|
  {
    if w == [] then [] else BytesBE(w[0]) + WordsToBytes(w[1..])
  }

  function Hash(m: seq<Byte>): (d: seq<Byte>)
    ensures |d| == 32
  {
    var p := Pad(m);
    WordsToBytes(HashValue(p, |p| / 64))
  }

  // -- The source's loops ----------------------------------------------------------------------------

  /** The signed 32-bit number a JavaScript shift makes of its operand. */
  function ToInt32(n: nat): int {
    var m := n % 0x1_0000_0000;
    if m < 0x8000_0000 then m else m - 0x1_0000_0000
  }

  /** `((data.length + 9 + 63) >> 6) << 6`: both shifts work on signed 32-bit numbers. */
  function PaddedLength(length: nat): int {
    ToInt32(length + 9 + 63) / 64 * 64
  }

  /** Below 2^31 - 72 bytes this is the length of the padded message; from there on it is negative (no array has
      that length) or too small to hold the message. */
  lemma PaddedLengthFits(m: seq<Byte>)
    ensures |m| + 72 < 0x8000_0000 ==> PaddedLength(|m|) == |Pad(m)|
    ensures |m| + 72 >= 0x8000_0000 ==> PaddedLength(|m|) < |m|
  {
    hide Pad, Fills;
    PadLength(m);
    var k := |m| + 72;
    if k < 0x8000_0000 {
      assert ToInt32(k) == k;
    } else {
      assert PaddedLength(|m|) <= ToInt32(k);
    }
  }

  /** The four writes of the source, as sequences. */
  lemma PadSteps(m: seq<Byte>, length: nat, p1: seq<Byte>, p2: seq<Byte>, p3: seq<Byte>, p4: seq<Byte>)
    requires length == |Pad(m)|
    requires p1 == m + seq(length - |m|, _ => 0)
    requires p2 == p1[|m| := 0x80]
    requires p3 == p2[..length - 8] + BytesBE(ToWord(|m| / 0x2000_0000)) + p2[length - 4..]
    requires p4 == p3[..length - 4] + BytesBE(ToWord(|m| * 8))
    ensures p4 == Pad(m)
  {
    hide BytesBE, ToWord, BigEndian;
    TwoWordsAreBigEndian(8 * |m|);
    assert 8 * |m| / 0x1_0000_0000 == |m| / 0x2000_0000;
    assert p2 == m + [0x80] + seq(length - |m| - 1, _ => 0);
    assert p2[..length - 8] == m + [0x80] + seq(ZeroBytes(|m|), _ => 0);
  }

  /** The padded copy of the message; None is the RangeError of a negative length or of a message that does not fit. */
  method PadInPlace(data: seq<Byte>) returns (r: Option<seq<Byte>>)
    ensures r.Some? <==> |data| + 72 < 0x8000_0000
    ensures r.Some? ==> r.value == Pad(data)
  {
    hide Pad, BytesBE, ToWord, BigEndian, PaddedLength, ZeroBytes, Fills;
    PaddedLengthFits(data);
    PadLength(data);
    var length := PaddedLength(|data|);
    if length < 0 || length < |data| {
      return None;
    }
    var padded := new Byte[length](_ => 0);
    SetAt(padded, data, 0);
    ghost var p1 := padded[..];
    padded[|data|] := 0x80;
    ghost var p2 := padded[..];
    SetAt(padded, BytesBE(ToWord(|data| / 0x2000_0000)), length - 8);
    ghost var p3 := padded[..];
    SetAt(padded, BytesBE(ToWord(|data| * 8)), length - 4);
    PadSteps(data, length, p1, p2, p3, padded[..]);
    r := Some(padded[..]);
  }

  lemma PadLength(m: seq<Byte>)
    ensures |Pad(m)| == |m| + 9 + ZeroBytes(|m|)
  {
  }

  /** The source adds the four terms of W_t in another order. */
  lemma SumOrder(a: Word, b: Word, c: Word, d: Word)
    ensures Sum4(a, b, c, d) == Sum4(d, c, b, a)
  {
  }

  method ExpandSchedule(w: array<Word>, p: seq<Byte>, ghost block: nat, off: nat)
    requires w.Length == 64 && off == 64 * block && off + 64 <= |p|
    modifies w
    ensures forall t | 0 <= t < 64 :: w[t] == Schedule(p, block, t)
  {
    hide WordBE, SmallSigma0, SmallSigma1, Sum4;
    var i := 0;
    while i < 16
      invariant 0 <= i <= 16
      invariant forall t | 0 <= t < i :: w[t] == Schedule(p, block, t)
    {
      w[i] := WordBE(p[off + i * 4], p[off + i * 4 + 1], p[off + i * 4 + 2], p[off + i * 4 + 3]);
      i := i + 1;
    }
    while i < 64
      invariant 16 <= i <= 64
      invariant forall t | 0 <= t < i :: w[t] == Schedule(p, block, t)
    {
      var s0 := SmallSigma0(w[i - 15]);
      var s1 := SmallSigma1(w[i - 2]);
      SumOrder(w[i - 16], s0, w[i - 7], s1);
      w[i] := Sum4(w[i - 16], s0, w[i - 7], s1);
      i := i + 1;
    }
  }

  method CompressInPlace(h: array<Word>, w: array<Word>, ghost p: seq<Byte>, ghost block: nat)
    requires h.Length == 8 && w.Length == 64 && h != w && 64 * block + 64 <= |p|
    requires forall t | 0 <= t < 64 :: w[t] == Schedule(p, block, t)
    modifies h
    ensures h[..] == ZipWith(Add, old(h[..]), Rounds(old(h[..]), p, block, |ROUND_CONSTANTS|))
  {
    hide Schedule, BigSigma0, BigSigma1, Choose, Majority, Sum5, ToWord, Add;
    ghost var start := h[..];
    var a, b, c, d, e, f, g, hh := h[0], h[1], h[2], h[3], h[4], h[5], h[6], h[7];
    assert [a, b, c, d, e, f, g, hh] == start;
    var i := 0;
    while i < 64
      invariant 0 <= i <= 64
      invariant h[..] == start
      invariant [a, b, c, d, e, f, g, hh] == Rounds(start, p, block, i)
    {
      var t1 := Sum5(hh, BigSigma1(e), Choose(e, f, g), ROUND_CONSTANTS[i], w[i]);
      var t2 := Add(BigSigma0(a), Majority(a, b, c));
      hh := g;
      g := f;
      f := e;
      e := Add(d, t1);
      d := c;
      c := b;
      b := a;
      a := Add(t1, t2);
      i := i + 1;
    }
    ZipInPlace(Add, h, [a, b, c, d, e, f, g, hh]);
  }

  /** The digest; None where a typed array cannot be built because the message has 2^31 - 72 bytes or more. */
  lemma FirstValue(p: seq<Byte>)
    ensures HashValue(p, 0) == INITIAL_HASH
  {
  }

  lemma NextValue(p: seq<Byte>, n: nat)
    requires 64 * n + 64 <= |p|
    ensures HashValue(p, n + 1) == ZipWith(Add, HashValue(p, n), Rounds(HashValue(p, n), p, n, |ROUND_CONSTANTS|))
  {
    hide Rounds, ZipWith;
  }

  method Sha256Js(data: seq<Byte>) returns (out: Option<seq<Byte>>)
    ensures out.Some? <==> |data| + 72 < 0x8000_0000
    ensures out.Some? ==> out.value == Hash(data)
  {
    hide Pad, ToWord, Rounds, Schedule, Add, HashValue, ZipWith;
    var padded := PadInPlace(data);
    if padded.None? {
      return None;
    }
    var p := padded.value;
    var h := new Word[8](i requires 0 <= i < 8 => INITIAL_HASH[i]);
    assert h[..] == INITIAL_HASH;
    FirstValue(p);
    var w := new Word[64](_ => 0);
    var off := 0;
    while off < |p|
      invariant 0 <= off <= |p| && off % 64 == 0
      invariant h[..] == HashValue(p, off / 64)
    {
      ExpandSchedule(w, p, off / 64, off);
      CompressInPlace(h, w, p, off / 64);
      NextValue(p, off / 64);
      off := off + 64;
    }
    var digest := StoreWords(h[..]);
    out := Some(digest);
  }

  method StoreWords(h: seq<Word>) returns (out: seq<Byte>)
    ensures out == WordsToBytes(h)
  {
    hide BytesBE;
    var bytes := new Byte[4 * |h|](_ => 0);
    var i := 0;
    while i < |h|
      invariant 0 <= i <= |h|
      invariant bytes[..4 * i] == WordsToBytes(h[..i])
    {
      ghost var before := bytes[..4 * i];
      SetAt(bytes, BytesBE(h[i]), i * 4);
      assert bytes[..4 * i + 4] == before + BytesBE(h[i]);
      AppendWord(h, i);
      i := i + 1;
    }
    assert h[..i] == h;
    out := bytes[..];
  }

  lemma {:induction false} AppendWord(h: seq<Word>, i: nat)
    requires i < |h|
    ensures WordsToBytes(h[..i + 1]) == WordsToBytes(h[..i]) + BytesBE(h[i])
  {
    hide BytesBE;
    if i > 0 {
      AppendWord(h[1..], i - 1);
      assert h[..i + 1][1..] == h[1..][..i] && h[..i][1..] == h[1..][..i - 1];
    }
  }
}
