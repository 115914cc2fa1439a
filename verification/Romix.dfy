/**
 scryptBlockMix and scryptROMix (RFC 7914, sections 4 and 5) over little-endian words, and the loops over typed
 arrays that compute them: each output block is stored at its final place at once, iterates of BlockMix lie one
 after the other in one large array, and the revisited one is chosen by a mask.
 */
module Romix {
  import opened Words
  import opened Wrappers
  import opened Salsa20

  // -- Specification -----------------------------------------------------------------------------

  /** The i-th 64-octet block of B. */
  function BlockAt(b: seq<Word>, i: nat): (x: seq<Word>)
    requires 16 * i + 16 <= |b|
    ensures |x| == 16
  {
    b[16 * i..16 * i + 16]
  }

  /** scryptBlockMix, steps 1 and 2: the value of X after the first i blocks. */
  function Chain(b: seq<Word>, r: nat, i: nat): (x: seq<Word>)
    requires r >= 1 && |b| == 32 * r && i <= 2 * r
    ensures |x| == 16
  {
    if i == 0 then BlockAt(b, 2 * r - 1) else Core(ZipWith(Xor, Chain(b, r, i - 1), BlockAt(b, i - 1)))
  }

  /** The chain of section 4: X starts as the last block of B, and each block of B is mixed in. */
  lemma ChainOfSection4(b: seq<Word>, r: nat, i: nat)
    requires r >= 1 && |b| == 32 * r && i < 2 * r
    ensures Chain(b, r, 0) == b[|b| - 16..]
    ensures Chain(b, r, i + 1) == Core(ZipWith(Xor, Chain(b, r, i), b[16 * i..][..16]))
  {
    hide Core, ZipWith;
    assert b[16 * i..][..16] == BlockAt(b, i);
    assert b[|b| - 16..] == BlockAt(b, 2 * r - 1);
  }

  /** Y[first], Y[first + 2], ...: k blocks of the chain, where Y[i] is the value of X after block i. */
  function EveryOther(b: seq<Word>, r: nat, first: nat, k: nat): (y: seq<Word>)
    requires r >= 1 && |b| == 32 * r && first <= 1 && k <= r
    ensures |y| == 16 * k
  {
    if k == 0 then [] else EveryOther(b, r, first, k - 1) + Chain(b, r, first + 2 * (k - 1) + 1)
  }

  /** scryptBlockMix, step 3: the even blocks of Y, then the odd ones. */
  function BlockMix(b: seq<Word>, r: nat): (y: seq<Word>)
    requires r >= 1 && |b| == 32 * r
    ensures |y| == 32 * r
  {
    EveryOther(b, r, 0, r) + EveryOther(b, r, 1, r)
  }

  lemma {:induction false} EveryOtherAt(b: seq<Word>, r: nat, first: nat, k: nat, m: nat)
    requires r >= 1 && |b| == 32 * r && first <= 1 && m < k <= r
    ensures EveryOther(b, r, first, k)[16 * m..16 * m + 16] == Chain(b, r, first + 2 * m + 1)
  {
    hide Chain;
    if m < k - 1 {
      EveryOtherAt(b, r, first, k - 1, m);
    }
  }

  /** Step 3 of section 4: block k of the result is Y[2k], and block r + k is Y[2k + 1], where Y[i] is the chain after
      block i. */
  lemma BlocksOfMix(b: seq<Word>, r: nat, k: nat)
    requires r >= 1 && |b| == 32 * r && k < r
    ensures BlockMix(b, r)[16 * k..16 * k + 16] == Chain(b, r, 2 * k + 1)
    ensures BlockMix(b, r)[16 * (r + k)..16 * (r + k) + 16] == Chain(b, r, 2 * k + 2)
  {
    hide Chain, EveryOther;
    EveryOtherAt(b, r, 0, r, k);
    EveryOtherAt(b, r, 1, r, k);
    assert BlockMix(b, r)[16 * k..16 * k + 16] == EveryOther(b, r, 0, r)[16 * k..16 * k + 16];
    assert BlockMix(b, r)[16 * (r + k)..16 * (r + k) + 16] == EveryOther(b, r, 1, r)[16 * k..16 * k + 16];
  }

  /** scryptROMix, step 2: V[i]. */
  function Iterate(b: seq<Word>, r: nat, i: nat): (x: seq<Word>)
    requires r >= 1 && |b| == 32 * r
    ensures |x| == 32 * r
  {
    if i == 0 then b else BlockMix(Iterate(b, r, i - 1), r)
  }

  /** A sequence of words as one little-endian number. */
  function NumberLE(w: seq<Word>): nat {
    if w == [] then 0 else Value(w[0]) + 0x1_0000_0000 * NumberLE(w[1..])
  }

  /** The last 64-octet block as a little-endian number. */
  function Integerify(x: seq<Word>, r: nat): nat
    requires r >= 1 && |x| == 32 * r
  {
    NumberLE(BlockAt(x, 2 * r - 1))
  }

  /** scryptROMix, step 3: X after i of the second loop's iterations. */
  function Revisit(b: seq<Word>, r: nat, n: nat, i: nat): (x: seq<Word>)
    requires r >= 1 && |b| == 32 * r && n >= 1
    ensures |x| == 32 * r
  {
    if i == 0 then Iterate(b, r, n)
    else
      var x := Revisit(b, r, n, i - 1);
      BlockMix(ZipWith(Xor, x, Iterate(b, r, Integerify(x, r) % n)), r)
  }

  function ROMix(b: seq<Word>, r: nat, n: nat): (x: seq<Word>)
    requires r >= 1 && |b| == 32 * r && n >= 1
    ensures |x| == 32 * r
  {
    Revisit(b, r, n, n)
  }

  // -- BlockMix in place ---------------------------------------------------------------------------

  /** Where the source stores output block i: (i & 1) * r + (i >> 1). */
  function Place(i: nat, r: nat): nat {
    (i % 2) * r + i / 2
  }

  lemma PlaceCases(i: nat, r: nat)
    ensures Place(i, r) == if i % 2 == 0 then i / 2 else r + i / 2
  {
    if i % 2 == 1 {
      assert (i % 2) * r == r;
    }
  }

  /** The places of the 2r output blocks are the 2r block positions, each used once. */
  lemma PlaceIsPermutation(r: nat, i: nat, j: nat)
    requires i < 2 * r && j < 2 * r
    ensures Place(i, r) < 2 * r
    ensures Place(i, r) == Place(j, r) ==> i == j
    ensures exists m: nat :: m < 2 * r && Place(m, r) == j
  {
    PlaceCases(i, r);
    PlaceCases(j, r);
    var m := if j < r then 2 * j else 2 * (j - r) + 1;
    PlaceCases(m, r);
    assert m < 2 * r && Place(m, r) == j;
  }

  /** The first i output blocks lie at their places in d. */
  ghost predicate Stored(b: seq<Word>, r: nat, d: seq<Word>, i: nat)
    requires r >= 1 && |b| == 32 * r && |d| == 32 * r && i <= 2 * r
  {
    forall m: nat | m < i :: Place(m, r) < 2 * r && BlockAt(d, Place(m, r)) == Chain(b, r, m + 1)
  }

  /** All blocks at their places make the even-then-odd order: k blocks of the half that starts at block `first`. */
  lemma {:induction false} StoredHalf(b: seq<Word>, r: nat, d: seq<Word>, first: nat, k: nat)
    requires r >= 1 && |b| == 32 * r && |d| == 32 * r && first <= 1 && k <= r
    requires Stored(b, r, d, 2 * r)
    ensures
      var start := if first == 0 then 0 else 16 * r;
      d[start..start + 16 * k] == EveryOther(b, r, first, k)
  {
    hide Core, Chain, Place;
    if k > 0 {
      StoredHalf(b, r, d, first, k - 1);
      var m := first + 2 * (k - 1);
      PlaceCases(m, r);
      assert BlockAt(d, Place(m, r)) == Chain(b, r, m + 1);
      NextBlock(d, if first == 0 then 0 else 16 * r, k, Place(m, r));
    }
  }

  lemma NextBlock(d: seq<Word>, start: nat, k: nat, p: nat)
    requires k > 0 && 16 * p == start + 16 * (k - 1) && start + 16 * k <= |d|
    ensures d[start..start + 16 * k] == d[start..start + 16 * (k - 1)] + BlockAt(d, p)
  {
  }

  lemma StoreNext(b: seq<Word>, r: nat, before: seq<Word>, after: seq<Word>, i: nat)
    requires r >= 1 && |b| == 32 * r && |before| == 32 * r == |after| && i < 2 * r && Place(i, r) < 2 * r
    requires Stored(b, r, before, i)
    requires after == before[..Place(i, r) * 16] + Chain(b, r, i + 1) + before[Place(i, r) * 16 + 16..]
    ensures Stored(b, r, after, i + 1)
  {
    hide Chain, Place;
    forall m: nat | m < i + 1
      ensures Place(m, r) < 2 * r && BlockAt(after, Place(m, r)) == Chain(b, r, m + 1)
    {
      PlaceIsPermutation(r, m, i);
      var p, q := Place(m, r), Place(i, r);
      if m < i {
        assert BlockAt(before, p) == Chain(b, r, m + 1);
        assert p < q || p > q;
      }
    }
  }

  method BlockMixInPlace(src: array<Word>, dst: array<Word>, r: nat)
    requires r >= 1 && src.Length == 32 * r && dst.Length == 32 * r && src != dst
    modifies dst
    ensures dst[..] == BlockMix(src[..], r)
  {
    hide Core, EveryOther, ZipWith, Stored;
    ghost var b := src[..];
    var last := (2 * r - 1) * 16;
    var t := new Word[16](i requires 0 <= i < 16 reads src => src[last + i]);
    assert t[..] == BlockAt(b, 2 * r - 1);
    var i := 0;
    NothingStored(b, r, dst[..]);
    while i < 2 * r
      invariant 0 <= i <= 2 * r
      invariant src[..] == b
      invariant t[..] == Chain(b, r, i)
      invariant Stored(b, r, dst[..], i)
    {
      assert src[i * 16..i * 16 + 16] == BlockAt(b, i);
      ZipInPlace(Xor, t, src[i * 16..i * 16 + 16]);
      CoreInPlace(t);
      PlaceIsPermutation(r, i, i);
      ghost var before := dst[..];
      SetAt(dst, t[..], ((i % 2) * r + i / 2) * 16);
      StoreNext(b, r, before, dst[..], i);
      i := i + 1;
    }
    StoredHalf(b, r, dst[..], 0, r);
    StoredHalf(b, r, dst[..], 1, r);
    assert dst[..] == dst[0..16 * r] + dst[16 * r..32 * r];
  }

  lemma NothingStored(b: seq<Word>, r: nat, d: seq<Word>)
    requires r >= 1 && |b| == 32 * r && |d| == 32 * r
    ensures Stored(b, r, d, 0)
  {
  }

  // -- ROMix in place ------------------------------------------------------------------------------

  lemma HighPartVanishes(v: nat, q: nat, rest: nat, m: nat)
    requires m > 0
    ensures (v + q * m * rest) % m == v % m
  {
    var d, e := v / m, v % m;
    assert (d + q * rest) * m == d * m + q * rest * m;
    assert q * m * rest == q * rest * m;
    DivModUnique(v + q * m * rest, d + q * rest, e, m);
  }

  /** Reducing a little-endian number modulo N = 2^k <= 2^31 needs its first word only. */
  lemma FirstWordDecides(w: seq<Word>, k: bv32)
    requires |w| > 0 && k <= 31
    ensures NumberLE(w) % Weight(k) == Value(w[0]) % Weight(k)
  {
    hide Value;
    var q := WeightSplits(k, 32);
    TwoTo32();
    HighPartVanishes(Value(w[0]), q, NumberLE(w[1..]), Weight(k));
  }

  /** `w & (n - 1)`. */
  function Masked(w: Word, n: nat): nat
    requires n >= 1
  {
    Value(w & ToWord(n - 1))
  }

  lemma MaskIsIntegerify(x: seq<Word>, r: nat, n: nat, k: bv32)
    requires r >= 1 && |x| == 32 * r && k <= 31 && n == Weight(k)
    ensures Masked(x[32 * r - 16], n) == Integerify(x, r) % n
  {
    hide Value, ToWord;
    var block := BlockAt(x, 2 * r - 1);
    assert block[0] == x[32 * r - 16];
    FirstWordDecides(block, k);
    MaskIsModulo(block[0], k);
  }

  /** The i-th run of `words` words in v. */
  ghost function Slot(v: seq<Word>, words: nat, i: nat): seq<Word> {
    if i * words + words <= |v| then v[i * words..i * words + words] else []
  }

  lemma SlotFits(words: nat, n: nat, i: nat)
    requires i < n
    ensures 0 <= i * words && i * words + words <= words * n
  {
    MulMonotone(i + 1, n, words);
    assert (i + 1) * words == i * words + words;
  }

  lemma SlotWritten(before: seq<Word>, after: seq<Word>, x: seq<Word>, words: nat, i: nat)
    requires |x| == words && i * words + words <= |before|
    requires after == before[..i * words] + x + before[i * words + words..]
    ensures Slot(after, words, i) == x
    ensures forall m | 0 <= m < i :: Slot(after, words, m) == Slot(before, words, m)
  {
    forall m | 0 <= m < i ensures Slot(after, words, m) == Slot(before, words, m) {
      SlotFits(words, i, m);
      assert words * i == i * words;
    }
  }

  ghost predicate HoldsIterates(v: seq<Word>, b: seq<Word>, r: nat, n: nat)
    requires r >= 1 && |b| == 32 * r
  {
    forall m: nat | m < n :: Slot(v, 32 * r, m) == Iterate(b, r, m)
  }

  lemma NothingHeld(v: seq<Word>, b: seq<Word>, r: nat)
    requires r >= 1 && |b| == 32 * r
    ensures HoldsIterates(v, b, r, 0)
  {
  }

  lemma HeldAt(v: seq<Word>, b: seq<Word>, r: nat, n: nat, j: nat)
    requires r >= 1 && |b| == 32 * r && j < n && j * (32 * r) + 32 * r <= |v| && HoldsIterates(v, b, r, n)
    ensures v[j * (32 * r)..j * (32 * r) + 32 * r] == Iterate(b, r, j)
  {
    hide Iterate;
    assert Slot(v, 32 * r, j) == Iterate(b, r, j);
  }

  lemma HoldsNext(before: seq<Word>, after: seq<Word>, b: seq<Word>, r: nat, i: nat)
    requires r >= 1 && |b| == 32 * r && i * (32 * r) + 32 * r <= |before|
    requires HoldsIterates(before, b, r, i)
    requires after == before[..i * (32 * r)] + Iterate(b, r, i) + before[i * (32 * r) + 32 * r..]
    ensures HoldsIterates(after, b, r, i + 1)
  {
    hide Iterate;
    SlotWritten(before, after, Iterate(b, r, i), 32 * r, i);
    forall m: nat | m < i + 1 ensures Slot(after, 32 * r, m) == Iterate(b, r, m) {
      assert m < i ==> Slot(before, 32 * r, m) == Iterate(b, r, m);
    }
  }

  /** `blockMix(x, y, r); x.set(y)`. */
  method BlockMixBack(x: array<Word>, y: array<Word>, r: nat)
    requires r >= 1 && x.Length == 32 * r && y.Length == 32 * r && x != y
    modifies x, y
    ensures x[..] == BlockMix(old(x[..]), r)
  {
    hide BlockMix;
    BlockMixInPlace(x, y, r);
    SetAt(x, y[..], 0);
    assert x[..] == y[..];
  }

  /** The first loop: V[i] is the i-th iterate, and X ends as the n-th. */
  method FillIterates(x: array<Word>, y: array<Word>, v: array<Word>, n: nat, r: nat)
    requires r >= 1 && x.Length == 32 * r && y.Length == 32 * r && v.Length == 32 * r * n
    requires x != y && x != v && y != v
    modifies x, y, v
    ensures x[..] == Iterate(old(x[..]), r, n)
    ensures HoldsIterates(v[..], old(x[..]), r, n)
  {
    hide BlockMix, HoldsIterates;
    ghost var b := x[..];
    NothingHeld(v[..], b, r);
    var words := 32 * r;
    var i := 0;
    while i < n
      invariant 0 <= i <= n
      invariant x[..] == Iterate(b, r, i)
      invariant HoldsIterates(v[..], b, r, i)
    {
      SlotFits(words, n, i);
      ghost var before := v[..];
      SetAt(v, x[..], i * words);
      HoldsNext(before, v[..], b, r, i);
      BlockMixBack(x, y, r);
      i := i + 1;
    }
  }

  lemma RevisitStarts(b: seq<Word>, r: nat, n: nat)
    requires r >= 1 && |b| == 32 * r && n >= 1
    ensures Revisit(b, r, n, 0) == Iterate(b, r, n)
  {
  }

  lemma RevisitNext(b: seq<Word>, r: nat, n: nat, i: nat)
    requires r >= 1 && |b| == 32 * r && n >= 1
    ensures
      var x := Revisit(b, r, n, i);
      Revisit(b, r, n, i + 1) == BlockMix(ZipWith(Xor, x, Iterate(b, r, Integerify(x, r) % n)), r)
  {
    hide BlockMix, ZipWith, Iterate, Integerify;
  }

  /** `x[w] ^= v[off + w]` for the words of slot j. */
  method MixIterate(x: array<Word>, v: array<Word>, n: nat, r: nat, j: nat, ghost b: seq<Word>)
    requires r >= 1 && x.Length == |b| == 32 * r && v.Length == 32 * r * n && x != v && j < n
    requires HoldsIterates(v[..], b, r, n)
    modifies x
    ensures x[..] == ZipWith(Xor, old(x[..]), Iterate(b, r, j))
  {
    hide ZipWith, Iterate, HoldsIterates, Slot;
    var words := 32 * r;
    SlotFits(words, n, j);
    HeldAt(v[..], b, r, n, j);
    var off := j * words;
    assert v[off..off + words] == v[..][off..off + words];
    ZipInPlace(Xor, x, v[off..off + words]);
  }

  /** The second loop: X is mixed with the iterate its last block points at. */
  method RevisitIterates(x: array<Word>, y: array<Word>, v: array<Word>, n: nat, r: nat, ghost b: seq<Word>, ghost k: bv32)
    requires r >= 1 && x.Length == 32 * r && y.Length == 32 * r && v.Length == 32 * r * n
    requires x != y && x != v && y != v
    requires k <= 31 && n == Weight(k) && |b| == 32 * r
    requires x[..] == Iterate(b, r, n) && HoldsIterates(v[..], b, r, n)
    modifies x, y
    ensures x[..] == ROMix(b, r, n)
  {
    hide BlockMix, Integerify, Masked, Weight, ZipWith, Iterate, HoldsIterates, Revisit;
    RevisitStarts(b, r, n);
    var words := 32 * r;
    var i := 0;
    while i < n
      invariant 0 <= i <= n
      invariant x[..] == Revisit(b, r, n, i)
      invariant v[..] == old(v[..])
    {
      MaskIsIntegerify(x[..], r, n, k);
      RevisitNext(b, r, n, i);
      var j := Masked(x[words - 16], n);
      MixIterate(x, v, n, r, j, b);
      BlockMixBack(x, y, r);
      i := i + 1;
    }
  }

  /** The source's ROMix, on words. It requires a power of two, as its caller `scrypt` checks. */
  method ROMixInPlace(x: array<Word>, n: nat, r: nat, ghost k: bv32)
    requires r >= 1 && x.Length == 32 * r
    requires k <= 31 && n == Weight(k)
    modifies x
    ensures x[..] == ROMix(old(x[..]), r, n)
  {
    hide Iterate, HoldsIterates, ROMix;
    ghost var b := x[..];
    var y := new Word[32 * r](_ => 0);
    var v := new Word[32 * r * n](_ => 0);
    FillIterates(x, y, v, n, r);
    RevisitIterates(x, y, v, n, r, b, k);
  }

  // -- Bytes -----------------------------------------------------------------------------------------

  /** A little-endian view of bytes as words. */
  function WordsOf(b: seq<Byte>): (w: seq<Word>)
    requires |b| % 4 == 0
    ensures |w| == |b| / 4
  {
    if b == [] then [] else [WordLE(b[0], b[1], b[2], b[3])] + WordsOf(b[4..])
  }

  /** The bytes under a view of words. */
  function BytesOf(w: seq<Word>): (b: seq<Byte>)
    ensures |b| == 4 * |w|
  {
    if w == [] then [] else BytesLE(w[0]) + BytesOf(w[1..])
  }

  lemma {:induction false} ViewRoundTrip(b: seq<Byte>)
    requires |b| % 4 == 0
    ensures BytesOf(WordsOf(b)) == b
  {
    hide WordLE, BytesLE;
    if b != [] {
      ViewRoundTrip(b[4..]);
      ByteWordRoundTrip(b[0], b[1], b[2], b[3]);
      assert WordsOf(b)[1..] == WordsOf(b[4..]);
      assert b == [b[0], b[1], b[2], b[3]] + b[4..];
    }
  }

  /** scryptROMix on the octets of a block. */
  function ROMixBytes(block: seq<Byte>, r: nat, n: nat): (out: seq<Byte>)
    requires r >= 1 && |block| == 128 * r && n >= 1
    ensures |out| == 128 * r
  {
    BytesOf(ROMix(WordsOf(block), r, n))
  }

  /** `romixJs`: ROMix on the bytes of a block, for a power of two n <= 2^31. Where the engine allocates typed arrays of at
      most `limit` elements, a larger n throws. */
  method RomixJs(block: seq<Byte>, n: nat, r: nat, limit: nat, ghost k: bv32) returns (out: Option<seq<Byte>>)
    requires r >= 1 && |block| == 128 * r && n >= 1
    requires 32 * r * n <= limit ==> k <= 31 && n == Weight(k)
    ensures out == if 32 * r * n <= limit then Some(ROMixBytes(block, r, n)) else None
  {
    hide ROMix;
    if 32 * r * n > limit {
      return None;
    }
    var w := WordsOf(block);
    var x := new Word[32 * r](i requires 0 <= i < |w| => w[i]);
    assert x[..] == w;
    ROMixInPlace(x, n, r, k);
    out := Some(BytesOf(x[..]));
  }
}
