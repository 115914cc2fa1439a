/**
 HMAC-SHA-256 (RFC 2104, section 2), PBKDF2 with one iteration (RFC 8018, section 5.2) and scrypt with p = 1
 (RFC 7914, section 6), and the source's JavaScript forms of them.
 */
module Scrypt {
  // The JavaScript forms return None where the source throws: a cost that is no power of two above one or too large for
  // the engine, or a message too long for the hash's typed arrays.

  import opened Words
  import opened Romix
  import opened Wrappers
  import opened Sha256

  // -- Specification -------------------------------------------------------------------------------

  function Zeros(k: nat): (z: seq<Byte>)
    ensures |z| == k
  {
    seq(k, _ => 0)
  }

  /** The key, hashed if it is longer than a block, filled up with zeros. */
  function BlockKey(key: seq<Byte>): (b: seq<Byte>)
    ensures |b| == 64
  {
    var short := if |key| > 64 then Hash(key) else key;
    short + Zeros(64 - |short|)
  }

  function XorByte(a: Byte, b: Byte): Byte { a ^ b }

  function XorAll(b: seq<Byte>, pad: Byte): (x: seq<Byte>)
    ensures |x| == |b|
  {
    seq(|b|, i requires 0 <= i < |b| => XorByte(b[i], pad))
  }

  function Hmac(key: seq<Byte>, text: seq<Byte>): (t: seq<Byte>)
    ensures |t| == 32
  {
    Hash(XorAll(BlockKey(key), 0x5c) + Hash(XorAll(BlockKey(key), 0x36) + text))
  }

  /** Short keys count as if they were filled up with zeros, and long ones as their digests. */
  lemma EquivalentKeys(key: seq<Byte>, text: seq<Byte>)
    ensures |key| < 64 ==> Hmac(key + [0], text) == Hmac(key, text)
    ensures |key| > 64 ==> Hmac(Hash(key), text) == Hmac(key, text)
    ensures |key| == 64 ==> BlockKey(key) == key
  {
    hide Hash;
    if |key| < 64 {
      assert key + [0] + Zeros(63 - |key|) == key + Zeros(64 - |key|);
    }
    assert |key| == 64 ==> key + Zeros(0) == key;
  }

  /** RFC 2104 by its own words: with K a full block, H(K xor opad, H(K xor ipad, text)), where every byte of ipad is 0x36
      and every byte of opad 0x5c. */
  lemma HmacOfBlock(key: seq<Byte>, ipad: seq<Byte>, opad: seq<Byte>, text: seq<Byte>)
    requires |key| == |ipad| == |opad| == 64
    requires forall i | 0 <= i < 64 :: ipad[i] ^ key[i] == 0x36 && opad[i] ^ key[i] == 0x5c
    ensures Hmac(key, text) == Hash(opad + Hash(ipad + text))
  {
    hide Hash;
    EquivalentKeys(key, text);
    forall i | 0 <= i < 64 ensures XorAll(key, 0x36)[i] == ipad[i] && XorAll(key, 0x5c)[i] == opad[i] {
      XorBack(key[i], ipad[i], 0x36);
      XorBack(key[i], opad[i], 0x5c);
    }
    assert XorAll(key, 0x36) == ipad && XorAll(key, 0x5c) == opad;
  }

  lemma XorBack(k: Byte, p: Byte, pad: Byte)
    requires p ^ k == pad
    ensures XorByte(k, pad) == p
  {
  }

  /** T_1 || ... || T_l, where T_i = HMAC(P, S || INT(i)). */
  function DerivedBlocks(password: seq<Byte>, salt: seq<Byte>, l: nat): (t: seq<Byte>)
    ensures |t| == 32 * l
  {
    if l == 0 then [] else DerivedBlocks(password, salt, l - 1) + Hmac(password, salt + BigEndian(l, 4))
  }

  function BlockCount(bytes: nat): (l: nat)
    ensures 32 * l >= bytes && (l > 0 ==> 32 * (l - 1) < bytes)
  {
    (bytes + 31) / 32
  }

  function Pbkdf2(password: seq<Byte>, salt: seq<Byte>, bytes: nat): (dk: seq<Byte>)
    ensures |dk| == bytes
  {
    DerivedBlocks(password, salt, BlockCount(bytes))[..bytes]
  }

  function ScryptKey(password: seq<Byte>, salt: seq<Byte>, n: nat, r: nat, bytes: nat): (dk: seq<Byte>)
    requires n >= 1 && r >= 1
    ensures |dk| == bytes
  {
    Pbkdf2(password, ROMixBytes(Pbkdf2(password, salt, 128 * r), r, n), bytes)
  }

  lemma {:induction false} MoreBlocksExtend(password: seq<Byte>, salt: seq<Byte>, l: nat, l': nat)
    requires l <= l'
    ensures DerivedBlocks(password, salt, l) <= DerivedBlocks(password, salt, l')
  {
    hide Hmac;
    if l < l' {
      MoreBlocksExtend(password, salt, l, l' - 1);
    }
  }

  /** A shorter output is a prefix of a longer one. */
  lemma ShorterIsPrefix(password: seq<Byte>, salt: seq<Byte>, a: nat, b: nat)
    requires a <= b
    ensures Pbkdf2(password, salt, a) <= Pbkdf2(password, salt, b)
  {
    hide DerivedBlocks;
    MoreBlocksExtend(password, salt, BlockCount(a), BlockCount(b));
    var da, db := DerivedBlocks(password, salt, BlockCount(a)), DerivedBlocks(password, salt, BlockCount(b));
    assert da == db[..|da|];
    assert db[..b][..a] == db[..a] == da[..a];
  }

  // -- The source's forms --------------------------------------------------------------------------

  method HmacSha256(key: seq<Byte>, message: seq<Byte>) returns (out: Option<seq<Byte>>)
    ensures out.Some? <==> |key| + 72 < 0x8000_0000 && |message| + 136 < 0x8000_0000
    ensures out.Some? ==> out.value == Hmac(key, message)
  {
    hide Hash, XorByte;
    var short := key;
    if |key| > 64 {
      var hashed := Sha256Js(key);
      if hashed.None? {
        return None;
      }
      short := hashed.value;
    }
    var innerKey, outerKey := PadKey(short);
    assert innerKey == XorAll(BlockKey(key), 0x36) && outerKey == XorAll(BlockKey(key), 0x5c);
    hide BlockKey, XorAll;
    var digest := Sha256Js(innerKey + message);
    if digest.None? {
      return None;
    }
    out := Sha256Js(outerKey + digest.value);
  }

  lemma XorAllStep(b: seq<Byte>, i: nat, pad: Byte)
    requires i < |b|
    ensures XorAll(b[..i + 1], pad) == XorAll(b[..i], pad) + [XorByte(b[i], pad)]
  {
    hide XorByte;
  }

  /** The key block and the loop that masks it for the inner and the outer hash. */
  method PadKey(short: seq<Byte>) returns (inner: seq<Byte>, outer: seq<Byte>)
    requires |short| <= 64
    ensures inner == XorAll(short + Zeros(64 - |short|), 0x36)
    ensures outer == XorAll(short + Zeros(64 - |short|), 0x5c)
  {
    hide XorByte, XorAll;
    var block := new Byte[64](_ => 0);
    SetAt(block, short, 0);
    ghost var b := block[..];
    assert b == short + Zeros(64 - |short|);
    var i0, o0 := new Byte[64](_ => 0), new Byte[64](_ => 0);
    var i := 0;
    while i < 64
      invariant 0 <= i <= 64
      invariant i0[..i] == XorAll(b[..i], 0x36) && o0[..i] == XorAll(b[..i], 0x5c)
      modifies i0, o0
    {
      XorAllStep(b, i, 0x36);
      XorAllStep(b, i, 0x5c);
      i0[i] := XorByte(block[i], 0x36);
      o0[i] := XorByte(block[i], 0x5c);
      i := i + 1;
    }
    assert b[..64] == b && i0[..64] == i0[..] && o0[..64] == o0[..];
    inner, outer := i0[..], o0[..];
  }

  predicate Hashable(password: seq<Byte>, saltLength: nat) {
    |password| + 72 < 0x8000_0000 && saltLength + 140 < 0x8000_0000
  }

  lemma DerivedNext(password: seq<Byte>, salt: seq<Byte>, i: nat, before: seq<Byte>, part: seq<Byte>, t: seq<Byte>)
    requires i >= 1 && t == Hmac(password, salt + BigEndian(i, 4)) && part <= t
    requires |before| == 32 * (i - 1) && before == DerivedBlocks(password, salt, i - 1)[..|before|]
    ensures before + part == DerivedBlocks(password, salt, i)[..|before| + |part|]
  {
    hide Hmac, BigEndian;
  }

  method Pbkdf2Js(password: seq<Byte>, salt: seq<Byte>, bytes: nat) returns (out: Option<seq<Byte>>)
    ensures out.Some? <==> bytes == 0 || Hashable(password, |salt|)
    ensures out.Some? ==> out.value == Pbkdf2(password, salt, bytes)
  {
    hide Hmac, BytesBE, ToWord, BigEndian, DerivedBlocks;
    var derived := new Byte[bytes](_ => 0);
    var msg := new Byte[|salt| + 4](_ => 0);
    SetAt(msg, salt, 0);
    var i, off := 1, 0;
    while off < bytes
      invariant 1 <= i && off == 32 * (i - 1) && i - 1 <= BlockCount(bytes)
      invariant msg[..|salt|] == salt
      invariant i > 1 ==> Hashable(password, |salt|)
      invariant var done := if off <= bytes then off else bytes;
        derived[..done] == DerivedBlocks(password, salt, i - 1)[..done]
    {
      SetAt(msg, BytesBE(ToWord(i)), |salt|);
      SetUint32IsBigEndian(i);
      assert msg[..] == salt + BigEndian(i, 4);
      var t := HmacSha256(password, msg[..]);
      if t.None? {
        return None;
      }
      var part := t.value[..if 32 <= bytes - off then 32 else bytes - off];
      ghost var before := derived[..off];
      SetAt(derived, part, off);
      assert derived[..off + |part|] == before + part;
      DerivedNext(password, salt, i, before, part, t.value);
      i, off := i + 1, off + 32;
    }
    assert i - 1 == BlockCount(bytes);
    assert derived[..bytes] == derived[..];
    out := Some(derived[..]);
  }

  lemma CostInRange(n: nat, r: nat, limit: nat)
    requires r >= 1 && 32 * r * n <= limit < 0x20_0000_0000
    ensures n < 0x1_0000_0000
  {
    assert 32 * r * n == 32 * (r * n) && r * n >= n;
  }

  /** `scrypt` on a page without WebCrypto and WebAssembly, in an engine whose typed arrays have fewer than 2^37 elements.
      The test for a power of two looks at 32 bits only; the larger costs that pass it fail in the allocation. */
  method ScryptJs(password: seq<Byte>, salt: seq<Byte>, n: nat, r: nat, bytes: nat, limit: nat)
    returns (out: Option<seq<Byte>>)
    requires r >= 1 && limit < 0x20_0000_0000
    ensures out.Some? <==> && n >= 2 && 32 * r * n <= limit && IsPowerOfTwo(n)
                           && Hashable(password, |salt|) && (bytes == 0 || Hashable(password, 128 * r))
    ensures out.Some? ==> out.value == ScryptKey(password, salt, n, r, bytes)
  {
    hide ROMixBytes, Pbkdf2, ToWord, DisjointBits, Weight;
    if n < 2 {
      return None;
    }
    if 32 * r * n <= limit {
      CostInRange(n, r, limit);
      PowerOfTwoTest(n);
    }
    if !DisjointBits(ToWord(n), ToWord(n - 1)) {
      return None;
    }
    var b := Pbkdf2Js(password, salt, 128 * r);
    if b.None? {
      return None;
    }
    ghost var k: bv32 := 0;
    if 32 * r * n <= limit {
      k :| k <= 31 && n == Weight(k);
    }
    var mixed := RomixJs(b.value, n, r, limit, k);
    if mixed.None? {
      return None;
    }
    out := Pbkdf2Js(password, mixed.value, bytes);
  }
}
