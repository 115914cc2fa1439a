/**
 The leading zero bits of a digest, as the solver and both servers count them.
 */
module LeadingZeros {
  import opened Words

  /** The bits of a byte, most significant first. */
  function BitsOfByte(b: Byte): (s: seq<bool>)
    ensures |s| == 8
  {
    [b & 128 != 0, b & 64 != 0, b & 32 != 0, b & 16 != 0, b & 8 != 0, b & 4 != 0, b & 2 != 0, b & 1 != 0]
  }

  function BitsOf(bytes: seq<Byte>): (s: seq<bool>)
    ensures |s| == 8 * |bytes|
  {
    if bytes == [] then [] else BitsOfByte(bytes[0]) + BitsOf(bytes[1..])
  }

  /** k is the length of the longest prefix of zero bits. */
  ghost predicate IsZeroPrefix(s: seq<bool>, k: nat) {
    && k <= |s|
    && (forall i | 0 <= i < k :: !s[i])
    && (k < |s| ==> s[k])
  }

  /** `Math.clz32(byte) - 24`, which is 8 minus Python's `bit_length`. */
  function LeadingZerosOfByte(b: Byte): (k: nat)
    ensures IsZeroPrefix(BitsOfByte(b), k)
  {
    if b >= 128 then 0 else if b >= 64 then 1 else if b >= 32 then 2 else if b >= 16 then 3
    else if b >= 8 then 4 else if b >= 4 then 5 else if b >= 2 then 6 else if b >= 1 then 7 else 8
  }

  lemma {:induction false} BitsSplit(bytes: seq<Byte>, i: nat)
    requires i < |bytes|
    ensures BitsOf(bytes)[8 * i..8 * i + 8] == BitsOfByte(bytes[i])
  {
    hide BitsOfByte;
    if i > 0 {
      BitsSplit(bytes[1..], i - 1);
      assert BitsOf(bytes)[8 * i..8 * i + 8] == BitsOf(bytes[1..])[8 * (i - 1)..8 * (i - 1) + 8];
    }
  }

  /** The number of leading zero bits. */
  function Zeros(bytes: seq<Byte>): (k: nat)
    ensures IsZeroPrefix(BitsOf(bytes), k)
  {
    if bytes == [] then 0
    else
      var own := LeadingZerosOfByte(bytes[0]);
      if own < 8 then own else 8 + Zeros(bytes[1..])
  }

  lemma ZeroPrefixIsUnique(s: seq<bool>, j: nat, k: nat)
    requires IsZeroPrefix(s, j) && IsZeroPrefix(s, k)
    ensures j == k
  {
  }

  method LeadingZeroBits(bytes: seq<Byte>) returns (bits: nat)
    ensures IsZeroPrefix(BitsOf(bytes), bits) && bits == Zeros(bytes)
  {
    hide BitsOfByte, BitsOf, Zeros;
    bits := 0;
    ghost var all := BitsOf(bytes);
    for i := 0 to |bytes|
      invariant bits == 8 * i
      invariant forall j | 0 <= j < bits :: !all[j]
    {
      BitsSplit(bytes, i);
      ghost var own := BitsOfByte(bytes[i]);
      assert forall j | 0 <= j < 8 :: all[8 * i + j] == own[j];
      var zeros := LeadingZerosOfByte(bytes[i]);
      if bytes[i] == 0 {
        bits := bits + 8;
        continue;
      }
      ZeroPrefixIsUnique(all, bits + zeros, Zeros(bytes));
      return bits + zeros;
    }
    ZeroPrefixIsUnique(all, bits, Zeros(bytes));
  }

  /** A digest passes a difficulty of `bits` exactly when its first `bits` bits are zero. */
  lemma {:induction false} PassesIffZeroPrefix(digest: seq<Byte>, zeros: nat, bits: nat)
    requires IsZeroPrefix(BitsOf(digest), zeros) && bits <= 8 * |digest|
    ensures zeros >= bits <==> forall i | 0 <= i < bits :: !BitsOf(digest)[i]
  {
    hide BitsOf;
  }
}
