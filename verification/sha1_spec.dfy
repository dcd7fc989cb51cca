/**
  The secure hash of FIPS PUB 180-1: padding (section 4), the functions and constants (sections 5
  and 6) and the computation of the digest as a fold of the block function (section 7).
 */
module Sha1Spec {
  import opened Bytes

  /** Sixty-four bits of message length, counted in bits. */
  const LENGTH_LIMIT: nat := 0x1_0000_0000_0000_0000

  datatype Hash = Hash(a: bv32, b: bv32, c: bv32, d: bv32, e: bv32)

  const START := Hash(0x67452301, 0xEFCDAB89, 0x98BADCFE, 0x10325476, 0xC3D2E1F0)

  type Block = b: seq<Byte> | |b| == 64 witness seq(64, _ => 0)

  /** SHA1CircularShift */
  function Rotate(x: bv32, n: bv6): bv32
    requires 0 < n < 32
  {
    (x << n) | (x >> (32 - n))
  }

  /** Four octets, the first one most significant. */
  function Word(b0: Byte, b1: Byte, b2: Byte, b3: Byte): bv32 {
    ((b0 as bv32) << 24) | ((b1 as bv32) << 16) | ((b2 as bv32) << 8) | (b3 as bv32)
  }

  /** The last octet of a word, as a cast to uint8_t takes it. */
  function LastOctet(w: bv32): Byte { ((w & 0xFF) as bv8) as nat }

  /** Octet k of a word, counted from the left. */
  function OctetAt(w: bv32, k: nat): Byte {
    LastOctet(if k == 0 then w >> 24 else if k == 1 then w >> 16 else if k == 2 then w >> 8 else w)
  }

  function Octets(w: bv32): (r: seq<Byte>)
    ensures |r| == 4
  {
    [OctetAt(w, 0), OctetAt(w, 1), OctetAt(w, 2), OctetAt(w, 3)]
  }

  function Xor(a: bv32, b: bv32, c: bv32, d: bv32): bv32 { a ^ b ^ c ^ d }

  /** The word sequence W of a block. */
  function W(b: Block, t: nat): bv32 {
    if t < 16 then Word(b[4 * t], b[4 * t + 1], b[4 * t + 2], b[4 * t + 3])
    else Rotate(Xor(W(b, t - 3), W(b, t - 8), W(b, t - 14), W(b, t - 16)), 1)
  }

  /** f(t; B, C, D) */
  function F(t: nat, b: bv32, c: bv32, d: bv32): bv32 {
    if t < 20 then (b & c) | ((!b) & d)
    else if t < 40 then b ^ c ^ d
    else if t < 60 then (b & c) | (b & d) | (c & d)
    else b ^ c ^ d
  }

  /** K(t) */
  function K(t: nat): bv32 {
    if t < 20 then 0x5A827999 else if t < 40 then 0x6ED9EBA1 else if t < 60 then 0x8F1BBCDC else 0xCA62C1D6
  }

  /** X + Y, modulo 2^32. */
  function Plus(x: bv32, y: bv32): bv32 { x + y }

  function Round(h: Hash, t: nat, w: bv32): Hash {
    Hash(Plus(Plus(Plus(Plus(Rotate(h.a, 5), F(t, h.b, h.c, h.d)), h.e), w), K(t)), h.a, Rotate(h.b, 30), h.c, h.d)
  }

  function Rounds(h: Hash, b: Block, t: nat): Hash {
    if t == 0 then h else Round(Rounds(h, b, t - 1), t - 1, W(b, t - 1))
  }

  function Sum(h: Hash, x: Hash): Hash { 
    Hash(Plus(h.a, x.a), Plus(h.b, x.b), Plus(h.c, x.c), Plus(h.d, x.d), Plus(h.e, x.e))
  }

  /** What processing one block makes of the intermediate hash. */
  function Compress(h: Hash, b: Block): Hash { Sum(h, Rounds(h, b, 80)) }

  /** The fold of the block function over the whole blocks of a string. */
  function Fold(h: Hash, bytes: seq<Byte>): Hash
    decreases |bytes|
  {
    if |bytes| < 64 then h else Fold(Compress(h, bytes[..64]), bytes[64..])
  }

  function Zeros(n: nat): (r: seq<Byte>)
    ensures |r| == n
  {
    seq(n, _ => 0)
  }

  /** A 32-bit number as four octets, the most significant first. */
  function Octets32(n: nat): (r: seq<Byte>)
    ensures |r| == 4
  {
    [n / 0x100_0000 % 0x100, n / 0x1_0000 % 0x100, n / 0x100 % 0x100, n % 0x100]
  }

  /** The two-word representation of the length of the message. */
  function LengthField(bits: nat): (r: seq<Byte>)
    ensures |r| == 8
  {
    Octets32(bits / 0x1_0000_0000) + Octets32(bits % 0x1_0000_0000)
  }

  /** How many zero octets make the padded message a multiple of 512 bits long. */
  function Gap(n: nat): nat { (119 - n % 64) % 64 }

  /** A one bit, zeros, and the length. */
  function Pad(m: seq<Byte>): (r: seq<Byte>) {
    m + [0x80] + Zeros(Gap(|m|)) + LengthField(8 * |m|)
  }

  function Digest(h: Hash): (r: seq<Byte>)
    ensures |r| == 20
  {
    Octets(h.a) + Octets(h.b) + Octets(h.c) + Octets(h.d) + Octets(h.e)
  }

  /** The message digest. */
  function Sha1(m: seq<Byte>): seq<Byte> { Digest(Fold(START, Pad(m))) }

  lemma GapFits(n: nat)
    ensures (n + 1 + Gap(n) + 8) % 64 == 0 && Gap(n) < 64
  {
  }

  /** A message and its padding fill whole blocks, and no more of them than necessary. */
  lemma {:induction false} PadFillsBlocks(m: seq<Byte>)
    ensures |Pad(m)| % 64 == 0 && |m| + 9 <= |Pad(m)| < |m| + 9 + 64
  {
    hide LengthField, Gap;
    GapFits(|m|);
  }

  /** Blocks can be folded in as they come. */
  lemma {:induction false} FoldInParts(h: Hash, a: seq<Byte>, b: seq<Byte>)
    requires |a| % 64 == 0
    ensures Fold(h, a + b) == Fold(Fold(h, a), b)
    decreases |a|
  {
    if a == [] {
      assert a + b == b;
    } else {
      assert (a + b)[..64] == a[..64];
      assert (a + b)[64..] == a[64..] + b;
      FoldInParts(Compress(h, a[..64]), a[64..], b);
    }
  }

  lemma FoldOne(h: Hash, b: Block)
    ensures Fold(h, b) == Compress(h, b)
  {
    assert b[..64] == b && b[64..] == [];
  }

  lemma {:induction false} Octets32Injective(x: nat, y: nat)
    requires x < 0x1_0000_0000 && y < 0x1_0000_0000 && Octets32(x) == Octets32(y)
    ensures x == y
  {
    var s, t := Octets32(x), Octets32(y);
    assert s[0] == t[0] && s[1] == t[1] && s[2] == t[2] && s[3] == t[3];
    FourOctets(x);
    FourOctets(y);
  }

  lemma FourOctets(x: nat)
    requires x < 0x1_0000_0000
    ensures x == x / 0x100_0000 % 0x100 * 0x100_0000 + x / 0x1_0000 % 0x100 * 0x1_0000
                 + x / 0x100 % 0x100 * 0x100 + x % 0x100
  {
    assert x / 0x100 == 0x100 * (x / 0x1_0000) + x / 0x100 % 0x100;
    assert x / 0x1_0000 == 0x100 * (x / 0x100_0000) + x / 0x1_0000 % 0x100;
    assert x / 0x100_0000 < 0x100;
  }

  /** Two messages with the same padded form are the same: padding loses nothing. */
  lemma {:induction false} PadIsInjective(m: seq<Byte>, n: seq<Byte>)
    requires 8 * |m| < LENGTH_LIMIT && 8 * |n| < LENGTH_LIMIT && Pad(m) == Pad(n)
    ensures m == n
  {
    hide Octets32;
    var p, q := Pad(m), Pad(n);
    assert p[|p| - 8..] == LengthField(8 * |m|);
    assert q[|q| - 8..] == LengthField(8 * |n|);
    LengthFieldInjective(8 * |m|, 8 * |n|);
    assert p[..|m|] == m && q[..|n|] == n;
  }

  lemma LengthFieldInjective(x: nat, y: nat)
    requires x < LENGTH_LIMIT && y < LENGTH_LIMIT && LengthField(x) == LengthField(y)
    ensures x == y
  {
    hide Octets32;
    assert LengthField(x)[..4] == Octets32(x / 0x1_0000_0000) && LengthField(y)[..4] == Octets32(y / 0x1_0000_0000);
    assert LengthField(x)[4..] == Octets32(x % 0x1_0000_0000) && LengthField(y)[4..] == Octets32(y % 0x1_0000_0000);
    Octets32Injective(x / 0x1_0000_0000, y / 0x1_0000_0000);
    Octets32Injective(x % 0x1_0000_0000, y % 0x1_0000_0000);
  }
}
