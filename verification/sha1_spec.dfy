/** The SHA-1 hash function of FIPS 180-4, on messages of whole bytes. */
module Sha1Spec {

  // Section 3.2 (operation 5) and section 4.1.1.
  function Rotl1(x: bv32): bv32 { (x << 1) | (x >> 31) }
  function Rotl5(x: bv32): bv32 { (x << 5) | (x >> 27) }
  function Rotl30(x: bv32): bv32 { (x << 30) | (x >> 2) }

  function Ch(x: bv32, y: bv32, z: bv32): bv32 { (x & y) ^ (!x & z) }
  function Parity(x: bv32, y: bv32, z: bv32): bv32 { x ^ y ^ z }
  function Maj(x: bv32, y: bv32, z: bv32): bv32 { (x & y) ^ (x & z) ^ (y & z) }

  function F(t: nat, x: bv32, y: bv32, z: bv32): bv32 {
    if t < 20 then Ch(x, y, z)
    else if t < 40 then Parity(x, y, z)
    else if t < 60 then Maj(x, y, z)
    else Parity(x, y, z)
  }

  // Section 4.2.1.
  function K(t: nat): bv32 {
    if t < 20 then 0x5a827999
    else if t < 40 then 0x6ed9eba1
    else if t < 60 then 0x8f1bbcdc
    else 0xca62c1d6
  }

  /** The working variables, and equally the hash value H0..H4. */
  datatype Regs = Regs(a: bv32, b: bv32, c: bv32, d: bv32, e: bv32)

  // Section 5.3.1.
  const IV := Regs(0x67452301, 0xefcdab89, 0x98badcfe, 0x10325476, 0xc3d2e1f0)

  // Section 6.1.2, step 1: the 80-word message schedule.
  function NextW(w3: bv32, w8: bv32, w14: bv32, w16: bv32): bv32 {
    Rotl1(w3 ^ w8 ^ w14 ^ w16)
  }

  function Schedule(block: seq<bv32>, t: nat): bv32
    requires |block| == 16
  {
    if t < 16 then block[t]
    else NextW(Schedule(block, t - 3), Schedule(block, t - 8), Schedule(block, t - 14), Schedule(block, t - 16))
  }

  // Section 6.1.2, step 3.
  function Temp(rotl5a: bv32, f: bv32, e: bv32, k: bv32, w: bv32): bv32 {
    rotl5a + f + e + k + w
  }

  function Round(r: Regs, t: nat, w: bv32): Regs {
    Regs(Temp(Rotl5(r.a), F(t, r.b, r.c, r.d), r.e, K(t), w), r.a, Rotl30(r.b), r.c, r.d)
  }

  function Rounds(h: Regs, block: seq<bv32>, t: nat): Regs
    requires |block| == 16
  {
    if t == 0 then h else Round(Rounds(h, block, t - 1), t - 1, Schedule(block, t - 1))
  }

  // Section 6.1.2, step 4.
  function Plus(x: bv32, y: bv32): bv32 { x + y }

  /** Addition drops the carry. */
  lemma PlusIsSum(x: bv32, y: bv32)
    ensures Plus(x, y) as bv64 == (x as bv64 + y as bv64) & 0xffff_ffff
  {
  }

  function Add(h: Regs, r: Regs): Regs {
    Regs(Plus(h.a, r.a), Plus(h.b, r.b), Plus(h.c, r.c), Plus(h.d, r.d), Plus(h.e, r.e))
  }

  function Compress(h: Regs, block: seq<bv32>): Regs
    requires |block| == 16
  {
    Add(h, Rounds(h, block, 80))
  }

  // ----- bytes and words (section 3.1) -----

  function Word(b0: bv8, b1: bv8, b2: bv8, b3: bv8): bv32 {
    ((b0 as bv32) << 24) | ((b1 as bv32) << 16) | ((b2 as bv32) << 8) | (b3 as bv32)
  }

  /** Byte n of a word, counted from its most significant end. */
  function ByteOf(w: bv32, n: nat): bv8
    requires n < 4
  {
    if n == 0 then (w >> 24) as bv8
    else if n == 1 then ((w >> 16) & 0xff) as bv8
    else if n == 2 then ((w >> 8) & 0xff) as bv8
    else (w & 0xff) as bv8
  }

  function BytesOf(w: bv32): seq<bv8> {
    [ByteOf(w, 0), ByteOf(w, 1), ByteOf(w, 2), ByteOf(w, 3)]
  }

  // Section 5.2.1.
  function BlockWords(m: seq<bv8>, n: nat): (ws: seq<bv32>)
    requires 64 * n + 64 <= |m|
    ensures |ws| == 16
  {
    seq(16, i requires 0 <= i < 16 =>
      Word(m[64 * n + 4 * i], m[64 * n + 4 * i + 1], m[64 * n + 4 * i + 2], m[64 * n + 4 * i + 3]))
  }

  // Section 5.1.1; the length of a message in bits must fit in 64 bits.
  function PadZeros(len: nat): nat {
    (119 - len % 64) % 64
  }

  lemma PaddedLength(len: nat)
    ensures (len + 9 + PadZeros(len)) % 64 == 0
  {
    var q, r := len / 64, len % 64;
    assert len + 9 + PadZeros(len) == 64 * q + r + 9 + PadZeros(len);
    assert r <= 55 ==> PadZeros(len) == 55 - r;
    assert r > 55 ==> PadZeros(len) == 119 - r;
    assert (64 * q + 64) % 64 == 0 && (64 * q + 128) % 64 == 0;
  }

  function LengthField(len: nat): (s: seq<bv8>)
    requires len < 0x2000_0000_0000_0000
    ensures |s| == 8
  {
    BytesOf((8 * len / 0x1_0000_0000) as bv32) + BytesOf((8 * len % 0x1_0000_0000) as bv32)
  }

  function Pad(m: seq<bv8>): (p: seq<bv8>)
    requires |m| < 0x2000_0000_0000_0000
    ensures |p| == |m| + 9 + PadZeros(|m|) && |p| % 64 == 0
  {
    PaddedLength(|m|);
    m + [0x80] + seq(PadZeros(|m|), _ => 0) + LengthField(|m|)
  }

  /** The hash value after the first n blocks. */
  function Chain(m: seq<bv8>, n: nat): Regs
    requires 64 * n <= |m|
  {
    if n == 0 then IV else Compress(Chain(m, n - 1), BlockWords(m, n - 1))
  }

  function Digest(h: Regs): seq<bv8> {
    BytesOf(h.a) + BytesOf(h.b) + BytesOf(h.c) + BytesOf(h.d) + BytesOf(h.e)
  }

  function Sha1(m: seq<bv8>): seq<bv8>
    requires |m| < 0x2000_0000_0000_0000
  {
    Digest(Chain(Pad(m), |Pad(m)| / 64))
  }

  // ----- bit by bit -----

  /** Bit k, counted from the least significant one. */
  function Bit(x: bv32, k: bv5): bv32 { (x >> k) & 1 }

  predicate IsSet(x: bv32, k: bv5) { Bit(x, k) == 1 }

  lemma BitIsBit(x: bv32, k: bv5)
    ensures Bit(x, k) == 0 || Bit(x, k) == 1
  {
  }

  /** A rotation moves each bit, modulo 32. */
  lemma RotationsByBit(x: bv32, k: bv5)
    ensures Bit(Rotl1(x), k + 1) == Bit(x, k)
    ensures Bit(Rotl5(x), k + 5) == Bit(x, k)
    ensures Bit(Rotl30(x), k + 30) == Bit(x, k)
  {
  }

  function Xor4(a: bv32, b: bv32, c: bv32, d: bv32): bv32 { a ^ b ^ c ^ d }

  lemma BitOfXor4(a: bv32, b: bv32, c: bv32, d: bv32, k: bv5)
    ensures Bit(Xor4(a, b, c, d), k) == Xor4(Bit(a, k), Bit(b, k), Bit(c, k), Bit(d, k))
  {
    assert ((a ^ b ^ c ^ d) >> k) & 1 == ((a >> k) & 1) ^ ((b >> k) & 1) ^ ((c >> k) & 1) ^ ((d >> k) & 1);
  }

  lemma Xor4OfBits(a: bv32, b: bv32, c: bv32, d: bv32)
    requires (a == 0 || a == 1) && (b == 0 || b == 1) && (c == 0 || c == 1) && (d == 0 || d == 1)
    ensures Xor4(a, b, c, d) == 1 <==> ((a == 1) != ((b == 1) != ((c == 1) != (d == 1))))
  {
  }

  lemma Xor4ByBit(a: bv32, b: bv32, c: bv32, d: bv32, k: bv5)
    ensures IsSet(Xor4(a, b, c, d), k) <==> (IsSet(a, k) != (IsSet(b, k) != (IsSet(c, k) != IsSet(d, k))))
  {
    hide Bit, Xor4;
    BitIsBit(a, k);
    BitIsBit(b, k);
    BitIsBit(c, k);
    BitIsBit(d, k);
    BitOfXor4(a, b, c, d, k);
    Xor4OfBits(Bit(a, k), Bit(b, k), Bit(c, k), Bit(d, k));
  }

  lemma ParityIsXor(x: bv32, y: bv32, z: bv32)
    ensures Parity(x, y, z) == Xor4(x, y, z, 0)
  {
  }

  lemma ZeroHasNoBits(k: bv5)
    ensures !IsSet(0, k)
  {
  }

  lemma ParityByBit(x: bv32, y: bv32, z: bv32, k: bv5)
    ensures IsSet(Parity(x, y, z), k) <==> (IsSet(x, k) != (IsSet(y, k) != IsSet(z, k)))
  {
    hide IsSet, Parity, Xor4;
    ParityIsXor(x, y, z);
    ZeroHasNoBits(k);
    Xor4ByBit(x, y, z, 0, k);
  }

  lemma NextWIsRotated(a: bv32, b: bv32, c: bv32, d: bv32)
    ensures NextW(a, b, c, d) == Rotl1(Xor4(a, b, c, d))
  {
  }

  lemma NextWByBit(a: bv32, b: bv32, c: bv32, d: bv32, k: bv5)
    ensures IsSet(NextW(a, b, c, d), k + 1) <==> IsSet(Xor4(a, b, c, d), k)
  {
    hide Bit, NextW, Xor4;
    NextWIsRotated(a, b, c, d);
    RotationsByBit(Xor4(a, b, c, d), k);
  }

  /** The schedule bit by bit: a bit of word t is the parity of the bits one place below it, going
      round, in the words 3, 8, 14 and 16 before. The first sixteen words are the block. */
  lemma ScheduleByBit(block: seq<bv32>, t: nat, k: bv5)
    requires |block| == 16
    ensures t < 16 ==> Schedule(block, t) == block[t]
    ensures t >= 16 ==>
      (IsSet(Schedule(block, t), k + 1)
       <==> (IsSet(Schedule(block, t - 3), k) != (IsSet(Schedule(block, t - 8), k)
             != (IsSet(Schedule(block, t - 14), k) != IsSet(Schedule(block, t - 16), k)))))
  {
    hide IsSet, NextW, Xor4;
    if t >= 16 {
      NextWByBit(Schedule(block, t - 3), Schedule(block, t - 8), Schedule(block, t - 14), Schedule(block, t - 16), k);
      Xor4ByBit(Schedule(block, t - 3), Schedule(block, t - 8), Schedule(block, t - 14), Schedule(block, t - 16), k);
    }
  }

  /** The hash value after n blocks depends on those blocks only. */
  lemma {:induction false} ChainPrefix(m: seq<bv8>, m': seq<bv8>, n: nat)
    requires 64 * n <= |m| && 64 * n <= |m'| && m[..64 * n] == m'[..64 * n]
    ensures Chain(m, n) == Chain(m', n)
  {
    if n > 0 {
      assert m[..64 * n][..64 * (n - 1)] == m'[..64 * n][..64 * (n - 1)];
      assert m[..64 * (n - 1)] == m'[..64 * (n - 1)];
      ChainPrefix(m, m', n - 1);
      assert forall i :: 0 <= i < 64 * n ==> m[..64 * n][i] == m[i] && m'[..64 * n][i] == m'[i];
      assert BlockWords(m, n - 1) == BlockWords(m', n - 1);
    }
  }
}
