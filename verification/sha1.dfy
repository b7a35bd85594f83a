/** The streaming SHA-1 of salt-patch-src/sha1.c. */
module Sha1Code {
  import opened Words
  import opened Sha1Spec
  import opened Sha1Bytes
  import opened Sha1Padding

  // ----- the block function -----

  function Rotr2(x: bv32): bv32 { (x >> 2) | (x << 30) }
  function Rotr27(x: bv32): bv32 { (x >> 27) | (x << 5) }

  function FastCh(x: bv32, y: bv32, z: bv32): bv32 { z ^ (x & (y ^ z)) }
  function FastMaj(x: bv32, y: bv32, z: bv32): bv32 { (x & y) | (z & (x ^ y)) }

  lemma FastChIsCh(x: bv32, y: bv32, z: bv32)
    ensures FastCh(x, y, z) == Ch(x, y, z)
  {
    assert z ^ (x & (y ^ z)) == (x & y) ^ (!x & z);
  }

  lemma FastMajIsMaj(x: bv32, y: bv32, z: bv32)
    ensures FastMaj(x, y, z) == Maj(x, y, z)
  {
    assert (x & y) | (z & (x ^ y)) == (x & y) ^ (x & z) ^ (y & z);
  }

  lemma RightRotations(x: bv32)
    ensures Rotr27(x) == Rotl5(x) && Rotr2(x) == Rotl30(x)
  {
  }

  /** What one_cycle leaves in the register called e. */
  function InPlaceSum(e: bv32, rotr27a: bv32, f: bv32, k: bv32, h: bv32): bv32 {
    e + (rotr27a + f + k + h)
  }

  lemma InPlaceSumIsTemp(e: bv32, x: bv32, f: bv32, k: bv32, h: bv32)
    ensures InPlaceSum(e, x, f, k, h) == Temp(x, f, e, k, h)
  {
  }

  /** The code's arrangement of a round is the standard's. */
  lemma RoundInPlace(r: Regs, t: nat, h: bv32)
    ensures Round(r, t, h) ==
      Regs(InPlaceSum(r.e, Rotr27(r.a), F(t, r.b, r.c, r.d), K(t), h), r.a, Rotr2(r.b), r.c, r.d)
  {
    RightRotations(r.a);
    RightRotations(r.b);
    InPlaceSumIsTemp(r.e, Rotl5(r.a), F(t, r.b, r.c, r.d), K(t), h);
  }

  /** f is what the standard uses in round t. */
  ghost predicate IsF(f: (bv32, bv32, bv32) -> bv32, t: nat) {
    forall x, y, z :: f(x, y, z) == F(t, x, y, z)
  }

  /** Five words read as the working variables, in the order the indices give. */
  function View(v: seq<bv32>, a: nat, b: nat, c: nat, d: nat, e: nat): Regs
    requires |v| == 5 && a < 5 && b < 5 && c < 5 && d < 5 && e < 5
  {
    Regs(v[a], v[b], v[c], v[d], v[e])
  }

  /** One round. Nothing is moved: the register called e becomes the next a. */
  method OneCycle(v: array<bv32>, a: nat, b: nat, c: nat, d: nat, e: nat,
                  f: (bv32, bv32, bv32) -> bv32, k: bv32, h: bv32, ghost t: nat)
    requires v.Length == 5 && a < 5 && b < 5 && c < 5 && d < 5 && e < 5
    requires b == (a + 1) % 5 && c == (a + 2) % 5 && d == (a + 3) % 5 && e == (a + 4) % 5
    requires IsF(f, t) && k == K(t)
    modifies v
    ensures View(v[..], e, a, b, c, d) == Round(old(View(v[..], a, b, c, d, e)), t, h)
  {
    RoundInPlace(View(v[..], a, b, c, d, e), t, h);
    v[e] := InPlaceSum(v[e], Rotr27(v[a]), f(v[b], v[c], v[d]), k, h);
    v[b] := Rotr2(v[b]);
  }

  /** Before round t the sixteen buffer words are the schedule's last sixteen. */
  ghost predicate Window(w: seq<bv32>, block: seq<bv32>, t: nat) {
    && |w| == 16 && |block| == 16
    && forall j :: 0 <= j && t - 16 <= j && (j < t || j < 16) ==> w[j % 16] == Schedule(block, j)
  }

  lemma WindowGivesNext(w: seq<bv32>, block: seq<bv32>, t: nat)
    requires Window(w, block, t)
    ensures t < 16 ==> w[t] == Schedule(block, t)
    ensures t >= 16 ==> NextW(w[(t + 13) % 16], w[(t + 8) % 16], w[(t + 2) % 16], w[t % 16]) == Schedule(block, t)
  {
    if t < 16 {
      assert w[t % 16] == Schedule(block, t);
    } else {
      assert w[(t + 13) % 16] == Schedule(block, t - 3) by { assert (t + 13) % 16 == (t - 3) % 16; }
      assert w[(t + 8) % 16] == Schedule(block, t - 8) by { assert (t + 8) % 16 == (t - 8) % 16; }
      assert w[(t + 2) % 16] == Schedule(block, t - 14) by { assert (t + 2) % 16 == (t - 14) % 16; }
      assert w[t % 16] == Schedule(block, t - 16) by { assert t % 16 == (t - 16) % 16; }
    }
  }

  /** rotl32 by one place, as the code shifts. */
  function Mixed(a: bv32, b: bv32, c: bv32, d: bv32): bv32 {
    ((a ^ b ^ c ^ d) << 1) | ((a ^ b ^ c ^ d) >> 31)
  }

  lemma MixedIsNext(a: bv32, b: bv32, c: bv32, d: bv32)
    ensures Mixed(a, b, c, d) == NextW(a, b, c, d)
  {
  }

  lemma SlotsApart(j: nat, t: nat)
    requires t - 16 < j < t
    ensures j % 16 != t % 16
  {
  }

  lemma WindowSlides(w: seq<bv32>, w': seq<bv32>, block: seq<bv32>, t: nat)
    requires Window(w, block, t) && w' == if t < 16 then w else w[t % 16 := Schedule(block, t)]
    ensures Window(w', block, t + 1)
  {
    forall j | 0 <= j && t + 1 - 16 <= j && (j < t + 1 || j < 16)
      ensures w'[j % 16] == Schedule(block, j)
    {
      if j != t {
        assert w[j % 16] == Schedule(block, j);
        if j < t {
          SlotsApart(j, t);
        }
      } else if t < 16 {
        assert w[t % 16] == Schedule(block, t);
      }
    }
  }

  /** The schedule word of round t; from round 16 on it overwrites the oldest buffer word. */
  method NextWord(w: array<bv32>, t: nat, ghost block: seq<bv32>) returns (h: bv32)
    requires w.Length == 16 && Window(w[..], block, t)
    modifies w
    ensures h == Schedule(block, t)
    ensures Window(w[..], block, t + 1)
  {
    hide Mixed, NextW;
    ghost var before := w[..];
    WindowGivesNext(before, block, t);
    if t < 16 {
      h := w[t];
    } else {
      h := Mixed(w[(t + 13) % 16], w[(t + 8) % 16], w[(t + 2) % 16], w[t % 16]);
      MixedIsNext(w[(t + 13) % 16], w[(t + 8) % 16], w[(t + 2) % 16], w[t % 16]);
      w[t % 16] := h;
    }
    WindowSlides(before, w[..], block, t);
  }

  /** Before round t: the buffer is the schedule's window, and the registers, in the order
      a..e, hold the working variables. */
  ghost predicate Running(v: seq<bv32>, w: seq<bv32>, a: nat, b: nat, c: nat, d: nat, e: nat,
                          h: Regs, block: seq<bv32>, t: nat)
  {
    && |v| == 5 && a < 5 && b < 5 && c < 5 && d < 5 && e < 5
    && Window(w, block, t)
    && View(v, a, b, c, d, e) == Rounds(h, block, t)
  }

  /** one_cycle with its schedule word. */
  method Cycle(v: array<bv32>, w: array<bv32>, a: nat, b: nat, c: nat, d: nat, e: nat,
               f: (bv32, bv32, bv32) -> bv32, k: bv32, i: nat, ghost h: Regs, ghost block: seq<bv32>)
    requires v != w && v.Length == 5 && w.Length == 16
    requires Running(v[..], w[..], a, b, c, d, e, h, block, i)
    requires b == (a + 1) % 5 && c == (a + 2) % 5 && d == (a + 3) % 5 && e == (a + 4) % 5
    requires Phase(f, k, i)
    modifies v, w
    ensures Running(v[..], w[..], e, a, b, c, d, h, block, i + 1)
  {
    var x := NextWord(w, i, block);
    OneCycle(v, a, b, c, d, e, f, k, x, i);
  }

  ghost predicate Phase(f: (bv32, bv32, bv32) -> bv32, k: bv32, t: nat) {
    IsF(f, t) && k == K(t)
  }

  method FiveCycle(v: array<bv32>, w: array<bv32>, f: (bv32, bv32, bv32) -> bv32, k: bv32, i: nat,
                   ghost h: Regs, ghost block: seq<bv32>)
    requires v != w && v.Length == 5 && w.Length == 16
    requires Running(v[..], w[..], 0, 1, 2, 3, 4, h, block, i)
    requires Phase(f, k, i) && Phase(f, k, i + 1) && Phase(f, k, i + 2) && Phase(f, k, i + 3) && Phase(f, k, i + 4)
    modifies v, w
    ensures Running(v[..], w[..], 0, 1, 2, 3, 4, h, block, i + 5)
  {
    Cycle(v, w, 0, 1, 2, 3, 4, f, k, i, h, block);
    Cycle(v, w, 4, 0, 1, 2, 3, f, k, i + 1, h, block);
    Cycle(v, w, 3, 4, 0, 1, 2, f, k, i + 2, h, block);
    Cycle(v, w, 2, 3, 4, 0, 1, f, k, i + 3, h, block);
    Cycle(v, w, 1, 2, 3, 4, 0, f, k, i + 4, h, block);
  }

  lemma Phases(t: nat)
    ensures t < 20 ==> Phase(FastCh, 0x5a827999, t)
    ensures 20 <= t < 40 ==> Phase(Parity, 0x6ed9eba1, t)
    ensures 40 <= t < 60 ==> Phase(FastMaj, 0x8f1bbcdc, t)
    ensures 60 <= t < 80 ==> Phase(Parity, 0xca62c1d6, t)
  {
    forall x, y, z
      ensures FastCh(x, y, z) == Ch(x, y, z) && FastMaj(x, y, z) == Maj(x, y, z)
    {
      FastChIsCh(x, y, z);
      FastMajIsMaj(x, y, z);
    }
  }

  ghost predicate Phase20(f: (bv32, bv32, bv32) -> bv32, k: bv32, i: nat) {
    forall t :: i <= t < i + 20 ==> Phase(f, k, t)
  }

  lemma FourPhases()
    ensures Phase20(FastCh, 0x5a827999, 0) && Phase20(Parity, 0x6ed9eba1, 20)
    ensures Phase20(FastMaj, 0x8f1bbcdc, 40) && Phase20(Parity, 0xca62c1d6, 60)
  {
    forall t
      ensures 0 <= t < 20 ==> Phase(FastCh, 0x5a827999, t)
      ensures 20 <= t < 40 ==> Phase(Parity, 0x6ed9eba1, t)
      ensures 40 <= t < 60 ==> Phase(FastMaj, 0x8f1bbcdc, t)
      ensures 60 <= t < 80 ==> Phase(Parity, 0xca62c1d6, t)
    {
      if t >= 0 {
        Phases(t);
      }
    }
  }

  /** Twenty rounds. The source writes rounds 15 to 19 out singly because its schedule macro
      changes at round 16; NextWord makes that switch itself. */
  method TwentyCycles(v: array<bv32>, w: array<bv32>, f: (bv32, bv32, bv32) -> bv32, k: bv32, i: nat,
                      ghost h: Regs, ghost block: seq<bv32>)
    requires v != w && v.Length == 5 && w.Length == 16
    requires Running(v[..], w[..], 0, 1, 2, 3, 4, h, block, i) && Phase20(f, k, i)
    modifies v, w
    ensures Running(v[..], w[..], 0, 1, 2, 3, 4, h, block, i + 20)
  {
    FiveCycle(v, w, f, k, i, h, block);
    FiveCycle(v, w, f, k, i + 5, h, block);
    FiveCycle(v, w, f, k, i + 10, h, block);
    FiveCycle(v, w, f, k, i + 15, h, block);
  }

  /** The eighty rounds, over the sixteen words in w, which they use up. */
  method EightyRounds(v: array<bv32>, w: array<bv32>)
    requires v != w && v.Length == 5 && w.Length == 16
    modifies v, w
    ensures View(v[..], 0, 1, 2, 3, 4) == Rounds(old(View(v[..], 0, 1, 2, 3, 4)), old(w[..]), 80)
  {
    hide Phase20, FastCh, FastMaj, Parity;
    ghost var h, block := View(v[..], 0, 1, 2, 3, 4), w[..];
    FourPhases();
    TwentyCycles(v, w, FastCh, 0x5a827999, 0, h, block);
    TwentyCycles(v, w, Parity, 0x6ed9eba1, 20, h, block);
    TwentyCycles(v, w, FastMaj, 0x8f1bbcdc, 40, h, block);
    TwentyCycles(v, w, Parity, 0xca62c1d6, 60, h, block);
  }

  // ----- the streaming context -----

  /** hash, and the bytes held back in the buffer, are those of message m. */
  ghost predicate Holds(hash: seq<bv32>, buf: seq<bv32>, le: bool, m: seq<bv8>) {
    && |hash| == 5 && |buf| == 16
    && View(hash, 0, 1, 2, 3, 4) == Chain(m, |m| / 64)
    && forall k :: 0 <= k < |m| % 64 ==> BufByte(buf, le, k) == m[|m| / 64 * 64 + k]
  }

  /** A message continued up to the end of its block: the full buffer is the block's words. */
  lemma BlockCompletes(hash: seq<bv32>, buf: seq<bv32>, full: seq<bv32>, le: bool, m: seq<bv8>, more: seq<bv8>)
    requires Holds(hash, buf, le, m) && |full| == 16
    requires |m| % 64 + |more| == 64
    requires forall k :: 0 <= k < 64 ==>
      BufByte(full, le, k) == if k < |m| % 64 then BufByte(buf, le, k) else more[k - |m| % 64]
    ensures |m + more| % 64 == 0 && |m + more| / 64 == |m| / 64 + 1
    ensures forall j :: 0 <= j < 16 ==> MemWord(full, le, j) == BlockWords(m + more, |m| / 64)[j]
    ensures Chain(m + more, |m| / 64 + 1) == Compress(View(hash, 0, 1, 2, 3, 4), BlockWords(m + more, |m| / 64))
  {
    hide BufByte, Word, Compress;
    var q := |m| / 64;
    assert |m + more| == 64 * (q + 1);
    assert (m + more)[..64 * q] == m[..64 * q];
    ChainPrefix(m + more, m, q);
    forall k | 0 <= k < 64
      ensures BufByte(full, le, k) == (m + more)[64 * q + k]
    {
    }
  }

  /** Less than a block more only adds to the bytes held back. */
  lemma HeldBack(hash: seq<bv32>, buf: seq<bv32>, le: bool, m: seq<bv8>, more: seq<bv8>)
    requires |hash| == 5 && |buf| == 16 && |m| % 64 + |more| < 64
    requires View(hash, 0, 1, 2, 3, 4) == Chain(m, |m| / 64)
    requires forall k :: 0 <= k < |m| % 64 + |more| ==>
      BufByte(buf, le, k) == if k < |m| % 64 then m[|m| / 64 * 64 + k] else more[k - |m| % 64]
    ensures Holds(hash, buf, le, m + more)
  {
    hide BufByte, Chain;
    HeldChain(m, more);
    HeldBytes(buf, le, m, more);
  }

  lemma HeldChain(m: seq<bv8>, more: seq<bv8>)
    requires |m| % 64 + |more| < 64
    ensures |m + more| / 64 == |m| / 64 && Chain(m + more, |m| / 64) == Chain(m, |m| / 64)
  {
    hide Chain;
    QuotientKept(|m|, |more|);
    var n := 64 * (|m| / 64);
    assert (m + more)[..n] == m[..n];
    ChainPrefix(m + more, m, |m| / 64);
  }

  lemma HeldBytes(buf: seq<bv32>, le: bool, m: seq<bv8>, more: seq<bv8>)
    requires |buf| == 16 && |m| % 64 + |more| < 64
    requires forall k :: 0 <= k < |m| % 64 + |more| ==>
      BufByte(buf, le, k) == if k < |m| % 64 then m[|m| / 64 * 64 + k] else more[k - |m| % 64]
    ensures |m + more| / 64 == |m| / 64 && |m + more| % 64 == |m| % 64 + |more|
    ensures forall k :: 0 <= k < |m| % 64 + |more| ==> BufByte(buf, le, k) == (m + more)[|m| / 64 * 64 + k]
  {
    hide BufByte;
    QuotientKept(|m|, |more|);
    var at, all := |m| / 64 * 64, m + more;
    forall k | 0 <= k < |m| % 64 + |more|
      ensures BufByte(buf, le, k) == all[at + k]
    {
      assert all[at + k] == if k < |m| % 64 then m[at + k] else more[k - |m| % 64];
    }
  }

  lemma QuotientKept(n: nat, more: nat)
    requires n % 64 + more < 64
    ensures (n + more) / 64 == n / 64 && (n + more) % 64 == n % 64 + more && n == n / 64 * 64 + n % 64
  {
  }

  lemma ChainIsPaddedChain(m: seq<bv8>, n: nat)
    requires |m| < 0x2000_0000_0000_0000 && 64 * n <= |m|
    ensures Chain(Pad(m), n) == Chain(m, n)
  {
    assert Pad(m)[..64 * n] == m[..64 * n];
    ChainPrefix(Pad(m), m, n);
  }

  lemma ChainStep(m: seq<bv8>, n: nat)
    requires 64 * n + 64 <= |m|
    ensures Chain(m, n + 1) == Compress(Chain(m, n), BlockWords(m, n))
  {
  }

  lemma FourBytes(words: seq<bv32>, bytes: seq<bv8>, i: nat)
    requires |words| == 5 && |bytes| == 20 && i < 5
    requires forall k :: 0 <= k < 20 ==> bytes[k] == ByteOf(words[k / 4], k % 4)
    ensures bytes[4 * i..4 * i + 4] == BytesOf(words[i])
  {
    hide ByteOf;
    assert bytes[4 * i] == ByteOf(words[i], 0) && bytes[4 * i + 1] == ByteOf(words[i], 1);
    assert bytes[4 * i + 2] == ByteOf(words[i], 2) && bytes[4 * i + 3] == ByteOf(words[i], 3);
  }

  lemma DigestBytes(h: Regs, words: seq<bv32>, bytes: seq<bv8>)
    requires |words| == 5 && |bytes| == 20 && h == View(words, 0, 1, 2, 3, 4)
    requires forall k :: 0 <= k < 20 ==> bytes[k] == ByteOf(words[k / 4], k % 4)
    ensures bytes == Digest(h)
  {
    hide ByteOf, BytesOf;
    FourBytes(words, bytes, 0);
    FourBytes(words, bytes, 1);
    FourBytes(words, bytes, 2);
    FourBytes(words, bytes, 3);
    FourBytes(words, bytes, 4);
    assert bytes == bytes[0..4] + bytes[4..8] + bytes[8..12] + bytes[12..16] + bytes[16..20];
  }

  /** The two-word byte counter after len more bytes. The carry is one at most. */
  function CountAfter(c0: U32, c1: U32, len: nat): (U32, U32) {
    var sum := (c0 + len) % TWO32;
    (sum, if sum < len then (c1 + 1) % TWO32 else c1)
  }

  /** The counter stays the byte count modulo 2^64 exactly when the low word carries at most
      once; len is C's unsigned long. In particular a call under 2^32 bytes is always safe. */
  lemma CountAfterExactly(total: nat, c0: U32, c1: U32, len: nat)
    requires c0 == total % TWO32 && c1 == total / TWO32 % TWO32
    requires len < TWO32 * TWO32
    ensures CountAfter(c0, c1, len) == ((total + len) % TWO32, (total + len) / TWO32 % TWO32)
      <==> c0 + len < 2 * TWO32
  {
    var q, carry := total / TWO32, (c0 + len) / TWO32;
    assert total + len == TWO32 * (q + carry) + (c0 + len) % TWO32;
    assert (total + len) / TWO32 == q + carry && (total + len) % TWO32 == (c0 + len) % TWO32;
    assert 0 <= carry <= TWO32;
    CarryModulo(q, carry);
  }

  lemma CarryModulo(q: nat, carry: nat)
    requires carry <= TWO32
    ensures (q + carry) % TWO32 == q % TWO32 <==> carry == 0 || carry == TWO32
    ensures (q + carry) % TWO32 == (q % TWO32 + 1) % TWO32 <==> carry == 1
  {
  }

  /** The byte count, shifted into a count of bits. */
  method LengthFromCount(c0: U32, c1: U32, ghost len: nat) returns (high: bv32, low: bv32)
    requires len < 0x2000_0000_0000_0000
    requires c0 == len % TWO32 && c1 == len / TWO32 % TWO32
    ensures high == LengthHigh(len) && low == LengthLow(len)
  {
    CounterBits(len, c0, c1);
    // the two terms share no bit, so the source's | is a sum
    high := (8 * c1 % TWO32 + c0 / 0x2000_0000) as bv32;
    low := (8 * c0 % TWO32) as bv32;
  }

  lemma BufferPosition(len: nat)
    ensures len % TWO32 % 64 == len % 64
  {
    assert len == 64 * (0x400_0000 * (len / TWO32)) + len % TWO32;
  }

  class Context {
    var count0: U32
    var count1: U32
    const hash: array<bv32>
    const wbuf: array<bv32>
    const littleEndian: bool
    ghost var message: seq<bv8>

    ghost predicate Valid()
      reads this, hash, wbuf
    {
      && Shaped()
      && Holds(hash[..], wbuf[..], littleEndian, message)
      && count0 == |message| % TWO32 && count1 == |message| / TWO32 % TWO32
    }

    /** Storage only: C declares the context, sha1_begin fills it in. */
    constructor (le: bool)
      ensures Shaped() && littleEndian == le && fresh(hash) && fresh(wbuf)
    {
      littleEndian := le;
      hash := new bv32[5];
      wbuf := new bv32[16];
    }

    ghost predicate Shaped() {
      hash.Length == 5 && wbuf.Length == 16 && hash != wbuf
    }

    /** sha1_begin, whatever the context held. */
    method Begin()
      requires Shaped()
      modifies this, hash
      ensures Valid() && message == []
    {
      count0, count1 := 0, 0;
      hash[0] := 0x67452301;
      hash[1] := 0xefcdab89;
      hash[2] := 0x98badcfe;
      hash[3] := 0x10325476;
      hash[4] := 0xc3d2e1f0;
      message := [];
    }

    method Compile()
      requires hash.Length == 5 && wbuf.Length == 16 && hash != wbuf
      modifies hash, wbuf
      ensures View(hash[..], 0, 1, 2, 3, 4) == Compress(old(View(hash[..], 0, 1, 2, 3, 4)), old(wbuf[..]))
    {
      hide Rounds, Plus;
      var v := new bv32[5];
      v[0], v[1], v[2], v[3], v[4] := hash[0], hash[1], hash[2], hash[3], hash[4];
      assert v[..] == hash[..];
      EightyRounds(v, wbuf);
      hash[0] := Plus(hash[0], v[0]);
      hash[1] := Plus(hash[1], v[1]);
      hash[2] := Plus(hash[2], v[2]);
      hash[3] := Plus(hash[3], v[3]);
      hash[4] := Plus(hash[4], v[4]);
    }

    /** The counter update at the head of sha1_hash. */
    method AddToCount(len: nat)
      modifies `count0, `count1
      ensures (count0, count1) == CountAfter(old(count0), old(count1), len)
    {
      count0 := (count0 + len) % TWO32;
      if count0 < len {
        count1 := (count1 + 1) % TWO32;
      }
    }

    /** The loop body of sha1_hash: fill the buffer, put its words in order, compile. */
    method TakeBlock(pos: nat, chunk: seq<bv8>, ghost m: seq<bv8>)
      requires hash.Length == 5 && wbuf.Length == 16 && hash != wbuf
      requires Holds(hash[..], wbuf[..], littleEndian, m)
      requires pos == |m| % 64 && pos + |chunk| == 64
      modifies hash, wbuf
      ensures Holds(hash[..], wbuf[..], littleEndian, m + chunk) && |m + chunk| % 64 == 0
    {
      hide Chain, BufByte, MemWord, Compress;
      ghost var before := wbuf[..];
      CopyIn(wbuf, littleEndian, pos, chunk);
      ghost var full := wbuf[..];
      BlockCompletes(hash[..], before, full, littleEndian, m, chunk);
      BswWords(wbuf, littleEndian, 16);
      assert wbuf[..] == BlockWords(m + chunk, |m| / 64);
      Compile();
    }

    /** The last memcpy of sha1_hash. */
    method KeepRest(pos: nat, rest: seq<bv8>, ghost m: seq<bv8>)
      requires hash.Length == 5 && wbuf.Length == 16 && hash != wbuf
      requires Holds(hash[..], wbuf[..], littleEndian, m)
      requires pos == |m| % 64 && pos + |rest| < 64
      modifies wbuf
      ensures Holds(hash[..], wbuf[..], littleEndian, m + rest)
    {
      hide Chain, BufByte;
      CopyIn(wbuf, littleEndian, pos, rest);
      HeldBack(hash[..], wbuf[..], littleEndian, m, rest);
    }

    /** Absorbs more of the message. */
    method Hash(data: seq<bv8>)
      requires Valid() && count0 + |data| < 2 * TWO32
      modifies this, hash, wbuf
      ensures Valid() && message == old(message) + data
    {
      hide Holds, CountAfter;
      var len := |data|;
      var sp := 0;
      var pos := count0 % 64;
      var space := 64 - pos;
      ghost var m := message;
      BufferPosition(|m|);

      CountAfterExactly(|m|, count0, count1, len);
      AddToCount(len);

      while len >= space
        invariant len == |data| - sp && 0 <= sp <= |data| && m == old(message) + data[..sp]
        invariant pos == |m| % 64 && space == 64 - pos
        invariant hash.Length == 5 && wbuf.Length == 16
        invariant Holds(hash[..], wbuf[..], littleEndian, m)
        modifies hash, wbuf
      {
        TakeBlock(pos, data[sp..sp + space], m);
        m := m + data[sp..sp + space];
        sp := sp + space;
        len := len - space;
        space := 64;
        pos := 0;
      }

      KeepRest(pos, data[sp..], m);
      message := m + data[sp..];
      assert message == old(message) + data;
    }

    /** The head of sha1_end: order the used words and put in the one bit. */
    method MarkEnd(i: nat)
      requires Valid() && |message| < 0x2000_0000_0000_0000 && i == |message| % 64
      modifies wbuf
      ensures |message| / 64 * 64 + 64 <= |Pad(message)|
      ensures forall j :: 0 <= j <= i / 4 ==> wbuf[j] == BlockWords(Pad(message), |message| / 64)[j]
    {
      hide Chain, BufByte, MemWord, BlockWords, Pad, PadWord;
      ghost var buf := wbuf[..];
      BswWords(wbuf, littleEndian, (i + 3) / 4);
      wbuf[i / 4] := PadWord(wbuf[i / 4], i % 4);
      TailWords(message, buf, wbuf[..], littleEndian, |message| / 64, i);
    }

    /** The rest of sha1_end: zeros from word i on, the length, and the final compilation. */
    method FinishBlock(i0: nat, ghost n: nat)
      requires hash.Length == 5 && wbuf.Length == 16 && hash != wbuf
      requires |message| < 0x2000_0000_0000_0000 && |Pad(message)| == 64 * n + 64
      requires count0 == |message| % TWO32 && count1 == |message| / TWO32 % TWO32
      requires i0 <= 14 && |message| < 64 * n + 4 * i0
      requires View(hash[..], 0, 1, 2, 3, 4) == Chain(Pad(message), n)
      requires forall j :: 0 <= j < i0 ==> wbuf[j] == BlockWords(Pad(message), n)[j]
      modifies hash, wbuf
      ensures View(hash[..], 0, 1, 2, 3, 4) == Chain(Pad(message), n + 1)
    {
      hide Chain, BlockWords, Compress, Pad, LengthHigh, LengthLow;
      ghost var p := Pad(message);
      var i := i0;
      while i < 14
        invariant i0 <= i <= 14
        invariant forall j :: 0 <= j < i ==> wbuf[j] == BlockWords(p, n)[j]
        modifies wbuf
      {
        ZeroWords(message, n, i);
        wbuf[i] := 0;
        i := i + 1;
      }
      var high, low := LengthFromCount(count0, count1, |message|);
      wbuf[14] := high;
      wbuf[15] := low;
      LengthWords(message, n);
      assert wbuf[..] == BlockWords(p, n);
      Compile();
      ChainStep(p, n);
    }

    /** Pads, compiles the last block or two, and writes the digest out. */
    method End(hval: array<bv8>)
      requires Valid() && |message| < 0x2000_0000_0000_0000 && hval.Length == 20
      modifies hash, wbuf, hval
      ensures hval[..] == Sha1(message)
    {
      hide Chain, BlockWords, Compress, Pad, Digest;
      ghost var q := |message| / 64;
      var i := count0 % 64;
      BufferPosition(|message|);
      PaddedBlocks(message);
      ChainIsPaddedChain(message, q);
      MarkEnd(i);
      if i > 64 - 9 {
        if i < 60 {
          wbuf[15] := 0;
          ZeroWords(message, q, 15);
        }
        assert wbuf[..] == BlockWords(Pad(message), q);
        Compile();
        ChainStep(Pad(message), q);
        FinishBlock(0, q + 1);
      } else {
        FinishBlock(i / 4 + 1, q);
      }
      WriteDigest(hval);
    }

    method WriteDigest(hval: array<bv8>)
      requires hash.Length == 5 && hval.Length == 20
      modifies hval
      ensures hval[..] == Digest(View(hash[..], 0, 1, 2, 3, 4))
    {
      for i := 0 to 20
        invariant forall k :: 0 <= k < i ==> hval[k] == ByteOf(hash[k / 4], k % 4)
      {
        hval[i] := ByteOf(hash[i / 4], i % 4);
      }
      DigestBytes(View(hash[..], 0, 1, 2, 3, 4), hash[..], hval[..]);
    }
  }

  // ----- any cutting of the message -----

  ghost function Flatten(chunks: seq<seq<bv8>>): seq<bv8> {
    if chunks == [] then [] else Flatten(chunks[..|chunks| - 1]) + chunks[|chunks| - 1]
  }

  lemma FlattenPrefix(chunks: seq<seq<bv8>>, i: nat)
    requires i < |chunks|
    ensures Flatten(chunks[..i + 1]) == Flatten(chunks[..i]) + chunks[i]
  {
    assert chunks[..i + 1][..i] == chunks[..i];
  }

  /** sha1_begin, one sha1_hash a chunk, sha1_end: the digest is that of the whole message,
      however it is cut and whichever the host's byte order. */
  method HashInChunks(chunks: seq<seq<bv8>>, littleEndian: bool) returns (digest: seq<bv8>)
    requires forall c :: c in chunks ==> |c| < TWO32
    requires |Flatten(chunks)| < 0x2000_0000_0000_0000
    ensures digest == Sha1(Flatten(chunks))
  {
    hide Sha1;
    var ctx := new Context(littleEndian);
    ctx.Begin();
    for i := 0 to |chunks|
      invariant ctx.Valid() && ctx.message == Flatten(chunks[..i])
      invariant fresh(ctx) && fresh(ctx.hash) && fresh(ctx.wbuf)
    {
      FlattenPrefix(chunks, i);
      ctx.Hash(chunks[i]);
    }
    assert chunks[..|chunks|] == chunks;
    var hval := new bv8[20];
    ctx.End(hval);
    digest := hval[..];
  }
}
