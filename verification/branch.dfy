/** Branch instructions as wafel_core/include/wafel/patch.h writes them and
    wafel_core/source/trampoline.c reads them back. */
module Branch {
  import opened Words

  const OP_BL := 0xEB
  const OP_B := 0xEA

  // ----- ARM -----

  /** Where an ARM branch at addr would have to jump, relative to the prefetched pc, as the
      encoder's s32 arithmetic sees it. */
  function Displacement(addr: U32, dst: U32): Int32 {
    Signed32(Signed32(dst) - Signed32(addr) - 8)
  }

  /** _BL_TRAMPOLINE and _BRANCH_PATCH: opcode byte, then the low 24 bits of the word offset. */
  function EncodeBranch(op: Byte, addr: U32, dst: U32): U32 {
    op * 0x100_0000 + TruncDiv(Displacement(addr, dst), 4) % 0x100_0000
  }

  /** x with the bit m flipped. */
  function FlipBit(x: nat, m: nat): nat
    requires m > 0
  {
    if x / m % 2 == 1 then x - m else x + m
  }

  /** extract_target: the low 24 bits, shifted, sign-extended by flipping and subtracting. */
  function ExtractTarget(addr: U32, ins: U32): U32 {
    var off := ins % 0x100_0000 * 4;
    Wrap32(addr + (FlipBit(off, 0x200_0000) - 0x200_0000) + 8)
  }

  function ExtractBranchTarget(op: Byte, addr: U32, ins: U32): U32 {
    if ins / 0x100_0000 != op then 0 else ExtractTarget(addr, ins)
  }

  /** An ARM branch at addr can express dst. */
  predicate Reaches(addr: U32, dst: U32) {
    Displacement(addr, dst) % 4 == 0 && -0x200_0000 <= Displacement(addr, dst) < 0x200_0000
  }

  lemma SignExtension(off: nat)
    requires off < 0x400_0000
    ensures FlipBit(off, 0x200_0000) - 0x200_0000 == if off < 0x200_0000 then off else off - 0x400_0000
  {
  }

  /** Two displacements in range that agree modulo 2^32 are equal. */
  lemma WrapInjective(x: int, y: int)
    requires -0x8000_0000 <= x < 0x8000_0000 && -0x8000_0000 <= y < 0x8000_0000
    ensures Wrap32(x) == Wrap32(y) <==> x == y
  {
  }

  lemma WrapShift(a: int, x: int, y: int)
    ensures Wrap32(a + x) == Wrap32(a + y) <==> Wrap32(x) == Wrap32(y)
  {
    var q := (a + x) / TWO32 - (a + y) / TWO32;
    if Wrap32(a + x) == Wrap32(a + y) {
      assert x - y == TWO32 * q;
      WrapPeriod(y, q);
    } else {
      var p := x / TWO32 - y / TWO32;
      if Wrap32(x) == Wrap32(y) {
        WrapPeriod(a + y, p);
      }
    }
  }

  lemma WrapPeriod(x: int, q: int)
    ensures Wrap32(x + TWO32 * q) == Wrap32(x)
  {
    assert x + TWO32 * q == TWO32 * (x / TWO32 + q) + x % TWO32;
  }

  lemma DisplacementMeaning(addr: U32, dst: U32)
    ensures Wrap32(addr + Displacement(addr, dst) + 8) == dst
    ensures Wrap32(addr + ThumbDisplacement(addr, dst) + 4) == dst
  {
    hide Signed32, Wrap32;
    var a := SignedOffBy(dst);
    var b := SignedOffBy(addr);
    var c := SignedOffBy(Signed32(dst) - Signed32(addr) - 8);
    var e := SignedOffBy(Signed32(dst) - Signed32(addr) - 4);
    WrapPeriod(dst, c + a - b);
    WrapPeriod(dst, e + a - b);
    WrapOfWord(dst);
  }

  lemma WrapOfWord(x: U32)
    ensures Wrap32(x) == x
  {
  }

  /** Reading a word as signed changes it by a multiple of 2^32. */
  lemma SignedOffBy(x: int) returns (q: int)
    ensures Signed32(x) == x + TWO32 * q
  {
    q := if x % TWO32 < 0x8000_0000 then -(x / TWO32) else -(x / TWO32) - 1;
  }

  lemma WrapKeepsParity(x: int)
    ensures Wrap32(x) % 2 == x % 2
  {
    var q, r := x / TWO32, x % TWO32;
    assert x == 2 * (0x8000_0000 * q) + r;
    ParityOfSum(0x8000_0000 * q, r);
  }

  lemma ParityOfSum(k: int, r: int)
    ensures (2 * k + r) % 2 == r % 2
  {
  }

  /** The word offset, cut to 24 bits and extended again, is the displacement rounded toward
      zero to a word, exactly when it fits. */
  lemma FieldRoundTrip(d: Int32)
    ensures
      var off := TruncDiv(d, 4) % 0x100_0000 * 4;
      FlipBit(off, 0x200_0000) - 0x200_0000 == d <==> d % 4 == 0 && -0x200_0000 <= d < 0x200_0000
  {
    var n := TruncDiv(d, 4);
    SignExtension(n % 0x100_0000 * 4);
    if d % 4 == 0 {
      assert d == 4 * n;
      if 0 <= n < 0x80_0000 {
        assert n % 0x100_0000 == n;
      } else if -0x80_0000 <= n < 0 {
        assert n % 0x100_0000 == n + 0x100_0000;
      }
    }
  }

  /** The opcode byte and the word offset's low 24 bits stand side by side, so that a branch of
      one kind is never taken for one of another. */
  lemma EncodedParts(op: Byte, addr: U32, dst: U32)
    ensures EncodeBranch(op, addr, dst) / 0x100_0000 == op
    ensures EncodeBranch(op, addr, dst) % 0x100_0000 == TruncDiv(Displacement(addr, dst), 4) % 0x100_0000
  {
    hide Displacement, TruncDiv;
    FieldsOf(op, TruncDiv(Displacement(addr, dst), 4) % 0x100_0000);
  }

  lemma FieldsOf(op: Byte, field: nat)
    requires field < 0x100_0000
    ensures (op * 0x100_0000 + field) / 0x100_0000 == op
    ensures (op * 0x100_0000 + field) % 0x100_0000 == field
  {
  }

  /** A decoded displacement in range leads to dst exactly when it is the displacement. */
  lemma DecodedDestination(addr: U32, dst: U32, s: int)
    requires -0x8000_0000 <= s < 0x8000_0000
    ensures Wrap32(addr + s + 8) == dst <==> s == Displacement(addr, dst)
  {
    hide Displacement, Wrap32;
    var d := Displacement(addr, dst);
    DisplacementMeaning(addr, dst);
    WrapShift(addr + 8, s, d);
    WrapInjective(s, d);
  }

  /** Decoding what was encoded gives the destination back exactly when it is a whole number
      of words away and within plus or minus 32 MiB. */
  lemma ArmBranchRoundTrip(op: Byte, addr: U32, dst: U32)
    ensures ExtractBranchTarget(op, addr, EncodeBranch(op, addr, dst)) == dst <==> Reaches(addr, dst)
  {
    hide Displacement, TruncDiv, EncodeBranch, Wrap32, FlipBit;
    var off := TruncDiv(Displacement(addr, dst), 4) % 0x100_0000 * 4;
    EncodedParts(op, addr, dst);
    SignExtension(off);
    DecodedDestination(addr, dst, FlipBit(off, 0x200_0000) - 0x200_0000);
    FieldRoundTrip(Displacement(addr, dst));
  }

  /** The same branch at another address leads elsewhere. */
  lemma MovedBranch(addr: U32, addr': U32, ins: U32)
    ensures ExtractTarget(addr, ins) == ExtractTarget(addr', ins) <==> addr == addr'
  {
    hide Wrap32, FlipBit;
    var x := FlipBit(ins % 0x100_0000 * 4, 0x200_0000) - 0x200_0000 + 8;
    WrapShift(x, addr, addr');
    WrapOfWord(addr);
    WrapOfWord(addr');
  }

  // ----- Thumb -----

  function ThumbDisplacement(addr: U32, dst: U32): Int32 {
    Signed32(Signed32(dst) - Signed32(addr) - 4)
  }

  /** _BL_T_TRAMPOLINE: eleven low bits in the second halfword, ten (not eleven) in the first. */
  function EncodeThumbBl(addr: U32, dst: U32): U32 {
    var offs := TruncDiv(ThumbDisplacement(addr, dst), 2);
    0xF000_F800 + offs % 0x800 + offs / 0x800 % 0x400 * 0x1_0000
  }

  /** extract_bl_t_target: both halves moved to the top of a word, then shifted down
      arithmetically. */
  function ExtractThumbBlTarget(addr: U32, ins1: U16, ins2: U16): U32 {
    if ins1 / 0x800 != 0x1E || ins2 / 0x800 != 0x1F then 0
    else
      var top := ins1 % 0x800 * 0x20_0000 + ins2 % 0x800 * 0x400;
      var target := Wrap32(addr + Signed32(top) / 0x200 + 4);
      if target % 2 == 0 then target + 1 else target
  }

  /** Two halfwords are taken for a BL exactly if they are the prefix and the suffix of one. */
  lemma TakenForThumbBl(addr: U32, ins1: U16, ins2: U16)
    ensures ExtractThumbBlTarget(addr, ins1, ins2) != 0 <==> 0xF000 <= ins1 < 0xF800 && 0xF800 <= ins2
  {
    hide Signed32, Wrap32;
  }

  function ThumbBit(x: U32): U32 {
    if x % 2 == 0 then x + 1 else x
  }

  lemma ThumbFields(addr: U32, dst: U32)
    ensures var offs := TruncDiv(ThumbDisplacement(addr, dst), 2);
      var ins := EncodeThumbBl(addr, dst);
      && ins / 0x1_0000 / 0x800 == 0x1E && ins % 0x1_0000 / 0x800 == 0x1F
      && ins / 0x1_0000 % 0x800 == offs / 0x800 % 0x400
      && ins % 0x1_0000 % 0x800 == offs % 0x800
  {
    var offs := TruncDiv(ThumbDisplacement(addr, dst), 2);
    var hi, lo := offs / 0x800 % 0x400, offs % 0x800;
    var ins := EncodeThumbBl(addr, dst);
    assert ins == 0x1_0000 * (0xF000 + hi) + (0xF800 + lo);
    assert ins / 0x1_0000 == 0xF000 + hi && ins % 0x1_0000 == 0xF800 + lo;
  }

  /** The two halfwords' fields, put together as the decoder does. */
  lemma ThumbAssembled(hi: nat, lo: nat)
    requires hi < 0x400 && lo < 0x800
    ensures Signed32(hi * 0x20_0000 + lo * 0x400) / 0x200 == hi * 0x1000 + lo * 2
  {
    var top := hi * 0x20_0000 + lo * 0x400;
    assert 0 <= top < 0x8000_0000;
    assert top == 0x200 * (hi * 0x1000 + lo * 2);
  }

  lemma ThumbSplit(offs: int)
    ensures offs % 0x20_0000 == offs / 0x800 % 0x400 * 0x800 + offs % 0x800
  {
    var q := offs / 0x800;
    var p := q / 0x400;
    assert offs == 0x800 * q + offs % 0x800 && q == 0x400 * p + q % 0x400;
    assert offs == 0x20_0000 * p + (0x800 * (q % 0x400) + offs % 0x800);
  }

  /** What the two halfwords say: the low 21 bits of the halfword offset, never negative,
      because the encoder leaves the sign bit of the field clear. */
  lemma ThumbDecodedOffset(addr: U32, dst: U32)
    ensures var offs := TruncDiv(ThumbDisplacement(addr, dst), 2);
      var ins := EncodeThumbBl(addr, dst);
      ExtractThumbBlTarget(addr, ins / 0x1_0000, ins % 0x1_0000)
        == ThumbBit(Wrap32(addr + offs % 0x20_0000 * 2 + 4))
  {
    hide TruncDiv, ThumbDisplacement, EncodeThumbBl, Wrap32, Signed32;
    var offs := TruncDiv(ThumbDisplacement(addr, dst), 2);
    ThumbFields(addr, dst);
    ThumbAssembled(offs / 0x800 % 0x400, offs % 0x800);
    ThumbSplit(offs);
  }

  /** Decoding an encoded Thumb BL gives the destination, Thumb bit set, exactly for forward
      displacements under 4 MiB. */
  lemma ThumbBranchRoundTrip(addr: U32, dst: U32)
    requires addr % 2 == 0
    ensures var ins := EncodeThumbBl(addr, dst);
      ExtractThumbBlTarget(addr, ins / 0x1_0000, ins % 0x1_0000) == ThumbBit(dst)
      <==> 0 <= ThumbDisplacement(addr, dst) < 0x40_0000
  {
    hide TruncDiv, ThumbDisplacement, EncodeThumbBl, ExtractThumbBlTarget, Wrap32, ThumbBit;
    var d := ThumbDisplacement(addr, dst);
    var s, even := TruncDiv(d, 2) % 0x20_0000 * 2, d - d % 2;
    ThumbDecodedOffset(addr, dst);
    DisplacementMeaning(addr, dst);
    ThumbBitOfEven(addr, TruncDiv(d, 2) % 0x20_0000);
    EvenPart(addr, d);
    WrapShift(addr + 4, s, even);
    WrapInjective(s, even);
    ThumbFieldRoundTrip(d);
  }

  lemma ThumbBitOfEven(addr: U32, n: int)
    requires addr % 2 == 0
    ensures ThumbBit(Wrap32(addr + n * 2 + 4)) == Wrap32(addr + n * 2 + 4) + 1
  {
    WrapKeepsParity(addr + n * 2 + 4);
  }

  lemma EvenPart(addr: U32, d: Int32)
    requires addr % 2 == 0
    ensures ThumbBit(Wrap32(addr + d + 4)) == Wrap32(addr + (d - d % 2) + 4) + 1
  {
    hide Wrap32;
    var x := addr + d + 4;
    WrapKeepsParity(x);
    ParityOfSum((addr + 4) / 2, d);
    if d % 2 == 1 {
      OneLess(x);
    }
  }

  lemma OneLess(x: int)
    requires x % 2 == 1
    ensures Wrap32(x - 1) == Wrap32(x) - 1
  {
    WrapKeepsParity(x);
    assert x - 1 == TWO32 * (x / TWO32) + (x % TWO32 - 1);
  }

  lemma ThumbFieldRoundTrip(d: Int32)
    ensures TruncDiv(d, 2) % 0x20_0000 * 2 == d - d % 2 <==> 0 <= d < 0x40_0000
  {
    if 0 <= d < 0x40_0000 {
      assert TruncDiv(d, 2) % 0x20_0000 == d / 2;
    }
  }
}
