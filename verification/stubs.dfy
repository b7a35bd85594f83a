/** The hook stubs of wafel_core/source/trampoline_asm.S and a small ARM/Thumb processor that
    runs them. A stub runs until it calls its hook or leaves; the hook itself is any change of
    processor state that comes back to the link register. */
module Stubs {
  import opened Words

  const SP := 13
  const LR := 14

  /** The instructions the stubs use. Slots are positions in the stub's own item list. */
  datatype Op =
    | Push(list: seq<nat>)
    | Pop(low: nat, lr: bool, pc: bool)     // r0..r(low-1), then lr, then pc
    | LdrSlot(rd: nat, slot: nat)
    | LdrPcSlot(slot: nat)
    | LdrPcSlotNe(slot: nat)
    | Mov(rd: nat, rs: nat)
    | LdrSp(rd: nat, off: nat)
    | StrSp(rs: nat, off: nat)
    | AddSp(n: nat)
    | CmpZero(r: nat)
    | Blx(r: nat)
    | Bx(r: nat)
    | Nop

  /** What a stub is made of: instructions, and words that are data or displaced instructions. */
  datatype Item = Ins(op: Op) | Lit(w: U32)

  /** r0..r12, sp, lr; the Z flag; memory by word address. */
  datatype Cpu = Cpu(r: seq<U32>, z: bool, mem: int -> U32) {
    ghost predicate Ok() { |r| == 15 }
  }

  /** Where a run of a stub ends: at the call of its hook, or for good. */
  datatype Exit =
    | Called(cpu: Cpu, pc: U32, resume: nat)
    | Left(cpu: Cpu, pc: U32)
    | Fault

  /** The instruction set a stub is written in, and where it has been put. */
  datatype Place = Place(base: U32, thumb: bool) {
    /** What a call at item i leaves in lr. */
    function ReturnTo(i: nat): U32 {
      if thumb then Wrap32(base + 2 * (i + 1) + 1) else Wrap32(base + 4 * (i + 1))
    }
  }

  function Stored(mem: int -> U32, at: int, vals: seq<U32>): int -> U32 {
    a => if at <= a < at + 4 * |vals| && (a - at) % 4 == 0 then vals[(a - at) / 4] else mem(a)
  }

  function Values(r: seq<U32>, list: seq<nat>): (vals: seq<U32>)
    requires forall k :: 0 <= k < |list| ==> list[k] < |r|
    ensures |vals| == |list|
  {
    seq(|list|, k requires 0 <= k < |list| => r[list[k]])
  }

  datatype Step = Next(cpu: Cpu) | Branches(cpu: Cpu, pc: U32) | Leave(cpu: Cpu, pc: U32) | Bad

  function SlotWord(code: seq<Item>, slot: nat): U32 {
    if slot < |code| && code[slot].Lit? then code[slot].w else 0
  }

  /** One item. displaced runs an original instruction that was moved into the stub. */
  function Execute(code: seq<Item>, p: Place, displaced: (U32, Cpu) -> Cpu, cpu: Cpu, i: nat): Step
    requires i < |code|
  {
    if |cpu.r| != 15 then Bad else
    var sp := cpu.r[SP];
    match code[i]
    case Lit(w) => Next(displaced(w, cpu))
    case Ins(Push(list)) =>
      var n := |list|;
      if 4 * n <= sp && forall k :: 0 <= k < n ==> list[k] < 15 then
        Next(cpu.(mem := Stored(cpu.mem, sp - 4 * n, Values(cpu.r, list)), r := cpu.r[SP := sp - 4 * n]))
      else Bad
    case Ins(Pop(low, lr, pc)) =>
      if low > 13 then Bad else
      var extra := (if lr then 1 else 0) + (if pc then 1 else 0);
      var newSp := sp + 4 * (low + extra);
      if newSp >= TWO32 then Bad else
      var r := seq(15, k requires 0 <= k < 15 =>
        if k < low then cpu.mem(sp + 4 * k)
        else if k == SP then newSp
        else if k == LR && lr then cpu.mem(sp + 4 * low)
        else cpu.r[k]);
      if pc then Leave(cpu.(r := r), cpu.mem(newSp - 4)) else Next(cpu.(r := r))
    case Ins(LdrSlot(rd, slot)) =>
      if rd < 15 then Next(cpu.(r := cpu.r[rd := SlotWord(code, slot)])) else Bad
    case Ins(LdrPcSlot(slot)) => Leave(cpu, SlotWord(code, slot))
    case Ins(LdrPcSlotNe(slot)) => if cpu.z then Next(cpu) else Leave(cpu, SlotWord(code, slot))
    case Ins(Mov(rd, rs)) => if rd < 15 && rs < 15 then Next(cpu.(r := cpu.r[rd := cpu.r[rs]])) else Bad
    case Ins(LdrSp(rd, off)) => if rd < 15 then Next(cpu.(r := cpu.r[rd := cpu.mem(sp + off)])) else Bad
    case Ins(StrSp(rs, off)) =>
      if rs < 15 then Next(cpu.(mem := Stored(cpu.mem, sp + off, [cpu.r[rs]]))) else Bad
    case Ins(AddSp(n)) => if sp + n < TWO32 then Next(cpu.(r := cpu.r[SP := sp + n])) else Bad
    case Ins(CmpZero(r)) => if r < 15 then Next(cpu.(z := cpu.r[r] == 0)) else Bad
    case Ins(Blx(r)) => if r < 15 then Branches(cpu.(r := cpu.r[LR := p.ReturnTo(i)]), cpu.r[r]) else Bad
    case Ins(Bx(r)) => if r < 15 then Leave(cpu, cpu.r[r]) else Bad
    case Ins(Nop) => Next(cpu)
  }

  function Run(code: seq<Item>, p: Place, displaced: (U32, Cpu) -> Cpu, cpu: Cpu, i: nat): Exit
    decreases |code| - i
  {
    if i >= |code| then Fault else
    match Execute(code, p, displaced, cpu, i)
    case Next(c) => Run(code, p, displaced, c, i + 1)
    case Branches(c, pc) => Called(c, pc, i + 1)
    case Leave(c, pc) => Left(c, pc)
    case Bad => Fault
  }

  /** A call leaves in lr where the stub goes on: items are words in ARM code and halfwords, the
      address made odd, in Thumb code. */
  lemma {:induction false} CallReturnsHere(code: seq<Item>, p: Place, displaced: (U32, Cpu) -> Cpu, cpu: Cpu, i: nat)
    ensures var e := Run(code, p, displaced, cpu, i);
      e.Called? ==>
        && |e.cpu.r| == 15 && i < e.resume <= |code|
        && e.cpu.r[LR] == (p.base + if p.thumb then 2 * e.resume + 1 else 4 * e.resume) % 0x1_0000_0000
    decreases |code| - i
  {
    if i < |code| {
      match Execute(code, p, displaced, cpu, i)
      case Next(c) => CallReturnsHere(code, p, displaced, c, i + 1);
      case _ =>
    }
  }

  // ----- the stubs -----

  function BlreImage(target: U32, chain: U32): seq<Item> {
    [ Ins(Push([LR])), Ins(LdrSlot(LR, 7)), Ins(Push([LR])), Ins(LdrSlot(LR, 6)), Ins(Blx(LR)),
      Ins(Pop(0, true, true)),
      Lit(target), Lit(chain) ]
  }

  const MIDDLE_REGS: seq<nat> := [4, 5, 6, 7, 8, 9, 10, 11, 12, LR]

  function BlreRegsImage(target: U32, chain: U32): seq<Item> {
    [ Ins(Push([LR])), Ins(LdrSlot(LR, 8)), Ins(Push(MIDDLE_REGS)), Ins(LdrSlot(LR, 7)),
      Ins(Blx(LR)), Ins(AddSp(36)), Ins(Pop(0, true, true)),
      Lit(target), Lit(chain) ]
  }

  const ALL_REGS: seq<nat> := [0, 1, 2, 3, 4, 5, 6, 7, 8, 9, 10, 11, 12, LR]

  /** hook_before; the two items that depend on what was hooked are given. */
  function HookBeforeImage(orgins: Item, chain: Item, target: U32): seq<Item> {
    [ Ins(Push(ALL_REGS)), Ins(Mov(0, SP)), Ins(LdrSlot(LR, 7)), Ins(Blx(LR)), Ins(Pop(13, true, false)),
      orgins, chain, Lit(target) ]
  }

  /** hook_before_v2; orgins is the displaced instruction, or nop where a branch was hooked. */
  function HookBeforeV2Image(orgins: Item, target: U32, ret: U32): seq<Item> {
    [ Ins(Push(ALL_REGS)), Ins(Mov(0, SP)), Ins(LdrSlot(LR, 9)), Ins(Blx(LR)), Ins(CmpZero(0)),
      Ins(Pop(13, true, false)), Ins(LdrPcSlotNe(10)), orgins, Ins(LdrPcSlot(10)),
      Lit(target), Lit(ret) ]
  }

  function ThumbBlreImage(target: U32, chain: U32): seq<Item> {
    [ Ins(Push([0, 1, LR])), Ins(LdrSlot(0, 9)), Ins(Mov(LR, 0)), Ins(LdrSlot(0, 10)), Ins(StrSp(0, 4)),
      Ins(Pop(1, false, false)), Ins(Blx(LR)), Ins(AddSp(4)), Ins(Pop(0, false, true)),
      Lit(target), Lit(chain) ]
  }

  function ThumbBlreRegsImage(target: U32, chain: U32): seq<Item> {
    [ Ins(Push([LR])), Ins(Push([0, 4, 5, 6, 7, LR])), Ins(LdrSlot(0, 10)), Ins(Mov(LR, 0)), Ins(LdrSlot(0, 11)),
      Ins(StrSp(0, 20)), Ins(Pop(1, false, false)), Ins(Blx(LR)), Ins(AddSp(4)), Ins(Pop(0, false, true)),
      Lit(target), Lit(chain) ]
  }

  const LOW_REGS: seq<nat> := [0, 1, 2, 3, 4, 5, 6, 7, LR]

  /** Two displaced halfwords run before the return to the hooked code. */
  function ThumbHookBeforeImage(target: U32, first: U16, second: U16): seq<Item> {
    [ Ins(Push(LOW_REGS)), Ins(LdrSlot(7, 12)), Ins(Mov(0, SP)), Ins(Blx(7)), Ins(LdrSp(0, 32)), Ins(Mov(LR, 0)),
      Ins(Pop(8, false, false)), Ins(AddSp(4)), Lit(first), Lit(second), Ins(Bx(LR)), Ins(Nop),
      Lit(target) ]
  }

  function ThumbHookBeforeBlImage(target: U32, chain: U32): seq<Item> {
    [ Ins(Push(LOW_REGS)), Ins(LdrSlot(7, 10)), Ins(Mov(0, SP)), Ins(Blx(7)), Ins(LdrSp(0, 32)), Ins(Mov(LR, 0)),
      Ins(LdrSlot(1, 9)), Ins(StrSp(1, 32)), Ins(Pop(8, false, true)),
      Lit(chain), Lit(target) ]
  }

  // ----- single steps -----

  function Pushed(c: Cpu, list: seq<nat>): Cpu
    requires c.Ok() && 4 * |list| <= c.r[SP] && forall k :: 0 <= k < |list| ==> list[k] < 15
  {
    c.(mem := Stored(c.mem, c.r[SP] - 4 * |list|, Values(c.r, list)), r := c.r[SP := c.r[SP] - 4 * |list|])
  }

  function Set(c: Cpu, rd: nat, v: U32): Cpu
    requires c.Ok() && rd < 15
  {
    c.(r := c.r[rd := v])
  }

  /** Memory from sp up is untouched. */
  ghost predicate SameAbove(c: Cpu, c': Cpu, sp: int) {
    forall a :: a >= sp ==> c'.mem(a) == c.mem(a)
  }

  /** Word k of the frame at sp. */
  function FrameWord(mem: int -> U32, sp: int, k: int): U32 {
    mem(sp + 4 * k)
  }

  lemma StoredWords(mem: int -> U32, at: int, vals: seq<U32>)
    ensures forall k :: 0 <= k < |vals| ==> FrameWord(Stored(mem, at, vals), at, k) == vals[k]
    ensures forall a :: a < at || at + 4 * |vals| <= a ==> Stored(mem, at, vals)(a) == mem(a)
  {
    forall k | 0 <= k < |vals|
      ensures FrameWord(Stored(mem, at, vals), at, k) == vals[k]
    {
      assert (at + 4 * k - at) / 4 == k && (at + 4 * k - at) % 4 == 0;
    }
  }

  lemma PushedFrame(c: Cpu, list: seq<nat>)
    requires c.Ok() && 4 * |list| <= c.r[SP] && forall k :: 0 <= k < |list| ==> list[k] < 15
    ensures var d, sp := Pushed(c, list), c.r[SP] - 4 * |list|;
      && d.r == c.r[SP := sp] && d.z == c.z
      && (forall k :: 0 <= k < |list| ==> FrameWord(d.mem, sp, k) == c.r[list[k]])
      && SameAbove(c, d, c.r[SP])
  {
    hide Stored;
    var sp, vals := c.r[SP] - 4 * |list|, Values(c.r, list);
    StoredWords(c.mem, sp, vals);
    assert SameAbove(c, Pushed(c, list), c.r[SP]);
    forall k | 0 <= k < |list|
      ensures FrameWord(Pushed(c, list).mem, sp, k) == c.r[list[k]]
    {
      assert FrameWord(Stored(c.mem, sp, vals), sp, k) == vals[k];
    }
  }

  lemma StepPush(code: seq<Item>, p: Place, f: (U32, Cpu) -> Cpu, c: Cpu, i: nat, list: seq<nat>)
    requires i < |code| && code[i] == Ins(Push(list))
    requires c.Ok() && 4 * |list| <= c.r[SP] && forall k :: 0 <= k < |list| ==> list[k] < 15
    ensures Run(code, p, f, c, i) == Run(code, p, f, Pushed(c, list), i + 1)
    ensures var d, sp := Pushed(c, list), c.r[SP] - 4 * |list|;
      && d.r == c.r[SP := sp] && d.z == c.z
      && (forall k :: 0 <= k < |list| ==> FrameWord(d.mem, sp, k) == c.r[list[k]])
      && SameAbove(c, d, c.r[SP])
  {
    hide Stored, Values;
    PushedFrame(c, list);
  }

  lemma StepSlot(code: seq<Item>, p: Place, f: (U32, Cpu) -> Cpu, c: Cpu, i: nat, rd: nat, slot: nat)
    requires i < |code| && slot < |code| && code[i] == Ins(LdrSlot(rd, slot)) && code[slot].Lit?
    requires c.Ok() && rd < 15
    ensures Run(code, p, f, c, i) == Run(code, p, f, Set(c, rd, code[slot].w), i + 1)
  {
  }

  lemma StepMov(code: seq<Item>, p: Place, f: (U32, Cpu) -> Cpu, c: Cpu, i: nat, rd: nat, rs: nat)
    requires i < |code| && code[i] == Ins(Mov(rd, rs))
    requires c.Ok() && rd < 15 && rs < 15
    ensures Run(code, p, f, c, i) == Run(code, p, f, Set(c, rd, c.r[rs]), i + 1)
  {
  }

  lemma StepCall(code: seq<Item>, p: Place, f: (U32, Cpu) -> Cpu, c: Cpu, i: nat, r: nat)
    requires i < |code| && code[i] == Ins(Blx(r)) && c.Ok() && r < 15
    ensures Run(code, p, f, c, i) == Called(Set(c, LR, p.ReturnTo(i)), c.r[r], i + 1)
  {
  }

  /** A pop that goes on to the next instruction. */
  lemma StepPop(code: seq<Item>, p: Place, f: (U32, Cpu) -> Cpu, c: Cpu, i: nat, low: nat, lr: bool) returns (d: Cpu)
    requires i < |code| && code[i] == Ins(Pop(low, lr, false))
    requires c.Ok() && low <= 13 && c.r[SP] + 4 * (low + if lr then 1 else 0) < TWO32
    ensures Run(code, p, f, c, i) == Run(code, p, f, d, i + 1)
    ensures d.Ok() && d.mem == c.mem && d.z == c.z && d.r[SP] == c.r[SP] + 4 * (low + if lr then 1 else 0)
    ensures forall k :: 0 <= k < 13 ==> d.r[k] == if k < low then FrameWord(c.mem, c.r[SP], k) else c.r[k]
    ensures d.r[LR] == if lr then FrameWord(c.mem, c.r[SP], low) else c.r[LR]
  {
    d := Execute(code, p, f, c, i).cpu;
  }

  /** A pop into the program counter. */
  lemma StepPopPc(code: seq<Item>, p: Place, f: (U32, Cpu) -> Cpu, c: Cpu, i: nat, low: nat, lr: bool)
    requires i < |code| && code[i] == Ins(Pop(low, lr, true))
    requires c.Ok() && low <= 13 && c.r[SP] + 4 * (low + if lr then 1 else 0) + 4 < TWO32
    ensures var x, n := Run(code, p, f, c, i), low + if lr then 1 else 0;
      && x.Left? && x.cpu.Ok() && x.cpu.mem == c.mem
      && x.pc == FrameWord(c.mem, c.r[SP], n) && x.cpu.r[SP] == c.r[SP] + 4 * n + 4
      && (forall k :: 0 <= k < 13 ==> x.cpu.r[k] == if k < low then FrameWord(c.mem, c.r[SP], k) else c.r[k])
      && x.cpu.r[LR] == if lr then FrameWord(c.mem, c.r[SP], low) else c.r[LR]
  {
  }

  lemma StepAddSp(code: seq<Item>, p: Place, f: (U32, Cpu) -> Cpu, c: Cpu, i: nat, n: nat)
    requires i < |code| && code[i] == Ins(AddSp(n)) && c.Ok() && c.r[SP] + n < TWO32
    ensures Run(code, p, f, c, i) == Run(code, p, f, Set(c, SP, c.r[SP] + n), i + 1)
  {
  }

  lemma StepLdrSp(code: seq<Item>, p: Place, f: (U32, Cpu) -> Cpu, c: Cpu, i: nat, rd: nat, off: nat)
    requires i < |code| && code[i] == Ins(LdrSp(rd, off)) && c.Ok() && rd < 15
    ensures Run(code, p, f, c, i) == Run(code, p, f, Set(c, rd, c.mem(c.r[SP] + off)), i + 1)
  {
  }

  lemma StepStrSp(code: seq<Item>, p: Place, f: (U32, Cpu) -> Cpu, c: Cpu, i: nat, rs: nat, off: nat) returns (d: Cpu)
    requires i < |code| && code[i] == Ins(StrSp(rs, off)) && c.Ok() && rs < 15
    ensures Run(code, p, f, c, i) == Run(code, p, f, d, i + 1)
    ensures d.r == c.r && d.z == c.z && d.mem(c.r[SP] + off) == c.r[rs]
    ensures forall a :: a <= c.r[SP] + off - 4 || c.r[SP] + off + 4 <= a ==> d.mem(a) == c.mem(a)
  {
    d := Execute(code, p, f, c, i).cpu;
  }

  lemma StepDisplaced(code: seq<Item>, p: Place, f: (U32, Cpu) -> Cpu, c: Cpu, i: nat, w: U32)
    requires i < |code| && code[i] == Lit(w) && c.Ok()
    ensures Run(code, p, f, c, i) == Run(code, p, f, f(w, c), i + 1)
  {
  }

  lemma StepLeave(code: seq<Item>, p: Place, f: (U32, Cpu) -> Cpu, c: Cpu, i: nat, slot: nat)
    requires i < |code| && slot < |code| && code[i] == Ins(LdrPcSlot(slot)) && code[slot].Lit? && c.Ok()
    ensures Run(code, p, f, c, i) == Left(c, code[slot].w)
  {
  }

  lemma StepLeaveNe(code: seq<Item>, p: Place, f: (U32, Cpu) -> Cpu, c: Cpu, i: nat, slot: nat)
    requires i < |code| && slot < |code| && code[i] == Ins(LdrPcSlotNe(slot)) && code[slot].Lit? && c.Ok()
    ensures Run(code, p, f, c, i) == if c.z then Run(code, p, f, c, i + 1) else Left(c, code[slot].w)
  {
  }

  lemma StepBx(code: seq<Item>, p: Place, f: (U32, Cpu) -> Cpu, c: Cpu, i: nat, r: nat)
    requires i < |code| && code[i] == Ins(Bx(r)) && c.Ok() && r < 15
    ensures Run(code, p, f, c, i) == Left(c, c.r[r])
  {
  }

  lemma StepCmp(code: seq<Item>, p: Place, f: (U32, Cpu) -> Cpu, c: Cpu, i: nat, r: nat)
    requires i < |code| && code[i] == Ins(CmpZero(r)) && c.Ok() && r < 15
    ensures Run(code, p, f, c, i) == Run(code, p, f, c.(z := c.r[r] == 0), i + 1)
  {
  }

  lemma StepNop(code: seq<Item>, p: Place, f: (U32, Cpu) -> Cpu, c: Cpu, i: nat)
    requires i < |code| && code[i] == Ins(Nop) && c.Ok()
    ensures Run(code, p, f, c, i) == Run(code, p, f, c, i + 1)
  {
  }

  // ----- what the stubs do -----

  /** Room for a frame below sp. */
  ghost predicate StackRoom(cpu: Cpu) {
    cpu.Ok() && 64 <= cpu.r[SP]
  }

  /** r0 up to r12 are the same in both states. */
  ghost predicate SameRegs(c: Cpu, c': Cpu) {
    c.Ok() && c'.Ok() && forall k :: 0 <= k < 13 ==> c'.r[k] == c.r[k]
  }

  /** The stub calls its hook, with lr naming the item to come back to. */
  ghost predicate CallsHook(e: Exit, p: Place, target: U32, resume: nat) {
    e.Called? && e.cpu.Ok() && e.pc == target && e.resume == resume > 0 && e.cpu.r[LR] == p.ReturnTo(resume - 1)
  }

  /** blreplace: the hook gets the caller's registers, with the original target as the first
      word on the stack and the caller's return address as the second. */
  lemma BlreCalls(target: U32, chain: U32, p: Place, f: (U32, Cpu) -> Cpu, cpu: Cpu)
    requires StackRoom(cpu)
    ensures var e, sp := Run(BlreImage(target, chain), p, f, cpu, 0), cpu.r[SP];
      && CallsHook(e, p, target, 5) && SameRegs(cpu, e.cpu) && SameAbove(cpu, e.cpu, sp)
      && e.cpu.r[SP] == sp - 8
      && FrameWord(e.cpu.mem, sp - 8, 0) == chain && FrameWord(e.cpu.mem, sp - 8, 1) == cpu.r[LR]
  {
    hide Run, Pushed;
    var code := BlreImage(target, chain);
    StepPush(code, p, f, cpu, 0, [LR]);
    var c1 := Pushed(cpu, [LR]);
    assert FrameWord(c1.mem, cpu.r[SP] - 4, 0) == cpu.r[LR];
    StepSlot(code, p, f, c1, 1, LR, 7);
    var c2 := Set(c1, LR, chain);
    StepPush(code, p, f, c2, 2, [LR]);
    var c3 := Pushed(c2, [LR]);
    StepSlot(code, p, f, c3, 3, LR, 6);
    StepCall(code, p, f, Set(c3, LR, target), 4, LR);
    assert SameAbove(cpu, c1, cpu.r[SP]) && SameAbove(c2, c3, cpu.r[SP] - 4);
    assert SameAbove(cpu, c3, cpu.r[SP]);
  }

  /** Back from the hook, control goes to what is then the second word on the stack, with the
      stack pointer as it was before the call and the registers as the hook left them. */
  lemma BlreReturns(target: U32, chain: U32, p: Place, f: (U32, Cpu) -> Cpu, back: Cpu)
    requires back.Ok() && back.r[SP] + 8 < TWO32
    ensures var x, sp := Run(BlreImage(target, chain), p, f, back, 5), back.r[SP];
      && x.Left? && x.pc == FrameWord(back.mem, sp, 1) && x.cpu.Ok() && x.cpu.r[SP] == sp + 8
      && SameRegs(back, x.cpu) && x.cpu.mem == back.mem
  {
    hide Run;
    StepPopPc(BlreImage(target, chain), p, f, back, 5, 0, true);
  }

  /** blreplace_with_regs: r4 to r12 come first on the stack, then the same two words. */
  /** The two pushes of the form with registers. */
  lemma BlreRegsFrame(cpu: Cpu, chain: U32)
    requires StackRoom(cpu)
    ensures var c2, sp := Set(Pushed(cpu, [LR]), LR, chain), cpu.r[SP];
      && c2.Ok() && c2.r[SP] == sp - 4 && (forall k :: 0 <= k < 13 ==> c2.r[k] == cpu.r[k])
      && (forall k :: 0 <= k < |MIDDLE_REGS| ==> MIDDLE_REGS[k] < 15) && |MIDDLE_REGS| == 10
      && var c3 := Pushed(c2, MIDDLE_REGS);
         && c3.r == c2.r[SP := sp - 44] && SameAbove(cpu, c3, sp)
         && (forall k :: 4 <= k < 13 ==> FrameWord(c3.mem, sp - 44, k - 4) == cpu.r[k])
         && FrameWord(c3.mem, sp - 44, 9) == chain && FrameWord(c3.mem, sp - 44, 10) == cpu.r[LR]
  {
    hide Pushed;
    var sp := cpu.r[SP];
    PushedFrame(cpu, [LR]);
    var c1 := Pushed(cpu, [LR]);
    assert FrameWord(c1.mem, sp - 4, 0) == cpu.r[[LR][0]];
    var c2 := Set(c1, LR, chain);
    PushedFrame(c2, MIDDLE_REGS);
    var c3 := Pushed(c2, MIDDLE_REGS);
    forall k | 4 <= k < 13
      ensures FrameWord(c3.mem, sp - 44, k - 4) == cpu.r[k]
    {
      assert MIDDLE_REGS[k - 4] == k;
    }
    assert MIDDLE_REGS[9] == LR;
    assert FrameWord(c3.mem, sp - 44, 10) == c3.mem(sp - 4) == c1.mem(sp - 4);
  }

  lemma BlreRegsCalls(target: U32, chain: U32, p: Place, f: (U32, Cpu) -> Cpu, cpu: Cpu)
    requires StackRoom(cpu)
    ensures var e, sp := Run(BlreRegsImage(target, chain), p, f, cpu, 0), cpu.r[SP];
      && CallsHook(e, p, target, 5) && SameRegs(cpu, e.cpu) && SameAbove(cpu, e.cpu, sp)
      && e.cpu.r[SP] == sp - 44 && (forall k :: 4 <= k < 13 ==> FrameWord(e.cpu.mem, sp - 44, k - 4) == cpu.r[k])
      && FrameWord(e.cpu.mem, sp - 44, 9) == chain && FrameWord(e.cpu.mem, sp - 44, 10) == cpu.r[LR]
  {
    hide Run, Pushed, MIDDLE_REGS;
    var code := BlreRegsImage(target, chain);
    BlreRegsFrame(cpu, chain);
    StepPush(code, p, f, cpu, 0, [LR]);
    var c1 := Pushed(cpu, [LR]);
    StepSlot(code, p, f, c1, 1, LR, 8);
    var c2 := Set(c1, LR, chain);
    StepPush(code, p, f, c2, 2, MIDDLE_REGS);
    var c3 := Pushed(c2, MIDDLE_REGS);
    StepSlot(code, p, f, c3, 3, LR, 7);
    StepCall(code, p, f, Set(c3, LR, target), 4, LR);
  }

  lemma BlreRegsReturns(target: U32, chain: U32, p: Place, f: (U32, Cpu) -> Cpu, back: Cpu)
    requires back.Ok() && back.r[SP] + 44 < TWO32
    ensures var x, sp := Run(BlreRegsImage(target, chain), p, f, back, 5), back.r[SP];
      && x.Left? && x.pc == FrameWord(back.mem, sp, 10) && x.cpu.Ok() && x.cpu.r[SP] == sp + 44
      && SameRegs(back, x.cpu) && x.cpu.mem == back.mem
  {
    hide Run;
    var code := BlreRegsImage(target, chain);
    StepAddSp(code, p, f, back, 5, 36);
    StepPopPc(code, p, f, Set(back, SP, back.r[SP] + 36), 6, 0, true);
    assert FrameWord(back.mem, back.r[SP] + 36, 1) == FrameWord(back.mem, back.r[SP], 10);
  }

  /** The frame at sp is r0..r(n-1) and then lr: the trampoline_state of the headers. */
  ghost predicate FrameOf(mem: int -> U32, sp: int, c: Cpu, n: nat) {
    && c.Ok() && n <= 13
    && (forall k :: 0 <= k < n ==> FrameWord(mem, sp, k) == c.r[k])
    && FrameWord(mem, sp, n) == c.r[LR]
  }

  /** The registers are the frame's, and the frame is gone from the stack. */
  ghost predicate Restored(c: Cpu, mem: int -> U32, sp: int, n: nat) {
    FrameOf(mem, sp, c, n) && c.r[SP] == sp + 4 * n + 4 && c.mem == mem
  }

  /** hook_before: the hook gets a pointer to the caller's r0..r12 and lr, saved on the stack. */
  lemma HookBeforeCalls(orgins: Item, chain: Item, target: U32, p: Place, f: (U32, Cpu) -> Cpu, cpu: Cpu)
    requires StackRoom(cpu)
    ensures var e, sp := Run(HookBeforeImage(orgins, chain, target), p, f, cpu, 0), cpu.r[SP];
      && CallsHook(e, p, target, 4) && SameAbove(cpu, e.cpu, sp)
      && e.cpu.r[SP] == e.cpu.r[0] == sp - 56 && FrameOf(e.cpu.mem, sp - 56, cpu, 13)
  {
    hide Run, Pushed;
    var code := HookBeforeImage(orgins, chain, target);
    StepPush(code, p, f, cpu, 0, ALL_REGS);
    var c1 := Pushed(cpu, ALL_REGS);
    assert forall k :: 0 <= k < 13 ==> ALL_REGS[k] == k;
    assert FrameWord(c1.mem, cpu.r[SP] - 56, 13) == cpu.r[ALL_REGS[13]];
    StepMov(code, p, f, c1, 1, 0, SP);
    var c2 := Set(c1, 0, c1.r[SP]);
    StepSlot(code, p, f, c2, 2, LR, 7);
    StepCall(code, p, f, Set(c2, LR, target), 3, LR);
    assert SameAbove(cpu, c1, cpu.r[SP]);
  }

  /** Where a BL was hooked: the saved state, as the hook left it, goes back into the
      registers and control goes to the BL's target. */
  lemma HookBeforeBlReturns(chain: U32, target: U32, p: Place, f: (U32, Cpu) -> Cpu, back: Cpu)
    requires back.Ok() && back.r[SP] + 56 < TWO32
    ensures var x := Run(HookBeforeImage(Ins(LdrPcSlot(6)), Lit(chain), target), p, f, back, 4);
      x.Left? && x.pc == chain && Restored(x.cpu, back.mem, back.r[SP], 13)
  {
    hide Run;
    var code := HookBeforeImage(Ins(LdrPcSlot(6)), Lit(chain), target);
    var d := StepPop(code, p, f, back, 4, 13, true);
    StepLeave(code, p, f, d, 5, 6);
  }

  /** Where anything else was hooked: the displaced instruction runs on the saved state, then
      control returns to lr. */
  lemma HookBeforeReturns(w: U32, target: U32, p: Place, f: (U32, Cpu) -> Cpu, back: Cpu) returns (d: Cpu)
    requires back.Ok() && back.r[SP] + 56 < TWO32
    requires forall c: Cpu :: c.Ok() ==> f(w, c).Ok()
    ensures Restored(d, back.mem, back.r[SP], 13) && f(w, d).Ok()
    ensures Run(HookBeforeImage(Lit(w), Ins(Bx(LR)), target), p, f, back, 4) == Left(f(w, d), f(w, d).r[LR])
  {
    hide Run;
    var code := HookBeforeImage(Lit(w), Ins(Bx(LR)), target);
    d := StepPop(code, p, f, back, 4, 13, true);
    StepDisplaced(code, p, f, d, 5, w);
    StepBx(code, p, f, f(w, d), 6, LR);
  }

  /** hook_before_v2 hands over the same frame. */
  lemma HookBeforeV2Calls(orgins: Item, target: U32, ret: U32, p: Place, f: (U32, Cpu) -> Cpu, cpu: Cpu)
    requires StackRoom(cpu)
    ensures var e, sp := Run(HookBeforeV2Image(orgins, target, ret), p, f, cpu, 0), cpu.r[SP];
      && CallsHook(e, p, target, 4) && SameAbove(cpu, e.cpu, sp)
      && e.cpu.r[SP] == e.cpu.r[0] == sp - 56 && FrameOf(e.cpu.mem, sp - 56, cpu, 13)
  {
    hide Run, Pushed;
    var code := HookBeforeV2Image(orgins, target, ret);
    StepPush(code, p, f, cpu, 0, ALL_REGS);
    var c1 := Pushed(cpu, ALL_REGS);
    assert forall k :: 0 <= k < 13 ==> ALL_REGS[k] == k;
    assert FrameWord(c1.mem, cpu.r[SP] - 56, 13) == cpu.r[ALL_REGS[13]];
    StepMov(code, p, f, c1, 1, 0, SP);
    var c2 := Set(c1, 0, c1.r[SP]);
    StepSlot(code, p, f, c2, 2, LR, 9);
    StepCall(code, p, f, Set(c2, LR, target), 3, LR);
    assert SameAbove(cpu, c1, cpu.r[SP]);
  }

  /** Control always ends at ret with the saved state restored; the displaced instruction has
      run in between exactly if there is one and the hook answered zero. */
  lemma HookBeforeV2Returns(orgins: Item, target: U32, ret: U32, p: Place, f: (U32, Cpu) -> Cpu, back: Cpu)
    returns (d: Cpu)
    requires orgins == Ins(Nop) || orgins.Lit?
    requires back.Ok() && back.r[SP] + 56 < TWO32
    requires orgins.Lit? ==> forall c: Cpu :: c.Ok() ==> f(orgins.w, c).Ok()
    ensures Restored(d, back.mem, back.r[SP], 13)
    ensures Run(HookBeforeV2Image(orgins, target, ret), p, f, back, 4) ==
      Left(if orgins.Lit? && back.r[0] == 0 then f(orgins.w, d) else d, ret)
  {
    hide Run;
    var code := HookBeforeV2Image(orgins, target, ret);
    StepCmp(code, p, f, back, 4, 0);
    d := StepPop(code, p, f, back.(z := back.r[0] == 0), 5, 13, true);
    StepLeaveNe(code, p, f, d, 6, 10);
    if back.r[0] == 0 {
      if orgins.Lit? {
        StepDisplaced(code, p, f, d, 7, orgins.w);
        StepLeave(code, p, f, f(orgins.w, d), 8, 10);
      } else {
        StepNop(code, p, f, d, 7);
        StepLeave(code, p, f, d, 8, 10);
      }
    }
  }

  // ----- Thumb -----

  /** Thumb blreplace: same stack contract, with r0 borrowed and given back before the call. */
  lemma ThumbBlreCalls(target: U32, chain: U32, p: Place, f: (U32, Cpu) -> Cpu, cpu: Cpu)
    requires StackRoom(cpu)
    ensures var e, sp := Run(ThumbBlreImage(target, chain), p, f, cpu, 0), cpu.r[SP];
      && CallsHook(e, p, target, 7) && SameRegs(cpu, e.cpu) && SameAbove(cpu, e.cpu, sp)
      && e.cpu.r[SP] == sp - 8
      && FrameWord(e.cpu.mem, sp - 8, 0) == chain && FrameWord(e.cpu.mem, sp - 8, 1) == cpu.r[LR]
  {
    hide Run, Pushed;
    var code, sp := ThumbBlreImage(target, chain), cpu.r[SP];
    StepPush(code, p, f, cpu, 0, [0, 1, LR]);
    var c1 := Pushed(cpu, [0, 1, LR]);
    assert FrameWord(c1.mem, sp - 12, 0) == cpu.r[[0, 1, LR][0]];
    assert FrameWord(c1.mem, sp - 12, 2) == cpu.r[[0, 1, LR][2]];
    StepSlot(code, p, f, c1, 1, 0, 9);
    StepMov(code, p, f, Set(c1, 0, target), 2, LR, 0);
    var c3 := Set(Set(c1, 0, target), LR, target);
    StepSlot(code, p, f, c3, 3, 0, 10);
    var c5 := StepStrSp(code, p, f, Set(c3, 0, chain), 4, 0, 4);
    var c6 := StepPop(code, p, f, c5, 5, 1, false);
    StepCall(code, p, f, c6, 6, LR);
    assert SameAbove(cpu, c1, sp) && SameAbove(cpu, c6, sp);
  }

  lemma ThumbBlreReturns(target: U32, chain: U32, p: Place, f: (U32, Cpu) -> Cpu, back: Cpu)
    requires back.Ok() && back.r[SP] + 8 < TWO32
    ensures var x, sp := Run(ThumbBlreImage(target, chain), p, f, back, 7), back.r[SP];
      && x.Left? && x.pc == FrameWord(back.mem, sp, 1) && x.cpu.Ok() && x.cpu.r[SP] == sp + 8
      && SameRegs(back, x.cpu) && x.cpu.mem == back.mem
  {
    hide Run;
    var code := ThumbBlreImage(target, chain);
    StepAddSp(code, p, f, back, 7, 4);
    StepPopPc(code, p, f, Set(back, SP, back.r[SP] + 4), 8, 0, false);
    assert FrameWord(back.mem, back.r[SP] + 4, 0) == FrameWord(back.mem, back.r[SP], 1);
  }

  /** Thumb blreplace_with_regs: r4 to r7, then the two words. */
  lemma ThumbBlreRegsCalls(target: U32, chain: U32, p: Place, f: (U32, Cpu) -> Cpu, cpu: Cpu)
    requires StackRoom(cpu)
    ensures var e, sp := Run(ThumbBlreRegsImage(target, chain), p, f, cpu, 0), cpu.r[SP];
      && CallsHook(e, p, target, 8) && SameRegs(cpu, e.cpu) && SameAbove(cpu, e.cpu, sp)
      && e.cpu.r[SP] == sp - 24 && (forall k :: 4 <= k < 8 ==> FrameWord(e.cpu.mem, sp - 24, k - 4) == cpu.r[k])
      && FrameWord(e.cpu.mem, sp - 24, 4) == chain && FrameWord(e.cpu.mem, sp - 24, 5) == cpu.r[LR]
  {
    hide Run, Pushed;
    var code, sp := ThumbBlreRegsImage(target, chain), cpu.r[SP];
    StepPush(code, p, f, cpu, 0, [LR]);
    var c1 := Pushed(cpu, [LR]);
    assert FrameWord(c1.mem, sp - 4, 0) == cpu.r[[LR][0]];
    StepPush(code, p, f, c1, 1, [0, 4, 5, 6, 7, LR]);
    var list: seq<nat> := [0, 4, 5, 6, 7, LR];
    var c2 := Pushed(c1, list);
    assert FrameWord(c2.mem, sp - 28, 0) == c1.r[list[0]];
    assert FrameWord(c2.mem, sp - 28, 1) == c1.r[list[1]] && FrameWord(c2.mem, sp - 28, 2) == c1.r[list[2]];
    assert FrameWord(c2.mem, sp - 28, 3) == c1.r[list[3]] && FrameWord(c2.mem, sp - 28, 4) == c1.r[list[4]];
    StepSlot(code, p, f, c2, 2, 0, 10);
    StepMov(code, p, f, Set(c2, 0, target), 3, LR, 0);
    var c4 := Set(Set(c2, 0, target), LR, target);
    StepSlot(code, p, f, c4, 4, 0, 11);
    var c6 := StepStrSp(code, p, f, Set(c4, 0, chain), 5, 0, 20);
    var c7 := StepPop(code, p, f, c6, 6, 1, false);
    StepCall(code, p, f, c7, 7, LR);
    assert SameAbove(cpu, c1, sp) && SameAbove(c1, c2, sp - 4) && SameAbove(cpu, c7, sp);
  }

  /** The way back unwinds one word too few by four: control goes to the saved r5, with the
      stack pointer sixteen bytes short. */
  lemma ThumbBlreRegsReturns(target: U32, chain: U32, p: Place, f: (U32, Cpu) -> Cpu, back: Cpu)
    requires back.Ok() && back.r[SP] + 24 < TWO32
    ensures var x, sp := Run(ThumbBlreRegsImage(target, chain), p, f, back, 8), back.r[SP];
      && x.Left? && x.pc == FrameWord(back.mem, sp, 1) && x.cpu.Ok() && x.cpu.r[SP] == sp + 24 - 16
      && SameRegs(back, x.cpu) && x.cpu.mem == back.mem
  {
    hide Run;
    var code := ThumbBlreRegsImage(target, chain);
    StepAddSp(code, p, f, back, 8, 4);
    StepPopPc(code, p, f, Set(back, SP, back.r[SP] + 4), 9, 0, false);
    assert FrameWord(back.mem, back.r[SP] + 4, 0) == FrameWord(back.mem, back.r[SP], 1);
  }

  lemma ThumbHookBeforeCalls(target: U32, first: U16, second: U16, p: Place, f: (U32, Cpu) -> Cpu, cpu: Cpu)
    requires StackRoom(cpu)
    ensures var e, sp := Run(ThumbHookBeforeImage(target, first, second), p, f, cpu, 0), cpu.r[SP];
      && CallsHook(e, p, target, 4) && SameAbove(cpu, e.cpu, sp)
      && e.cpu.r[SP] == e.cpu.r[0] == sp - 36 && FrameOf(e.cpu.mem, sp - 36, cpu, 8)
  {
    hide Run, Pushed;
    var code := ThumbHookBeforeImage(target, first, second);
    StepPush(code, p, f, cpu, 0, LOW_REGS);
    var c1 := Pushed(cpu, LOW_REGS);
    assert forall k :: 0 <= k < 8 ==> LOW_REGS[k] == k;
    assert FrameWord(c1.mem, cpu.r[SP] - 36, 8) == cpu.r[LOW_REGS[8]];
    StepSlot(code, p, f, c1, 1, 7, 12);
    var c2 := Set(c1, 7, target);
    StepMov(code, p, f, c2, 2, 0, SP);
    StepCall(code, p, f, Set(c2, 0, c2.r[SP]), 3, 7);
    assert SameAbove(cpu, c1, cpu.r[SP]);
  }

  /** r0 to r7 and lr come back from the frame, sp too; then the two displaced halfwords run
      and control returns to lr. */
  lemma ThumbHookBeforeReturns(target: U32, first: U16, second: U16, p: Place, f: (U32, Cpu) -> Cpu, back: Cpu)
    returns (d: Cpu)
    requires back.Ok() && back.r[SP] + 36 < TWO32
    requires forall w, c: Cpu :: c.Ok() ==> f(w, c).Ok()
    ensures Restored(d, back.mem, back.r[SP], 8) && forall k :: 8 <= k < 13 ==> d.r[k] == back.r[k]
    ensures var after := f(second, f(first, d));
      after.Ok() && Run(ThumbHookBeforeImage(target, first, second), p, f, back, 4) == Left(after, after.r[LR])
  {
    hide Run;
    var code, sp := ThumbHookBeforeImage(target, first, second), back.r[SP];
    StepLdrSp(code, p, f, back, 4, 0, 32);
    assert back.mem(sp + 32) == FrameWord(back.mem, sp, 8);
    var c1 := Set(back, 0, FrameWord(back.mem, sp, 8));
    StepMov(code, p, f, c1, 5, LR, 0);
    var c2 := StepPop(code, p, f, Set(c1, LR, c1.r[0]), 6, 8, false);
    StepAddSp(code, p, f, c2, 7, 4);
    d := Set(c2, SP, c2.r[SP] + 4);
    StepDisplaced(code, p, f, d, 8, first);
    StepDisplaced(code, p, f, f(first, d), 9, second);
    StepBx(code, p, f, f(second, f(first, d)), 10, LR);
  }

  lemma ThumbHookBeforeBlCalls(target: U32, chain: U32, p: Place, f: (U32, Cpu) -> Cpu, cpu: Cpu)
    requires StackRoom(cpu)
    ensures var e, sp := Run(ThumbHookBeforeBlImage(target, chain), p, f, cpu, 0), cpu.r[SP];
      && CallsHook(e, p, target, 4) && SameAbove(cpu, e.cpu, sp)
      && e.cpu.r[SP] == e.cpu.r[0] == sp - 36 && FrameOf(e.cpu.mem, sp - 36, cpu, 8)
  {
    hide Run, Pushed;
    var code := ThumbHookBeforeBlImage(target, chain);
    StepPush(code, p, f, cpu, 0, LOW_REGS);
    var c1 := Pushed(cpu, LOW_REGS);
    assert forall k :: 0 <= k < 8 ==> LOW_REGS[k] == k;
    assert FrameWord(c1.mem, cpu.r[SP] - 36, 8) == cpu.r[LOW_REGS[8]];
    StepSlot(code, p, f, c1, 1, 7, 10);
    var c2 := Set(c1, 7, target);
    StepMov(code, p, f, c2, 2, 0, SP);
    StepCall(code, p, f, Set(c2, 0, c2.r[SP]), 3, 7);
    assert SameAbove(cpu, c1, cpu.r[SP]);
  }

  /** r0 to r7, lr and sp come back and control goes to the BL's target; the frame's last word,
      now dead, is where the target was put. */
  lemma ThumbHookBeforeBlReturns(target: U32, chain: U32, p: Place, f: (U32, Cpu) -> Cpu, back: Cpu)
    requires back.Ok() && back.r[SP] + 36 < TWO32
    ensures var x, sp := Run(ThumbHookBeforeBlImage(target, chain), p, f, back, 4), back.r[SP];
      && x.Left? && x.pc == chain && FrameOf(back.mem, sp, x.cpu, 8) && x.cpu.r[SP] == sp + 36
      && (forall k :: 8 <= k < 13 ==> x.cpu.r[k] == back.r[k]) && SameAbove(back, x.cpu, sp + 36)
  {
    hide Run;
    var code, sp := ThumbHookBeforeBlImage(target, chain), back.r[SP];
    StepLdrSp(code, p, f, back, 4, 0, 32);
    assert back.mem(sp + 32) == FrameWord(back.mem, sp, 8);
    var c1 := Set(back, 0, FrameWord(back.mem, sp, 8));
    StepMov(code, p, f, c1, 5, LR, 0);
    var c2 := Set(c1, LR, c1.r[0]);
    StepSlot(code, p, f, c2, 6, 1, 9);
    var c3 := StepStrSp(code, p, f, Set(c2, 1, chain), 7, 1, 32);
    StepPopPc(code, p, f, c3, 8, 8, false);
    assert forall k :: 0 <= k < 8 ==> FrameWord(c3.mem, sp, k) == FrameWord(back.mem, sp, k);
  }

  // ----- call, hook and return together -----

  /** A hook that came back with its stack pointer and n words above it as they were. */
  ghost predicate KeepsFrame(called: Cpu, back: Cpu, n: nat) {
    && called.Ok() && back.Ok() && back.r[SP] == called.r[SP]
    && forall k :: 0 <= k < n ==> FrameWord(back.mem, called.r[SP], k) == FrameWord(called.mem, called.r[SP], k)
  }

  /** The replaced call returns to its caller, with the replacement's registers and the caller's
      stack pointer. */
  ghost predicate ReturnsToCaller(x: Exit, cpu: Cpu, back: Cpu) {
    cpu.Ok() && x.Left? && x.pc == cpu.r[LR] && SameRegs(back, x.cpu) && x.cpu.r[SP] == cpu.r[SP]
  }

  lemma BlreRuns(target: U32, chain: U32, p: Place, f: (U32, Cpu) -> Cpu, cpu: Cpu, back: Cpu)
    requires StackRoom(cpu)
    requires var e := Run(BlreImage(target, chain), p, f, cpu, 0); e.Called? && KeepsFrame(e.cpu, back, 2)
    ensures ReturnsToCaller(Run(BlreImage(target, chain), p, f, back, 5), cpu, back)
  {
    hide Run, BlreImage;
    BlreCalls(target, chain, p, f, cpu);
    BlreReturns(target, chain, p, f, back);
  }

  lemma BlreRegsRuns(target: U32, chain: U32, p: Place, f: (U32, Cpu) -> Cpu, cpu: Cpu, back: Cpu)
    requires StackRoom(cpu)
    requires var e := Run(BlreRegsImage(target, chain), p, f, cpu, 0); e.Called? && KeepsFrame(e.cpu, back, 11)
    ensures ReturnsToCaller(Run(BlreRegsImage(target, chain), p, f, back, 5), cpu, back)
  {
    hide Run, BlreRegsImage;
    BlreRegsCalls(target, chain, p, f, cpu);
    BlreRegsReturns(target, chain, p, f, back);
  }

  lemma ThumbBlreRuns(target: U32, chain: U32, p: Place, f: (U32, Cpu) -> Cpu, cpu: Cpu, back: Cpu)
    requires StackRoom(cpu)
    requires var e := Run(ThumbBlreImage(target, chain), p, f, cpu, 0); e.Called? && KeepsFrame(e.cpu, back, 2)
    ensures ReturnsToCaller(Run(ThumbBlreImage(target, chain), p, f, back, 7), cpu, back)
  {
    hide Run, ThumbBlreImage;
    ThumbBlreCalls(target, chain, p, f, cpu);
    ThumbBlreReturns(target, chain, p, f, back);
  }

  /** The Thumb form with registers never returns to its caller with the caller's stack: pc is
      the caller's own r5. */
  lemma ThumbBlreRegsRuns(target: U32, chain: U32, p: Place, f: (U32, Cpu) -> Cpu, cpu: Cpu, back: Cpu)
    requires StackRoom(cpu)
    requires var e := Run(ThumbBlreRegsImage(target, chain), p, f, cpu, 0); e.Called? && KeepsFrame(e.cpu, back, 6)
    ensures var x := Run(ThumbBlreRegsImage(target, chain), p, f, back, 8);
      x.Left? && x.pc == cpu.r[5] && x.cpu.Ok() && x.cpu.r[SP] == cpu.r[SP] - 16
  {
    hide Run, ThumbBlreRegsImage;
    ThumbBlreRegsCalls(target, chain, p, f, cpu);
    ThumbBlreRegsReturns(target, chain, p, f, back);
  }

  /** r0 to r7, sp and lr are as they were. */
  ghost predicate LowRegsKept(cpu: Cpu, d: Cpu) {
    cpu.Ok() && d.Ok() && (forall k :: 0 <= k < 8 ==> d.r[k] == cpu.r[k]) && d.r[SP] == cpu.r[SP]
      && d.r[LR] == cpu.r[LR]
  }

  lemma ThumbHookBeforeRuns(target: U32, first: U16, second: U16, p: Place, f: (U32, Cpu) -> Cpu, cpu: Cpu, back: Cpu)
    returns (d: Cpu)
    requires StackRoom(cpu) && forall w, c: Cpu :: c.Ok() ==> f(w, c).Ok()
    requires var e := Run(ThumbHookBeforeImage(target, first, second), p, f, cpu, 0);
      e.Called? && KeepsFrame(e.cpu, back, 9)
    ensures LowRegsKept(cpu, d)
    ensures var after := f(second, f(first, d));
      after.Ok() && Run(ThumbHookBeforeImage(target, first, second), p, f, back, 4) == Left(after, after.r[LR])
  {
    hide Run, ThumbHookBeforeImage;
    ThumbHookBeforeCalls(target, first, second, p, f, cpu);
    d := ThumbHookBeforeReturns(target, first, second, p, f, back);
    LowFrame(cpu, back.mem, back.r[SP], d, Run(ThumbHookBeforeImage(target, first, second), p, f, cpu, 0).cpu.mem);
  }

  lemma LowFrame(cpu: Cpu, mem: int -> U32, sp: int, d: Cpu, was: int -> U32)
    requires FrameOf(mem, sp, d, 8) && FrameOf(was, sp, cpu, 8)
    requires forall k :: 0 <= k < 9 ==> FrameWord(mem, sp, k) == FrameWord(was, sp, k)
    ensures d.Ok() && cpu.Ok() && (forall k :: 0 <= k < 8 ==> d.r[k] == cpu.r[k]) && d.r[LR] == cpu.r[LR]
  {
    forall k | 0 <= k < 8
      ensures d.r[k] == cpu.r[k]
    {
      assert d.r[k] == FrameWord(mem, sp, k);
    }
  }

  lemma ThumbHookBeforeBlRuns(target: U32, chain: U32, p: Place, f: (U32, Cpu) -> Cpu, cpu: Cpu, back: Cpu)
    requires StackRoom(cpu)
    requires var e := Run(ThumbHookBeforeBlImage(target, chain), p, f, cpu, 0); e.Called? && KeepsFrame(e.cpu, back, 9)
    ensures var x := Run(ThumbHookBeforeBlImage(target, chain), p, f, back, 4);
      x.Left? && x.pc == chain && LowRegsKept(cpu, x.cpu)
  {
    hide Run, ThumbHookBeforeBlImage;
    ThumbHookBeforeBlCalls(target, chain, p, f, cpu);
    ThumbHookBeforeBlReturns(target, chain, p, f, back);
    var x := Run(ThumbHookBeforeBlImage(target, chain), p, f, back, 4);
    LowFrame(cpu, back.mem, back.r[SP], x.cpu, Run(ThumbHookBeforeBlImage(target, chain), p, f, cpu, 0).cpu.mem);
  }
}
