/** Chains of hooks run on the processor, from the branch at the hooked address to where the
    address led at first. */
module ChainRuns {
  import opened Words
  import opened Stubs
  import opened Windows
  import opened Trampoline

  function CodeAt(mem: Memory, at: int, n: nat): (code: seq<Item>)
    ensures |code| == n
  {
    seq(n, k requires 0 <= k < n => if at + 4 * k in mem then mem[at + 4 * k] else Ins(Nop))
  }

  /** The processor's way through as many stubs as hooks are given, from pc on: which hooks it
      called, its state, and where it went. hook(t, s) is what the function at t does to the
      state it is called in; displaced runs displaced instructions. */
  function Walk(c: Config, mem: Memory, displaced: (U32, Cpu) -> Cpu, hook: (U32, Cpu) -> Cpu,
                pc: U32, cpu: Cpu, hooks: seq<Hook>): (seq<U32>, Exit)
    decreases |hooks|
  {
    if hooks == [] then ([], Left(cpu, pc))
    else
      var code := CodeAt(mem, c.ToPhysical(pc), |ChainImage(hooks[0].kind, 0, 0)|);
      var e := Run(code, Place(pc, false), displaced, cpu, 0);
      if !e.Called? then ([], e)
      else
        var x := Run(code, Place(pc, false), displaced, hook(e.pc, e.cpu), e.resume);
        if !x.Left? then ([e.pc], x)
        else
          var (calls, last) := Walk(c, mem, displaced, hook, x.pc, x.cpu, hooks[1..]);
          ([e.pc] + calls, last)
  }

  /** Hooks that come back with their stack pointer and leave the saved state alone. */
  ghost predicate LeavesStateAlone(hook: (U32, Cpu) -> Cpu) {
    forall t, s: Cpu :: s.Ok() && s.r[SP] + 56 < TWO32 ==>
      && CameBack(s, hook(t, s))
      && forall k :: 0 <= k < 14 ==> FrameWord(hook(t, s).mem, s.r[SP], k) == FrameWord(s.mem, s.r[SP], k)
  }

  ghost predicate CameBack(called: Cpu, back: Cpu) {
    called.Ok() && back.Ok() && back.r[SP] == called.r[SP]
  }

  function Targets(hooks: seq<Hook>): (ts: seq<U32>)
    ensures |ts| == |hooks|
  {
    seq(|hooks|, k requires 0 <= k < |hooks| => hooks[k].target)
  }

  /** One hook_before stub: the hook is called, and the BL goes on with its registers. */
  lemma OneStubRuns(kind: Kind, target: U32, chain: U32, pc: U32, displaced: (U32, Cpu) -> Cpu,
                    hook: (U32, Cpu) -> Cpu, cpu: Cpu)
    requires kind == HookBefore || kind == HookBeforeV2
    requires StackRoom(cpu) && LeavesStateAlone(hook)
    ensures var code, p := ChainImage(kind, target, chain), Place(pc, false);
      var e := Run(code, p, displaced, cpu, 0);
      && e.Called? && e.pc == target
      && var x := Run(code, p, displaced, hook(e.pc, e.cpu), e.resume);
         x.Left? && x.pc == chain && x.cpu.r == cpu.r
  {
    hide Run, ALL_REGS;
    var code, p := ChainImage(kind, target, chain), Place(pc, false);
    var d: Cpu;
    var e := Run(code, p, displaced, cpu, 0);
    if kind == HookBefore {
      HookBeforeCalls(Ins(LdrPcSlot(6)), Lit(chain), target, p, displaced, cpu);
      var back := hook(e.pc, e.cpu);
      HookBeforeBlReturns(chain, target, p, displaced, back);
      d := Run(code, p, displaced, back, e.resume).cpu;
    } else {
      HookBeforeV2Calls(Ins(Nop), target, chain, p, displaced, cpu);
      var back := hook(e.pc, e.cpu);
      d := HookBeforeV2Returns(Ins(Nop), target, chain, p, displaced, back);
    }
    SameFrameSameRegs(cpu, e.cpu.mem, d, hook(e.pc, e.cpu).mem, cpu.r[SP] - 56);
  }

  lemma SameFrameSameRegs(c: Cpu, mem: int -> U32, c': Cpu, mem': int -> U32, sp: int)
    requires FrameOf(mem, sp, c, 13) && Restored(c', mem', sp, 13) && c.r[SP] == sp + 56
    requires forall k :: 0 <= k < 14 ==> FrameWord(mem', sp, k) == FrameWord(mem, sp, k)
    ensures c'.r == c.r
  {
    forall k | 0 <= k < 15
      ensures c'.r[k] == c.r[k]
    {
      if k < 13 {
        assert c'.r[k] == FrameWord(mem', sp, k);
      }
    }
  }

  /** The last stub at an address that held no branch: the hook is called, and then the displaced
      instruction, unless a hook of the second version said no, with the registers as they were. */
  lemma EndStubRuns(h: Hook, end: Origin, pc: U32, displaced: (U32, Cpu) -> Cpu, hook: (U32, Cpu) -> Cpu, cpu: Cpu)
    returns (d: Cpu)
    requires end.Displaced? && (h.kind == HookBefore || h.kind == HookBeforeV2)
    requires StackRoom(cpu) && LeavesStateAlone(hook) && KeepsShape(displaced)
    ensures var code, p := EndImage(h, end), Place(pc, false);
      var e := Run(code, p, displaced, cpu, 0);
      && e.Called? && e.pc == h.target && d.r == cpu.r
      && Run(code, p, displaced, hook(e.pc, e.cpu), e.resume) == EndExit(h, end, displaced, d, hook(e.pc, e.cpu))
  {
    hide Run, ALL_REGS;
    var code, p := EndImage(h, end), Place(pc, false);
    var e := Run(code, p, displaced, cpu, 0);
    if h.kind == HookBefore {
      HookBeforeCalls(Lit(end.w), Ins(Bx(LR)), h.target, p, displaced, cpu);
      d := HookBeforeReturns(end.w, h.target, p, displaced, hook(e.pc, e.cpu));
    } else {
      HookBeforeV2Calls(Lit(end.w), h.target, end.after, p, displaced, cpu);
      d := HookBeforeV2Returns(Lit(end.w), h.target, end.after, p, displaced, hook(e.pc, e.cpu));
    }
    SameFrameSameRegs(cpu, e.cpu.mem, d, hook(e.pc, e.cpu).mem, cpu.r[SP] - 56);
  }

  /** Displaced instructions leave a processor state. */
  ghost predicate KeepsShape(displaced: (U32, Cpu) -> Cpu) {
    forall w, c: Cpu :: c.Ok() ==> displaced(w, c).Ok()
  }

  function Reg(c: Cpu, k: nat): U32 {
    if k < |c.r| then c.r[k] else 0
  }

  /** How the last stub is left, back being what its hook came back with. */
  function EndExit(h: Hook, end: Origin, displaced: (U32, Cpu) -> Cpu, d: Cpu, back: Cpu): Exit
    requires end.Displaced?
  {
    var after := displaced(end.w, d);
    if h.kind == HookBefore then Left(after, Reg(after, LR))
    else Left(if Reg(back, 0) == 0 then after else d, end.after)
  }

  /** How a chain is left: at the branch's target with every register as it was; or as its last
      stub is left, with every register as it was before the displaced instruction. */
  ghost predicate LeftAs(h: Hook, end: Origin, displaced: (U32, Cpu) -> Cpu, regs: seq<U32>, last: Exit, d: Cpu,
                         back: Cpu) {
    if !end.Displaced? then last.Left? && last.pc == end.pc && last.cpu.r == regs
    else d.r == regs && last == EndExit(h, end, displaced, d, back)
  }

  /** A chain of hook_before stubs, of either version, run on the processor: the hooks are called
      newest to oldest, and the original target, or the displaced instruction, is reached with
      every register, sp and lr included, as it was at the hooked address. What the oldest hook
      answers, in back, decides about the displaced instruction as its stub has it. */
  lemma {:induction false} HookChainRuns(c: Config, mem: Memory, displaced: (U32, Cpu) -> Cpu, hook: (U32, Cpu) -> Cpu,
                                         pc: U32, cpu: Cpu, hooks: seq<Hook>, end: Origin, limit: int)
    returns (d: Cpu, called: Cpu)
    requires Visits(c, mem, pc, hooks, end, limit) && hooks != []
    requires forall k :: 0 <= k < |hooks| ==> hooks[k].kind == HookBefore || hooks[k].kind == HookBeforeV2
    requires StackRoom(cpu) && LeavesStateAlone(hook) && KeepsShape(displaced)
    ensures var (calls, last), oldest := Walk(c, mem, displaced, hook, pc, cpu, hooks), hooks[|hooks| - 1];
      calls == Targets(hooks) && LeftAs(oldest, end, displaced, cpu.r, last, d, hook(oldest.target, called))
    decreases |hooks|
  {
    hide Run, ChainImage, EndImage, LeavesStateAlone, KeepsShape, ChainSlot, EndExit;
    var h, rest := hooks[0], hooks[1..];
    assert Targets(hooks) == [h.target] + Targets(rest);
    if rest == [] && end.Displaced? {
      d, called := LastStubInChain(c, mem, displaced, hook, pc, cpu, h, end);
      assert hooks == [h];
    } else {
      var at := c.ToPhysical(pc);
      var next := WordAt(mem, at + 4 * ChainSlot(h.kind));
      var image := ChainImage(h.kind, h.target, next);
      OneStubRuns(h.kind, h.target, next, pc, displaced, hook, cpu);
      ChainImageLength(h.kind, h.target, next);
      assert CodeAt(mem, at, |image|) == image;
      var e := Run(image, Place(pc, false), displaced, cpu, 0);
      var x := Run(image, Place(pc, false), displaced, hook(e.pc, e.cpu), e.resume);
      if rest == [] {
        d, called := x.cpu, e.cpu;
        assert Targets(rest) == [];
      } else {
        d, called := HookChainRuns(c, mem, displaced, hook, next, x.cpu, rest, end, limit);
      }
    }
  }

  lemma LastStubInChain(c: Config, mem: Memory, displaced: (U32, Cpu) -> Cpu, hook: (U32, Cpu) -> Cpu,
                        pc: U32, cpu: Cpu, h: Hook, end: Origin)
    returns (d: Cpu, called: Cpu)
    requires end.Displaced? && (h.kind == HookBefore || h.kind == HookBeforeV2)
    requires StubAt(mem, c.ToPhysical(pc), EndImage(h, end))
    requires StackRoom(cpu) && LeavesStateAlone(hook) && KeepsShape(displaced)
    ensures var (calls, last) := Walk(c, mem, displaced, hook, pc, cpu, [h]);
      calls == [h.target] && LeftAs(h, end, displaced, cpu.r, last, d, hook(h.target, called))
  {
    hide Run, ChainImage, EndImage, LeavesStateAlone, KeepsShape;
    var at, image := c.ToPhysical(pc), EndImage(h, end);
    d := EndStubRuns(h, end, pc, displaced, hook, cpu);
    EndImageLength(h, end);
    assert CodeAt(mem, at, |image|) == image;
    var e := Run(image, Place(pc, false), displaced, cpu, 0);
    called := e.cpu;
    var x := Run(image, Place(pc, false), displaced, hook(e.pc, e.cpu), e.resume);
    assert Walk(c, mem, displaced, hook, x.pc, x.cpu, []) == ([], Left(x.cpu, x.pc));
    assert [h][1..] == [];
  }

  lemma EndImageLength(h: Hook, end: Origin)
    requires end.Displaced? && (h.kind == HookBefore || h.kind == HookBeforeV2)
    ensures |EndImage(h, end)| == |ChainImage(h.kind, 0, 0)|
  {
  }

  lemma ChainImageLength(kind: Kind, target: U32, chain: U32)
    ensures |ChainImage(kind, target, chain)| == |ChainImage(kind, 0, 0)|
  {
  }
}
