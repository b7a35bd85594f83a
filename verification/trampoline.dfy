/** The hook engine of wafel_core/source/trampoline.c: stubs copied into a buffer, branches
    patched to reach them, and chains that grow when an address is hooked again. */
module Trampoline {
  import opened Words
  import Branch
  import IosElf
  import opened Stubs
  import opened Windows

  // ----- the effect of one call -----

  datatype Kind = BlReplace | BlReplaceRegs | HookBefore | HookBeforeV2

  datatype Call = Call(kind: Kind, addr: U32, target: U32)

  type Memory = map<int, Item>

  /** The word at a physical address; 0 stands for anything that is not a plain word. */
  function WordAt(mem: Memory, at: int): U32 {
    if at in mem && mem[at].Lit? then mem[at].w else 0
  }

  /** extract_bl_target and extract_b_target. */
  function BlTarget(c: Config, mem: Memory, addr: U32): U32 {
    Branch.ExtractBranchTarget(Branch.OP_BL, addr, WordAt(mem, c.ToPhysical(addr)))
  }

  function BTarget(c: Config, mem: Memory, addr: U32): U32 {
    Branch.ExtractBranchTarget(Branch.OP_B, addr, WordAt(mem, c.ToPhysical(addr)))
  }

  /** The stub that goes on to chain after its hook. */
  function ChainImage(kind: Kind, target: U32, chain: U32): seq<Item> {
    match kind
    case BlReplace => BlreImage(target, chain)
    case BlReplaceRegs => BlreRegsImage(target, chain)
    case HookBefore => HookBeforeImage(Ins(LdrPcSlot(6)), Lit(chain), target)
    case HookBeforeV2 => HookBeforeV2Image(Ins(Nop), target, chain)
  }

  /** Where in that stub the chain address is. */
  function ChainSlot(kind: Kind): nat {
    match kind
    case BlReplace => 7
    case BlReplaceRegs => 8
    case HookBefore => 6
    case HookBeforeV2 => 10
  }

  /** The stub a call installs, and the branch opcode it is reached by. */
  function StubFor(c: Config, mem: Memory, call: Call): (seq<Item>, Byte) {
    var bl := BlTarget(c, mem, call.addr);
    var word := WordAt(mem, c.ToPhysical(call.addr));
    match call.kind
    case BlReplace => (BlreImage(call.target, bl), Branch.OP_BL)
    case BlReplaceRegs => (BlreRegsImage(call.target, bl), Branch.OP_BL)
    case HookBefore =>
      (if bl != 0 then HookBeforeImage(Ins(LdrPcSlot(6)), Lit(bl), call.target)
       else HookBeforeImage(Lit(word), Ins(Bx(LR)), call.target), Branch.OP_BL)
    case HookBeforeV2 =>
      var b := if bl != 0 then bl else BTarget(c, mem, call.addr);
      (if b != 0 then HookBeforeV2Image(Ins(Nop), call.target, b)
       else HookBeforeV2Image(Lit(word), call.target, Wrap32(call.addr + 4)),
       if bl != 0 then Branch.OP_BL else Branch.OP_B)
  }

  /** Items written from a physical address up, one word each. */
  function Placed(mem: Memory, at: int, image: seq<Item>): Memory {
    if image == [] then mem
    else
      var n := |image| - 1;
      Placed(mem, at, image[..n])[at + 4 * n := image[n]]
  }

  datatype State = State(mem: Memory, next: U32)

  /** Copy, map, patch. Where the code crashes for want of space or of a window there is no
      next state. */
  function Installed(c: Config, s: State, addr: U32, image: seq<Item>, op: Byte): Option<State> {
    var base := Align(s.next, 4);
    if base + 4 * |image| >= c.bufEnd then None
    else
      match FindMapping(c, addr, base)
      case None => None
      case Some(alt) =>
        var patched := Placed(s.mem, base, image)[c.ToPhysical(addr) := Lit(Branch.EncodeBranch(op, addr, alt))];
        Some(State(patched, base + 4 * |image|))
  }

  function Apply(c: Config, s: State, call: Call): Option<State> {
    var (image, op) := StubFor(c, s.mem, call);
    Installed(c, s, call.addr, image, op)
  }

  function ApplyAll(c: Config, s: State, calls: seq<Call>): Option<State> {
    if calls == [] then Some(s)
    else
      match ApplyAll(c, s, calls[..|calls| - 1])
      case None => None
      case Some(t) => Apply(c, t, calls[|calls| - 1])
  }

  // ----- chains -----

  ghost predicate StubAt(mem: Memory, at: int, image: seq<Item>) {
    forall k :: 0 <= k < |image| ==> at + 4 * k in mem && mem[at + 4 * k] == image[k]
  }

  /** What a hooked address held at first: a BL, a B, or some other instruction, which then has
      the address behind it to go on at. */
  datatype Origin = Linked(pc: U32) | Jump(pc: U32) | Displaced(w: U32, after: U32)

  datatype Hook = Hook(kind: Kind, target: U32)

  /** The stub that ends a chain where the hooked instruction was not a branch. */
  function EndImage(h: Hook, end: Origin): seq<Item>
    requires end.Displaced?
  {
    match h.kind
    case HookBefore => HookBeforeImage(Lit(end.w), Ins(Bx(LR)), h.target)
    case HookBeforeV2 => HookBeforeV2Image(Lit(end.w), h.target, end.after)
    case _ => []
  }

  /** Following stubs from pc, all of them in the buffer below limit, visits exactly these
      hooks in this order and ends as the hooked address did: at the branch's target, or in a
      last stub that holds the displaced instruction. */
  ghost predicate Visits(c: Config, mem: Memory, pc: U32, hooks: seq<Hook>, end: Origin, limit: int)
    decreases |hooks|
  {
    if hooks == [] then !end.Displaced? && end.pc == pc
    else
      var at, h := c.ToPhysical(pc), hooks[0];
      if |hooks| == 1 && end.Displaced? then
        var image := EndImage(h, end);
        image != [] && c.bufStart <= at && at + 4 * |image| <= limit && StubAt(mem, at, image)
      else
        var next := WordAt(mem, at + 4 * ChainSlot(h.kind));
        var image := ChainImage(h.kind, h.target, next);
        && c.bufStart <= at && at + 4 * |image| <= limit && StubAt(mem, at, image)
        && Visits(c, mem, next, hooks[1..], end, limit)
  }

  /** The branch that has to lead into a chain. A BL's chain and a last stub of hook_before
      return through lr; where a B was, or a last stub of the second version goes on by itself,
      lr is still the caller's and has to stay so. */
  function LinkOp(hooks: seq<Hook>, end: Origin): Byte
    requires hooks != [] || !end.Displaced?
  {
    match end
    case Linked(_) => Branch.OP_BL
    case Jump(_) => Branch.OP_B
    case Displaced(_, _) => if hooks[|hooks| - 1].kind == HookBeforeV2 then Branch.OP_B else Branch.OP_BL
  }

  /** What the origin itself has to be like. */
  predicate GoodOrigin(addr: U32, end: Origin) {
    match end
    case Linked(pc) => pc != 0
    case Jump(pc) => pc != 0
    case Displaced(w, after) =>
      after == Wrap32(addr + 4) && w / 0x100_0000 != Branch.OP_BL && w / 0x100_0000 != Branch.OP_B
  }

  /** The address branches into its chain of hooks; or is still as it was. */
  ghost predicate Hooked(c: Config, s: State, addr: U32, hooks: seq<Hook>, end: Origin) {
    var word := WordAt(s.mem, c.ToPhysical(addr));
    && IsWord(s.mem, c.ToPhysical(addr)) && GoodOrigin(addr, end)
    && if hooks == [] && end.Displaced? then word == end.w
       else
         var op := LinkOp(hooks, end);
         var pc := Branch.ExtractBranchTarget(op, addr, word);
         word / 0x100_0000 == op && pc != 0 && Visits(c, s.mem, pc, hooks, end, s.next)
  }

  ghost predicate IsWord(mem: Memory, at: int) { at in mem && mem[at].Lit? }

  /** Every window shows the buffer, which is in one block, and nowhere at address zero. */
  ghost predicate WellMapped(c: Config) {
    && 0 < c.bufStart <= c.bufEnd <= TWO32 - 64 && OneBlock(c)
    && forall k: nat, x: U32 :: k < 7 && c.bufStart <= x < c.bufEnd ==>
        c.ToPhysical(c.Alias(k, x)) == x && c.Alias(k, x) != 0
  }

  /** The addresses to be hooked are distinct places outside the buffer, and both ends of the
      buffer, in the window chosen for the address, are within reach. */
  ghost predicate GoodSites(c: Config, sites: set<U32>)
    requires OneBlock(c)
  {
    && (forall a :: a in sites ==> !(c.bufStart <= c.ToPhysical(a) < c.bufEnd))
    && (forall a, b :: a in sites && b in sites && c.ToPhysical(a) == c.ToPhysical(b) ==> a == b)
    && (forall a :: a in sites ==> EndsInReach(c, a))
  }

  lemma {:induction false} PlacedItems(mem: Memory, at: int, image: seq<Item>)
    ensures StubAt(Placed(mem, at, image), at, image)
    ensures forall a :: a < at || at + 4 * |image| <= a ==>
      (a in Placed(mem, at, image) <==> a in mem) && (a in mem ==> Placed(mem, at, image)[a] == mem[a])
  {
    if image != [] {
      PlacedItems(mem, at, image[..|image| - 1]);
    }
  }

  /** Chains only read the buffer below their limit. */
  lemma {:induction false} VisitsFrame(c: Config, mem: Memory, mem': Memory, pc: U32, hooks: seq<Hook>, end: Origin,
                                       limit: int, limit': int)
    requires Visits(c, mem, pc, hooks, end, limit) && limit <= limit'
    requires forall a :: c.bufStart <= a < limit && a in mem ==> a in mem' && mem'[a] == mem[a]
    ensures Visits(c, mem', pc, hooks, end, limit')
    decreases |hooks|
  {
    hide ChainImage, EndImage, ChainSlot, StubAt;
    if hooks != [] {
      var at, h := c.ToPhysical(pc), hooks[0];
      if |hooks| == 1 && end.Displaced? {
        StubFrame(c, mem, mem', at, EndImage(h, end), limit);
      } else {
        var next := WordAt(mem, at + 4 * ChainSlot(h.kind));
        StubFrame(c, mem, mem', at, ChainImage(h.kind, h.target, next), limit);
        ChainSlotRead(mem, at, h.kind, h.target, next);
        ChainSlotRead(mem', at, h.kind, h.target, next);
        VisitsFrame(c, mem, mem', next, hooks[1..], end, limit, limit');
      }
    }
  }

  lemma ChainSlotRead(mem: Memory, at: int, kind: Kind, target: U32, chain: U32)
    requires StubAt(mem, at, ChainImage(kind, target, chain))
    ensures WordAt(mem, at + 4 * ChainSlot(kind)) == chain && |ChainImage(kind, target, chain)| > 0
  {
    assert ChainImage(kind, target, chain)[ChainSlot(kind)] == Lit(chain);
  }

  lemma StubFrame(c: Config, mem: Memory, mem': Memory, at: int, image: seq<Item>, limit: int)
    requires StubAt(mem, at, image) && c.bufStart <= at && at + 4 * |image| <= limit
    requires forall a :: c.bufStart <= a < limit && a in mem ==> a in mem' && mem'[a] == mem[a]
    ensures StubAt(mem', at, image)
  {
  }

  lemma AlignedNext(next: U32)
    requires next <= TWO32 - 64
    ensures var base := Align(next, 4); base % 4 == 0 && next <= base < next + 4
  {
    hide Align, LeastMultiple;
    AlignIsLeastMultiple(next, 4);
    LeastMultipleIs(next, 4);
  }

  /** The new stub's address as the branch sees it. */
  lemma InstalledFacts(c: Config, s: State, addr: U32, image: seq<Item>, op: Byte, t: State)
    returns (base: U32, alt: U32)
    requires WellMapped(c) && c.bufStart <= s.next <= c.bufEnd && |image| > 0
    requires Installed(c, s, addr, image, op) == Some(t)
    requires !(c.bufStart <= c.ToPhysical(addr) < c.bufEnd)
    ensures s.next <= base && base % 4 == 0 && t.next == base + 4 * |image| < c.bufEnd
    ensures FindMapping(c, addr, base) == Some(alt) && c.ToPhysical(alt) == base && alt != 0
    ensures StubAt(t.mem, base, image)
    ensures t.mem.Keys >= {c.ToPhysical(addr)} && t.mem[c.ToPhysical(addr)] == Lit(Branch.EncodeBranch(op, addr, alt))
    ensures forall a :: a in s.mem && a != c.ToPhysical(addr) && (a < base || t.next <= a) ==>
      a in t.mem && t.mem[a] == s.mem[a]
  {
    hide Placed, FindMappingFrom, Align, Branch.EncodeBranch, Config.Alias, Config.ToPhysical;
    base := Align(s.next, 4);
    AlignedNext(s.next);
    alt := FindMapping(c, addr, base).value;
    var w := FoundMappingIsAlias(c, addr, base, 0);
    PlacedItems(s.mem, base, image);
  }

  // ----- what a call does to the chain at its address -----

  /** The hooks for which a chain can be kept up: any at a BL; at a B only those of the second
      version; and at another instruction those, or any once hook_before came first. */
  predicate Keeps(hooks: seq<Hook>, end: Origin) {
    || end.Linked? || AllV2(hooks)
    || (end.Displaced? && hooks[|hooks| - 1].kind == HookBefore)
  }

  predicate AllV2(hooks: seq<Hook>) {
    forall k :: 0 <= k < |hooks| ==> hooks[k].kind == HookBeforeV2
  }

  /** The opcode that the branch at a hooked address has after a run, and its target's meaning:
      a B for as long as nothing but the second version was used where there was no BL. */
  function OpAfter(hooks: seq<Hook>, end: Origin): Byte {
    if !end.Linked? && AllV2(hooks) then Branch.OP_B else Branch.OP_BL
  }

  lemma KeepsLinkOp(hooks: seq<Hook>, end: Origin)
    requires hooks != [] || !end.Displaced?
    ensures Keeps(hooks, end) ==> LinkOp(hooks, end) == OpAfter(hooks, end)
    ensures !Keeps(hooks, end) ==>
      LinkOp(hooks, end) != OpAfter(hooks, end)
      || (end.Displaced? && EndImage(hooks[|hooks| - 1], end) == [])
  {
  }

  lemma KeepsOlder(h: Hook, hooks: seq<Hook>, end: Origin)
    requires Keeps([h] + hooks, end)
    ensures Keeps(hooks, end)
    ensures hooks != [] || !end.Displaced? ==>
      OpAfter([h] + hooks, end) == (if h.kind == HookBeforeV2 then OpAfter(hooks, end) else Branch.OP_BL)
      && (OpAfter(hooks, end) == Branch.OP_B ==> h.kind == HookBeforeV2)
  {
    var all := [h] + hooks;
    assert all[0] == h && all[1..] == hooks;
    forall k | 0 <= k < |hooks|
      ensures all[k + 1] == hooks[k]
    {
    }
    if hooks != [] {
      assert all[|all| - 1] == hooks[|hooks| - 1];
    }
  }

  /** The stub a call installs on an address that has a chain, or is still as it was, when the
      chain can be kept up. */
  lemma StubForHooked(c: Config, s: State, call: Call, hooks: seq<Hook>, end: Origin)
    requires Hooked(c, s, call.addr, hooks, end) && Keeps([Hook(call.kind, call.target)] + hooks, end)
    ensures var (image, op), h := StubFor(c, s.mem, call), Hook(call.kind, call.target);
      && op == OpAfter([h] + hooks, end) && |image| > 0
      && if hooks == [] && end.Displaced? then image == EndImage(h, end)
         else
           var word := WordAt(s.mem, c.ToPhysical(call.addr));
           image == ChainImage(h.kind, h.target, Branch.ExtractBranchTarget(LinkOp(hooks, end), call.addr, word))
  {
    hide Visits, StubFor, ChainImage, EndImage, Branch.ExtractBranchTarget, Config.ToPhysical;
    var h := Hook(call.kind, call.target);
    KeepsOlder(h, hooks, end);
    ImagesNotEmpty(h, end);
    if hooks == [] && end.Displaced? {
      KeepsFirst(h, end);
      StubForPlain(c, s, call, end);
    } else {
      KeepsLinkOp(hooks, end);
      StubForBranch(c, s, call, LinkOp(hooks, end));
    }
  }

  lemma KeepsFirst(h: Hook, end: Origin)
    requires end.Displaced? && Keeps([h] + [], end)
    ensures h.kind == HookBefore || h.kind == HookBeforeV2
    ensures OpAfter([h] + [], end) == if h.kind == HookBeforeV2 then Branch.OP_B else Branch.OP_BL
  {
    assert ([h] + [])[0] == h;
  }

  lemma StubForPlain(c: Config, s: State, call: Call, end: Origin)
    requires GoodOrigin(call.addr, end) && end.Displaced? && WordAt(s.mem, c.ToPhysical(call.addr)) == end.w
    requires call.kind == HookBefore || call.kind == HookBeforeV2
    ensures StubFor(c, s.mem, call)
         == (EndImage(Hook(call.kind, call.target), end),
             if call.kind == HookBeforeV2 then Branch.OP_B else Branch.OP_BL)
  {
    hide HookBeforeImage, HookBeforeV2Image, Branch.ExtractTarget, Config.ToPhysical;
  }

  lemma StubForBranch(c: Config, s: State, call: Call, op: Byte)
    requires op == Branch.OP_BL || (op == Branch.OP_B && call.kind == HookBeforeV2)
    requires var word := WordAt(s.mem, c.ToPhysical(call.addr));
      word / 0x100_0000 == op && Branch.ExtractBranchTarget(op, call.addr, word) != 0
    ensures var word := WordAt(s.mem, c.ToPhysical(call.addr));
      StubFor(c, s.mem, call)
      == (ChainImage(call.kind, call.target, Branch.ExtractBranchTarget(op, call.addr, word)), op)
  {
    hide BlreImage, BlreRegsImage, HookBeforeImage, HookBeforeV2Image, Branch.ExtractTarget, Config.ToPhysical;
  }

  lemma ImagesNotEmpty(h: Hook, end: Origin)
    ensures forall chain :: |ChainImage(h.kind, h.target, chain)| > 0
    ensures end.Displaced? && (h.kind == HookBefore || h.kind == HookBeforeV2) ==> |EndImage(h, end)| > 0
  {
  }

  /** A stub in front of a chain. */
  lemma VisitsOneMore(c: Config, mem: Memory, pc: U32, at: int, h: Hook, chain: U32, hooks: seq<Hook>, end: Origin,
                      limit: int)
    requires at == c.ToPhysical(pc) && c.bufStart <= at
    requires
      var image := if hooks == [] && end.Displaced? then EndImage(h, end) else ChainImage(h.kind, h.target, chain);
      image != [] && StubAt(mem, at, image) && at + 4 * |image| <= limit
    requires (hooks == [] && end.Displaced?) || Visits(c, mem, chain, hooks, end, limit)
    ensures Visits(c, mem, pc, [h] + hooks, end, limit)
  {
    hide ChainImage, EndImage, ChainSlot, StubAt;
    assert ([h] + hooks)[1..] == hooks;
    if !(hooks == [] && end.Displaced?) {
      ChainSlotRead(mem, at, h.kind, h.target, chain);
    }
  }

  /** Hooking puts the new hook in front of the chain at its address. */
  lemma ApplyExtends(c: Config, sites: set<U32>, s: State, call: Call, t: State, hooks: seq<Hook>, end: Origin)
    requires WellMapped(c) && GoodSites(c, sites) && call.addr in sites && c.bufStart <= s.next <= c.bufEnd
    requires Hooked(c, s, call.addr, hooks, end) && Keeps([Hook(call.kind, call.target)] + hooks, end)
    requires Apply(c, s, call) == Some(t)
    ensures Hooked(c, t, call.addr, [Hook(call.kind, call.target)] + hooks, end) && s.next <= t.next <= c.bufEnd
  {
    hide Installed, StubFor, StubAt, Visits, ChainImage, EndImage, Branch.EncodeBranch, Branch.Reaches,
      Branch.ExtractTarget, GoodOrigin, OneBlock, Keeps, OpAfter, LinkOp;
    var h := Hook(call.kind, call.target);
    var (image, op) := StubFor(c, s.mem, call);
    StubForHooked(c, s, call, hooks, end);
    var base, alt := InstalledFacts(c, s, call.addr, image, op, t);
    BranchRead(c, sites, call.addr, op, base, alt);
    KeepsLinkOp([h] + hooks, end);
    if hooks == [] && end.Displaced? {
      VisitsOneMore(c, t.mem, alt, base, h, 0, hooks, end, t.next);
    } else {
      var chain := Branch.ExtractBranchTarget(LinkOp(hooks, end), call.addr, WordAt(s.mem, c.ToPhysical(call.addr)));
      VisitsFrame(c, s.mem, t.mem, chain, hooks, end, s.next, t.next);
      VisitsOneMore(c, t.mem, alt, base, h, chain, hooks, end, t.next);
    }
  }

  /** The branch written to a site leads to the stub. */
  lemma BranchRead(c: Config, sites: set<U32>, addr: U32, op: Byte, base: U32, alt: U32)
    requires WellMapped(c) && GoodSites(c, sites) && addr in sites
    requires c.InBuffer(base) && base % 4 == 0 && FindMapping(c, addr, base) == Some(alt)
    ensures Branch.EncodeBranch(op, addr, alt) / 0x100_0000 == op
    ensures Branch.ExtractBranchTarget(op, addr, Branch.EncodeBranch(op, addr, alt)) == alt
  {
    hide Branch.EncodeBranch, Branch.Reaches, Branch.ExtractBranchTarget, EndsInReach, FindMapping, OneBlock,
      Config.ToPhysical;
    BufferReachedExactly(c, addr);
    Branch.ArmBranchRoundTrip(op, addr, alt);
    Branch.EncodedParts(op, addr, alt);
  }

  /** Hooking elsewhere leaves a chain alone. */
  lemma ApplyKeepsOthers(c: Config, sites: set<U32>, s: State, call: Call, t: State, addr: U32,
                         hooks: seq<Hook>, end: Origin)
    requires WellMapped(c) && GoodSites(c, sites) && call.addr in sites && c.bufStart <= s.next <= c.bufEnd
    requires addr in sites && addr != call.addr && Hooked(c, s, addr, hooks, end)
    requires Apply(c, s, call) == Some(t)
    ensures Hooked(c, t, addr, hooks, end)
  {
    hide StubFor, Visits, Branch.ExtractBranchTarget, LinkOp, GoodOrigin, OneBlock, EndsInReach, Config.ToPhysical,
      Installed;
    var (image, op) := StubFor(c, s.mem, call);
    StubNotEmpty(c, s, call);
    var base, alt := InstalledFacts(c, s, call.addr, image, op, t);
    var at := c.ToPhysical(addr);
    assert t.mem[at] == s.mem[at];
    if !(hooks == [] && end.Displaced?) {
      var pc := Branch.ExtractBranchTarget(LinkOp(hooks, end), addr, WordAt(s.mem, at));
      VisitsFrame(c, s.mem, t.mem, pc, hooks, end, s.next, t.next);
    }
  }

  lemma StubNotEmpty(c: Config, s: State, call: Call)
    ensures |StubFor(c, s.mem, call).0| > 0
  {
    hide Branch.ExtractBranchTarget, Config.ToPhysical;
  }

  // ----- where the chain is lost -----

  /** The address holds a BL into the buffer that no chain of these hooks starts with. */
  ghost predicate Spoiled(c: Config, s: State, addr: U32, hooks: seq<Hook>, end: Origin) {
    var word := WordAt(s.mem, c.ToPhysical(addr));
    && IsWord(s.mem, c.ToPhysical(addr)) && !Keeps(hooks, end)
    && word / 0x100_0000 == Branch.OP_BL && Branch.ExtractBranchTarget(Branch.OP_BL, addr, word) != 0
  }

  lemma {:induction false} VisitsEnds(c: Config, mem: Memory, pc: U32, hooks: seq<Hook>, end: Origin, limit: int)
    requires Visits(c, mem, pc, hooks, end, limit) && hooks != [] && end.Displaced?
    ensures EndImage(hooks[|hooks| - 1], end) != []
    decreases |hooks|
  {
    hide ChainImage, EndImage, StubAt, ChainSlot;
    if |hooks| > 1 {
      var next := WordAt(mem, c.ToPhysical(pc) + 4 * ChainSlot(hooks[0].kind));
      VisitsEnds(c, mem, next, hooks[1..], end, limit);
    }
  }

  lemma SpoiledIsNotHooked(c: Config, s: State, addr: U32, hooks: seq<Hook>, end: Origin)
    requires Spoiled(c, s, addr, hooks, end)
    ensures !Hooked(c, s, addr, hooks, end)
  {
    hide Visits, Branch.ExtractBranchTarget, EndImage, GoodOrigin, Config.ToPhysical;
    if Hooked(c, s, addr, hooks, end) && end.Displaced? {
      VisitsEnds(c, s.mem, Branch.ExtractBranchTarget(LinkOp(hooks, end), addr, WordAt(s.mem, c.ToPhysical(addr))),
                 hooks, end, s.next);
      LostEnds(hooks, end);
    }
  }

  /** Hooks that do not keep a chain and still call for a BL end in a stub that cannot end one. */
  lemma LostEnds(hooks: seq<Hook>, end: Origin)
    requires !Keeps(hooks, end) && end.Displaced? && LinkOp(hooks, end) == Branch.OP_BL
    ensures EndImage(hooks[|hooks| - 1], end) == []
  {
  }

  /** A call that does not keep the chain up puts a BL to its stub in place. */
  lemma ApplySpoils(c: Config, sites: set<U32>, s: State, call: Call, t: State, hooks: seq<Hook>, end: Origin)
    requires WellMapped(c) && GoodSites(c, sites) && call.addr in sites && c.bufStart <= s.next <= c.bufEnd
    requires (Keeps(hooks, end) && Hooked(c, s, call.addr, hooks, end)) || Spoiled(c, s, call.addr, hooks, end)
    requires !Keeps([Hook(call.kind, call.target)] + hooks, end)
    requires Apply(c, s, call) == Some(t)
    ensures Spoiled(c, t, call.addr, [Hook(call.kind, call.target)] + hooks, end) && s.next <= t.next <= c.bufEnd
  {
    hide StubAt, Visits, Branch.EncodeBranch, Branch.ExtractBranchTarget, Keeps, OneBlock, Config.ToPhysical, Installed,
      EndsInReach, LinkOp, GoodOrigin;
    var (image, op) := StubFor(c, s.mem, call);
    StubNotEmpty(c, s, call);
    SpoilingLinks(c, s, call, hooks, end);
    var base, alt := InstalledFacts(c, s, call.addr, image, op, t);
    BranchRead(c, sites, call.addr, op, base, alt);
  }

  lemma SpoilingLinks(c: Config, s: State, call: Call, hooks: seq<Hook>, end: Origin)
    requires (Keeps(hooks, end) && Hooked(c, s, call.addr, hooks, end)) || Spoiled(c, s, call.addr, hooks, end)
    requires !Keeps([Hook(call.kind, call.target)] + hooks, end)
    ensures StubFor(c, s.mem, call).1 == Branch.OP_BL
  {
    hide Visits, Branch.ExtractTarget, Config.ToPhysical;
    var h := Hook(call.kind, call.target);
    assert ([h] + hooks)[0] == h && forall k :: 0 <= k < |hooks| ==> ([h] + hooks)[k + 1] == hooks[k];
  }

  /** Hooking elsewhere does not repair it. */
  lemma ApplyKeepsSpoiled(c: Config, sites: set<U32>, s: State, call: Call, t: State, addr: U32,
                          hooks: seq<Hook>, end: Origin)
    requires WellMapped(c) && GoodSites(c, sites) && call.addr in sites && c.bufStart <= s.next <= c.bufEnd
    requires addr in sites && addr != call.addr && Spoiled(c, s, addr, hooks, end)
    requires Apply(c, s, call) == Some(t)
    ensures Spoiled(c, t, addr, hooks, end)
  {
    hide StubFor, Branch.ExtractBranchTarget, Keeps, OneBlock, EndsInReach, Config.ToPhysical, Installed;
    var (image, op) := StubFor(c, s.mem, call);
    StubNotEmpty(c, s, call);
    var base, alt := InstalledFacts(c, s, call.addr, image, op, t);
    assert t.mem[c.ToPhysical(addr)] == s.mem[c.ToPhysical(addr)];
  }

  // ----- runs -----

  /** The hooks a run of calls put at an address, newest first. */
  function HooksAt(calls: seq<Call>, addr: U32): seq<Hook> {
    if calls == [] then []
    else
      var last, before := calls[|calls| - 1], HooksAt(calls[..|calls| - 1], addr);
      if last.addr == addr then [Hook(last.kind, last.target)] + before else before
  }

  /** At first every site is as some origin says, and nothing is in the buffer. */
  ghost predicate Initial(c: Config, s: State, sites: set<U32>, origin: map<U32, Origin>) {
    && c.bufStart <= s.next <= c.bufEnd && sites <= origin.Keys
    && forall a :: a in sites ==> Hooked(c, s, a, [], origin[a])
  }

  /** A site after a run: its chain if the hooks keep one up, and otherwise lost. */
  ghost predicate ChainOrNot(c: Config, s: State, addr: U32, hooks: seq<Hook>, end: Origin) {
    if Keeps(hooks, end) then Hooked(c, s, addr, hooks, end) else Spoiled(c, s, addr, hooks, end)
  }

  lemma SiteAfterCall(c: Config, sites: set<U32>, s: State, call: Call, t: State, hooks: seq<Hook>, end: Origin)
    requires WellMapped(c) && GoodSites(c, sites) && call.addr in sites && c.bufStart <= s.next <= c.bufEnd
    requires ChainOrNot(c, s, call.addr, hooks, end) && Apply(c, s, call) == Some(t)
    ensures ChainOrNot(c, t, call.addr, [Hook(call.kind, call.target)] + hooks, end) && s.next <= t.next <= c.bufEnd
  {
    hide Hooked, Spoiled, Apply, GoodSites, OneBlock, Keeps;
    var h := Hook(call.kind, call.target);
    if Keeps([h] + hooks, end) {
      KeepsOlder(h, hooks, end);
      ApplyExtends(c, sites, s, call, t, hooks, end);
    } else {
      ApplySpoils(c, sites, s, call, t, hooks, end);
    }
  }

  lemma {:induction false} SitesAfterRun(c: Config, sites: set<U32>, s: State, origin: map<U32, Origin>,
                                         calls: seq<Call>, t: State, addr: U32)
    requires WellMapped(c) && GoodSites(c, sites) && Initial(c, s, sites, origin)
    requires forall k :: 0 <= k < |calls| ==> calls[k].addr in sites
    requires ApplyAll(c, s, calls) == Some(t) && addr in sites
    ensures ChainOrNot(c, t, addr, HooksAt(calls, addr), origin[addr]) && c.bufStart <= t.next <= c.bufEnd
    decreases |calls|
  {
    hide Hooked, Spoiled, Apply, GoodSites, OneBlock;
    if calls != [] {
      hide ChainOrNot, Keeps;
      var before, last := calls[..|calls| - 1], calls[|calls| - 1];
      var u := ApplyAll(c, s, before).value;
      SitesAfterRun(c, sites, s, origin, before, u, addr);
      SitesAfterRun(c, sites, s, origin, before, u, last.addr);
      SiteAfterCall(c, sites, u, last, t, HooksAt(before, last.addr), origin[last.addr]);
      if last.addr != addr {
        OtherAfterCall(c, sites, u, last, t, addr, HooksAt(before, addr), origin[addr]);
      }
    }
  }

  lemma OtherAfterCall(c: Config, sites: set<U32>, s: State, call: Call, t: State, addr: U32,
                       hooks: seq<Hook>, end: Origin)
    requires WellMapped(c) && GoodSites(c, sites) && call.addr in sites && c.bufStart <= s.next <= c.bufEnd
    requires addr in sites && addr != call.addr && ChainOrNot(c, s, addr, hooks, end)
    requires Apply(c, s, call) == Some(t)
    ensures ChainOrNot(c, t, addr, hooks, end)
  {
    hide Hooked, Spoiled, Apply, GoodSites, OneBlock, Keeps;
    if Keeps(hooks, end) {
      ApplyKeepsOthers(c, sites, s, call, t, addr, hooks, end);
    } else {
      ApplyKeepsSpoiled(c, sites, s, call, t, addr, hooks, end);
    }
  }

  /** For every run of calls, however interleaved: following the branch at a hooked address
      visits that address's hooks, newest to oldest, and ends where the address led at first, if
      and only if it held a BL, or only the second version was used on it, or it held no branch
      and hook_before came first. */
  lemma ChainsAfterAnyRun(c: Config, sites: set<U32>, s: State, origin: map<U32, Origin>,
                          calls: seq<Call>, t: State, addr: U32)
    requires WellMapped(c) && GoodSites(c, sites) && Initial(c, s, sites, origin)
    requires forall k :: 0 <= k < |calls| ==> calls[k].addr in sites
    requires ApplyAll(c, s, calls) == Some(t) && addr in sites
    ensures Hooked(c, t, addr, HooksAt(calls, addr), origin[addr]) <==> Keeps(HooksAt(calls, addr), origin[addr])
  {
    hide Hooked, Spoiled, Apply, GoodSites, OneBlock, Keeps;
    SitesAfterRun(c, sites, s, origin, calls, t, addr);
    if !Keeps(HooksAt(calls, addr), origin[addr]) {
      SpoiledIsNotHooked(c, t, addr, HooksAt(calls, addr), origin[addr]);
    }
  }

  lemma NotABl(c: Config, s: State, call: Call)
    requires call.kind == HookBefore && WordAt(s.mem, c.ToPhysical(call.addr)) / 0x100_0000 != Branch.OP_BL
    ensures StubFor(c, s.mem, call)
         == (HookBeforeImage(Lit(WordAt(s.mem, c.ToPhysical(call.addr))), Ins(Bx(LR)), call.target), Branch.OP_BL)
  {
    hide Config.ToPhysical, HookBeforeImage;
  }

  lemma AfterFirstV2(c: Config, sites: set<U32>, s: State, end: Origin, first: Call, t: State) returns (alt: U32)
    requires WellMapped(c) && GoodSites(c, sites) && first.addr in sites && c.bufStart <= s.next <= c.bufEnd
    requires Hooked(c, s, first.addr, [], end) && end.Displaced? && first.kind == HookBeforeV2
    requires Apply(c, s, first) == Some(t)
    ensures WordAt(t.mem, c.ToPhysical(first.addr)) == Branch.EncodeBranch(Branch.OP_B, first.addr, alt)
    ensures var b := Branch.EncodeBranch(Branch.OP_B, first.addr, alt);
      b / 0x100_0000 == Branch.OP_B && Branch.ExtractBranchTarget(Branch.OP_B, first.addr, b) == alt
  {
    hide StubAt, Branch.EncodeBranch, Branch.ExtractBranchTarget, OneBlock, Config.ToPhysical, Installed, EndsInReach,
      StubFor, Hooked, EndImage;
    var (image, op) := StubFor(c, s.mem, first);
    StubForHooked(c, s, first, [], end);
    var base;
    base, alt := InstalledFacts(c, s, first.addr, image, op, t);
    BranchRead(c, sites, first.addr, op, base, alt);
  }

  /** A run that fails: after the second version, plain hook_before finds a B and takes it for an
      ordinary instruction. Displaced into the new stub it leads elsewhere: it leads to the first
      stub from the hooked address only. */
  lemma BranchIsDisplaced(c: Config, sites: set<U32>, s: State, end: Origin, first: Call, second: Call, t: State,
                          u: State)
    returns (alt: U32)
    requires WellMapped(c) && GoodSites(c, sites) && first.addr in sites && c.bufStart <= s.next <= c.bufEnd
    requires Hooked(c, s, first.addr, [], end) && end.Displaced?
    requires first.kind == HookBeforeV2 && second.kind == HookBefore && second.addr == first.addr
    requires Apply(c, s, first) == Some(t) && Apply(c, t, second) == Some(u)
    ensures StubFor(c, t.mem, second)
         == (HookBeforeImage(Lit(Branch.EncodeBranch(Branch.OP_B, first.addr, alt)), Ins(Bx(LR)), second.target),
             Branch.OP_BL)
    ensures var b := Branch.EncodeBranch(Branch.OP_B, first.addr, alt);
      forall at: U32 :: Branch.ExtractTarget(at, b) == alt <==> at == first.addr
    ensures !Hooked(c, u, first.addr, [Hook(HookBefore, second.target), Hook(HookBeforeV2, first.target)], end)
  {
    hide Apply, Hooked, Spoiled, OneBlock, GoodSites, Config.ToPhysical, Branch.EncodeBranch, Branch.ExtractTarget,
      HookBeforeImage;
    alt := AfterFirstV2(c, sites, s, end, first, t);
    var b := Branch.EncodeBranch(Branch.OP_B, first.addr, alt);
    forall at: U32
      ensures Branch.ExtractTarget(at, b) == alt <==> at == first.addr
    {
      Branch.MovedBranch(at, first.addr, b);
    }
    NotABl(c, t, second);
    var one, two := Hook(HookBeforeV2, first.target), Hook(HookBefore, second.target);
    var both := [two] + [one];
    assert both == [two, one] && both[0] == two && both[1] == one && [one] + [] == [one];
    ApplyExtends(c, sites, s, first, t, [], end);
    ApplySpoils(c, sites, t, second, u, [one], end);
    SpoiledIsNotHooked(c, u, first.addr, [two, one], end);
  }

  /** And blreplace on anything but a BL hands its hook a null chain. */
  lemma NullChain(c: Config, s: State, addr: U32, end: Origin, call: Call)
    requires Hooked(c, s, addr, [], end) && !end.Linked? && call.addr == addr
    requires call.kind == BlReplace || call.kind == BlReplaceRegs
    ensures StubFor(c, s.mem, call) == (ChainImage(call.kind, call.target, 0), Branch.OP_BL)
  {
  }

  // ----- a configuration -----

  /** The plugin area at its place, all windows onto it, a buffer of 16 KiB in it. */
  function UsualConfig(): Config {
    var base: U32 := 0x27C0_0000;
    Config(seq(8, i requires 0 <= i < 8 =>
             if i < 2 then IosElf.Phdr(0, 0, 0, 0, 0, 0, 0, 0)
             else IosElf.Phdr(1, 0, ALT_BASES[i - 2], base, 0, 0xF_FFFF, 0, 0)),
           base, base + 0x1000, base + 0x5000)
  }

  lemma UsualTranslation(k: nat, x: U32)
    requires k < 7 && 0x27C0_1000 <= x < 0x27C0_5000
    ensures var c := UsualConfig(); c.ToPhysical(c.Alias(k, x)) == x && c.Alias(k, x) != 0
  {
    var c := UsualConfig();
    IosElf.TranslateFirstMatch(c.phdrs, c.Alias(k, x), 2, if k == 0 then 8 else k + 1);
  }

  const SITE: U32 := 0x0500_0000

  lemma UsualWindow(k: nat)
    requires k < 7
    ensures var c := UsualConfig(); SameBlock(c.Alias(k, c.bufStart), c.Alias(k, c.bufEnd - 1))
  {
    if k > 0 {
      var b := ALT_BASES[k - 1];
      assert b % 0x10_0000 == 0;
      assert UsualConfig().Alias(k, UsualConfig().bufStart) == b + 0x1000;
      assert UsualConfig().Alias(k, UsualConfig().bufEnd - 1) == b + 0x4FFF;
    }
  }

  lemma UsualBlock()
    ensures OneBlock(UsualConfig()) && FirstPlace(UsualConfig()) == 0x27C0_1000
      && LastPlace(UsualConfig()) == 0x27C0_4FFC
  {
    hide SameBlock, Config.Alias;
    var c := UsualConfig();
    assert c.bufStart == 0x27C0_1000 && c.bufEnd == 0x27C0_5000;
    hide UsualConfig;
    forall k | 0 <= k < 7
      ensures SameBlock(c.Alias(k, c.bufStart), c.Alias(k, c.bufEnd - 1))
    {
      UsualWindow(k);
    }
  }

  lemma UsualReach()
    ensures FirstPlace(UsualConfig()) < UsualConfig().bufEnd && EndsInReach(UsualConfig(), SITE)
    ensures FindMapping(UsualConfig(), SITE, 0x27C0_1000) == Some(0x0520_1000)
  {
    hide FirstPlace, LastPlace, OneBlock;
    var c := UsualConfig();
    UsualBlock();
    assert c.Alias(1, c.bufStart) == 0x0520_1000 && c.Alias(1, 0x27C0_4FFC) == 0x0520_4FFC;
    assert ChosenFrom(c, SITE, 1) == 1;
    assert FindMappingFrom(c, SITE, 0x27C0_1000, 1) == Some(0x0520_1000);
  }

  lemma UsualConfigIsGood()
    ensures WellMapped(UsualConfig()) && GoodSites(UsualConfig(), {SITE}) && UsualConfig().ToPhysical(SITE) == SITE
  {
    hide Config.ToPhysical, Config.Alias, EndsInReach, OneBlock, FirstPlace;
    var c := UsualConfig();
    UsualBlock();
    UsualReach();
    forall k: nat, x: U32 | k < 7 && c.bufStart <= x < c.bufEnd
      ensures c.ToPhysical(c.Alias(k, x)) == x && c.Alias(k, x) != 0
    {
      UsualTranslation(k, x);
    }
    UsualSitePlace();
  }

  lemma UsualSitePlace()
    ensures UsualConfig().ToPhysical(SITE) == SITE
  {
    IosElf.TranslateFirstMatch(UsualConfig().phdrs, SITE, 2, 8);
  }

  lemma UsualStub(mem: Memory)
    ensures |StubFor(UsualConfig(), mem, Call.Call(HookBefore, SITE, 0x27C0_0100)).0| == 8
  {
    hide UsualConfig, Config.ToPhysical, Branch.ExtractBranchTarget;
  }

  /** What the theorem on chains asks for can be met: with a BL in the MCP block every place in
      that buffer is within reach, and a first call on it succeeds. */
  lemma UsualSite(mem: Memory, bl: U32)
    requires SITE in mem && mem[SITE] == Lit(bl) && bl / 0x100_0000 == Branch.OP_BL
    requires Branch.ExtractBranchTarget(Branch.OP_BL, SITE, bl) != 0
    ensures var c, s := UsualConfig(), State(mem, 0x27C0_1000);
      && WellMapped(c) && GoodSites(c, {SITE})
      && Hooked(c, s, SITE, [], Linked(Branch.ExtractBranchTarget(Branch.OP_BL, SITE, bl)))
      && Apply(c, s, Call.Call(HookBefore, SITE, 0x27C0_0100)).Some?
  {
    hide UsualConfig, WellMapped, GoodSites, Apply, Branch.ExtractBranchTarget, OneBlock, Config.ToPhysical;
    UsualConfigIsGood();
    UsualBlock();
    UsualApply(mem);
  }

  lemma UsualApply(mem: Memory)
    ensures Apply(UsualConfig(), State(mem, 0x27C0_1000), Call.Call(HookBefore, SITE, 0x27C0_0100)).Some?
  {
    hide Apply, StubFor, EndsInReach, FirstPlace, FindMapping, Align;
    UsualReach();
    UsualBase();
    UsualStub(mem);
    FitsIn(UsualConfig(), State(mem, 0x27C0_1000), Call.Call(HookBefore, SITE, 0x27C0_0100));
  }

  lemma UsualBase()
    ensures Align(0x27C0_1000, 4) == 0x27C0_1000
  {
    hide Align;
    AlignedNext(0x27C0_1000);
  }

  lemma FitsIn(c: Config, s: State, call: Call)
    requires Align(s.next, 4) + 4 * |StubFor(c, s.mem, call).0| < c.bufEnd
    requires FindMapping(c, call.addr, Align(s.next, 4)).Some?
    ensures Apply(c, s, call).Some?
  {
    hide Align, FindMapping, Placed, Branch.EncodeBranch, Config.ToPhysical, StubFor;
  }

  // ----- the code -----

  /** Writing one word of a stub already in place. */
  lemma {:induction false} PlacedRewritten(mem: Memory, at: int, image: seq<Item>, k: nat, x: Item)
    requires k < |image|
    ensures Placed(mem, at, image)[at + 4 * k := x] == Placed(mem, at, image[k := x])
  {
    var n := |image| - 1;
    if k < n {
      PlacedRewritten(mem, at, image[..n], k, x);
      assert image[k := x][..n] == image[..n][k := x];
      var m := Placed(mem, at, image[..n]);
      assert m[at + 4 * n := image[n]][at + 4 * k := x] == m[at + 4 * k := x][at + 4 * n := image[n]];
    } else {
      assert image[k := x][..n] == image[..n];
    }
  }

  lemma PlacedGrows(mem: Memory, at: int, image: seq<Item>, k: nat)
    requires k < |image|
    ensures Placed(mem, at, image[..k + 1]) == Placed(mem, at, image[..k])[at + 4 * k := image[k]]
  {
    assert image[..k + 1][..k] == image[..k];
  }

  lemma PlacedNone(mem: Memory, at: int, image: seq<Item>)
    ensures Placed(mem, at, image[..0]) == mem && image[..|image|] == image
  {
  }

  lemma RewriteCommutes(mem: Memory, at: int, image: seq<Item>, k: nat, x: Item, site: int, b: Item)
    requires k < |image| && site != at + 4 * k
    ensures Placed(mem, at, image)[site := b][at + 4 * k := x] == Placed(mem, at, image[k := x])[site := b]
  {
    PlacedRewritten(mem, at, image, k, x);
    var m := Placed(mem, at, image);
    assert m[site := b][at + 4 * k := x] == m[at + 4 * k := x][site := b];
  }

  lemma {:induction false} NoneStaysNone(c: Config, s: State, calls: seq<Call>, i: nat)
    requires i <= |calls| && ApplyAll(c, s, calls[..i]) == None
    ensures ApplyAll(c, s, calls) == None
    decreases |calls| - i
  {
    if i < |calls| {
      assert calls[..i + 1][..i] == calls[..i];
      NoneStaysNone(c, s, calls, i + 1);
    } else {
      assert calls[..i] == calls;
    }
  }

  /** hook_before writes one word of the stub it has just installed. */
  lemma InstalledThenRewritten(c: Config, s: State, addr: U32, image: seq<Item>, op: Byte, t: State, k: nat, x: Item)
    requires Installed(c, s, addr, image, op) == Some(t) && k < |image|
    requires c.bufStart <= s.next <= c.bufEnd <= TWO32 - 64 && !(c.bufStart <= c.ToPhysical(addr) < c.bufEnd)
    ensures Installed(c, s, addr, image[k := x], op) == Some(State(t.mem[Align(s.next, 4) + 4 * k := x], t.next))
  {
    var base := Align(s.next, 4);
    AlignedNext(s.next);
    RewriteCommutes(s.mem, base, image, k, x, c.ToPhysical(addr),
                    Lit(Branch.EncodeBranch(op, addr, FindMapping(c, addr, base).value)));
  }

  /** Whether a stub fits does not depend on its words. */
  lemma RefusedAlike(c: Config, s: State, addr: U32, image: seq<Item>, image': seq<Item>, op: Byte)
    requires |image| == |image'| && Installed(c, s, addr, image, op) == None
    ensures Installed(c, s, addr, image', op) == None
  {
  }

  lemma HookBeforeVariants(bl: U32, orgins: Item, target: U32)
    ensures var image := HookBeforeImage(Ins(LdrPcSlot(6)), Ins(Bx(LR)), target);
      && |image| == 8
      && image[6 := Lit(bl)] == HookBeforeImage(Ins(LdrPcSlot(6)), Lit(bl), target)
      && image[5 := orgins] == HookBeforeImage(orgins, Ins(Bx(LR)), target)
  {
  }

  lemma HookBeforeV2Variants(orgins: Item, target: U32, ret: U32)
    ensures var image := HookBeforeV2Image(Ins(Nop), target, ret);
      |image| == 11 && image[7 := orgins] == HookBeforeV2Image(orgins, target, ret)
  {
  }

  /** A call leaves every hookable address a plain word, and the buffer pointer in the buffer. */
  lemma StillHookable(c: Config, s: State, call: Call, t: State, calls: seq<Call>)
    requires 0 < c.bufStart <= s.next <= c.bufEnd <= TWO32 - 64
    requires Apply(c, s, call) == Some(t)
    requires forall k :: 0 <= k < |calls| ==> var at := c.ToPhysical(calls[k].addr);
      at in s.mem && s.mem[at].Lit? && !(c.bufStart <= at < c.bufEnd)
    requires !(c.bufStart <= c.ToPhysical(call.addr) < c.bufEnd)
    ensures t.next <= c.bufEnd
    ensures forall k :: 0 <= k < |calls| ==> var at := c.ToPhysical(calls[k].addr);
      at in t.mem && t.mem[at].Lit?
  {
    hide StubFor;
    var (image, op) := StubFor(c, s.mem, call);
    var base := Align(s.next, 4);
    AlignedNext(s.next);
    PlacedItems(s.mem, base, image);
  }

  class Engine {
    const c: Config
    var mem: Memory
    var next: U32
    const blre: array<Item>
    const blreRegs: array<Item>
    const hookBefore: array<Item>
    const hookBeforeV2: array<Item>

    constructor (c: Config, mem: Memory)
      requires 0 < c.bufStart <= c.bufEnd
      ensures Valid() && this.c == c && this.mem == mem && next == c.bufStart
    {
      this.c := c;
      this.mem := mem;
      next := c.bufStart;
      blre := new Item[8](i requires 0 <= i < 8 => BlreImage(0, 0)[i]);
      blreRegs := new Item[9](i requires 0 <= i < 9 => BlreRegsImage(0, 0)[i]);
      hookBefore := new Item[8](i requires 0 <= i < 8 => HookBeforeImage(Ins(LdrPcSlot(6)), Ins(Bx(LR)), 0)[i]);
      hookBeforeV2 := new Item[11](i requires 0 <= i < 11 => HookBeforeV2Image(Ins(Nop), 0, 0)[i]);
    }

    /** The prototypes keep their code; only their data words are rewritten. */
    ghost predicate Valid()
      reads this, blre, blreRegs, hookBefore, hookBeforeV2
    {
      && blre.Length == 8 && blreRegs.Length == 9 && hookBefore.Length == 8 && hookBeforeV2.Length == 11
      && blre != blreRegs && blre != hookBefore && blre != hookBeforeV2
      && blreRegs != hookBefore && blreRegs != hookBeforeV2 && hookBefore != hookBeforeV2
      && blre[..6] == BlreImage(0, 0)[..6]
      && blreRegs[..7] == BlreRegsImage(0, 0)[..7]
      && hookBefore[..7] == HookBeforeImage(Ins(LdrPcSlot(6)), Ins(Bx(LR)), 0)[..7]
      && hookBeforeV2[..9] == HookBeforeV2Image(Ins(Nop), 0, 0)[..9]
      && 0 < c.bufStart <= next
    }

    /** The hooked address: a plain word outside the stub buffer. */
    ghost predicate Hookable(addr: U32)
      reads this
    {
      var at := c.ToPhysical(addr);
      at in mem && mem[at].Lit? && !(c.bufStart <= at < c.bufEnd)
    }

    /** trampoline_copy; false where the code crashes for want of space. */
    method Copy(proto: array<Item>) returns (ok: bool, base: U32)
      requires c.bufEnd <= TWO32 - 64 && next <= c.bufEnd && proto.Length < 16
      modifies `mem, `next
      ensures base == Align(old(next), 4)
      ensures ok <==> base + 4 * proto.Length < c.bufEnd
      ensures ok ==> mem == Placed(old(mem), base, proto[..]) && next == base + 4 * proto.Length && old(next) <= next
    {
      hide Align, Placed;
      AlignedNext(next);
      next := Align(next, 4);
      if next + 4 * proto.Length >= c.bufEnd {
        return false, next;
      }
      base := next;
      ghost var before, items := mem, proto[..];
      PlacedNone(before, base, items);
      for k := 0 to proto.Length
        invariant next == base && mem == Placed(before, base, items[..k])
      {
        PlacedGrows(before, base, items, k);
        mem := mem[base + 4 * k := proto[k]];
      }
      next := next + 4 * proto.Length;
      ok := true;
    }

    /** trampoline_find_mapping with 26 offset bits; None where it crashes. */
    method FindWindow(addr: U32, tramp: U32) returns (r: Option<U32>)
      ensures r == FindMapping(c, addr, tramp)
    {
      var k := 0;
      while k < 7
        invariant 0 <= k <= 7 && FindMapping(c, addr, tramp) == FindMappingFrom(c, addr, tramp, k)
      {
        var alt := c.Alias(k, tramp);
        if alt / 0x400_0000 == addr / 0x400_0000 {
          return Some(alt);
        }
        k := k + 1;
      }
      return None;
    }

    /** extract_bl_target. */
    method ExtractBl(addr: U32) returns (target: U32)
      requires Hookable(addr)
      ensures target == BlTarget(c, mem, addr)
    {
      var ins := mem[c.ToPhysical(addr)].w;
      if ins / 0x100_0000 != 0xEB {
        return 0;
      }
      target := Branch.ExtractTarget(addr, ins);
    }

    /** extract_b_target. */
    method ExtractB(addr: U32) returns (target: U32)
      requires Hookable(addr)
      ensures target == BTarget(c, mem, addr)
    {
      var ins := mem[c.ToPhysical(addr)].w;
      if ins / 0x100_0000 != 0xEA {
        return 0;
      }
      target := Branch.ExtractTarget(addr, ins);
    }

    /** trampoline_install and trampoline_install_nolink. */
    method Install(addr: U32, proto: array<Item>, op: Byte) returns (r: Option<U32>)
      requires c.bufEnd <= TWO32 - 64 && next <= c.bufEnd && proto.Length < 16
      modifies `mem, `next
      ensures match r
        case Some(base) =>
          && base == Align(old(next), 4) && old(next) <= next <= c.bufEnd
          && Installed(c, old(State(mem, next)), addr, proto[..], op) == Some(State(mem, next))
        case None => Installed(c, old(State(mem, next)), addr, proto[..], op) == None
    {
      var ok, base := Copy(proto);
      if !ok {
        return None;
      }
      var alt := FindWindow(addr, base);
      if alt == None {
        return None;
      }
      mem := mem[c.ToPhysical(addr) := Lit(Branch.EncodeBranch(op, addr, alt.value))];
      return Some(base);
    }

    method BlReplace(addr: U32, target: U32) returns (ok: bool)
      requires Valid() && Hookable(addr) && next <= c.bufEnd <= TWO32 - 64
      modifies this, blre
      ensures ok ==> Valid()
      ensures Apply(c, old(State(mem, next)), Call.Call(Kind.BlReplace, addr, target))
           == if ok then Some(State(mem, next)) else None
    {
      var bl := ExtractBl(addr);
      blre[7] := Lit(bl);
      blre[6] := Lit(target);
      assert blre[..] == BlreImage(target, bl);
      var r := Install(addr, blre, 0xEB);
      return r.Some?;
    }

    method BlReplaceWithRegs(addr: U32, target: U32) returns (ok: bool)
      requires Valid() && Hookable(addr) && next <= c.bufEnd <= TWO32 - 64
      modifies this, blreRegs
      ensures ok ==> Valid()
      ensures Apply(c, old(State(mem, next)), Call.Call(BlReplaceRegs, addr, target))
           == if ok then Some(State(mem, next)) else None
    {
      var bl := ExtractBl(addr);
      blreRegs[8] := Lit(bl);
      blreRegs[7] := Lit(target);
      assert blreRegs[..] == BlreRegsImage(target, bl);
      var r := Install(addr, blreRegs, 0xEB);
      return r.Some?;
    }

    method SetHookBeforeTarget(target: U32)
      requires Valid()
      modifies hookBefore
      ensures Valid() && hookBefore[..] == HookBeforeImage(Ins(LdrPcSlot(6)), Ins(Bx(LR)), target)
    {
      hookBefore[7] := Lit(target);
    }

    method SetHookBeforeV2Words(target: U32, ret: U32)
      requires Valid()
      modifies hookBeforeV2
      ensures Valid() && hookBeforeV2[..] == HookBeforeV2Image(Ins(Nop), target, ret)
    {
      hookBeforeV2[9] := Lit(target);
      hookBeforeV2[10] := Lit(ret);
    }

    method HookBefore(addr: U32, target: U32) returns (ok: bool)
      requires Valid() && Hookable(addr) && next <= c.bufEnd <= TWO32 - 64
      modifies this, hookBefore
      ensures ok ==> Valid()
      ensures Apply(c, old(State(mem, next)), Call.Call(Kind.HookBefore, addr, target))
           == if ok then Some(State(mem, next)) else None
    {
      hide HookBeforeImage, Installed;
      var bl := ExtractBl(addr);
      var orgins := mem[c.ToPhysical(addr)];
      SetHookBeforeTarget(target);
      ghost var image := HookBeforeImage(Ins(LdrPcSlot(6)), Ins(Bx(LR)), target);
      HookBeforeVariants(bl, orgins, target);
      ghost var before := State(mem, next);
      var r := Install(addr, hookBefore, 0xEB);
      if r == None {
        RefusedAlike(c, before, addr, image, if bl != 0 then image[6 := Lit(bl)] else image[5 := orgins], Branch.OP_BL);
        return false;
      }
      if bl != 0 {
        InstalledThenRewritten(c, before, addr, image, Branch.OP_BL, State(mem, next), 6, Lit(bl));
        mem := mem[r.value + 24 := Lit(bl)];
      } else {
        InstalledThenRewritten(c, before, addr, image, Branch.OP_BL, State(mem, next), 5, orgins);
        mem := mem[r.value + 20 := orgins];
      }
      return true;
    }

    method HookBeforeV2(addr: U32, target: U32) returns (ok: bool)
      requires Valid() && Hookable(addr) && next <= c.bufEnd <= TWO32 - 64
      modifies this, hookBeforeV2
      ensures ok ==> Valid()
      ensures Apply(c, old(State(mem, next)), Call.Call(Kind.HookBeforeV2, addr, target))
           == if ok then Some(State(mem, next)) else None
    {
      hide HookBeforeV2Image, Installed;
      var branch := ExtractBl(addr);
      var isBl := branch != 0;
      if branch == 0 {
        branch := ExtractB(addr);
      }
      var orgins := mem[c.ToPhysical(addr)];
      var ret := if branch != 0 then branch else Wrap32(addr + 4);
      SetHookBeforeV2Words(target, ret);
      ghost var image := HookBeforeV2Image(Ins(Nop), target, ret);
      HookBeforeV2Variants(orgins, target, ret);
      ghost var before := State(mem, next);
      var r := Install(addr, hookBeforeV2, if isBl then 0xEB else 0xEA);
      if r == None {
        RefusedAlike(c, before, addr, image, if branch != 0 then image else image[7 := orgins],
                     if isBl then Branch.OP_BL else Branch.OP_B);
        return false;
      }
      if branch == 0 {
        InstalledThenRewritten(c, before, addr, image, Branch.OP_B, State(mem, next), 7, orgins);
        mem := mem[r.value + 28 := orgins];
      }
      return true;
    }

    method Perform(call: Call) returns (ok: bool)
      requires Valid() && Hookable(call.addr) && next <= c.bufEnd <= TWO32 - 64
      modifies this, blre, blreRegs, hookBefore, hookBeforeV2
      ensures ok ==> Valid()
      ensures Apply(c, old(State(mem, next)), call) == if ok then Some(State(mem, next)) else None
    {
      hide Apply;
      match call.kind {
        case BlReplace => ok := BlReplace(call.addr, call.target);
        case BlReplaceRegs => ok := BlReplaceWithRegs(call.addr, call.target);
        case HookBefore => ok := HookBefore(call.addr, call.target);
        case HookBeforeV2 => ok := HookBeforeV2(call.addr, call.target);
      }
    }

    /** Any run of calls; the first one that does not fit ends it. */
    method PerformAll(calls: seq<Call>) returns (ok: bool)
      requires Valid() && c.bufEnd <= TWO32 - 64 && next <= c.bufEnd
      requires forall k :: 0 <= k < |calls| ==> Hookable(calls[k].addr)
      modifies this, blre, blreRegs, hookBefore, hookBeforeV2
      ensures ApplyAll(c, old(State(mem, next)), calls) == if ok then Some(State(mem, next)) else None
    {
      hide Apply;
      ghost var s := State(mem, next);
      for i := 0 to |calls|
        invariant Valid() && next <= c.bufEnd
        invariant forall k :: 0 <= k < |calls| ==> Hookable(calls[k].addr)
        invariant ApplyAll(c, s, calls[..i]) == Some(State(mem, next))
      {
        ghost var u := State(mem, next);
        assert calls[..i + 1][..i] == calls[..i];
        ok := Perform(calls[i]);
        if !ok {
          NoneStaysNone(c, s, calls, i + 1);
          return;
        }
        StillHookable(c, u, calls[i], State(mem, next), calls);
      }
      assert calls[..|calls|] == calls;
      ok := true;
    }
  }
}
