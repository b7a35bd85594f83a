/** The plugin relocator and linker of wafel_core/source/dynamic.c. Memory is taken by words:
    the table reads and slot writes of the code are all of aligned words. */
module Dynamic {
  import opened Words

  type Memory = m: seq<U32> | |m| == 0x4000_0000 witness seq(0x4000_0000, i => 0)

  /** The number of the word an address lies in; addresses wrap as 32-bit pointers do. */
  function Index(a: int): (w: nat)
    ensures w < 0x4000_0000
  {
    a % TWO32 / 4
  }

  /** Every word has the four addresses from four times its number on, and none else up to 2^32. */
  lemma IndexExactly(a: int, w: nat)
    requires w < 0x4000_0000
    ensures Index(a) == w <==> 4 * w <= a % 0x1_0000_0000 < 4 * w + 4
  {
  }

  function Load(m: Memory, a: int): U32 { m[Index(a)] }

  /** The text that starts at an address; plugin texts are never written. */
  type Texts = U32 -> string

  // ----- relocation entries -----

  const R_ARM_ABS32 := 2
  const R_ARM_GLOB_DAT := 21
  const R_ARM_JUMP_SLOT := 22
  const R_ARM_RELATIVE := 23

  datatype Rel = Rel(offset: U32, info: U32)

  function Kind(r: Rel): nat { r.info % 0x100 }
  function Sym(r: Rel): nat { r.info / 0x100 }

  predicate IsSymbolic(r: Rel) {
    Kind(r) == R_ARM_GLOB_DAT || Kind(r) == R_ARM_JUMP_SLOT || Kind(r) == R_ARM_ABS32
  }

  function Slot(base: U32, r: Rel): nat { Index(base + r.offset) }

  function RelAt(m: Memory, rel: U32, k: nat): Rel {
    Rel(Load(m, rel + 8 * k), Load(m, rel + 8 * k + 4))
  }

  /** The table as it stands. */
  function Rels(m: Memory, rel: U32, n: nat): (rs: seq<Rel>)
    ensures |rs| == n
  {
    seq(n, k requires 0 <= k < n => RelAt(m, rel, k))
  }

  // ----- the relocating loop -----

  function RelocateOne(m: Memory, base: U32, r: Rel): Memory {
    var w := Slot(base, r);
    if Kind(r) == R_ARM_RELATIVE && m[w] < base then m[w := Wrap32(m[w] + base)] else m
  }

  /** The loop over entries k up to n, each read from memory as it then is. */
  function RelocateFrom(m: Memory, base: U32, rel: U32, k: nat, n: nat): Memory
    decreases n - k
  {
    if k >= n then m else RelocateFrom(RelocateOne(m, base, RelAt(m, rel, k)), base, rel, k + 1, n)
  }

  /** How many entries from k on relocate word w. */
  function Count(rs: seq<Rel>, base: U32, w: nat, k: nat): nat
    decreases |rs| - k
  {
    if k >= |rs| then 0
    else (if Kind(rs[k]) == R_ARM_RELATIVE && Slot(base, rs[k]) == w then 1 else 0) + Count(rs, base, w, k + 1)
  }

  /** A value run c times through the guarded addition. */
  function Bumped(v: U32, base: U32, c: nat): U32
    decreases c
  {
    if c == 0 then v else Bumped(if v < base then Wrap32(v + base) else v, base, c - 1)
  }

  /** However often an entry is repeated, the base has been added exactly when the word held an
      unrelocated offset and the sum fits a word. */
  lemma {:induction false} BumpedExactly(v: U32, base: U32, c: nat)
    requires c > 0 && base > 0
    ensures Bumped(v, base, c) == v + base <==> v < base && v + base < TWO32
  {
    if v < base && v + base < TWO32 {
      BumpedSettled(v + base, base, c - 1);
      assert Bumped(v, base, c) == Bumped(v + base, base, c - 1);
    } else if v >= base {
      BumpedSettled(v, base, c);
    }
  }

  lemma {:induction false} BumpedSettled(v: U32, base: U32, c: nat)
    requires v >= base
    ensures Bumped(v, base, c) == v
  {
    if c > 0 {
      BumpedSettled(v, base, c - 1);
    }
  }

  /** Words that hold tables agree. */
  ghost predicate Agree(m: Memory, m': Memory, tables: iset<nat>) {
    forall w :: 0 <= w < 0x4000_0000 && w in tables ==> m[w] == m'[w]
  }

  ghost predicate In(tables: iset<nat>, a: int) { Index(a) in tables }

  ghost predicate RelIn(tables: iset<nat>, rel: U32, k: nat) {
    In(tables, rel + 8 * k) && In(tables, rel + 8 * k + 4)
  }

  /** The entries lie in the tables; no entry's slot does. */
  ghost predicate RelsApart(m: Memory, base: U32, rel: U32, n: nat, tables: iset<nat>) {
    && (forall k :: 0 <= k < n ==> RelIn(tables, rel, k))
    && (forall k :: 0 <= k < n ==> Slot(base, RelAt(m, rel, k)) !in tables)
  }

  lemma RelsAgree(m: Memory, m': Memory, base: U32, rel: U32, n: nat, tables: iset<nat>)
    requires Agree(m, m', tables) && RelsApart(m, base, rel, n, tables)
    ensures Rels(m, rel, n) == Rels(m', rel, n) && RelsApart(m', base, rel, n, tables)
  {
    hide Index;
    forall k | 0 <= k < n
      ensures RelAt(m, rel, k) == RelAt(m', rel, k)
    {
      assert RelIn(tables, rel, k);
    }
  }

  /** The loop word by word: only slots change, and each as often as its entries say; the order
      of the entries does not matter. */
  lemma {:induction false} RelocatedWord(m0: Memory, m: Memory, base: U32, rel: U32, k: nat, n: nat,
                                         tables: iset<nat>, w: nat)
    requires Agree(m0, m, tables) && RelsApart(m0, base, rel, n, tables) && w < 0x4000_0000
    ensures RelocateFrom(m, base, rel, k, n)[w] == Bumped(m[w], base, Count(Rels(m0, rel, n), base, w, k))
    decreases n - k
  {
    hide Index, Kind, Slot, RelAt;
    if k < n {
      RelsAgree(m0, m, base, rel, n, tables);
      assert Rels(m0, rel, n)[k] == Rels(m, rel, n)[k] == RelAt(m, rel, k);
      var next := RelocateOne(m, base, RelAt(m, rel, k));
      assert Slot(base, RelAt(m0, rel, k)) !in tables;
      RelocatedWord(m0, next, base, rel, k + 1, n, tables, w);
    }
  }

  lemma RelocateKeepsTables(m: Memory, base: U32, rel: U32, n: nat, tables: iset<nat>)
    requires RelsApart(m, base, rel, n, tables)
    ensures Agree(m, RelocateFrom(m, base, rel, 0, n), tables)
  {
    hide RelocateFrom, RelAt;
    var after := RelocateFrom(m, base, rel, 0, n);
    forall w | 0 <= w < 0x4000_0000 && w in tables
      ensures m[w] == after[w]
    {
      RelocatedWord(m, m, base, rel, 0, n, tables, w);
      NoSlot(Rels(m, rel, n), base, w, 0);
    }
  }

  lemma {:induction false} NoSlot(rs: seq<Rel>, base: U32, w: nat, k: nat)
    requires forall l :: k <= l < |rs| ==> !(Kind(rs[l]) == R_ARM_RELATIVE && Slot(base, rs[l]) == w)
    ensures Count(rs, base, w, k) == 0
    decreases |rs| - k
  {
    if k < |rs| {
      NoSlot(rs, base, w, k + 1);
    }
  }

  // ----- the dynamic section -----

  const DT_NULL: U32 := 0
  const DT_PLTRELSZ: U32 := 2
  const DT_STRTAB: U32 := 5
  const DT_SYMTAB: U32 := 6
  const DT_REL: U32 := 17
  const DT_RELSZ: U32 := 18
  const DT_JMPREL: U32 := 23

  /** Tags and values up to the null tag. */
  function Entries(m: Memory, d: nat): seq<(U32, U32)>
    decreases TWO32 - d
  {
    if d + 8 > TWO32 || Load(m, d) == DT_NULL then []
    else [(Load(m, d), Load(m, d + 4))] + Entries(m, d + 8)
  }

  /** The section ends in a null tag. */
  predicate Terminated(m: Memory, d: nat)
    decreases TWO32 - d
  {
    d + 8 <= TWO32 && (Load(m, d) == DT_NULL || Terminated(m, d + 8))
  }

  /** The value of the last entry with one of two tags. */
  function Last(es: seq<(U32, U32)>, t: U32, u: U32): Option<U32> {
    if es == [] then None
    else if es[|es| - 1].0 == t || es[|es| - 1].0 == u then Some(es[|es| - 1].1)
    else Last(es[..|es| - 1], t, u)
  }

  /** The pointer that tag stands for, or null. */
  function Pointer(es: seq<(U32, U32)>, base: U32, t: U32, u: U32): U32 {
    match Last(es, t, u)
    case None => 0
    case Some(p) => Wrap32(base + p)
  }

  /** The number of entries that a size tag stands for. */
  function TableSize(es: seq<(U32, U32)>, t: U32): nat {
    match Last(es, t, t)
    case None => 0
    case Some(v) => v / 8
  }

  function RelSize(es: seq<(U32, U32)>): nat { TableSize(es, DT_RELSZ) }

  /** Both table sizes, added up in 32 bits. */
  function RelSizes(es: seq<(U32, U32)>): U32 {
    if es == [] then 0
    else
      var (t, v) := es[|es| - 1];
      Wrap32(RelSizes(es[..|es| - 1]) + if t == DT_RELSZ || t == DT_PLTRELSZ then v / 8 else 0)
  }

  // ----- __wafel_dynamic -----

  function FlagWord(m: Memory, base: U32): (w: nat)
    ensures w < 0x4000_0000
  {
    Index(base + Load(m, base + 0x18) + 0x14)
  }

  /** Everything __wafel_dynamic does to memory. */
  function Relocated(m: Memory, base: U32, dyn: U32): Memory {
    if m[FlagWord(m, base)] != 0 then m
    else
      var es := Entries(m, dyn);
      var rel := Pointer(es, base, DT_REL, DT_REL);
      var m1 := if rel != 0 then RelocateFrom(m, base, rel, 0, RelSize(es)) else m;
      m1[FlagWord(m1, base) := 1]
  }

  /** A plugin whose relocation table and header are out of reach of its own slots. */
  ghost predicate Relocatable(m: Memory, base: U32, dyn: U32, tables: iset<nat>) {
    var es := Entries(m, dyn);
    var rel := Pointer(es, base, DT_REL, DT_REL);
    && In(tables, base + 0x18) && FlagWord(m, base) !in tables
    && (rel != 0 ==> RelsApart(m, base, rel, RelSize(es), tables))
    && Repeats(m, base, dyn, FlagWord(m, base)) == 0
  }

  /** How many entries relocate word w. */
  function Repeats(m: Memory, base: U32, dyn: U32, w: nat): nat {
    var es := Entries(m, dyn);
    var rel := Pointer(es, base, DT_REL, DT_REL);
    if rel == 0 then 0 else Count(Rels(m, rel, RelSize(es)), base, w, 0)
  }

  /** The first run on a plugin: the flag is set, a word with entries gets the base added, and no
      other word changes. */
  lemma RelocatesOnce(m: Memory, base: U32, dyn: U32, tables: iset<nat>, w: nat)
    requires Relocatable(m, base, dyn, tables) && m[FlagWord(m, base)] == 0 && w < 0x4000_0000
    ensures var after := Relocated(m, base, dyn);
      && FlagWord(after, base) == FlagWord(m, base) && after[FlagWord(m, base)] == 1
      && (w != FlagWord(m, base) ==> after[w] == Bumped(m[w], base, Repeats(m, base, dyn, w)))
  {
    hide Index, RelocateFrom, Entries, Last, RelSize, Count, Bumped, RelAt;
    var es := Entries(m, dyn);
    var rel := Pointer(es, base, DT_REL, DT_REL);
    if rel != 0 {
      RelocateKeepsTables(m, base, rel, RelSize(es), tables);
      RelocatedWord(m, m, base, rel, 0, RelSize(es), tables, w);
    } else {
      NothingAdded(m[w], base);
    }
  }

  lemma NothingAdded(v: U32, base: U32)
    ensures Bumped(v, base, 0) == v
  {
  }

  /** In memory whose relocatable words hold offsets below the base, every slot gets the base
      exactly once, whatever the order and the number of its entries. */
  lemma SlotGetsBaseOnce(m: Memory, base: U32, dyn: U32, tables: iset<nat>, w: nat)
    requires Relocatable(m, base, dyn, tables) && m[FlagWord(m, base)] == 0 && w < 0x4000_0000
    requires w != FlagWord(m, base) && Repeats(m, base, dyn, w) > 0 && base > 0
    ensures Relocated(m, base, dyn)[w] == m[w] + base <==> m[w] < base && m[w] + base < TWO32
  {
    hide Relocated, Relocatable, Repeats, FlagWord;
    RelocatesOnce(m, base, dyn, tables, w);
    BumpedExactly(m[w], base, Repeats(m, base, dyn, w));
  }

  /** Entry k of the relocation table is about word w: of type R_ARM_RELATIVE, with its offset. */
  ghost predicate Relocates(m: Memory, base: U32, rel: U32, k: nat, w: nat) {
    Load(m, rel + 8 * k + 4) % 0x100 == 23 && Index(base + Load(m, rel + 8 * k)) == w
  }

  lemma {:induction false} SomeEntry(rs: seq<Rel>, base: U32, w: nat, i: nat, k: nat)
    requires i <= k < |rs| && Kind(rs[k]) == R_ARM_RELATIVE && Slot(base, rs[k]) == w
    ensures Count(rs, base, w, i) > 0
    decreases k - i
  {
    hide Kind, Slot;
    if i < k {
      SomeEntry(rs, base, w, i + 1, k);
    }
  }

  /** Told by the words of the table: a word that entries are about holds the base added exactly
      once, exactly if it was below the base and the sum fits; any other word but the flag is as
      before. */
  lemma RelocatedByWords(m: Memory, base: U32, dyn: U32, tables: iset<nat>, w: nat)
    requires Relocatable(m, base, dyn, tables) && m[FlagWord(m, base)] == 0 && base > 0
    requires w < 0x4000_0000 && w != FlagWord(m, base)
    ensures var rel, n := Pointer(Entries(m, dyn), base, DT_REL, DT_REL), RelSize(Entries(m, dyn));
      if rel != 0 && exists k :: 0 <= k < n && Relocates(m, base, rel, k, w)
      then Relocated(m, base, dyn)[w] == m[w] + base <==> m[w] < base && m[w] + base < TWO32
      else Relocated(m, base, dyn)[w] == m[w]
  {
    hide Index, Relocated, Relocatable, FlagWord, Count, Entries, Pointer, RelSize, Bumped;
    var rel, n := Pointer(Entries(m, dyn), base, DT_REL, DT_REL), RelSize(Entries(m, dyn));
    RelocatesOnce(m, base, dyn, tables, w);
    NothingAdded(m[w], base);
    if rel != 0 {
      var rs := Rels(m, rel, n);
      if exists k :: 0 <= k < n && Relocates(m, base, rel, k, w) {
        var k :| 0 <= k < n && Relocates(m, base, rel, k, w);
        SomeEntry(rs, base, w, 0, k);
        BumpedExactly(m[w], base, Repeats(m, base, dyn, w));
      } else {
        forall l | 0 <= l < n
          ensures !(Kind(rs[l]) == R_ARM_RELATIVE && Slot(base, rs[l]) == w)
        {
          assert !Relocates(m, base, rel, l, w);
        }
        NoSlot(rs, base, w, 0);
      }
    }
  }

  /** A second run finds the flag and does nothing. */
  lemma RelocatesOnlyOnce(m: Memory, base: U32, dyn: U32, tables: iset<nat>)
    requires Relocatable(m, base, dyn, tables)
    ensures Relocated(Relocated(m, base, dyn), base, dyn) == Relocated(m, base, dyn)
  {
    hide Index, Entries, RelocateFrom, Pointer, RelSize, Load, Relocatable;
    if m[FlagWord(m, base)] == 0 {
      RelocatesOnce(m, base, dyn, tables, 0);
    }
  }

  // ----- symbols -----

  const ELF_MAGIC: U32 := 0x7F45_4C46
  const PT_DYNAMIC: U32 := 2

  /** The first dynamic segment from header i on, or null. */
  function DynamicFrom(m: Memory, base: U32, phdrs: U32, i: nat, n: nat): U32
    decreases n - i
  {
    if i >= n then 0
    else if Load(m, phdrs + 32 * i) == PT_DYNAMIC then Wrap32(base + Load(m, phdrs + 32 * i + 8))
    else DynamicFrom(m, base, phdrs, i + 1, n)
  }

  function PhdrCount(m: Memory, base: U32): nat { Load(m, base + 0x2C) / 0x1_0000 }

  function PhdrTable(m: Memory, base: U32): U32 { Wrap32(base + Load(m, base + 0x1C)) }

  /** wafel_get_plugin_dynamic. */
  function PluginDynamic(m: Memory, base: U32): U32 {
    if Load(m, base) != ELF_MAGIC then 0
    else
      var phdrs := PhdrTable(m, base);
      if phdrs == 0 then 0 else DynamicFrom(m, base, phdrs, 0, PhdrCount(m, base))
  }

  function SymbolName(m: Memory, texts: Texts, symtab: U32, strtab: U32, i: nat): string {
    texts(Wrap32(strtab + Load(m, symtab + 16 * i)))
  }

  function SymbolValue(m: Memory, symtab: U32, i: nat): U32 { Load(m, symtab + 16 * i + 4) }

  /** Entry i gives the name a value. */
  predicate Defines(m: Memory, texts: Texts, symtab: U32, strtab: U32, name: string, i: nat) {
    SymbolName(m, texts, symtab, strtab, i) == name && SymbolValue(m, symtab, i) != 0
  }

  /** The table ends where the texts begin. */
  function SymbolCount(symtab: U32, strtab: U32): nat { Wrap32(strtab - symtab) / 16 }

  function DefinitionFrom(m: Memory, texts: Texts, base: U32, symtab: U32, strtab: U32, name: string, i: nat,
                          n: nat): U32
    decreases n - i
  {
    if i >= n then 0
    else if Defines(m, texts, symtab, strtab, name, i) then Wrap32(base + SymbolValue(m, symtab, i))
    else DefinitionFrom(m, texts, base, symtab, strtab, name, i + 1, n)
  }

  /** The value comes from the first entry that defines the name; without one it is null. */
  lemma {:induction false} FirstDefinition(m: Memory, texts: Texts, base: U32, symtab: U32, strtab: U32, name: string,
                                           i: nat, n: nat, j: nat)
    requires i <= j <= n && forall l :: i <= l < j ==> !Defines(m, texts, symtab, strtab, name, l)
    requires j == n || Defines(m, texts, symtab, strtab, name, j)
    ensures DefinitionFrom(m, texts, base, symtab, strtab, name, i, n)
         == if j == n then 0 else Wrap32(base + SymbolValue(m, symtab, j))
    decreases n - i
  {
    hide Defines, SymbolValue;
    if i < j {
      FirstDefinition(m, texts, base, symtab, strtab, name, i + 1, n, j);
    }
  }

  /** wafel_get_symbol_addr: the first definition in one plugin, or null. */
  function SymbolAddr(m: Memory, texts: Texts, base: U32, name: string): U32 {
    var es := Entries(m, PluginDynamic(m, base));
    var symtab, strtab := Pointer(es, base, DT_SYMTAB, DT_SYMTAB), Pointer(es, base, DT_STRTAB, DT_STRTAB);
    DefinitionFrom(m, texts, base, symtab, strtab, name, 0, SymbolCount(symtab, strtab))
  }

  /** All addresses that the registered plugins export under a name, in order of registration. */
  function Exports(m: Memory, texts: Texts, elfs: seq<U32>, name: string): (s: seq<U32>)
    ensures 0 !in s
  {
    if elfs == [] then []
    else
      var a := SymbolAddr(m, texts, elfs[0], name);
      (if a != 0 then [a] else []) + Exports(m, texts, elfs[1..], name)
  }

  function NthExport(m: Memory, texts: Texts, elfs: seq<U32>, name: string, skip: nat): U32 {
    var s := Exports(m, texts, elfs, name);
    if skip < |s| then s[skip] else 0
  }

  lemma {:induction false} ExportsAppend(m: Memory, texts: Texts, elfs: seq<U32>, more: seq<U32>, name: string)
    ensures Exports(m, texts, elfs + more, name) == Exports(m, texts, elfs, name) + Exports(m, texts, more, name)
    decreases |elfs|
  {
    hide SymbolAddr;
    if elfs == [] {
      assert elfs + more == more;
    } else {
      var all, a := elfs + more, SymbolAddr(m, texts, elfs[0], name);
      var first: seq<U32> := if a != 0 then [a] else [];
      assert all[0] == elfs[0] && all[1..] == elfs[1..] + more;
      ExportsAppend(m, texts, elfs[1..], more, name);
      var here, there := Exports(m, texts, elfs[1..], name), Exports(m, texts, more, name);
      assert first + (here + there) == first + here + there;
    }
  }

  /** A name that is exported keeps its address however many plugins are registered later. */
  lemma FirstPluginWins(m: Memory, texts: Texts, elfs: seq<U32>, later: seq<U32>, name: string)
    requires NthExport(m, texts, elfs, name, 0) != 0
    ensures NthExport(m, texts, elfs + later, name, 0) == NthExport(m, texts, elfs, name, 0)
  {
    hide Exports;
    ExportsAppend(m, texts, elfs, later, name);
  }

  function FirstOf(a: U32, b: U32): U32 {
    if a != 0 then a else b
  }

  lemma OnePluginMore(m: Memory, texts: Texts, elfs: seq<U32>, base: U32, name: string)
    ensures NthExport(m, texts, elfs + [base], name, 0)
         == FirstOf(NthExport(m, texts, elfs, name, 0), SymbolAddr(m, texts, base, name))
  {
    hide SymbolAddr;
    ExportsAppend(m, texts, elfs, [base], name);
    assert Exports(m, texts, [base][1..], name) == [];
    var s := Exports(m, texts, elfs, name);
    assert |s| > 0 ==> s[0] in s;
  }

  // ----- wafel_link_plugin -----

  /** What a symbolic entry resolves to. */
  function Resolved(m: Memory, texts: Texts, elfs: seq<U32>, base: U32, symtab: U32, strtab: U32, r: Rel): U32 {
    var s := Sym(r);
    if Load(m, symtab + 16 * s + 12) % 0x1_0000 == 0 && s != 0 then
      NthExport(m, texts, elfs, SymbolName(m, texts, symtab, strtab, s), 0)
    else if SymbolValue(m, symtab, s) == 0 then 0
    else Wrap32(base + SymbolValue(m, symtab, s))
  }

  function LinkOne(m: Memory, texts: Texts, elfs: seq<U32>, base: U32, symtab: U32, strtab: U32, r: Rel): Memory {
    if IsSymbolic(r) then m[Slot(base, r) := Resolved(m, texts, elfs, base, symtab, strtab, r)] else m
  }

  function LinkFrom(m: Memory, texts: Texts, elfs: seq<U32>, base: U32, symtab: U32, strtab: U32, rel: U32, k: nat,
                    n: nat): Memory
    decreases n - k
  {
    if k >= n then m
    else LinkFrom(LinkOne(m, texts, elfs, base, symtab, strtab, RelAt(m, rel, k)), texts, elfs, base, symtab, strtab,
                  rel, k + 1, n)
  }

  /** The memory when k entries have been linked. */
  function LinkPrefix(m: Memory, texts: Texts, elfs: seq<U32>, base: U32, symtab: U32, strtab: U32, rel: U32,
                      k: nat): Memory {
    if k == 0 then m
    else
      var before := LinkPrefix(m, texts, elfs, base, symtab, strtab, rel, k - 1);
      LinkOne(before, texts, elfs, base, symtab, strtab, RelAt(before, rel, k - 1))
  }

  /** Everything wafel_link_plugin does to memory. */
  function Linked(m: Memory, texts: Texts, elfs: seq<U32>, base: U32): Memory {
    var dyn := PluginDynamic(m, base);
    var es := Entries(m, dyn);
    var rel := Pointer(es, base, DT_REL, DT_JMPREL);
    if dyn == 0 || rel == 0 then m
    else LinkFrom(m, texts, elfs, base, Pointer(es, base, DT_SYMTAB, DT_SYMTAB),
                  Pointer(es, base, DT_STRTAB, DT_STRTAB), rel, 0, RelSizes(es))
  }

  /** The last symbolic entry from k on for word w. */
  function LastFor(rs: seq<Rel>, base: U32, w: nat, k: nat): Option<Rel>
    decreases |rs| - k
  {
    if k >= |rs| then None
    else
      var later := LastFor(rs, base, w, k + 1);
      if later.Some? then later
      else if IsSymbolic(rs[k]) && Slot(base, rs[k]) == w then Some(rs[k])
      else None
  }

  // ----- tables stay as they are -----

  ghost predicate PhdrIn(tables: iset<nat>, phdrs: U32, i: nat) {
    In(tables, phdrs + 32 * i) && In(tables, phdrs + 32 * i + 8)
  }

  ghost predicate SymbolIn(tables: iset<nat>, symtab: U32, i: nat) {
    In(tables, symtab + 16 * i) && In(tables, symtab + 16 * i + 4) && In(tables, symtab + 16 * i + 12)
  }

  ghost predicate EntriesIn(m: Memory, d: nat, tables: iset<nat>)
    decreases TWO32 - d
  {
    d + 8 <= TWO32 ==>
      && In(tables, d) && In(tables, d + 4)
      && (Load(m, d) != DT_NULL ==> EntriesIn(m, d + 8, tables))
  }

  lemma {:induction false} EntriesAgree(m: Memory, m': Memory, d: nat, tables: iset<nat>)
    requires Agree(m, m', tables) && EntriesIn(m, d, tables)
    ensures Entries(m, d) == Entries(m', d) && EntriesIn(m', d, tables)
    decreases TWO32 - d
  {
    hide Index;
    if d + 8 <= TWO32 && Load(m, d) != DT_NULL {
      EntriesAgree(m, m', d + 8, tables);
    }
  }

  /** Header, program headers and dynamic section of a plugin lie in the tables. */
  ghost predicate HeaderIn(m: Memory, base: U32, tables: iset<nat>) {
    && In(tables, base) && In(tables, base + 0x1C) && In(tables, base + 0x2C)
    && (forall i :: 0 <= i < PhdrCount(m, base) ==> PhdrIn(tables, PhdrTable(m, base), i))
    && EntriesIn(m, PluginDynamic(m, base), tables)
  }

  lemma {:induction false} DynamicFromAgrees(m: Memory, m': Memory, base: U32, phdrs: U32, i: nat, n: nat,
                                             tables: iset<nat>)
    requires Agree(m, m', tables) && forall j :: 0 <= j < n ==> PhdrIn(tables, phdrs, j)
    ensures DynamicFrom(m, base, phdrs, i, n) == DynamicFrom(m', base, phdrs, i, n)
    decreases n - i
  {
    hide Index;
    if i < n {
      assert PhdrIn(tables, phdrs, i);
      DynamicFromAgrees(m, m', base, phdrs, i + 1, n, tables);
    }
  }

  lemma HeaderAgrees(m: Memory, m': Memory, base: U32, tables: iset<nat>)
    requires Agree(m, m', tables) && HeaderIn(m, base, tables)
    ensures PluginDynamic(m, base) == PluginDynamic(m', base) && HeaderIn(m', base, tables)
    ensures Entries(m, PluginDynamic(m, base)) == Entries(m', PluginDynamic(m', base))
  {
    hide Index, DynamicFrom, Entries, EntriesIn, PhdrIn;
    DynamicFromAgrees(m, m', base, PhdrTable(m, base), 0, PhdrCount(m, base), tables);
    EntriesAgree(m, m', PluginDynamic(m, base), tables);
  }

  /** Everything a lookup in a plugin reads lies in the tables. */
  ghost predicate PluginIn(m: Memory, base: U32, tables: iset<nat>) {
    && HeaderIn(m, base, tables)
    && var es := Entries(m, PluginDynamic(m, base));
       var symtab, strtab := Pointer(es, base, DT_SYMTAB, DT_SYMTAB), Pointer(es, base, DT_STRTAB, DT_STRTAB);
       forall i :: 0 <= i < SymbolCount(symtab, strtab) ==> SymbolIn(tables, symtab, i)
  }

  lemma {:induction false} DefinitionAgrees(m: Memory, m': Memory, texts: Texts, base: U32, symtab: U32, strtab: U32,
                                            name: string, i: nat, n: nat, tables: iset<nat>)
    requires Agree(m, m', tables) && forall j :: 0 <= j < n ==> SymbolIn(tables, symtab, j)
    ensures DefinitionFrom(m, texts, base, symtab, strtab, name, i, n)
         == DefinitionFrom(m', texts, base, symtab, strtab, name, i, n)
    decreases n - i
  {
    hide Index;
    if i < n {
      assert SymbolIn(tables, symtab, i);
      DefinitionAgrees(m, m', texts, base, symtab, strtab, name, i + 1, n, tables);
    }
  }

  lemma SymbolAgrees(m: Memory, m': Memory, texts: Texts, base: U32, name: string, tables: iset<nat>)
    requires Agree(m, m', tables) && PluginIn(m, base, tables)
    ensures SymbolAddr(m, texts, base, name) == SymbolAddr(m', texts, base, name) && PluginIn(m', base, tables)
  {
    hide Agree, HeaderIn, Entries, Pointer, SymbolIn, SymbolCount, DefinitionFrom, PluginDynamic;
    HeaderAgrees(m, m', base, tables);
    var es := Entries(m, PluginDynamic(m, base));
    var symtab, strtab := Pointer(es, base, DT_SYMTAB, DT_SYMTAB), Pointer(es, base, DT_STRTAB, DT_STRTAB);
    DefinitionAgrees(m, m', texts, base, symtab, strtab, name, 0, SymbolCount(symtab, strtab), tables);
  }

  ghost predicate AllIn(m: Memory, elfs: seq<U32>, tables: iset<nat>) {
    forall i :: 0 <= i < |elfs| ==> PluginIn(m, elfs[i], tables)
  }

  lemma {:induction false} ExportsAgree(m: Memory, m': Memory, texts: Texts, elfs: seq<U32>, name: string,
                                        tables: iset<nat>)
    requires Agree(m, m', tables) && AllIn(m, elfs, tables)
    ensures Exports(m, texts, elfs, name) == Exports(m', texts, elfs, name) && AllIn(m', elfs, tables)
    decreases |elfs|
  {
    hide Agree, PluginIn, SymbolAddr;
    if elfs != [] {
      SymbolAgrees(m, m', texts, elfs[0], name, tables);
      assert AllIn(m, elfs[1..], tables);
      ExportsAgree(m, m', texts, elfs[1..], name, tables);
      forall i | 0 <= i < |elfs|
        ensures PluginIn(m', elfs[i], tables)
      {
        SymbolAgrees(m, m', texts, elfs[i], name, tables);
      }
    }
  }

  lemma ResolvedAgrees(m: Memory, m': Memory, texts: Texts, elfs: seq<U32>, base: U32, symtab: U32, strtab: U32,
                       r: Rel, tables: iset<nat>)
    requires Agree(m, m', tables) && AllIn(m, elfs, tables) && SymbolIn(tables, symtab, Sym(r))
    ensures Resolved(m, texts, elfs, base, symtab, strtab, r) == Resolved(m', texts, elfs, base, symtab, strtab, r)
  {
    hide Index, AllIn, Exports, Sym;
    ExportsAgree(m, m', texts, elfs, SymbolName(m, texts, symtab, strtab, Sym(r)), tables);
  }

  // ----- what linking does -----

  ghost predicate SymbolsIn(m: Memory, rel: U32, n: nat, symtab: U32, tables: iset<nat>) {
    forall k :: 0 <= k < n ==> SymbolIn(tables, symtab, Sym(RelAt(m, rel, k)))
  }

  /** The linking loop word by word: a slot ends with what its last entry resolves to in the
      memory at the start, and other words do not change. */
  lemma {:induction false} LinkedWord(m0: Memory, m: Memory, texts: Texts, elfs: seq<U32>, base: U32, symtab: U32,
                                      strtab: U32,
                                      rel: U32, k: nat, n: nat, tables: iset<nat>, w: nat)
    requires Agree(m0, m, tables) && AllIn(m0, elfs, tables) && w < 0x4000_0000
    requires RelsApart(m0, base, rel, n, tables) && SymbolsIn(m0, rel, n, symtab, tables)
    ensures LinkFrom(m, texts, elfs, base, symtab, strtab, rel, k, n)[w]
         == match LastFor(Rels(m0, rel, n), base, w, k)
            case None => m[w]
            case Some(r) => Resolved(m0, texts, elfs, base, symtab, strtab, r)
    decreases n - k
  {
    hide Index, Kind, Slot, RelAt, Resolved, AllIn, SymbolIn, IsSymbolic, Sym;
    if k < n {
      RelsAgree(m0, m, base, rel, n, tables);
      var r := RelAt(m, rel, k);
      assert Rels(m0, rel, n)[k] == Rels(m, rel, n)[k] == r == RelAt(m0, rel, k);
      var next := LinkOne(m, texts, elfs, base, symtab, strtab, r);
      assert SymbolIn(tables, symtab, Sym(RelAt(m0, rel, k)));
      ResolvedAgrees(m0, m, texts, elfs, base, symtab, strtab, r, tables);
      assert Slot(base, RelAt(m0, rel, k)) !in tables;
      LinkedWord(m0, next, texts, elfs, base, symtab, strtab, rel, k + 1, n, tables, w);
    }
  }

  /** A plugin to be linked whose slots are out of reach of all tables that linking reads. */
  ghost predicate Linkable(m: Memory, elfs: seq<U32>, base: U32, tables: iset<nat>) {
    var es := Entries(m, PluginDynamic(m, base));
    var rel := Pointer(es, base, DT_REL, DT_JMPREL);
    && AllIn(m, elfs, tables) && HeaderIn(m, base, tables)
    && RelsApart(m, base, rel, RelSizes(es), tables)
    && SymbolsIn(m, rel, RelSizes(es), Pointer(es, base, DT_SYMTAB, DT_SYMTAB), tables)
  }

  /** The entry that decides word w when the plugin is linked. */
  function Deciding(m: Memory, base: U32, w: nat): Option<Rel> {
    var es := Entries(m, PluginDynamic(m, base));
    var rel := Pointer(es, base, DT_REL, DT_JMPREL);
    if PluginDynamic(m, base) == 0 || rel == 0 then None else LastFor(Rels(m, rel, RelSizes(es)), base, w, 0)
  }

  /** An entry of the plugin, resolved. */
  function ResolvedIn(m: Memory, texts: Texts, elfs: seq<U32>, base: U32, r: Rel): U32 {
    var es := Entries(m, PluginDynamic(m, base));
    Resolved(m, texts, elfs, base, Pointer(es, base, DT_SYMTAB, DT_SYMTAB), Pointer(es, base, DT_STRTAB, DT_STRTAB), r)
  }

  /** Linking gives every symbol slot the plugin's own definition or that of the first registered
      plugin that exports the name, and changes nothing else. */
  lemma LinkFillsSlots(m: Memory, texts: Texts, elfs: seq<U32>, base: U32, tables: iset<nat>, w: nat)
    requires Linkable(m, elfs, base, tables) && w < 0x4000_0000
    ensures Linked(m, texts, elfs, base)[w]
         == match Deciding(m, base, w)
            case None => m[w]
            case Some(r) => ResolvedIn(m, texts, elfs, base, r)
  {
    hide LinkFrom, Resolved, LastFor, Entries, Pointer, RelsApart, AllIn, HeaderIn, Rels, PluginDynamic, RelSizes,
      SymbolsIn;
    var es := Entries(m, PluginDynamic(m, base));
    var rel := Pointer(es, base, DT_REL, DT_JMPREL);
    LinkedWord(m, m, texts, elfs, base, Pointer(es, base, DT_SYMTAB, DT_SYMTAB),
               Pointer(es, base, DT_STRTAB, DT_STRTAB), rel, 0, RelSizes(es), tables, w);
  }

  lemma {:induction false} NoEntryFor(rs: seq<Rel>, base: U32, w: nat, k: nat)
    requires forall l :: k <= l < |rs| ==> Slot(base, rs[l]) != w
    ensures LastFor(rs, base, w, k) == None
    decreases |rs| - k
  {
    if k < |rs| {
      NoEntryFor(rs, base, w, k + 1);
    }
  }

  lemma LinkKeepsTables(m: Memory, texts: Texts, elfs: seq<U32>, base: U32, tables: iset<nat>)
    requires Linkable(m, elfs, base, tables)
    ensures Agree(m, Linked(m, texts, elfs, base), tables)
  {
    hide Linked, LinkFrom, Entries, Pointer, AllIn, HeaderIn, PluginDynamic, RelSizes, SymbolsIn, ResolvedIn, LastFor,
      RelAt, Slot;
    var after := Linked(m, texts, elfs, base);
    var es := Entries(m, PluginDynamic(m, base));
    forall w | 0 <= w < 0x4000_0000 && w in tables
      ensures m[w] == after[w]
    {
      LinkFillsSlots(m, texts, elfs, base, tables, w);
      NoEntryFor(Rels(m, Pointer(es, base, DT_REL, DT_JMPREL), RelSizes(es)), base, w, 0);
    }
  }

  lemma SymbolsAgree(m: Memory, m': Memory, base: U32, rel: U32, n: nat, symtab: U32, tables: iset<nat>)
    requires SymbolsIn(m, rel, n, symtab, tables)
    requires Agree(m, m', tables) && RelsApart(m, base, rel, n, tables)
    ensures SymbolsIn(m', rel, n, symtab, tables)
  {
    hide SymbolIn, RelAt, Agree, RelsApart, Sym;
    RelsAgree(m, m', base, rel, n, tables);
    forall k | 0 <= k < n
      ensures SymbolIn(tables, symtab, Sym(RelAt(m', rel, k)))
    {
      assert RelAt(m', rel, k) == Rels(m', rel, n)[k] == Rels(m, rel, n)[k] == RelAt(m, rel, k);
      assert SymbolIn(tables, symtab, Sym(RelAt(m, rel, k)));
    }
  }

  lemma LinkableAgrees(m: Memory, m': Memory, texts: Texts, elfs: seq<U32>, base: U32, tables: iset<nat>, w: nat)
    requires Agree(m, m', tables) && Linkable(m, elfs, base, tables)
    ensures Linkable(m', elfs, base, tables) && Deciding(m, base, w) == Deciding(m', base, w)
    ensures Deciding(m, base, w).Some? ==>
      var r := Deciding(m, base, w).value;
      ResolvedIn(m, texts, elfs, base, r) == ResolvedIn(m', texts, elfs, base, r)
  {
    hide Agree, Entries, Pointer, AllIn, HeaderIn, PluginDynamic, RelSizes, RelsApart, SymbolsIn, Resolved, Rels,
      LastFor, Exports;
    var es := Entries(m, PluginDynamic(m, base));
    var rel := Pointer(es, base, DT_REL, DT_JMPREL);
    HeaderAgrees(m, m', base, tables);
    RelsAgree(m, m', base, rel, RelSizes(es), tables);
    ExportsAgree(m, m', texts, elfs, "", tables);
    SymbolsAgree(m, m', base, rel, RelSizes(es), Pointer(es, base, DT_SYMTAB, DT_SYMTAB), tables);
    if Deciding(m, base, w).Some? {
      var r := Deciding(m, base, w).value;
      DecidingIsEntry(m, rel, RelSizes(es), base, w, 0, Pointer(es, base, DT_SYMTAB, DT_SYMTAB), tables);
      ResolvedAgrees(m, m', texts, elfs, base, Pointer(es, base, DT_SYMTAB, DT_SYMTAB),
                     Pointer(es, base, DT_STRTAB, DT_STRTAB), r, tables);
    }
  }

  lemma {:induction false} DecidingIsEntry(m: Memory, rel: U32, n: nat, base: U32, w: nat, k: nat, symtab: U32,
                                           tables: iset<nat>)
    requires SymbolsIn(m, rel, n, symtab, tables)
    ensures var r := LastFor(Rels(m, rel, n), base, w, k); r.Some? ==> SymbolIn(tables, symtab, Sym(r.value))
    decreases n - k
  {
    hide SymbolIn, RelAt, Slot, IsSymbolic, Sym;
    if k < n {
      DecidingIsEntry(m, rel, n, base, w, k + 1, symtab, tables);
      assert SymbolIn(tables, symtab, Sym(RelAt(m, rel, k)));
    }
  }

  // ----- linking told by the words in memory -----

  /** Entry k of the table that is walked, of a type that fills its slot: R_ARM_ABS32,
      R_ARM_GLOB_DAT or R_ARM_JUMP_SLOT. */
  ghost predicate FillsSlot(m: Memory, rel: U32, k: nat) {
    var info := Load(m, rel + 8 * k + 4);
    info % 0x100 == 2 || info % 0x100 == 21 || info % 0x100 == 22
  }

  /** The word that entry k is about. */
  ghost function SlotOf(m: Memory, base: U32, rel: U32, k: nat): (w: nat)
    ensures w < 0x4000_0000
  {
    Index(base + Load(m, rel + 8 * k))
  }

  /** The address of a name: of the plugins in order of registration, the first that defines it. */
  ghost predicate FirstRegistered(m: Memory, texts: Texts, elfs: seq<U32>, name: string, a: U32) {
    if a == 0 then forall i :: 0 <= i < |elfs| ==> SymbolAddr(m, texts, elfs[i], name) == 0
    else
      exists i :: 0 <= i < |elfs| && SymbolAddr(m, texts, elfs[i], name) == a
                  && (forall j :: 0 <= j < i ==> SymbolAddr(m, texts, elfs[j], name) == 0)
  }

  lemma {:induction false} FirstExport(m: Memory, texts: Texts, elfs: seq<U32>, name: string)
    ensures FirstRegistered(m, texts, elfs, name, NthExport(m, texts, elfs, name, 0))
    decreases |elfs|
  {
    hide SymbolAddr;
    if elfs != [] {
      var rest := elfs[1..];
      FirstExport(m, texts, rest, name);
      var a := NthExport(m, texts, elfs, name, 0);
      if SymbolAddr(m, texts, elfs[0], name) == 0 {
        assert a == NthExport(m, texts, rest, name, 0);
        if a != 0 {
          var i :| 0 <= i < |rest| && SymbolAddr(m, texts, rest[i], name) == a
            && forall j :: 0 <= j < i ==> SymbolAddr(m, texts, rest[j], name) == 0;
          assert elfs[i + 1] == rest[i] && forall j :: 1 <= j < i + 1 ==> elfs[j] == rest[j - 1];
        } else {
          assert forall j :: 1 <= j < |elfs| ==> elfs[j] == rest[j - 1];
        }
      }
    }
  }

  lemma {:induction false} LastForIs(rs: seq<Rel>, base: U32, k0: nat, k: nat)
    requires k0 <= k < |rs| && IsSymbolic(rs[k])
    requires forall l :: k < l < |rs| ==> !(IsSymbolic(rs[l]) && Slot(base, rs[l]) == Slot(base, rs[k]))
    ensures LastFor(rs, base, Slot(base, rs[k]), k0) == Some(rs[k])
    decreases k - k0
  {
    hide IsSymbolic, Slot;
    if k0 == k {
      NoneFor(rs, base, Slot(base, rs[k]), k + 1);
    } else {
      LastForIs(rs, base, k0 + 1, k);
    }
  }

  lemma {:induction false} NoneFor(rs: seq<Rel>, base: U32, w: nat, k: nat)
    requires forall l :: k <= l < |rs| ==> !(IsSymbolic(rs[l]) && Slot(base, rs[l]) == w)
    ensures LastFor(rs, base, w, k) == None
    decreases |rs| - k
  {
    hide IsSymbolic, Slot;
    if k < |rs| {
      NoneFor(rs, base, w, k + 1);
    }
  }

  lemma EntryWords(m: Memory, base: U32, rel: U32, n: nat, k: nat)
    requires k < n
    ensures var r := Rels(m, rel, n)[k];
      && (IsSymbolic(r) <==> FillsSlot(m, rel, k)) && Slot(base, r) == SlotOf(m, base, rel, k)
      && Sym(r) == Load(m, rel + 8 * k + 4) / 0x100
  {
    hide Index;
  }

  /** The table that linking walks, and how far. */
  ghost function Walked(m: Memory, base: U32): (U32, nat) {
    var es := Entries(m, PluginDynamic(m, base));
    (Pointer(es, base, DT_REL, DT_JMPREL), RelSizes(es))
  }

  /** A slot ends with what the last entry that fills it names: a symbol of the plugin's own, at the
      base plus its value, null where it has none; and for symbol indices other than 0 without a
      section, the address of the name. */
  lemma SlotFilled(m: Memory, texts: Texts, elfs: seq<U32>, base: U32, tables: iset<nat>, k: nat)
    requires Linkable(m, elfs, base, tables) && PluginDynamic(m, base) != 0
    requires var (rel, n) := Walked(m, base);
      && rel != 0 && k < n && FillsSlot(m, rel, k)
      && forall l :: k < l < n && FillsSlot(m, rel, l) ==> SlotOf(m, base, rel, l) != SlotOf(m, base, rel, k)
    ensures var (rel, n) := Walked(m, base);
      var es := Entries(m, PluginDynamic(m, base));
      var symbol: nat := Pointer(es, base, DT_SYMTAB, DT_SYMTAB) + 16 * (Load(m, rel + 8 * k + 4) / 0x100);
      var name := texts(Wrap32(Pointer(es, base, DT_STRTAB, DT_STRTAB) + Load(m, symbol)));
      var filled := Linked(m, texts, elfs, base)[SlotOf(m, base, rel, k)];
      if Load(m, symbol + 12) % 0x1_0000 == 0 && Load(m, rel + 8 * k + 4) >= 0x100
      then FirstRegistered(m, texts, elfs, name, filled)
      else filled == if Load(m, symbol + 4) == 0 then 0 else (base + Load(m, symbol + 4)) % 0x1_0000_0000
  {
    hide Index, Linkable, PluginDynamic, Linked, Entries, Pointer, RelSizes, FillsSlot, SlotOf, LastFor, Rels,
      IsSymbolic, Slot, FirstRegistered, NthExport, Sym, Terminated;
    var (rel, n) := Walked(m, base);
    var rs := Rels(m, rel, n);
    forall l | 0 <= l < n
      ensures IsSymbolic(rs[l]) <==> FillsSlot(m, rel, l)
      ensures Slot(base, rs[l]) == SlotOf(m, base, rel, l)
    {
      EntryWords(m, base, rel, n, l);
    }
    EntryWords(m, base, rel, n, k);
    LastForIs(rs, base, 0, k);
    LinkFillsSlots(m, texts, elfs, base, tables, SlotOf(m, base, rel, k));
    ResolvedByWords(m, texts, elfs, base, rs[k]);
  }

  lemma ResolvedByWords(m: Memory, texts: Texts, elfs: seq<U32>, base: U32, r: Rel)
    ensures var es := Entries(m, PluginDynamic(m, base));
      var symbol: nat := Pointer(es, base, DT_SYMTAB, DT_SYMTAB) + 16 * Sym(r);
      var name := texts(Wrap32(Pointer(es, base, DT_STRTAB, DT_STRTAB) + Load(m, symbol)));
      if Load(m, symbol + 12) % 0x1_0000 == 0 && Sym(r) != 0
      then FirstRegistered(m, texts, elfs, name, ResolvedIn(m, texts, elfs, base, r))
      else
        ResolvedIn(m, texts, elfs, base, r)
        == if Load(m, symbol + 4) == 0 then 0 else (base + Load(m, symbol + 4)) % 0x1_0000_0000
  {
    hide Index, Entries, Pointer, PluginDynamic, NthExport, FirstRegistered, Sym;
    var es := Entries(m, PluginDynamic(m, base));
    var symtab, strtab := Pointer(es, base, DT_SYMTAB, DT_SYMTAB), Pointer(es, base, DT_STRTAB, DT_STRTAB);
    FirstExport(m, texts, elfs, SymbolName(m, texts, symtab, strtab, Sym(r)));
  }

  /** Words that no such entry is about stay as they are; entries of other types change nothing. */
  lemma OthersKept(m: Memory, texts: Texts, elfs: seq<U32>, base: U32, tables: iset<nat>, w: nat)
    requires Linkable(m, elfs, base, tables) && w < 0x4000_0000
    requires var (rel, n) := Walked(m, base);
      PluginDynamic(m, base) != 0 && rel != 0 ==>
        forall l :: 0 <= l < n && FillsSlot(m, rel, l) ==> SlotOf(m, base, rel, l) != w
    ensures Linked(m, texts, elfs, base)[w] == m[w]
  {
    hide Index, Linkable, PluginDynamic, Linked, Entries, Pointer, RelSizes, FillsSlot, SlotOf, LastFor, Rels,
      IsSymbolic, Slot, ResolvedIn;
    var (rel, n) := Walked(m, base);
    var rs := Rels(m, rel, n);
    LinkFillsSlots(m, texts, elfs, base, tables, w);
    if PluginDynamic(m, base) != 0 && rel != 0 {
      forall l | 0 <= l < n
        ensures !(IsSymbolic(rs[l]) && Slot(base, rs[l]) == w)
      {
        EntryWords(m, base, rel, n, l);
      }
      NoneFor(rs, base, w, 0);
    }
  }

  // ----- the two passes together -----

  lemma RelocatableAgrees(m: Memory, m': Memory, base: U32, dyn: U32, tables: iset<nat>, w: nat)
    requires Agree(m, m', tables) && Relocatable(m, base, dyn, tables) && EntriesIn(m, dyn, tables)
    ensures Relocatable(m', base, dyn, tables) && FlagWord(m', base) == FlagWord(m, base)
    ensures Repeats(m', base, dyn, w) == Repeats(m, base, dyn, w)
  {
    hide Index, Entries, EntriesIn, Pointer, RelsApart, RelSize, Rels, Count;
    EntriesAgree(m, m', dyn, tables);
    var es := Entries(m, dyn);
    var rel := Pointer(es, base, DT_REL, DT_REL);
    if rel != 0 {
      RelsAgree(m, m', base, rel, RelSize(es), tables);
    }
  }

  lemma RelocationKeepsTables(m: Memory, base: U32, dyn: U32, tables: iset<nat>)
    requires Relocatable(m, base, dyn, tables)
    ensures Agree(m, Relocated(m, base, dyn), tables)
  {
    hide Index, Entries, Pointer, RelsApart, RelSize, RelocateFrom, Repeats;
    var es := Entries(m, dyn);
    var rel := Pointer(es, base, DT_REL, DT_REL);
    if rel != 0 {
      RelocateKeepsTables(m, base, rel, RelSize(es), tables);
    }
  }

  /** No word is both relocated and linked, and the flag is not linked. */
  ghost predicate SlotsApart(m: Memory, base: U32, dyn: U32) {
    && (forall w :: 0 <= w < 0x4000_0000 && Deciding(m, base, w).Some? ==> Repeats(m, base, dyn, w) == 0)
    && Deciding(m, base, FlagWord(m, base)) == None
  }

  /** Relocating a plugin and linking it commute. */
  lemma RelocateLinkCommute(m: Memory, texts: Texts, elfs: seq<U32>, base: U32, dyn: U32, tables: iset<nat>)
    requires Linkable(m, elfs, base, tables) && Relocatable(m, base, dyn, tables) && EntriesIn(m, dyn, tables)
    requires SlotsApart(m, base, dyn)
    ensures Linked(Relocated(m, base, dyn), texts, elfs, base) == Relocated(Linked(m, texts, elfs, base), base, dyn)
  {
    hide Linkable, Relocatable, Linked, Relocated, Agree, EntriesIn, FlagWord, Deciding, Repeats, ResolvedIn,
      SlotsApart;
    var m1, m2 := Relocated(m, base, dyn), Linked(m, texts, elfs, base);
    RelocationKeepsTables(m, base, dyn, tables);
    LinkKeepsTables(m, texts, elfs, base, tables);
    var left, right := Linked(m1, texts, elfs, base), Relocated(m2, base, dyn);
    forall w | 0 <= w < 0x4000_0000
      ensures left[w] == right[w]
    {
      CommuteAt(m, texts, elfs, base, dyn, tables, w);
    }
  }

  lemma CommuteAt(m: Memory, texts: Texts, elfs: seq<U32>, base: U32, dyn: U32, tables: iset<nat>, w: nat)
    requires Linkable(m, elfs, base, tables) && Relocatable(m, base, dyn, tables) && EntriesIn(m, dyn, tables)
    requires SlotsApart(m, base, dyn) && w < 0x4000_0000
    requires Agree(m, Relocated(m, base, dyn), tables) && Agree(m, Linked(m, texts, elfs, base), tables)
    ensures Linked(Relocated(m, base, dyn), texts, elfs, base)[w]
         == Relocated(Linked(m, texts, elfs, base), base, dyn)[w]
  {
    hide Linkable, Relocatable, Linked, Agree, EntriesIn, FlagWord, Deciding, Repeats, ResolvedIn, Bumped, Entries,
      Pointer, RelocateFrom;
    var m1, m2 := Relocated(m, base, dyn), Linked(m, texts, elfs, base);
    LinkableAgrees(m, m1, texts, elfs, base, tables, w);
    RelocatableAgrees(m, m2, base, dyn, tables, w);
    LinkFillsSlots(m1, texts, elfs, base, tables, w);
    LinkFillsSlots(m, texts, elfs, base, tables, w);
    LinkFillsSlots(m, texts, elfs, base, tables, FlagWord(m, base));
    if m[FlagWord(m, base)] == 0 {
      RelocatesOnce(m, base, dyn, tables, w);
      RelocatesOnce(m2, base, dyn, tables, w);
      NothingAdded(m2[w], base);
    }
  }

  // ----- which tables the single walk of the linker sees -----

  /** The address of entry k of a table. */
  function EntryAddr(rel: U32, k: nat): U32 { Wrap32(rel + 8 * k) }

  ghost predicate Among(a: U32, rel: U32, n: nat) {
    exists k :: 0 <= k < n && a == EntryAddr(rel, k)
  }

  /** A walk of n + p entries from rel meets exactly the entries of a table of n and one of p. */
  ghost predicate WalksBoth(rel: U32, r: U32, n: nat, j: U32, p: nat) {
    forall a: U32 :: Among(a, rel, n + p) <==> Among(a, r, n) || Among(a, j, p)
  }

  lemma EntryAddrInjective(rel: U32, i: nat, k: nat)
    requires i < 0x2000_0000 && k < 0x2000_0000 && EntryAddr(rel, i) == EntryAddr(rel, k)
    ensures i == k
  {
    var q := (rel + 8 * i) / TWO32 - (rel + 8 * k) / TWO32;
    assert 8 * i - 8 * k == TWO32 * q;
  }

  lemma EntryAddrShift(rel: U32, i: nat, t: nat)
    ensures EntryAddr(EntryAddr(rel, i), t) == EntryAddr(rel, i + t)
  {
    WrapAdd(rel + 8 * i, 8 * t);
  }

  lemma WrapAdd(x: int, y: int)
    ensures Wrap32(Wrap32(x) + y) == Wrap32(x + y)
  {
  }

  /** Where the walk starts with the first table, the other one has to lie right behind it. */
  lemma WalkFromFirst(r: U32, n: nat, j: U32, p: nat)
    requires n > 0 && p > 0 && n + p < 0x2000_0000
    ensures WalksBoth(r, r, n, j, p) <==> j == EntryAddr(r, n)
  {
    hide EntryAddr;
    if j == EntryAddr(r, n) {
      forall a: U32
        ensures Among(a, r, n + p) <==> Among(a, r, n) || Among(a, j, p)
      {
        SplitWalk(a, r, n, j, p);
      }
    } else if WalksBoth(r, r, n, j, p) {
      BehindFirst(r, n, j, p);
    }
  }

  lemma SplitWalk(a: U32, r: U32, n: nat, j: U32, p: nat)
    requires j == EntryAddr(r, n)
    ensures Among(a, r, n + p) <==> Among(a, r, n) || Among(a, j, p)
  {
    hide EntryAddr;
    if Among(a, r, n + p) {
      var k :| 0 <= k < n + p && a == EntryAddr(r, k);
      if k >= n {
        EntryAddrShift(r, n, k - n);
        assert a == EntryAddr(j, k - n);
      }
    }
    if Among(a, j, p) {
      var k :| 0 <= k < p && a == EntryAddr(j, k);
      EntryAddrShift(r, n, k);
      assert a == EntryAddr(r, n + k);
    }
  }

  lemma BehindFirst(r: U32, n: nat, j: U32, p: nat)
    requires n > 0 && p > 0 && n + p < 0x2000_0000 && WalksBoth(r, r, n, j, p)
    ensures j == EntryAddr(r, n)
  {
    hide EntryAddr;
    EntryAddrShift(j, 0, 0);
    assert Among(j, j, p) by { FirstIsAmong(j, p); }
    var i :| 0 <= i < n + p && j == EntryAddr(r, i);
    if i > n {
      // the other table would reach beyond the walk
      var u := n + p - i;
      EntryAddrShift(r, i, u);
      var a := EntryAddr(j, u);
      assert Among(a, j, p);
      var k :| 0 <= k < n + p && a == EntryAddr(r, k);
      EntryAddrInjective(r, k, n + p);
    } else if i < n {
      // the walk would reach beyond the other table
      var a := EntryAddr(r, n + p - 1);
      assert Among(a, r, n + p);
      if Among(a, r, n) {
        var k :| 0 <= k < n && a == EntryAddr(r, k);
        EntryAddrInjective(r, k, n + p - 1);
      } else {
        var t :| 0 <= t < p && a == EntryAddr(j, t);
        EntryAddrShift(r, i, t);
        EntryAddrInjective(r, i + t, n + p - 1);
      }
    }
  }

  lemma FirstIsAmong(j: U32, p: nat)
    requires p > 0
    ensures Among(j, j, p)
  {
    assert EntryAddr(j, 0) == j;
  }

  lemma {:induction false} LastOfTwo(es: seq<(U32, U32)>, t: U32, u: U32)
    requires Last(es, t, t).Some? && Last(es, u, u).Some?
    ensures Last(es, t, u) == Last(es, t, t) || Last(es, t, u) == Last(es, u, u)
  {
    if es[|es| - 1].0 != t && es[|es| - 1].0 != u {
      LastOfTwo(es[..|es| - 1], t, u);
    }
  }

  /** The linker walks one table of the added sizes from the last of the two pointers. It meets
      the entries of both tables exactly when the table whose pointer comes last is the lower
      one and the other lies right behind it. */
  lemma LinkWalksBothExactly(base: U32, es: seq<(U32, U32)>)
    requires Last(es, DT_REL, DT_REL).Some? && Last(es, DT_JMPREL, DT_JMPREL).Some?
    requires RelSize(es) > 0 && TableSize(es, DT_PLTRELSZ) > 0
    requires RelSizes(es) == RelSize(es) + TableSize(es, DT_PLTRELSZ) < 0x2000_0000
    ensures var r, n := Pointer(es, base, DT_REL, DT_REL), RelSize(es);
      var j, p := Pointer(es, base, DT_JMPREL, DT_JMPREL), TableSize(es, DT_PLTRELSZ);
      var rel := Pointer(es, base, DT_REL, DT_JMPREL);
      WalksBoth(rel, r, n, j, p) <==> (rel == r && j == Wrap32(r + 8 * n)) || (rel == j && r == Wrap32(j + 8 * p))
  {
    hide WalksBoth, RelSizes, TableSize, RelSize;
    LastOfTwo(es, DT_REL, DT_JMPREL);
    var r, n := Pointer(es, base, DT_REL, DT_REL), RelSize(es);
    var j, p := Pointer(es, base, DT_JMPREL, DT_JMPREL), TableSize(es, DT_PLTRELSZ);
    WalkFromFirst(r, n, j, p);
    WalkFromFirst(j, p, r, n);
    WalksBothSwapped(j, r, n, j, p);
    if r == j {
      EntryAddrNotFirst(r, n);
      EntryAddrNotFirst(j, p);
    }
  }

  lemma WalksBothSwapped(rel: U32, r: U32, n: nat, j: U32, p: nat)
    ensures WalksBoth(rel, r, n, j, p) <==> WalksBoth(rel, j, p, r, n)
  {
    hide Among;
    assert n + p == p + n;
  }

  lemma EntryAddrNotFirst(r: U32, n: nat)
    requires 0 < n < 0x2000_0000
    ensures EntryAddr(r, n) != r
  {
    assert EntryAddr(r, 0) == r;
    hide EntryAddr;
    if EntryAddr(r, n) == EntryAddr(r, 0) {
      EntryAddrInjective(r, 0, n);
    }
  }

  /** Then what it reads there is the one table followed by the other. */
  lemma WalkReadsBoth(m: Memory, r: U32, n: nat, p: nat)
    ensures Rels(m, r, n + p) == Rels(m, r, n) + Rels(m, EntryAddr(r, n), p)
  {
    var all, first, second := Rels(m, r, n + p), Rels(m, r, n), Rels(m, EntryAddr(r, n), p);
    forall k | 0 <= k < n + p
      ensures all[k] == (first + second)[k]
    {
      if k >= n {
        SameWord(r + 8 * n, 8 * (k - n));
        SameWord(r + 8 * n, 8 * (k - n) + 4);
      }
    }
  }

  /** A section at which a table is missed: the PLT table lies behind the other and its pointer
      comes last, so the walk starts there. */
  lemma TableMissed()
    ensures var es := [(DT_REL, 0x1000), (DT_RELSZ, 16), (DT_JMPREL, 0x1010), (DT_PLTRELSZ, 8)];
      && Pointer(es, 0, DT_REL, DT_JMPREL) == 0x1010 && RelSizes(es) == 3
      && Among(0x1000, Pointer(es, 0, DT_REL, DT_REL), RelSize(es))
      && !Among(0x1000, Pointer(es, 0, DT_REL, DT_JMPREL), RelSizes(es))
  {
    var e0, e1, e2, e3 := (DT_REL, 0x1000), (DT_RELSZ, 16), (DT_JMPREL, 0x1010), (DT_PLTRELSZ, 8);
    assert [] + [e0] == [e0] && [e0] + [e1] == [e0, e1] && [e0, e1] + [e2] == [e0, e1, e2];
    assert [e0, e1, e2] + [e3] == [e0, e1, e2, e3];
    assert RelSizes([]) == 0;
    hide Pointer, RelSize, RelSizes, EntryAddr;
    ScanStep([], e0, 0, DT_REL, DT_JMPREL);
    ScanStep([], e0, 0, DT_REL, DT_REL);
    ScanStep([e0], e1, 0, DT_REL, DT_JMPREL);
    ScanStep([e0], e1, 0, DT_REL, DT_REL);
    ScanStep([e0, e1], e2, 0, DT_REL, DT_JMPREL);
    ScanStep([e0, e1], e2, 0, DT_REL, DT_REL);
    ScanStep([e0, e1, e2], e3, 0, DT_REL, DT_JMPREL);
    ScanStep([e0, e1, e2], e3, 0, DT_REL, DT_REL);
    FirstIsAmong(0x1000, 2);
  }

  lemma SameWord(x: int, y: int)
    ensures Index(Wrap32(x) + y) == Index(x + y)
  {
  }

  // ----- the code -----

  lemma EntriesStep(m: Memory, d: nat, done: seq<(U32, U32)>, base: U32)
    requires Terminated(m, d)
    ensures Load(m, d) == DT_NULL ==> done + Entries(m, d) == done
    ensures Load(m, d) != DT_NULL ==>
      Terminated(m, d + 8) && done + Entries(m, d) == done + [(Load(m, d), Load(m, d + 4))] + Entries(m, d + 8)
  {
    hide Index;
    if Load(m, d) != DT_NULL {
      var e := (Load(m, d), Load(m, d + 4));
      assert done + ([e] + Entries(m, d + 8)) == done + [e] + Entries(m, d + 8);
    }
  }

  /** What one more entry does to the values the scanning loops keep. */
  lemma ScanStep(done: seq<(U32, U32)>, e: (U32, U32), base: U32, t: U32, u: U32)
    ensures Pointer(done + [e], base, t, u)
         == if e.0 == t || e.0 == u then Wrap32(base + e.1) else Pointer(done, base, t, u)
    ensures RelSize(done + [e]) == if e.0 == DT_RELSZ then e.1 / 8 else RelSize(done)
    ensures RelSizes(done + [e])
         == if e.0 == DT_RELSZ || e.0 == DT_PLTRELSZ then Wrap32(RelSizes(done) + e.1 / 8) else RelSizes(done)
  {
    assert (done + [e])[..|done|] == done;
  }

  lemma {:induction false} TerminatedAgrees(m: Memory, m': Memory, d: nat, tables: iset<nat>)
    requires Agree(m, m', tables) && EntriesIn(m, d, tables) && Terminated(m, d)
    ensures Terminated(m', d)
    decreases TWO32 - d
  {
    hide Index;
    if Load(m, d) != DT_NULL {
      TerminatedAgrees(m, m', d + 8, tables);
    }
  }

  /** Every registered plugin has a dynamic section that ends. */
  ghost predicate Searchable(m: Memory, elfs: seq<U32>) {
    forall i :: 0 <= i < |elfs| ==> Terminated(m, PluginDynamic(m, elfs[i]))
  }

  lemma SearchableAgrees(m: Memory, m': Memory, elfs: seq<U32>, tables: iset<nat>)
    requires Agree(m, m', tables) && AllIn(m, elfs, tables) && Searchable(m, elfs)
    ensures Searchable(m', elfs)
  {
    hide Agree, EntriesIn, Entries, PluginDynamic, Terminated;
    forall i | 0 <= i < |elfs|
      ensures Terminated(m', PluginDynamic(m', elfs[i]))
    {
      assert PluginIn(m, elfs[i], tables);
      HeaderAgrees(m, m', elfs[i], tables);
      TerminatedAgrees(m, m', PluginDynamic(m, elfs[i]), tables);
    }
  }

  /** The entry is resolved by a search through the registered plugins. */
  predicate LooksUp(m: Memory, symtab: U32, r: Rel) {
    Kind(r) != R_ARM_RELATIVE && Load(m, symtab + 16 * Sym(r) + 12) % 0x1_0000 == 0 && Sym(r) != 0
  }

  /** The search for entry k, in the memory as it then is, ends. */
  ghost predicate LookupEnds(m: Memory, elfs: seq<U32>, symtab: U32, rel: U32, k: nat) {
    LooksUp(m, symtab, RelAt(m, rel, k)) ==> Searchable(m, elfs)
  }

  /** Every search that linking a plugin starts ends. */
  ghost predicate LookupsEnd(m: Memory, texts: Texts, elfs: seq<U32>, base: U32) {
    var es := Entries(m, PluginDynamic(m, base));
    var rel := Pointer(es, base, DT_REL, DT_JMPREL);
    var symtab, strtab := Pointer(es, base, DT_SYMTAB, DT_SYMTAB), Pointer(es, base, DT_STRTAB, DT_STRTAB);
    PluginDynamic(m, base) != 0 && rel != 0 ==>
      forall k :: 0 <= k < RelSizes(es) ==>
        LookupEnds(LinkPrefix(m, texts, elfs, base, symtab, strtab, rel, k), elfs, symtab, rel, k)
  }

  lemma {:induction false} LinkPrefixKeeps(m: Memory, texts: Texts, elfs: seq<U32>, base: U32, symtab: U32, strtab: U32,
                                           rel: U32, n: nat, tables: iset<nat>, k: nat)
    requires RelsApart(m, base, rel, n, tables) && k <= n
    ensures Agree(m, LinkPrefix(m, texts, elfs, base, symtab, strtab, rel, k), tables)
  {
    hide Index, RelAt, Resolved, Slot;
    if k > 0 {
      LinkPrefixKeeps(m, texts, elfs, base, symtab, strtab, rel, n, tables, k - 1);
      var before := LinkPrefix(m, texts, elfs, base, symtab, strtab, rel, k - 1);
      RelsAgree(m, before, base, rel, n, tables);
      assert Slot(base, RelAt(before, rel, k - 1)) !in tables;
    }
  }

  /** Where the slots are apart from the tables it is enough that searches end at the start. */
  lemma ApartLookupsEnd(m: Memory, texts: Texts, elfs: seq<U32>, base: U32, tables: iset<nat>)
    requires Linkable(m, elfs, base, tables) && Searchable(m, elfs)
    ensures LookupsEnd(m, texts, elfs, base)
  {
    hide Agree, AllIn, HeaderIn, PluginDynamic, Entries, Pointer, RelSizes, RelsApart, SymbolsIn, Searchable,
      LinkPrefix, LooksUp;
    var es := Entries(m, PluginDynamic(m, base));
    var rel := Pointer(es, base, DT_REL, DT_JMPREL);
    var symtab, strtab := Pointer(es, base, DT_SYMTAB, DT_SYMTAB), Pointer(es, base, DT_STRTAB, DT_STRTAB);
    forall k | 0 <= k < RelSizes(es)
      ensures LookupEnds(LinkPrefix(m, texts, elfs, base, symtab, strtab, rel, k), elfs, symtab, rel, k)
    {
      LinkPrefixKeeps(m, texts, elfs, base, symtab, strtab, rel, RelSizes(es), tables, k);
      SearchableAgrees(m, LinkPrefix(m, texts, elfs, base, symtab, strtab, rel, k), elfs, tables);
    }
  }

  class Loader {
    var mem: Memory
    var elfs: seq<U32>
    const texts: Texts

    constructor (m: Memory, t: Texts)
      ensures mem == m && texts == t && elfs == []
    {
      mem, texts, elfs := m, t, [];
    }

    /** __wafel_dynamic. */
    method Relocate(base: U32, dyn: U32)
      requires Terminated(mem, dyn)
      modifies `mem
      ensures mem == Relocated(old(mem), base, dyn)
    {
      hide Index, Entries, Pointer, RelSize, Terminated;
      if Load(mem, base + Load(mem, base + 0x18) + 0x14) != 0 {
        return;
      }
      var rel: U32, relsz: nat := 0, 0;
      var d: nat := dyn;
      ghost var done: seq<(U32, U32)> := [];
      ScanStart(base);
      while Load(mem, d) != 0
        invariant Terminated(mem, d) && done + Entries(mem, d) == Entries(mem, dyn)
        invariant rel == Pointer(done, base, DT_REL, DT_REL) && relsz == RelSize(done) && mem == old(mem)
        decreases TWO32 - d
      {
        var tag, val := Load(mem, d), Load(mem, d + 4);
        EntriesStep(mem, d, done, base);
        ScanStep(done, (tag, val), base, DT_REL, DT_REL);
        if tag == 17 {
          rel := Wrap32(base + val);
        } else if tag == 18 {
          relsz := val / 8;
        }
        done := done + [(tag, val)];
        d := d + 8;
        InRange(mem, d);
      }
      EntriesStep(mem, d, done, base);
      if rel != 0 {
        RelocateEntries(base, rel, relsz);
      }
      mem := mem[Index(base + Load(mem, base + 0x18) + 0x14) := 1];
    }

    /** Its second loop. */
    method RelocateEntries(base: U32, rel: U32, relsz: nat)
      modifies `mem
      ensures mem == RelocateFrom(old(mem), base, rel, 0, relsz)
    {
      hide Index;
      var left, k := relsz, 0;
      while left > 0
        invariant left + k == relsz
        invariant RelocateFrom(mem, base, rel, k, relsz) == RelocateFrom(old(mem), base, rel, 0, relsz)
      {
        var word := Index(base + Load(mem, rel + 8 * k));
        if Load(mem, rel + 8 * k + 4) % 0x100 == 23 && mem[word] < base {
          mem := mem[word := Wrap32(mem[word] + base)];
        }
        left := left - 1;
        k := k + 1;
      }
    }

    /** wafel_get_plugin_dynamic. */
    method GetPluginDynamic(base: U32) returns (dyn: U32)
      ensures dyn == PluginDynamic(mem, base)
    {
      hide Index;
      if Load(mem, base) != 0x7F45_4C46 {
        return 0;
      }
      var phdrs: U32, n := Wrap32(base + Load(mem, base + 0x1C)), Load(mem, base + 0x2C) / 0x1_0000;
      if phdrs == 0 || n == 0 {
        return 0;
      }
      for i := 0 to n
        invariant DynamicFrom(mem, base, phdrs, 0, n) == DynamicFrom(mem, base, phdrs, i, n)
      {
        if Load(mem, phdrs + 32 * i) == 2 {
          return Wrap32(base + Load(mem, phdrs + 32 * i + 8));
        }
      }
      return 0;
    }

    /** wafel_get_symbol_addr. */
    method GetSymbolAddr(base: U32, name: string) returns (addr: U32)
      requires Terminated(mem, PluginDynamic(mem, base))
      ensures addr == SymbolAddr(mem, texts, base, name)
    {
      hide Index, Entries, Pointer, RelSize, RelSizes, Terminated, PluginDynamic, DefinitionFrom;
      var dyn := GetPluginDynamic(base);
      var symtab: U32, strtab: U32 := 0, 0;
      var d: nat := dyn;
      ghost var done: seq<(U32, U32)> := [];
      ScanStart(base);
      while Load(mem, d) != 0
        invariant Terminated(mem, d) && done + Entries(mem, d) == Entries(mem, dyn)
        invariant symtab == Pointer(done, base, DT_SYMTAB, DT_SYMTAB)
        invariant strtab == Pointer(done, base, DT_STRTAB, DT_STRTAB)
        decreases TWO32 - d
      {
        var tag, val := Load(mem, d), Load(mem, d + 4);
        EntriesStep(mem, d, done, base);
        ScanStep(done, (tag, val), base, DT_SYMTAB, DT_SYMTAB);
        ScanStep(done, (tag, val), base, DT_STRTAB, DT_STRTAB);
        if tag == 6 {
          symtab := Wrap32(base + val);
        } else if tag == 5 {
          strtab := Wrap32(base + val);
        }
        done := done + [(tag, val)];
        d := d + 8;
        InRange(mem, d);
      }
      EntriesStep(mem, d, done, base);
      var n := Wrap32(strtab - symtab) / 16;
      for i := 0 to n
        invariant forall l :: 0 <= l < i ==> !Defines(mem, texts, symtab, strtab, name, l)
      {
        var value := Load(mem, symtab + 16 * i + 4);
        if texts(Wrap32(strtab + Load(mem, symtab + 16 * i))) == name && value != 0 {
          FirstDefinition(mem, texts, base, symtab, strtab, name, 0, n, i);
          return Wrap32(base + value);
        }
      }
      FirstDefinition(mem, texts, base, symtab, strtab, name, 0, n, n);
      return 0;
    }

    /** wafel_find_symbol_multiple: the export that skip others come before. */
    method FindSymbolMultiple(name: string, skip: U32) returns (addr: U32)
      requires Searchable(mem, elfs)
      ensures addr == NthExport(mem, texts, elfs, name, skip)
    {
      hide Terminated, PluginDynamic, SymbolAddr;
      var left: nat := skip;
      for i := 0 to |elfs|
        invariant left <= skip
        invariant NthExport(mem, texts, elfs[i..], name, left) == NthExport(mem, texts, elfs, name, skip)
      {
        assert elfs[i..][1..] == elfs[i + 1..];
        var ptr := GetSymbolAddr(elfs[i], name);
        if ptr != 0 {
          if left == 0 {
            return ptr;
          }
          left := left - 1;
        }
      }
      return 0;
    }

    /** wafel_find_symbol: the first export. */
    method FindSymbol(name: string) returns (addr: U32)
      requires Searchable(mem, elfs)
      ensures addr == NthExport(mem, texts, elfs, name, 0)
    {
      hide Terminated, PluginDynamic, SymbolAddr;
      for i := 0 to |elfs|
        invariant NthExport(mem, texts, elfs[i..], name, 0) == NthExport(mem, texts, elfs, name, 0)
      {
        assert elfs[i..][1..] == elfs[i + 1..];
        var ptr := GetSymbolAddr(elfs[i], name);
        if ptr != 0 {
          return ptr;
        }
      }
      return 0;
    }

    /** wafel_register_plugin: a name that was exported keeps its address, any other name now has
        what the new plugin defines. */
    method RegisterPlugin(base: U32)
      modifies `elfs
      ensures elfs == old(elfs) + [base]
      ensures forall name ::
        NthExport(mem, texts, elfs, name, 0)
        == FirstOf(NthExport(mem, texts, old(elfs), name, 0), SymbolAddr(mem, texts, base, name))
    {
      hide SymbolAddr;
      ghost var before := elfs;
      elfs := elfs + [base];
      forall name
        ensures NthExport(mem, texts, elfs, name, 0)
             == FirstOf(NthExport(mem, texts, before, name, 0), SymbolAddr(mem, texts, base, name))
      {
        OnePluginMore(mem, texts, before, base, name);
      }
    }

    /** The loop body of wafel_link_plugin. */
    method LinkEntry(base: U32, symtab: U32, strtab: U32, offset: U32, info: U32)
      requires LooksUp(mem, symtab, Rel(offset, info)) ==> Searchable(mem, elfs)
      modifies `mem
      ensures mem == LinkOne(old(mem), texts, elfs, base, symtab, strtab, Rel(offset, info))
    {
      hide Index, Searchable, NthExport, Terminated;
      if info % 0x100 == 23 {
        return;
      }
      var symIdx := info / 0x100;
      var name := texts(Wrap32(strtab + Load(mem, symtab + 16 * symIdx)));
      var symVal := Wrap32(base + Load(mem, symtab + 16 * symIdx + 4));
      if Load(mem, symtab + 16 * symIdx + 4) == 0 {
        symVal := 0;
      }
      if Load(mem, symtab + 16 * symIdx + 12) % 0x1_0000 == 0 && symIdx != 0 {
        symVal := FindSymbol(name);
      }
      match info % 0x100
      case 21 => mem := mem[Index(base + offset) := symVal];
      case 22 => mem := mem[Index(base + offset) := symVal];
      case 2 => mem := mem[Index(base + offset) := symVal];
      case _ =>
    }

    /** wafel_link_plugin. */
    method LinkPlugin(base: U32)
      requires PluginDynamic(mem, base) != 0 ==> Terminated(mem, PluginDynamic(mem, base))
      requires LookupsEnd(mem, texts, elfs, base)
      modifies `mem
      ensures mem == Linked(old(mem), texts, elfs, base)
    {
      hide Index, Entries, Pointer, RelSize, RelSizes, Terminated, PluginDynamic, LinkFrom, LinkPrefix, Searchable;
      var dyn := GetPluginDynamic(base);
      if dyn == 0 {
        return;
      }
      var rel: U32, symtab: U32, strtab: U32, relsz: U32 := 0, 0, 0, 0;
      var d: nat := dyn;
      ghost var done: seq<(U32, U32)> := [];
      ScanStart(base);
      while Load(mem, d) != 0
        invariant Terminated(mem, d) && done + Entries(mem, d) == Entries(mem, dyn)
        invariant symtab == Pointer(done, base, DT_SYMTAB, DT_SYMTAB)
        invariant strtab == Pointer(done, base, DT_STRTAB, DT_STRTAB)
        invariant rel == Pointer(done, base, DT_REL, DT_JMPREL) && relsz == RelSizes(done) && mem == old(mem)
        decreases TWO32 - d
      {
        var tag, val := Load(mem, d), Load(mem, d + 4);
        EntriesStep(mem, d, done, base);
        ScanStep(done, (tag, val), base, DT_SYMTAB, DT_SYMTAB);
        ScanStep(done, (tag, val), base, DT_STRTAB, DT_STRTAB);
        ScanStep(done, (tag, val), base, DT_REL, DT_JMPREL);
        if tag == 6 {
          symtab := Wrap32(base + val);
        } else if tag == 5 {
          strtab := Wrap32(base + val);
        } else if tag == 17 || tag == 23 {
          rel := Wrap32(base + val);
        } else if tag == 18 || tag == 2 {
          relsz := Wrap32(relsz + val / 8);
        }
        done := done + [(tag, val)];
        d := d + 8;
        InRange(mem, d);
      }
      EntriesStep(mem, d, done, base);
      if rel == 0 {
        return;
      }
      LinkEntries(base, symtab, strtab, rel, relsz);
    }

    /** Its second loop. */
    method LinkEntries(base: U32, symtab: U32, strtab: U32, rel: U32, relsz: U32)
      requires forall k :: 0 <= k < relsz ==>
        LookupEnds(LinkPrefix(mem, texts, elfs, base, symtab, strtab, rel, k), elfs, symtab, rel, k)
      modifies `mem
      ensures mem == LinkFrom(old(mem), texts, elfs, base, symtab, strtab, rel, 0, relsz)
    {
      hide Index, Searchable, Resolved, Slot, LooksUp;
      var left: nat, k := relsz, 0;
      while left > 0
        invariant left + k == relsz && mem == LinkPrefix(old(mem), texts, elfs, base, symtab, strtab, rel, k)
        invariant LinkFrom(mem, texts, elfs, base, symtab, strtab, rel, k, relsz)
               == LinkFrom(old(mem), texts, elfs, base, symtab, strtab, rel, 0, relsz)
      {
        assert LookupEnds(mem, elfs, symtab, rel, k);
        LinkEntry(base, symtab, strtab, Load(mem, rel + 8 * k), Load(mem, rel + 8 * k + 4));
        left := left - 1;
        k := k + 1;
      }
    }
  }

  lemma ScanStart(base: U32)
    ensures RelSize([]) == 0 && RelSizes([]) == 0 && forall t, u :: Pointer([], base, t, u) == 0
  {
  }

  lemma InRange(m: Memory, d: nat)
    requires Terminated(m, d)
    ensures d + 8 <= TWO32
  {
  }
}
