/** The IOS program header table of wafel_core/source/ios_dynamic.c: a flat memory with the
    headers at its start and the notes blob directly behind them. */
module IosElf {
  import opened Words

  const BASE: U32 := 0x1D00_0000
  const PHDR_SIZE := 32

  const SEG_PHDRS := 0
  const SEG_NOTES := 1
  const SEG_ELFINFO := 2

  datatype Phdr = Phdr(ptype: U32, offset: U32, vaddr: U32, paddr: U32,
                       filesz: U32, memsz: U32, flags: U32, align: U32)

  // ----- address translation -----

  /** The upper end belongs to the segment. */
  predicate Covers(p: Phdr, addr: U32) {
    p.vaddr <= addr <= Wrap32(p.vaddr + p.memsz)
  }

  function TranslateFrom(t: seq<Phdr>, addr: U32, k: nat): U32
    decreases |t| - k
  {
    if k >= |t| then addr
    else if Covers(t[k], addr) then Wrap32(addr - t[k].vaddr + t[k].paddr)
    else TranslateFrom(t, addr, k + 1)
  }

  /** The first segment from ELFINFO on that covers the address decides; without one the
      address is returned as it is. */
  function Translate(t: seq<Phdr>, addr: U32): U32 {
    TranslateFrom(t, addr, SEG_ELFINFO)
  }

  lemma {:induction false} TranslateFirstMatch(t: seq<Phdr>, addr: U32, k: nat, hit: nat)
    requires k <= hit <= |t|
    requires forall j :: k <= j < hit ==> !Covers(t[j], addr)
    requires hit < |t| ==> Covers(t[hit], addr)
    ensures TranslateFrom(t, addr, k) ==
      if hit < |t| then Wrap32(addr - t[hit].vaddr + t[hit].paddr) else addr
    decreases hit - k
  {
    if k < hit {
      TranslateFirstMatch(t, addr, k + 1, hit);
    }
  }

  // ----- insertion -----

  function InsertIndexFrom(t: seq<Phdr>, addr: U32, k: nat): (i: nat)
    requires k <= |t|
    ensures k <= i <= |t|
    ensures forall j :: k <= j < i ==> t[j].vaddr <= addr
    ensures i < |t| ==> addr < t[i].vaddr
    decreases |t| - k
  {
    if k >= |t| || addr < t[k].vaddr then k else InsertIndexFrom(t, addr, k + 1)
  }

  /** Where a new header for addr goes. */
  function InsertIndex(t: seq<Phdr>, addr: U32): nat
    requires |t| >= 3
  {
    InsertIndexFrom(t, addr, SEG_ELFINFO)
  }

  /** The bookkeeping: one more header, the notes 32 bytes further, ELFINFO's file part grown. */
  function Bumped(t: seq<Phdr>): (b: seq<Phdr>)
    requires |t| >= 3
    ensures |b| == |t|
  {
    t[SEG_PHDRS := t[0].(memsz := Wrap32(t[0].memsz + PHDR_SIZE), filesz := Wrap32(t[0].filesz + PHDR_SIZE))]
     [SEG_NOTES := t[1].(vaddr := Wrap32(t[1].vaddr + PHDR_SIZE), paddr := Wrap32(t[1].paddr + PHDR_SIZE))]
     [SEG_ELFINFO := t[2].(filesz := Wrap32(t[2].filesz + PHDR_SIZE))]
  }

  /** The table with a header put in at i. The bookkeeping touches positions 0, 1 and 2 after
      the shift, so with i == 2 the last of its changes falls on the new header's slot. */
  function Inserted(t: seq<Phdr>, i: nat, p: Phdr): (t': seq<Phdr>)
    requires |t| >= 3 && 2 <= i <= |t|
    ensures |t'| == |t| + 1
  {
    Bumped(t)[..i] + [p] + t[i..]
  }

  /** ELFINFO itself gets its bump exactly when the new header goes in above it. */
  lemma ElfInfoBumpExactly(t: seq<Phdr>, addr: U32, p: Phdr)
    requires |t| >= 3
    ensures var t' := Inserted(t, InsertIndex(t, addr), p);
      && (t[2].vaddr <= addr ==> t'[2] == t[2].(filesz := Wrap32(t[2].filesz + PHDR_SIZE)))
      && (addr < t[2].vaddr ==> t'[3] == t[2])
  {
    var i := InsertIndex(t, addr);
    var t' := Inserted(t, i, p);
    assert i == 2 <==> addr < t[2].vaddr;
    assert i > 2 ==> t'[2] == Bumped(t)[2];
  }

  /** A filled new slot changes no translation outside its own range. */
  lemma InsertKeepsTranslation(t: seq<Phdr>, i: nat, p: Phdr, addr: U32)
    requires |t| >= 3 && 2 <= i <= |t| && !Covers(p, addr)
    ensures Translate(Inserted(t, i, p), addr) == Translate(t, addr)
  {
    InsertKeepsTranslationFrom(t, i, p, addr, 2);
  }

  lemma {:induction false} InsertKeepsTranslationFrom(t: seq<Phdr>, i: nat, p: Phdr, addr: U32, k: nat)
    requires |t| >= 3 && 2 <= i <= |t| && !Covers(p, addr)
    requires 2 <= k <= |t|
    ensures TranslateFrom(Inserted(t, i, p), addr, if k < i then k else k + 1) == TranslateFrom(t, addr, k)
    ensures k == i ==> TranslateFrom(Inserted(t, i, p), addr, k) == TranslateFrom(t, addr, k)
    decreases |t| - k
  {
    var t' := Inserted(t, i, p);
    if k < |t| {
      InsertKeepsTranslationFrom(t, i, p, addr, k + 1);
      assert t'[if k < i then k else k + 1].(filesz := 0) == t[k].(filesz := 0);
    }
    if k == i {
      assert t'[i] == p;
    }
  }

  /** Inside its range, an address no earlier segment covers goes where the new header says. */
  lemma InsertTakesEffect(t: seq<Phdr>, i: nat, p: Phdr, addr: U32)
    requires |t| >= 3 && 2 <= i <= |t| && Covers(p, addr)
    requires forall j :: 2 <= j < i ==> !Covers(t[j], addr)
    ensures Translate(Inserted(t, i, p), addr) == Wrap32(addr - p.vaddr + p.paddr)
  {
    var t' := Inserted(t, i, p);
    forall j | 2 <= j < i
      ensures !Covers(t'[j], addr)
    {
      assert t'[j].(filesz := 0) == t[j].(filesz := 0);
    }
    TranslateFirstMatch(t', addr, 2, i);
  }

  /** A run of insertions, each filled with its header. */
  function InsertAll(t: seq<Phdr>, ops: seq<(U32, Phdr)>): (t': seq<Phdr>)
    requires |t| >= 3
    ensures |t'| == |t| + |ops|
    decreases |ops|
  {
    if ops == [] then t
    else InsertAll(Inserted(t, InsertIndex(t, ops[0].0), ops[0].1), ops[1..])
  }

  lemma {:induction false} RunKeepsTranslation(t: seq<Phdr>, ops: seq<(U32, Phdr)>, addr: U32)
    requires |t| >= 3
    requires forall k :: 0 <= k < |ops| ==> !Covers(ops[k].1, addr)
    ensures Translate(InsertAll(t, ops), addr) == Translate(t, addr)
    decreases |ops|
  {
    if ops != [] {
      var i := InsertIndex(t, ops[0].0);
      InsertKeepsTranslation(t, i, ops[0].1, addr);
      RunKeepsTranslation(Inserted(t, i, ops[0].1), ops[1..], addr);
    }
  }

  // ----- the notes -----

  const AT_ENTRY := 9
  const AT_UID := 11
  const UID_INVALID: U32 := 0xFFFF_FFFF

  datatype Auxv = Auxv(atype: U32, val: U32)

  /** The owner of entry k: the last uid named at or before it. */
  function UidAt(es: seq<Auxv>, k: int): U32
    requires -1 <= k < |es|
    decreases k + 1
  {
    if k < 0 then UID_INVALID
    else if es[k].atype == AT_UID then es[k].val
    else UidAt(es, k - 1)
  }

  /** The first entry point that belongs to uid, 0 if there is none. */
  ghost predicate IsEntrypoint(es: seq<Auxv>, uid: U32, r: U32) {
    || (exists k :: 0 <= k < |es| && es[k].atype == AT_ENTRY && UidAt(es, k) == uid && r == es[k].val
         && forall j :: 0 <= j < k ==> !(es[j].atype == AT_ENTRY && UidAt(es, j) == uid))
    || (r == 0 && forall j :: 0 <= j < |es| ==> !(es[j].atype == AT_ENTRY && UidAt(es, j) == uid))
  }

  /** The answer depends on the entries alone, so keeping the notes keeps every answer. */
  lemma EntrypointUnique(es: seq<Auxv>, uid: U32, r: U32, r': U32)
    requires IsEntrypoint(es, uid, r) && IsEntrypoint(es, uid, r')
    ensures r == r'
  {
  }

  // ----- the flat memory -----

  /** Four bytes as the big-endian processor reads them. */
  function BeWord(s: seq<Byte>): U32
    requires |s| == 4
  {
    WordOfBytes(s[0], s[1], s[2], s[3])
  }

  function BeBytes(w: U32): (s: seq<Byte>)
    ensures |s| == 4
  {
    [ByteOfWord(w, 0), ByteOfWord(w, 1), ByteOfWord(w, 2), ByteOfWord(w, 3)]
  }

  lemma BeRoundTrip(w: U32)
    ensures BeWord(BeBytes(w)) == w
  {
    hide ByteOfWord, WordOfBytes;
    WordThereAndBack(w);
  }

  lemma SubSlice<T>(s: seq<T>, lo: nat, hi: nat, i: nat, j: nat)
    requires lo <= hi <= |s| && i <= j <= hi - lo
    ensures s[lo..hi][i..j] == s[lo + i..lo + j]
  {
    forall k | 0 <= k < j - i
      ensures s[lo..hi][i..j][k] == s[lo + i..lo + j][k]
    {
      assert s[lo..hi][i + k] == s[lo + (i + k)];
    }
  }

  function ReadWord(b: seq<Byte>, at: nat): U32
    requires at + 4 <= |b|
  {
    BeWord(b[at..at + 4])
  }

  function PhdrOf(s: seq<Byte>): Phdr
    requires |s| == 32
  {
    Phdr(ReadWord(s, 0), ReadWord(s, 4), ReadWord(s, 8), ReadWord(s, 12),
         ReadWord(s, 16), ReadWord(s, 20), ReadWord(s, 24), ReadWord(s, 28))
  }

  /** The bytes of header k. */
  function Entry(b: seq<Byte>, k: nat): (s: seq<Byte>)
    requires 32 * k + 32 <= |b|
    ensures |s| == 32
  {
    b[32 * k..32 * k + 32]
  }

  function TableOf(b: seq<Byte>, n: nat): (t: seq<Phdr>)
    requires 32 * n <= |b|
    ensures |t| == n
  {
    seq(n, i requires 0 <= i < n => PhdrOf(Entry(b, i)))
  }

  /** Word f of a header. */
  function Field(p: Phdr, f: nat): U32
    requires f < 8
  {
    match f
    case 0 => p.ptype case 1 => p.offset case 2 => p.vaddr case 3 => p.paddr
    case 4 => p.filesz case 5 => p.memsz case 6 => p.flags case _ => p.align
  }

  function WithField(p: Phdr, f: nat, v: U32): Phdr
    requires f < 8
  {
    match f
    case 0 => p.(ptype := v) case 1 => p.(offset := v) case 2 => p.(vaddr := v) case 3 => p.(paddr := v)
    case 4 => p.(filesz := v) case 5 => p.(memsz := v) case 6 => p.(flags := v) case _ => p.(align := v)
  }

  lemma FieldRead(b: seq<Byte>, k: nat, f: nat)
    requires 32 * k + 32 <= |b| && f < 8
    ensures ReadWord(b, 32 * k + 4 * f) == Field(PhdrOf(Entry(b, k)), f)
  {
    SubSlice(b, 32 * k, 32 * k + 32, 4 * f, 4 * f + 4);
  }

  /** The memory after a word store. */
  function WithWord(b: seq<Byte>, at: nat, v: U32): (b': seq<Byte>)
    requires at + 4 <= |b|
    ensures |b'| == |b|
  {
    b[..at] + BeBytes(v) + b[at + 4..]
  }

  lemma WithWordElsewhere(b: seq<Byte>, at: nat, v: U32, lo: nat, hi: nat)
    requires at + 4 <= |b| && lo <= hi <= |b| && (hi <= at || at + 4 <= lo)
    ensures WithWord(b, at, v)[lo..hi] == b[lo..hi]
  {
    hide BeBytes;
    forall x | 0 <= x < hi - lo
      ensures WithWord(b, at, v)[lo..hi][x] == b[lo..hi][x]
    {
      WithWordAt(b, at, v, lo + x);
    }
  }

  lemma WithWordAt(b: seq<Byte>, at: nat, v: U32, x: nat)
    requires at + 4 <= |b| && x < |b|
    ensures WithWord(b, at, v)[x] == if at <= x < at + 4 then BeBytes(v)[x - at] else b[x]
  {
    hide BeBytes;
  }

  lemma WithWordItself(b: seq<Byte>, at: nat, v: U32)
    requires at + 4 <= |b|
    ensures WithWord(b, at, v)[at..at + 4] == BeBytes(v)
  {
    hide BeBytes;
    var here := WithWord(b, at, v)[at..at + 4];
    forall x | 0 <= x < 4
      ensures here[x] == BeBytes(v)[x]
    {
      WithWordAt(b, at, v, at + x);
    }
  }

  /** Storing word f of header k changes that field of that header. */
  lemma FieldWritten(b: seq<Byte>, k: nat, f: nat, v: U32)
    requires 32 * k + 32 <= |b| && f < 8
    ensures PhdrOf(Entry(WithWord(b, 32 * k + 4 * f, v), k)) == WithField(PhdrOf(Entry(b, k)), f, v)
  {
    hide BeBytes, BeWord, WithWord;
    var b' := WithWord(b, 32 * k + 4 * f, v);
    var e, e' := Entry(b, k), Entry(b', k);
    BeRoundTrip(v);
    forall g | 0 <= g < 8
      ensures ReadWord(e', 4 * g) == if g == f then v else ReadWord(e, 4 * g)
    {
      SubSlice(b, 32 * k, 32 * k + 32, 4 * g, 4 * g + 4);
      SubSlice(b', 32 * k, 32 * k + 32, 4 * g, 4 * g + 4);
      var at := 32 * k + 4 * g;
      if g == f {
        WithWordItself(b, at, v);
      } else {
        WithWordElsewhere(b, 32 * k + 4 * f, v, at, at + 4);
      }
    }
    assert ReadWord(e', 4 * 0) == ReadWord(e', 0) && ReadWord(e', 4 * 1) == ReadWord(e', 4);
    assert ReadWord(e', 4 * 2) == ReadWord(e', 8) && ReadWord(e', 4 * 3) == ReadWord(e', 12);
    assert ReadWord(e', 4 * 4) == ReadWord(e', 16) && ReadWord(e', 4 * 5) == ReadWord(e', 20);
    assert ReadWord(e', 4 * 6) == ReadWord(e', 24) && ReadWord(e', 4 * 7) == ReadWord(e', 28);
  }

  // ----- the table in memory -----

  /** What memmove leaves: n bytes from src at dst, the rest as it was. */
  function Moved(b: seq<Byte>, dst: nat, src: nat, n: nat): (b': seq<Byte>)
    requires dst + n <= |b| && src + n <= |b|
    ensures |b'| == |b|
  {
    b[..dst] + b[src..src + n] + b[dst + n..]
  }

  lemma MovedAt(b: seq<Byte>, dst: nat, src: nat, n: nat, x: nat)
    requires dst + n <= |b| && src + n <= |b| && x < |b|
    ensures Moved(b, dst, src, n)[x] == if dst <= x < dst + n then b[src + (x - dst)] else b[x]
  {
  }

  /** One more byte at the end of the moved part, read before it is overwritten. */
  lemma MovedGrowsUp(b: seq<Byte>, dst: nat, src: nat, k: nat)
    requires dst <= src && src + k < |b|
    ensures Moved(b, dst, src, k)[src + k] == b[src + k]
    ensures Moved(b, dst, src, k)[dst + k := b[src + k]] == Moved(b, dst, src, k + 1)
  {
    MovedAt(b, dst, src, k, src + k);
    var m, m' := Moved(b, dst, src, k)[dst + k := b[src + k]], Moved(b, dst, src, k + 1);
    forall x | 0 <= x < |b|
      ensures m[x] == m'[x]
    {
      MovedAt(b, dst, src, k, x);
      MovedAt(b, dst, src, k + 1, x);
    }
  }

  /** One more byte at its front. */
  lemma MovedGrowsDown(b: seq<Byte>, dst: nat, src: nat, k: nat)
    requires src <= dst && dst + 1 + k <= |b|
    ensures Moved(b, dst + 1, src + 1, k)[src] == b[src]
    ensures Moved(b, dst + 1, src + 1, k)[dst := b[src]] == Moved(b, dst, src, k + 1)
  {
    MovedAt(b, dst + 1, src + 1, k, src);
    var m, m' := Moved(b, dst + 1, src + 1, k)[dst := b[src]], Moved(b, dst, src, k + 1);
    forall x | 0 <= x < |b|
      ensures m[x] == m'[x]
    {
      MovedAt(b, dst + 1, src + 1, k, x);
      MovedAt(b, dst, src, k + 1, x);
    }
  }

  method MoveForward(mem: array<Byte>, dst: nat, src: nat, n: nat)
    requires dst <= src && src + n <= mem.Length
    modifies mem
    ensures mem[..] == Moved(old(mem[..]), dst, src, n)
  {
    ghost var b := mem[..];
    MovedNone(b, dst, src);
    hide Moved;
    for k := 0 to n
      invariant mem[..] == Moved(b, dst, src, k)
    {
      MovedGrowsUp(b, dst, src, k);
      ghost var before: seq<Byte> := mem[..];
      mem[dst + k] := mem[src + k];
      assert mem[..] == before[dst + k := before[src + k]];
    }
  }

  lemma MovedNone(b: seq<Byte>, dst: nat, src: nat)
    requires dst <= |b| && src <= |b|
    ensures Moved(b, dst, src, 0) == b
  {
  }

  lemma MovedBackStep(b: seq<Byte>, c: seq<Byte>, c': seq<Byte>, dst: nat, src: nat, n: nat, k: nat)
    requires src <= dst && dst + n <= |b| && k < n
    requires c == Moved(b, dst + n - k, src + n - k, k)
    requires c' == c[dst + n - k - 1 := c[src + n - k - 1]]
    ensures c' == Moved(b, dst + n - (k + 1), src + n - (k + 1), k + 1)
  {
    hide Moved;
    MovedGrowsDown(b, dst + n - k - 1, src + n - k - 1, k);
  }

  method MoveBackward(mem: array<Byte>, dst: nat, src: nat, n: nat)
    requires src <= dst && dst + n <= mem.Length
    modifies mem
    ensures mem[..] == Moved(old(mem[..]), dst, src, n)
  {
    ghost var b := mem[..];
    MovedNone(b, dst + n, src + n);
    hide Moved;
    for k := 0 to n
      invariant mem[..] == Moved(b, dst + n - k, src + n - k, k)
    {
      ghost var before: seq<Byte> := mem[..];
      mem[dst + n - k - 1] := mem[src + n - k - 1];
      assert mem[..] == before[dst + n - k - 1 := before[src + n - k - 1]];
      MovedBackStep(b, before, mem[..], dst, src, n, k);
    }
  }

  /** memmove, in the direction that survives an overlap. */
  method MemMove(mem: array<Byte>, dst: nat, src: nat, n: nat)
    requires dst + n <= mem.Length && src + n <= mem.Length
    modifies mem
    ensures mem[..] == Moved(old(mem[..]), dst, src, n)
  {
    if dst <= src {
      MoveForward(mem, dst, src, n);
    } else {
      MoveBackward(mem, dst, src, n);
    }
  }

  lemma MovedElsewhere(b: seq<Byte>, dst: nat, src: nat, n: nat, lo: nat, hi: nat)
    requires dst + n <= |b| && src + n <= |b| && lo <= hi <= |b| && (hi <= dst || dst + n <= lo)
    ensures Moved(b, dst, src, n)[lo..hi] == b[lo..hi]
  {
    forall x | 0 <= x < hi - lo
      ensures Moved(b, dst, src, n)[lo..hi][x] == b[lo..hi][x]
    {
      MovedAt(b, dst, src, n, lo + x);
    }
  }

  lemma MovedPart(b: seq<Byte>, dst: nat, src: nat, n: nat, lo: nat, hi: nat)
    requires dst + n <= |b| && src + n <= |b| && lo <= hi <= n
    ensures Moved(b, dst, src, n)[dst + lo..dst + hi] == b[src + lo..src + hi]
  {
    var here, there := Moved(b, dst, src, n)[dst + lo..dst + hi], b[src + lo..src + hi];
    forall x | 0 <= x < hi - lo
      ensures here[x] == there[x]
    {
      MovedAt(b, dst, src, n, dst + lo + x);
    }
  }

  /** *p += 32 on word f of header k. */
  method AddPhdrSize(mem: array<Byte>, k: nat, f: nat)
    requires 32 * k + 32 <= mem.Length && f < 8
    modifies mem
    ensures mem[..] == AddedSize(old(mem[..]), k, f)
  {
    hide BeBytes, BeWord, WithField, PhdrOf, WithWord, Field;
    ghost var b: seq<Byte> := mem[..];
    var at := 32 * k + 4 * f;
    FieldRead(b, k, f);
    var v := BeWord(mem[at..at + 4]);
    assert b[at..at + 4] == mem[at..at + 4];
    var bytes := BeBytes(Wrap32(v + 32));
    mem[at], mem[at + 1], mem[at + 2], mem[at + 3] := bytes[0], bytes[1], bytes[2], bytes[3];
    WithWordIs(b, mem[..], at, Wrap32(v + PHDR_SIZE));
  }

  function AddedSize(b: seq<Byte>, k: nat, f: nat): (b': seq<Byte>)
    requires 32 * k + 32 <= |b| && f < 8
    ensures |b'| == |b|
  {
    WithWord(b, 32 * k + 4 * f, Wrap32(Field(PhdrOf(Entry(b, k)), f) + PHDR_SIZE))
  }

  /** What the region holds: the header count is read off header 0, the notes' place and size
      off header 1. */
  function Count(b: seq<Byte>): nat
    requires |b| >= 96
  {
    PhdrOf(Entry(b, SEG_PHDRS)).memsz / PHDR_SIZE
  }

  function NotesSize(b: seq<Byte>): nat
    requires |b| >= 96
  {
    PhdrOf(Entry(b, SEG_NOTES)).memsz
  }

  /** The notes blob sits directly behind the headers, and both are inside the region. */
  ghost predicate Layout(b: seq<Byte>) {
    && 96 <= |b| < TWO32 - BASE
    && Count(b) >= 3
    && PhdrOf(Entry(b, SEG_NOTES)).vaddr == BASE + 32 * Count(b)
    && 32 * Count(b) + NotesSize(b) <= |b|
  }

  function Notes(b: seq<Byte>): seq<Byte>
    requires |b| >= 96 && 32 * Count(b) + NotesSize(b) <= |b|
  {
    b[32 * Count(b)..32 * Count(b) + NotesSize(b)]
  }

  /** The memory after the notes have made room and the headers from i on have moved up. */
  function WithSlot(b: seq<Byte>, i: nat): (b': seq<Byte>)
    requires Layout(b) && 2 <= i <= Count(b) && 32 * Count(b) + NotesSize(b) + 32 <= |b|
    ensures |b'| == |b|
  {
    var n := Count(b);
    var b1 := Moved(b, 32 * n + 32, 32 * n, NotesSize(b));
    var b2 := AddedSize(AddedSize(b1, 1, 2), 1, 3);
    Moved(b2, 32 * i + 32, 32 * i, 32 * (n - i))
  }

  /** The memory after all of ios_elf_add_phdr. */
  function AfterAdd(b: seq<Byte>, i: nat): (b': seq<Byte>)
    requires Layout(b) && 2 <= i <= Count(b) && 32 * Count(b) + NotesSize(b) + 32 <= |b|
    ensures |b'| == |b|
  {
    AddedSize(AddedSize(AddedSize(WithSlot(b, i), 0, 5), 0, 4), 2, 4)
  }

  lemma AddedSizeTable(b: seq<Byte>, k: nat, f: nat, m: nat)
    requires k < m && 32 * m <= |b| && f < 8
    ensures TableOf(AddedSize(b, k, f), m) ==
      TableOf(b, m)[k := WithField(TableOf(b, m)[k], f, Wrap32(Field(TableOf(b, m)[k], f) + PHDR_SIZE))]
  {
    hide BeBytes, BeWord, WithField, PhdrOf, WithWord, Field;
    var v := Wrap32(Field(PhdrOf(Entry(b, k)), f) + PHDR_SIZE);
    FieldWritten(b, k, f, v);
    forall j | 0 <= j < m && j != k
      ensures Entry(AddedSize(b, k, f), j) == Entry(b, j)
    {
      WithWordElsewhere(b, 32 * k + 4 * f, v, 32 * j, 32 * j + 32);
    }
  }

  lemma AddedSizeTail(b: seq<Byte>, k: nat, f: nat, lo: nat, hi: nat)
    requires 32 * k + 32 <= lo <= hi <= |b| && f < 8
    ensures AddedSize(b, k, f)[lo..hi] == b[lo..hi]
  {
    WithWordElsewhere(b, 32 * k + 4 * f, Wrap32(Field(PhdrOf(Entry(b, k)), f) + PHDR_SIZE), lo, hi);
  }

  lemma MovedBehindTable(b: seq<Byte>, dst: nat, src: nat, n: nat, m: nat)
    requires dst + n <= |b| && src + n <= |b| && 32 * m <= dst
    ensures TableOf(Moved(b, dst, src, n), m) == TableOf(b, m)
  {
    hide Moved, PhdrOf;
    forall j | 0 <= j < m
      ensures Entry(Moved(b, dst, src, n), j) == Entry(b, j)
    {
      MovedElsewhere(b, dst, src, n, 32 * j, 32 * j + 32);
    }
  }

  /** Moving the headers from i on by one header opens a slot at i. */
  lemma MovedHeaders(b: seq<Byte>, i: nat, n: nat)
    requires i <= n && 32 * n + 32 <= |b|
    ensures var b' := Moved(b, 32 * i + 32, 32 * i, 32 * (n - i));
      TableOf(b', n + 1) == TableOf(b, n)[..i] + [PhdrOf(Entry(b', i))] + TableOf(b, n)[i..]
  {
    hide Moved, PhdrOf;
    var b' := Moved(b, 32 * i + 32, 32 * i, 32 * (n - i));
    forall j | 0 <= j < n
      ensures j < i ==> Entry(b', j) == Entry(b, j)
      ensures j >= i ==> Entry(b', j + 1) == Entry(b, j)
    {
      if j < i {
        MovedElsewhere(b, 32 * i + 32, 32 * i, 32 * (n - i), 32 * j, 32 * j + 32);
      } else {
        MovedPart(b, 32 * i + 32, 32 * i, 32 * (n - i), 32 * (j - i), 32 * (j - i) + 32);
        assert 32 * i + 32 + 32 * (j - i) == 32 * (j + 1) && 32 * i + 32 * (j - i) == 32 * j;
      }
    }
    var t, t' := TableOf(b, n), TableOf(b', n + 1);
    var u := t[..i] + [PhdrOf(Entry(b', i))] + t[i..];
    forall k | 0 <= k < n + 1
      ensures t'[k] == u[k]
    {
      if k < i {
        assert Entry(b', k) == Entry(b, k);
      } else if k > i {
        var j := k - 1;
        assert Entry(b', j + 1) == Entry(b, j);
      }
    }
  }

  /** The three size updates, on the table and on what lies behind it. */
  lemma AddSizes(b: seq<Byte>, n: nat, s: nat)
    requires n >= 3 && 32 * n + 32 + s <= |b|
    ensures var b', t := AddedSize(AddedSize(AddedSize(b, 0, 5), 0, 4), 2, 4), TableOf(b, n + 1);
      && b'[32 * n + 32..32 * n + 32 + s] == b[32 * n + 32..32 * n + 32 + s]
      && TableOf(b', n + 1) ==
          t[0 := t[0].(memsz := Wrap32(t[0].memsz + PHDR_SIZE), filesz := Wrap32(t[0].filesz + PHDR_SIZE))]
           [2 := t[2].(filesz := Wrap32(t[2].filesz + PHDR_SIZE))]
  {
    hide PhdrOf, AddedSize;
    var c1 := AddedSize(b, 0, 5);
    AddedSizeTable(b, 0, 5, n + 1);
    AddedSizeTail(b, 0, 5, 32 * n + 32, 32 * n + 32 + s);
    var c2 := AddedSize(c1, 0, 4);
    AddedSizeTable(c1, 0, 4, n + 1);
    AddedSizeTail(c1, 0, 4, 32 * n + 32, 32 * n + 32 + s);
    AddedSizeTable(c2, 2, 4, n + 1);
    AddedSizeTail(c2, 2, 4, 32 * n + 32, 32 * n + 32 + s);
  }

  /** Up to the second memmove: the notes have moved, the slot is open. */
  lemma SlotOpened(b: seq<Byte>, i: nat)
    requires Layout(b) && 2 <= i <= Count(b) && 32 * Count(b) + NotesSize(b) + 32 <= |b|
    ensures var b3, n, t := WithSlot(b, i), Count(b), TableOf(b, Count(b));
      && b3[32 * n + 32..32 * n + 32 + NotesSize(b)] == Notes(b)
      && TableOf(b3, n + 1) == NotesBumped(t)[..i] + [PhdrOf(Entry(b3, i))] + NotesBumped(t)[i..]
  {
    hide Moved, PhdrOf, AddedSize;
    var n, s := Count(b), NotesSize(b);
    var b1 := Moved(b, 32 * n + 32, 32 * n, s);
    MovedBehindTable(b, 32 * n + 32, 32 * n, s, n);
    MovedPart(b, 32 * n + 32, 32 * n, s, 0, s);
    var b2a := AddedSize(b1, 1, 2);
    AddedSizeTable(b1, 1, 2, n);
    AddedSizeTail(b1, 1, 2, 32 * n + 32, 32 * n + 32 + s);
    var b2 := AddedSize(b2a, 1, 3);
    AddedSizeTable(b2a, 1, 3, n);
    AddedSizeTail(b2a, 1, 3, 32 * n + 32, 32 * n + 32 + s);
    assert TableOf(b2, n) == NotesBumped(TableOf(b, n));
    MovedHeaders(b2, i, n);
    MovedElsewhere(b2, 32 * i + 32, 32 * i, 32 * (n - i), 32 * n + 32, 32 * n + 32 + s);
  }

  function NotesBumped(t: seq<Phdr>): (b: seq<Phdr>)
    requires |t| >= 3
    ensures |b| == |t|
  {
    t[SEG_NOTES := t[1].(vaddr := Wrap32(t[1].vaddr + PHDR_SIZE), paddr := Wrap32(t[1].paddr + PHDR_SIZE))]
  }

  lemma InsertedHeads(t: seq<Phdr>, i: nat, p: Phdr)
    requires |t| >= 3 && 2 <= i <= |t|
    ensures var t' := Inserted(t, i, p);
      && t'[0].memsz == Wrap32(t[0].memsz + PHDR_SIZE)
      && t'[1].vaddr == Wrap32(t[1].vaddr + PHDR_SIZE) && t'[1].memsz == t[1].memsz
  {
  }

  lemma SizesCompleteInsertion(t: seq<Phdr>, i: nat, x: Phdr, u: seq<Phdr>, t': seq<Phdr>)
    requires |t| >= 3 && 2 <= i <= |t|
    requires u == NotesBumped(t)[..i] + [x] + NotesBumped(t)[i..]
    requires t' == u[0 := u[0].(memsz := Wrap32(u[0].memsz + PHDR_SIZE), filesz := Wrap32(u[0].filesz + PHDR_SIZE))]
                    [2 := u[2].(filesz := Wrap32(u[2].filesz + PHDR_SIZE))]
    ensures t' == Inserted(t, i, t'[i])
  {
  }

  /** What ios_elf_add_phdr achieves: the abstract insertion, with the notes blob intact and
      still directly behind the headers. */
  lemma AddMeaning(b: seq<Byte>, i: nat)
    requires Layout(b) && 2 <= i <= Count(b) && 32 * Count(b) + NotesSize(b) + 32 <= |b|
    ensures var b' := AfterAdd(b, i);
      && Layout(b') && Count(b') == Count(b) + 1 && Notes(b') == Notes(b)
      && TableOf(b', Count(b) + 1) == Inserted(TableOf(b, Count(b)), i, PhdrOf(Entry(b', i)))
  {
    hide PhdrOf, AddedSize, WithSlot, Inserted, NotesBumped;
    var n, s, t := Count(b), NotesSize(b), TableOf(b, Count(b));
    var b3, b' := WithSlot(b, i), AfterAdd(b, i);
    SlotOpened(b, i);
    AddSizes(b3, n, s);
    var t' := TableOf(b', n + 1);
    SizesCompleteInsertion(t, i, PhdrOf(Entry(b3, i)), TableOf(b3, n + 1), t');
    assert t'[i] == PhdrOf(Entry(b', i));
    InsertedLayout(b, b', i);
  }

  /** Where the table is the inserted one, headers 0 and 1 say so: one header more, the notes
      one header further. */
  lemma InsertedLayout(b: seq<Byte>, b': seq<Byte>, i: nat)
    requires Layout(b) && |b'| == |b| && 2 <= i <= Count(b) && 32 * Count(b) + NotesSize(b) + 32 <= |b|
    requires TableOf(b', Count(b) + 1) == Inserted(TableOf(b, Count(b)), i, PhdrOf(Entry(b', i)))
    ensures Layout(b') && Count(b') == Count(b) + 1 && NotesSize(b') == NotesSize(b)
  {
    hide PhdrOf, Inserted;
    var t, t' := TableOf(b, Count(b)), TableOf(b', Count(b) + 1);
    InsertedHeads(t, i, PhdrOf(Entry(b', i)));
    assert t[0] == PhdrOf(Entry(b, 0)) && t[1] == PhdrOf(Entry(b, 1));
    assert t'[0] == PhdrOf(Entry(b', 0)) && t'[1] == PhdrOf(Entry(b', 1));
  }

  lemma WithWordIs(b: seq<Byte>, b': seq<Byte>, at: nat, v: U32)
    requires |b| == |b'| && at + 4 <= |b|
    requires b' == b[at := BeBytes(v)[0]][at + 1 := BeBytes(v)[1]][at + 2 := BeBytes(v)[2]][at + 3 := BeBytes(v)[3]]
    ensures b' == WithWord(b, at, v)
  {
    hide BeBytes;
  }

  /** A word stored in a slot from ELFINFO on touches that header only. */
  lemma StoreInSlot(b: seq<Byte>, i: nat, f: nat, v: U32)
    requires Layout(b) && 2 <= i < Count(b) && f < 8
    ensures var b' := WithWord(b, 32 * i + 4 * f, v);
      && Layout(b') && Count(b') == Count(b) && NotesSize(b') == NotesSize(b) && Notes(b') == Notes(b)
      && (forall j :: 0 <= j < Count(b) && j != i ==> Entry(b', j) == Entry(b, j))
      && PhdrOf(Entry(b', i)) == WithField(PhdrOf(Entry(b, i)), f, v)
  {
    hide PhdrOf, WithWord, WithField;
    var b' := WithWord(b, 32 * i + 4 * f, v);
    FieldWritten(b, i, f, v);
    forall j | 0 <= j < Count(b) && j != i
      ensures Entry(b', j) == Entry(b, j)
    {
      WithWordElsewhere(b, 32 * i + 4 * f, v, 32 * j, 32 * j + 32);
    }
    assert Entry(b', 0) == Entry(b, 0) && Entry(b', 1) == Entry(b, 1);
    WithWordElsewhere(b, 32 * i + 4 * f, v, 32 * Count(b), 32 * Count(b) + NotesSize(b));
  }

  lemma AllFields(p: Phdr, q: Phdr)
    requires forall g :: 0 <= g < 8 ==> Field(p, g) == Field(q, g)
    ensures p == q
  {
    assert Field(p, 0) == Field(q, 0) && Field(p, 1) == Field(q, 1) && Field(p, 2) == Field(q, 2);
    assert Field(p, 3) == Field(q, 3) && Field(p, 4) == Field(q, 4) && Field(p, 5) == Field(q, 5);
    assert Field(p, 6) == Field(q, 6) && Field(p, 7) == Field(q, 7);
  }

  lemma InsertedRefilled(t: seq<Phdr>, i: nat, x: Phdr, p: Phdr)
    requires |t| >= 3 && 2 <= i <= |t|
    ensures Inserted(t, i, x)[i := p] == Inserted(t, i, p)
  {
  }

  /** Only header i, from ELFINFO on, may have changed. */
  ghost predicate OnlySlotDiffers(b: seq<Byte>, c: seq<Byte>, i: nat) {
    && Layout(b) && Layout(c) && |c| == |b| && 2 <= i < Count(b)
    && Count(c) == Count(b) && NotesSize(c) == NotesSize(b) && Notes(c) == Notes(b)
    && forall j :: 0 <= j < Count(b) && j != i ==> Entry(c, j) == Entry(b, j)
  }

  lemma SlotStep(b: seq<Byte>, c: seq<Byte>, i: nat, f: nat, p: Phdr)
    requires OnlySlotDiffers(b, c, i) && f < 8
    requires forall g :: 0 <= g < f ==> Field(PhdrOf(Entry(c, i)), g) == Field(p, g)
    ensures var c' := WithWord(c, 32 * i + 4 * f, Field(p, f));
      OnlySlotDiffers(b, c', i) && forall g :: 0 <= g < f + 1 ==> Field(PhdrOf(Entry(c', i)), g) == Field(p, g)
  {
    hide PhdrOf, WithWord, Entry;
    StoreInSlot(c, i, f, Field(p, f));
  }

  /** The notes: a 12-byte note header, whose second word is the size of the entries. */
  ghost predicate NotesFit(notes: seq<Byte>) {
    |notes| >= 12 && 12 + BeWord(notes[4..8]) / 8 * 8 <= |notes|
  }

  function NoteEntries(notes: seq<Byte>): seq<Auxv>
    requires NotesFit(notes)
  {
    seq(BeWord(notes[4..8]) / 8, i requires 0 <= i < BeWord(notes[4..8]) / 8 =>
      Auxv(BeWord(notes[12 + 8 * i..12 + 8 * i + 4]), BeWord(notes[12 + 8 * i + 4..12 + 8 * i + 8])))
  }

  // ----- the code -----

  /** The region at 0x1D000000 and the functions that work on it. */
  class HeaderRegion {
    const mem: array<Byte>

    constructor (mem: array<Byte>)
      ensures this.mem == mem
    {
      this.mem := mem;
    }

    ghost predicate Valid()
      reads mem
    {
      Layout(mem[..])
    }

    ghost function Table(): (t: seq<Phdr>)
      requires Valid()
      reads mem
      ensures |t| >= 3
    {
      TableOf(mem[..], Count(mem[..]))
    }

    /** ios_elf_vaddr_to_paddr. */
    method VaddrToPaddr(addr: U32) returns (r: U32)
      requires Valid()
      ensures r == Translate(Table(), addr)
    {
      hide PhdrOf;
      ghost var b, t := mem[..], Table();
      assert b[0..32] == mem[0..32];
      var num := PhdrOf(mem[0..32]).memsz / 32;
      var i := 2;
      while i < num
        invariant 2 <= i <= num == |t|
        invariant TranslateFrom(t, addr, 2) == TranslateFrom(t, addr, i)
      {
        var p := PhdrOf(mem[32 * i..32 * i + 32]);
        assert b[32 * i..32 * i + 32] == mem[32 * i..32 * i + 32];
        assert p == t[i];
        if p.vaddr <= addr && addr <= Wrap32(p.vaddr + p.memsz) {
          return Wrap32(addr - p.vaddr + p.paddr);
        }
        i := i + 1;
      }
      return addr;
    }

    /** The search of ios_elf_add_phdr. */
    method FindSlot(addr: U32) returns (i: nat)
      requires Valid()
      ensures i == InsertIndex(Table(), addr) && 2 <= i <= |Table()|
    {
      hide PhdrOf;
      ghost var b, t := mem[..], Table();
      assert b[0..32] == mem[0..32];
      var num := PhdrOf(mem[0..32]).memsz / 32;
      i := 2;
      while i < num
        invariant 2 <= i <= num == |t|
        invariant InsertIndexFrom(t, addr, 2) == InsertIndexFrom(t, addr, i)
      {
        assert b[32 * i..32 * i + 32] == mem[32 * i..32 * i + 32];
        if addr < PhdrOf(mem[32 * i..32 * i + 32]).vaddr {
          return;
        }
        i := i + 1;
      }
    }

    /** ios_elf_add_phdr; r is the index of the slot the caller has to fill. */
    method AddPhdr(addr: U32) returns (r: nat)
      requires Valid() && 32 * Count(mem[..]) + NotesSize(mem[..]) + 32 <= mem.Length
      modifies mem
      ensures Valid() && |Table()| == |old(Table())| + 1
      ensures r == InsertIndex(old(Table()), addr) && 2 <= r <= |old(Table())|
      ensures Table() == Inserted(old(Table()), r, Table()[r])
      ensures Notes(mem[..]) == old(Notes(mem[..]))
    {
      hide Moved, AddedSize, PhdrOf, InsertIndex;
      r := FindSlot(addr);
      ghost var b := mem[..];
      assert b[0..32] == mem[0..32] && b[32..64] == mem[32..64];
      AddMeaning(b, r);
      var num := PhdrOf(mem[0..32]).memsz / 32;
      var notes := PhdrOf(mem[32..64]);
      MemMove(mem, notes.vaddr - 0x1D00_0000 + 32, notes.vaddr - 0x1D00_0000, notes.memsz);
      AddPhdrSize(mem, 1, 2);
      AddPhdrSize(mem, 1, 3);
      MemMove(mem, 32 * r + 32, 32 * r, 32 * (num - r));
      assert mem[..] == WithSlot(b, r);
      AddPhdrSize(mem, 0, 5);
      AddPhdrSize(mem, 0, 4);
      AddPhdrSize(mem, 2, 4);
    }

    method StoreField(i: nat, f: nat, v: U32)
      requires 32 * i + 32 <= mem.Length && f < 8
      modifies mem
      ensures mem[..] == WithWord(old(mem[..]), 32 * i + 4 * f, v)
    {
      hide BeBytes;
      var bytes := BeBytes(v);
      var at := 32 * i + 4 * f;
      ghost var b := mem[..];
      mem[at], mem[at + 1], mem[at + 2], mem[at + 3] := bytes[0], bytes[1], bytes[2], bytes[3];
      WithWordIs(b, mem[..], at, v);
    }

    /** The caller's eight stores into the slot. */
    method FillSlot(i: nat, p: Phdr)
      requires Valid() && 2 <= i < |Table()|
      modifies mem
      ensures Valid() && Table() == old(Table())[i := p]
      ensures Notes(mem[..]) == old(Notes(mem[..]))
    {
      hide PhdrOf, WithWord, Field;
      ghost var b := mem[..];
      for f := 0 to 8
        invariant OnlySlotDiffers(b, mem[..], i)
        invariant forall g :: 0 <= g < f ==> Field(PhdrOf(Entry(mem[..], i)), g) == Field(p, g)
      {
        ghost var c := mem[..];
        StoreField(i, f, Field(p, f));
        SlotStep(b, c, i, f, p);
      }
      AllFields(PhdrOf(Entry(mem[..], i)), p);
      assert Table() == old(Table())[i := p];
    }

    /** One insertion: slot and contents. */
    method Insert(addr: U32, p: Phdr)
      requires Valid() && 32 * Count(mem[..]) + NotesSize(mem[..]) + 32 <= mem.Length
      modifies mem
      ensures Valid() && Table() == Inserted(old(Table()), InsertIndex(old(Table()), addr), p)
      ensures Notes(mem[..]) == old(Notes(mem[..]))
    {
      hide InsertIndex, Bumped;
      ghost var t := Table();
      var i := AddPhdr(addr);
      InsertedRefilled(t, i, Table()[i], p);
      FillSlot(i, p);
    }

    /** Any run of insertions that fits. */
    method InsertRun(ops: seq<(U32, Phdr)>)
      requires Valid() && 32 * (Count(mem[..]) + |ops|) + NotesSize(mem[..]) <= mem.Length
      modifies mem
      ensures Valid() && Table() == InsertAll(old(Table()), ops)
      ensures Notes(mem[..]) == old(Notes(mem[..]))
    {
      ghost var t, notes := Table(), Notes(mem[..]);
      var k := 0;
      while k < |ops|
        invariant 0 <= k <= |ops| && Valid()
        invariant Notes(mem[..]) == notes && |Table()| == |t| + k
        invariant InsertAll(Table(), ops[k..]) == InsertAll(t, ops)
        modifies mem
      {
        assert ops[k..][0] == ops[k] && ops[k..][1..] == ops[k + 1..];
        Insert(ops[k].0, ops[k].1);
        k := k + 1;
      }
    }

    /** ios_elf_get_module_entrypoint. */
    method GetModuleEntrypoint(uid: U32) returns (r: U32)
      requires Valid() && NotesFit(Notes(mem[..]))
      ensures IsEntrypoint(NoteEntries(Notes(mem[..])), uid, r)
    {
      hide PhdrOf, BeWord;
      ghost var es := NoteEntries(Notes(mem[..]));
      assert mem[..][32..64] == mem[32..64];
      var p := PhdrOf(mem[32..64]);
      var notes := mem[p.vaddr - 0x1D00_0000..p.vaddr - 0x1D00_0000 + p.memsz];
      assert notes == Notes(mem[..]);
      var num := BeWord(notes[4..8]) / 8;
      var cur: U32 := 0xFFFF_FFFF;
      var i := 0;
      while i < num
        invariant 0 <= i <= num == |es|
        invariant cur == UidAt(es, i - 1)
        invariant forall j :: 0 <= j < i ==> !(es[j].atype == AT_ENTRY && UidAt(es, j) == uid)
      {
        var e := Auxv(BeWord(notes[12 + 8 * i..12 + 8 * i + 4]), BeWord(notes[12 + 8 * i + 4..12 + 8 * i + 8]));
        assert e == es[i];
        if e.atype == 11 {
          cur := e.val;
        }
        if e.atype == 9 && cur == uid {
          return e.val;
        }
        i := i + 1;
      }
      return 0;
    }
  }
}
