/** The image packer of scripts/anpack.py: ELF headers and segments written to a file and read
    back, and the chunked encryption of the image body. */
module Anpack {
  import opened Words

  // ----- struct -----

  /** The big-endian bytes of one field, two or four of them. */
  function PackField(width: nat, v: nat): (s: seq<Byte>)
    ensures |s| == width
  {
    if width == 0 then [] else PackField(width - 1, v / 0x100) + [v % 0x100]
  }

  function UnpackField(s: seq<Byte>): nat {
    if s == [] then 0 else UnpackField(s[..|s| - 1]) * 0x100 + s[|s| - 1]
  }

  function Limit(width: nat): nat {
    if width == 0 then 1 else 0x100 * Limit(width - 1)
  }

  lemma {:induction false} FieldRoundTrip(width: nat, v: nat)
    requires v < Limit(width)
    ensures UnpackField(PackField(width, v)) == v
  {
    if width > 0 {
      var s := PackField(width, v);
      assert s[..|s| - 1] == PackField(width - 1, v / 0x100);
      FieldRoundTrip(width - 1, v / 0x100);
    }
  }

  /** Two and four bytes, the most significant first, and the values they can hold. */
  lemma FieldBytes(v: nat)
    ensures PackField(2, v) == [v / 0x100 % 0x100, v % 0x100] && Limit(2) == 0x1_0000
    ensures PackField(4, v) == [v / 0x100_0000 % 0x100, v / 0x1_0000 % 0x100, v / 0x100 % 0x100, v % 0x100]
    ensures Limit(4) == 0x1_0000_0000
  {
    var a := v / 0x100;
    var b := a / 0x100;
    assert b == v / 0x1_0000 && b / 0x100 == v / 0x100_0000;
    PackFieldStep(2, v);
    PackFieldStep(1, a);
    PackFieldStep(4, v);
    PackFieldStep(3, a);
    PackFieldStep(2, b);
    PackFieldStep(1, b / 0x100);
    assert Limit(2) == 0x100 * Limit(1) && Limit(4) == 0x100 * (0x100 * Limit(2));
  }

  lemma PackFieldStep(width: nat, v: nat)
    requires width > 0
    ensures PackField(width, v) == PackField(width - 1, v / 0x100) + [v % 0x100]
    ensures PackField(0, v / 0x100) == []
  {
  }

  function Width(format: seq<nat>): nat {
    if format == [] then 0 else format[0] + Width(format[1..])
  }

  /** Values that struct.pack accepts. */
  predicate Packable(format: seq<nat>, vs: seq<nat>) {
    |format| == |vs| && forall i :: 0 <= i < |vs| ==> vs[i] < Limit(format[i])
  }

  function Pack(format: seq<nat>, vs: seq<nat>): (s: seq<Byte>)
    requires |format| == |vs|
    ensures |s| == Width(format)
  {
    if format == [] then [] else PackField(format[0], vs[0]) + Pack(format[1..], vs[1..])
  }

  function Unpack(format: seq<nat>, s: seq<Byte>): (vs: seq<nat>)
    requires |s| == Width(format)
    ensures |vs| == |format|
  {
    if format == [] then [] else [UnpackField(s[..format[0]])] + Unpack(format[1..], s[format[0]..])
  }

  lemma {:induction false} PackRoundTrip(format: seq<nat>, vs: seq<nat>)
    requires Packable(format, vs)
    ensures Unpack(format, Pack(format, vs)) == vs
    decreases |format|
  {
    if format != [] {
      var s := Pack(format, vs);
      assert s[..format[0]] == PackField(format[0], vs[0]);
      assert s[format[0]..] == Pack(format[1..], vs[1..]);
      FieldRoundTrip(format[0], vs[0]);
      assert forall i :: 0 <= i < |vs[1..]| ==> vs[1..][i] == vs[i + 1] && format[1..][i] == format[i + 1];
      PackRoundTrip(format[1..], vs[1..]);
    }
  }

  // ----- files -----

  /** A write at a position: a gap before it is filled with zeros, an empty write does nothing. */
  function WriteAt(data: seq<Byte>, pos: nat, s: seq<Byte>): (r: seq<Byte>)
    ensures |s| > 0 ==> |r| == if pos + |s| > |data| then pos + |s| else |data|
  {
    if s == [] then data
    else if pos > |data| then data + seq(pos - |data|, i => 0) + s
    else data[..pos] + s + if pos + |s| < |data| then data[pos + |s|..] else []
  }

  function ReadAt(data: seq<Byte>, pos: nat, n: nat): seq<Byte> {
    if pos >= |data| then [] else if pos + n <= |data| then data[pos..pos + n] else data[pos..]
  }

  ghost predicate HasByte(data: seq<Byte>, pos: nat, s: seq<Byte>, k: nat)
    requires k < |s|
  {
    pos + k < |data| && data[pos + k] == s[k]
  }

  ghost predicate Has(data: seq<Byte>, pos: nat, s: seq<Byte>) {
    forall k :: 0 <= k < |s| ==> HasByte(data, pos, s, k)
  }

  lemma WriteHas(data: seq<Byte>, pos: nat, s: seq<Byte>)
    ensures Has(WriteAt(data, pos, s), pos, s)
  {
  }

  lemma WriteKeeps(data: seq<Byte>, pos: nat, s: seq<Byte>, p: nat, t: seq<Byte>)
    requires Has(data, p, t) && (p + |t| <= pos || pos + |s| <= p)
    ensures Has(WriteAt(data, pos, s), p, t)
  {
    forall k | 0 <= k < |t|
      ensures HasByte(WriteAt(data, pos, s), p, t, k)
    {
      assert HasByte(data, p, t, k);
    }
  }

  lemma HasReads(data: seq<Byte>, pos: nat, s: seq<Byte>)
    requires Has(data, pos, s)
    ensures ReadAt(data, pos, |s|) == s
  {
    if s != [] {
      assert HasByte(data, pos, s, |s| - 1);
      forall k | 0 <= k < |s|
        ensures data[pos + k] == s[k]
      {
        assert HasByte(data, pos, s, k);
      }
    }
  }

  /** A read of n bytes where s is stored gives s exactly when n is its length, or when n is more
      and the file ends there. */
  lemma ReadsExactly(data: seq<Byte>, pos: nat, s: seq<Byte>, n: nat)
    requires Has(data, pos, s)
    ensures ReadAt(data, pos, n) == s <==> n == |s| || (n > |s| && pos + |s| >= |data|)
  {
    HasReads(data, pos, s);
    if s != [] {
      assert HasByte(data, pos, s, |s| - 1);
    }
    if n < |s| || (n > |s| && pos + |s| < |data|) {
      assert |ReadAt(data, pos, n)| != |s|;
    } else if n > |s| {
      assert ReadAt(data, pos, n) == ReadAt(data, pos, |s|);
    }
  }

  // ----- headers -----

  datatype Ehdr = Ehdr(ident: seq<Byte>, etype: nat, machine: nat, version: nat, entry: nat, phoff: nat, shoff: nat,
                       flags: nat, ehsize: nat, phentsize: nat, phnum: nat, shentsize: nat, shnum: nat, shstrndx: nat)

  datatype Phdr = Phdr(ptype: nat, offset: nat, vaddr: nat, paddr: nat, filesz: nat, memsz: nat, flags: nat, align: nat,
                       content: seq<Byte>)

  const EHDR: seq<nat> := [2, 2, 4, 4, 4, 4, 4, 2, 2, 2, 2, 2, 2]   // HHIIIIIHHHHHH
  const PHDR: seq<nat> := [4, 4, 4, 4, 4, 4, 4, 4]                  // IIIIIIII

  lemma WidthFrom(format: seq<nat>, k: nat)
    requires k < |format|
    ensures Width(format[k..]) == format[k] + Width(format[k + 1..])
  {
    assert format[k..][1..] == format[k + 1..];
  }

  lemma WidthOfEqual(format: seq<nat>, k: nat, w: nat)
    requires k <= |format| && forall i :: k <= i < |format| ==> format[i] == w
    ensures Width(format[k..]) == (|format| - k) * w
    decreases |format| - k
  {
    if k < |format| {
      WidthFrom(format, k);
      WidthOfEqual(format, k + 1, w);
      assert (|format| - k) * w == w + (|format| - k - 1) * w;
    }
  }

  lemma HeaderSizes()
    ensures Width(EHDR) == 36 && Width(PHDR) == 32
  {
    hide Width;
    WidthOfEqual(PHDR, 0, 4);
    WidthOfEqual(EHDR, 7, 2);
    WidthFrom(EHDR, 6);
    WidthFrom(EHDR, 5);
    WidthFrom(EHDR, 4);
    WidthFrom(EHDR, 3);
    WidthFrom(EHDR, 2);
    WidthFrom(EHDR, 1);
    WidthFrom(EHDR, 0);
    assert PHDR[0..] == PHDR && EHDR[0..] == EHDR;
  }

  function EhdrFields(h: Ehdr): (vs: seq<nat>)
    ensures |vs| == |EHDR|
  {
    [h.etype, h.machine, h.version, h.entry, h.phoff, h.shoff, h.flags, h.ehsize, h.phentsize, h.phnum, h.shentsize,
     h.shnum, h.shstrndx]
  }

  function PhdrFields(p: Phdr): (vs: seq<nat>)
    ensures |vs| == |PHDR|
  {
    [p.ptype, p.offset, p.vaddr, p.paddr, p.filesz, p.memsz, p.flags, p.align]
  }

  function EhdrBytes(h: Ehdr): seq<Byte> { h.ident + Pack(EHDR, EhdrFields(h)) }

  function PhdrBytes(p: Phdr): (s: seq<Byte>)
    ensures |s| == Width(PHDR)
  {
    Pack(PHDR, PhdrFields(p))
  }

  function EhdrOf(ident: seq<Byte>, v: seq<nat>): Ehdr
    requires |v| == |EHDR|
  {
    Ehdr(ident, v[0], v[1], v[2], v[3], v[4], v[5], v[6], v[7], v[8], v[9], v[10], v[11], v[12])
  }

  function PhdrOf(v: seq<nat>, content: seq<Byte>): Phdr
    requires |v| == |PHDR|
  {
    Phdr(v[0], v[1], v[2], v[3], v[4], v[5], v[6], v[7], content)
  }

  /** elf32_ehdr's reader; None where struct.unpack raises on too short a read. */
  function ReadEhdr(data: seq<Byte>, off: nat): Option<Ehdr> {
    var s := ReadAt(data, off + 16, Width(EHDR));
    if |s| == Width(EHDR) then Some(EhdrOf(ReadAt(data, off, 16), Unpack(EHDR, s))) else None
  }

  /** elf32_phdr's reader. */
  function ReadPhdr(data: seq<Byte>, off: nat, h: Ehdr, i: nat): Option<Phdr> {
    var s := ReadAt(data, off + EntryPos(h, i), Width(PHDR));
    if |s| == Width(PHDR) then
      var v := Unpack(PHDR, s);
      Some(PhdrOf(v, ReadAt(data, off + v[1], v[4])))
    else None
  }

  // ----- elf32.write -----

  predicate Special(i: nat) { i == 0 || i == 2 }

  function TableSize(h: Ehdr): nat { h.phentsize * h.phnum }

  /** Where entry i of the program header table goes. */
  function EntryPos(h: Ehdr, i: nat): nat { h.phoff + h.phentsize * i }

  /** Where segment i goes: behind the table and the contents written before. */
  function DataOffset(h: Ehdr, ps: seq<Phdr>, i: nat): nat
    requires i <= |ps|
  {
    if i == 0 then EntryPos(h, h.phnum)
    else DataOffset(h, ps, i - 1) + if Special(i - 1) then 0 else |ps[i - 1].content|
  }

  /** Header i as it is written. */
  function Laid(h: Ehdr, ps: seq<Phdr>, i: nat): Phdr
    requires i < |ps|
  {
    if i == 0 then ps[0].(filesz := TableSize(h), memsz := TableSize(h))
    else if i == 1 then
      var vaddr := ps[0].vaddr + TableSize(h);
      ps[1].(offset := DataOffset(h, ps, 1), vaddr := vaddr, paddr := vaddr)
    else if i == 2 then ps[2].(filesz := TableSize(h) + ps[1].filesz)
    else ps[i].(offset := DataOffset(h, ps, i))
  }

  function WritePhdr(data: seq<Byte>, off: nat, h: Ehdr, p: Phdr, i: nat): seq<Byte> {
    var d := WriteAt(data, off + EntryPos(h, i), PhdrBytes(p));
    if Special(i) then d else WriteAt(d, off + p.offset, p.content)
  }

  /** The file after the ELF header and the first i segments. */
  function FileAfter(data: seq<Byte>, off: nat, h: Ehdr, ps: seq<Phdr>, i: nat): seq<Byte>
    requires i <= |ps|
  {
    if i == 0 then WriteAt(data, off, EhdrBytes(h))
    else WritePhdr(FileAfter(data, off, h, ps, i - 1), off, h, Laid(h, ps, i - 1), i - 1)
  }

  /** A header with room for itself before the table and for each entry within it. */
  predicate WellShaped(h: Ehdr, ps: seq<Phdr>) {
    |h.ident| == 16 && h.phoff >= 52 && h.phentsize >= 32 && h.phnum == |ps|
  }

  lemma {:induction false} EntriesApart(h: Ehdr, i: nat, j: nat)
    requires i < j && h.phentsize >= 32
    ensures h.phoff <= EntryPos(h, i) && EntryPos(h, i) + 32 <= EntryPos(h, j)
    decreases j
  {
    EntryStep(h, j - 1);
    if i < j - 1 {
      EntriesApart(h, i, j - 1);
    }
  }

  lemma EntryStep(h: Ehdr, i: nat)
    ensures EntryPos(h, i + 1) == EntryPos(h, i) + h.phentsize
  {
    assert h.phentsize * (i + 1) == h.phentsize * i + h.phentsize;
  }

  /** Contents of segments that are not special lie behind the table, one behind the other. */
  lemma {:induction false} SegmentsDisjoint(h: Ehdr, ps: seq<Phdr>, i: nat, j: nat)
    requires i < j <= |ps|
    ensures DataOffset(h, ps, i) >= EntryPos(h, h.phnum)
    ensures DataOffset(h, ps, j) >= DataOffset(h, ps, i) + if Special(i) then 0 else |ps[i].content|
    decreases j
  {
    hide EntryPos;
    BehindTable(h, ps, i);
    if i < j - 1 {
      SegmentsDisjoint(h, ps, i, j - 1);
    }
  }

  lemma {:induction false} BehindTable(h: Ehdr, ps: seq<Phdr>, i: nat)
    requires i <= |ps|
    ensures DataOffset(h, ps, i) >= EntryPos(h, h.phnum)
  {
    hide EntryPos;
    if i > 0 {
      BehindTable(h, ps, i - 1);
    }
  }

  lemma LaidSegment(h: Ehdr, ps: seq<Phdr>, i: nat)
    requires i < |ps|
    ensures Laid(h, ps, i).content == ps[i].content
    ensures !Special(i) ==> Laid(h, ps, i).offset == DataOffset(h, ps, i) && Laid(h, ps, i).filesz == ps[i].filesz
  {
    hide DataOffset, TableSize;
  }

  lemma SegmentKeeps(data: seq<Byte>, off: nat, h: Ehdr, ps: seq<Phdr>, i: nat, pos: nat, s: seq<Byte>)
    requires WellShaped(h, ps) && i < |ps| && Has(data, pos, s)
    requires pos + |s| <= off + EntryPos(h, i) || off + EntryPos(h, h.phnum) <= pos
    requires pos + |s| <= off + DataOffset(h, ps, i) || Special(i)
    ensures Has(WritePhdr(data, off, h, Laid(h, ps, i), i), pos, s)
  {
    hide WriteAt, Has, PhdrBytes, DataOffset, EntryPos, TableSize, Laid, Width;
    HeaderSizes();
    LaidSegment(h, ps, i);
    EntriesApart(h, i, |ps|);
    var p := Laid(h, ps, i);
    WriteKeeps(data, off + EntryPos(h, i), PhdrBytes(p), pos, s);
    if !Special(i) {
      WriteKeeps(WriteAt(data, off + EntryPos(h, i), PhdrBytes(p)), off + p.offset, p.content, pos, s);
    }
  }

  lemma {:induction false} HeaderStays(data: seq<Byte>, off: nat, h: Ehdr, ps: seq<Phdr>, i: nat)
    requires WellShaped(h, ps) && i <= |ps|
    ensures Has(FileAfter(data, off, h, ps, i), off, EhdrBytes(h))
  {
    hide WriteAt, Has, WritePhdr, Pack, TableSize, EntryPos, Laid, Width, EhdrFields, DataOffset;
    HeaderSizes();
    if i == 0 {
      WriteHas(data, off, EhdrBytes(h));
    } else {
      HeaderStays(data, off, h, ps, i - 1);
      BehindTable(h, ps, i - 1);
      EntriesApart(h, i - 1, |ps|);
      SegmentKeeps(FileAfter(data, off, h, ps, i - 1), off, h, ps, i - 1, off, EhdrBytes(h));
    }
  }

  /** Table entry j and, for a segment that is not special, its content are in the file. */
  lemma {:induction false} SegmentStays(data: seq<Byte>, off: nat, h: Ehdr, ps: seq<Phdr>, i: nat, j: nat)
    requires WellShaped(h, ps) && j < i <= |ps|
    ensures var f := FileAfter(data, off, h, ps, i);
      && Has(f, off + EntryPos(h, j), PhdrBytes(Laid(h, ps, j)))
      && (!Special(j) ==> Has(f, off + DataOffset(h, ps, j), ps[j].content))
    decreases i
  {
    hide WriteAt, Has, PhdrBytes, DataOffset, EntryPos, TableSize, Laid, Width;
    HeaderSizes();
    LaidSegment(h, ps, j);
    var before, p := FileAfter(data, off, h, ps, i - 1), Laid(h, ps, i - 1);
    EntriesApart(h, j, i);
    EntriesApart(h, j, |ps|);
    SegmentsDisjoint(h, ps, j, i);
    BehindTable(h, ps, i - 1);
    var entry := off + EntryPos(h, j);
    if j == i - 1 {
      WriteHas(before, entry, PhdrBytes(p));
      if !Special(j) {
        var d := WriteAt(before, entry, PhdrBytes(p));
        WriteHas(d, off + p.offset, p.content);
        WriteKeeps(d, off + p.offset, p.content, entry, PhdrBytes(p));
      }
    } else {
      hide WritePhdr;
      SegmentStays(data, off, h, ps, i - 1, j);
      EntriesApart(h, j, i - 1);
      SegmentsDisjoint(h, ps, j, i - 1);
      SegmentKeeps(before, off, h, ps, i - 1, entry, PhdrBytes(Laid(h, ps, j)));
      if !Special(j) {
        SegmentKeeps(before, off, h, ps, i - 1, off + DataOffset(h, ps, j), ps[j].content);
      }
    }
  }

  /** Reading the written file gives back the ELF header, every program header as laid out, and
      the content of a segment that is not special exactly when p_filesz is the content's length,
      or is more and the file ends right behind the content. */
  lemma ReadsBack(data: seq<Byte>, off: nat, h: Ehdr, ps: seq<Phdr>, j: nat)
    requires WellShaped(h, ps) && j < |ps|
    requires Packable(EHDR, EhdrFields(h)) && Packable(PHDR, PhdrFields(Laid(h, ps, j)))
    ensures var f := FileAfter(data, off, h, ps, |ps|);
      && ReadEhdr(f, off) == Some(h)
      && var r := ReadPhdr(f, off, h, j);
         && r.Some? && r.value.(content := []) == Laid(h, ps, j).(content := [])
         && (!Special(j) ==>
              (r.value.content == ps[j].content
               <==> ps[j].filesz == |ps[j].content|
                    || (ps[j].filesz > |ps[j].content| && off + DataOffset(h, ps, j) + |ps[j].content| >= |f|)))
  {
    hide WriteAt, Has, ReadAt, FileAfter, Pack, Unpack, DataOffset, TableSize, Packable, EntryPos, Width;
    HeaderSizes();
    LaidSegment(h, ps, j);
    var f, p := FileAfter(data, off, h, ps, |ps|), Laid(h, ps, j);
    HeaderStays(data, off, h, ps, |ps|);
    SplitHas(f, off, h.ident, Pack(EHDR, EhdrFields(h)));
    HasReads(f, off, h.ident);
    HasReads(f, off + 16, Pack(EHDR, EhdrFields(h)));
    PackRoundTrip(EHDR, EhdrFields(h));
    SegmentStays(data, off, h, ps, |ps|, j);
    HasReads(f, off + EntryPos(h, j), PhdrBytes(p));
    PackRoundTrip(PHDR, PhdrFields(p));
    if !Special(j) {
      ReadsExactly(f, off + DataOffset(h, ps, j), ps[j].content, ps[j].filesz);
    }
  }

  lemma SplitHas(data: seq<Byte>, pos: nat, s: seq<Byte>, t: seq<Byte>)
    requires Has(data, pos, s + t)
    ensures Has(data, pos, s) && Has(data, pos + |s|, t)
  {
    var both, behind := s + t, pos + |s|;
    forall k | 0 <= k < |s|
      ensures HasByte(data, pos, s, k)
    {
      assert HasByte(data, pos, both, k) && both[k] == s[k];
    }
    forall k | 0 <= k < |t|
      ensures HasByte(data, behind, t, k)
    {
      assert HasByte(data, pos, both, |s| + k) && both[|s| + k] == t[k];
    }
  }

  lemma WrittenByte(data: seq<Byte>, pos: nat, s: seq<Byte>, k: nat)
    requires s != [] && k < |WriteAt(data, pos, s)|
    ensures WriteAt(data, pos, s)[k]
         == if pos <= k < pos + |s| then s[k - pos] else if k < |data| then data[k] else 0
  {
  }

  lemma TwoWrites(data: seq<Byte>, pos: nat, s: seq<Byte>, t: seq<Byte>)
    requires s != [] && t != []
    ensures WriteAt(WriteAt(data, pos, s), pos + |s|, t) == WriteAt(data, pos, s + t)
  {
    hide WriteAt;
    var first, both := WriteAt(data, pos, s), WriteAt(data, pos, s + t);
    var second := WriteAt(first, pos + |s|, t);
    forall k | 0 <= k < |both|
      ensures both[k] == second[k]
    {
      WrittenByte(data, pos, s + t, k);
      WrittenByte(first, pos + |s|, t, k);
      if k < |first| {
        WrittenByte(data, pos, s, k);
      }
    }
  }

  /** A file opened for reading and writing. */
  class File {
    var data: seq<Byte>
    var pos: nat

    constructor ()
      ensures data == [] && pos == 0
    {
      data, pos := [], 0;
    }

    method Seek(p: nat)
      modifies `pos
      ensures pos == p
    {
      pos := p;
    }

    method SeekEnd()
      modifies `pos
      ensures pos == |data|
    {
      pos := |data|;
    }

    method Write(s: seq<Byte>)
      modifies this
      ensures data == WriteAt(old(data), old(pos), s) && pos == old(pos) + |s|
    {
      data := WriteAt(data, pos, s);
      pos := pos + |s|;
    }

    method Read(n: nat) returns (s: seq<Byte>)
      modifies `pos
      ensures s == ReadAt(data, old(pos), n) && pos == old(pos) + |s|
    {
      s := ReadAt(data, pos, n);
      pos := pos + |s|;
    }
  }

  class Elf {
    var hdr: Ehdr
    var phdrs: seq<Phdr>

    constructor (h: Ehdr, ps: seq<Phdr>)
      ensures hdr == h && phdrs == ps
    {
      hdr, phdrs := h, ps;
    }

    /** elf32_ehdr.write. */
    method WriteHeader(file: File, offset: nat)
      requires |hdr.ident| == 16
      modifies file
      ensures file.data == WriteAt(old(file.data), offset, EhdrBytes(hdr))
    {
      hide Pack, WriteAt, Width;
      HeaderSizes();
      var fields := Pack([2, 2, 4, 4, 4, 4, 4, 2, 2, 2, 2, 2, 2],
                         [hdr.etype, hdr.machine, hdr.version, hdr.entry, hdr.phoff, hdr.shoff, hdr.flags, hdr.ehsize,
                          hdr.phentsize, hdr.phnum, hdr.shentsize, hdr.shnum, hdr.shstrndx]);
      file.Seek(offset);
      file.Write(hdr.ident);
      file.Write(fields);
      TwoWrites(old(file.data), offset, hdr.ident, fields);
    }

    /** elf32_phdr.write; it returns what it wrote of content. */
    method WritePhdrAt(file: File, offset: nat, p: Phdr, i: nat, writeContent: bool) returns (n: nat)
      requires writeContent == !Special(i)
      modifies file
      ensures file.data == WritePhdr(old(file.data), offset, hdr, p, i)
      ensures n == if Special(i) then 0 else |p.content|
    {
      hide WriteAt, Pack, Width;
      HeaderSizes();
      file.Seek(offset + hdr.phoff + hdr.phentsize * i);
      file.Write(Pack([4, 4, 4, 4, 4, 4, 4, 4],
                      [p.ptype, p.offset, p.vaddr, p.paddr, p.filesz, p.memsz, p.flags, p.align]));
      if writeContent {
        file.Seek(offset + p.offset);
        file.Write(p.content);
        return |p.content|;
      }
      return 0;
    }

    /** What elf32.write does to header i before it is written. */
    method LayOut(i: nat, dataOffset: nat, ghost ps: seq<Phdr>)
      requires i < |phdrs| == |ps| && dataOffset == DataOffset(hdr, ps, i)
      requires phdrs[i] == ps[i] && forall j :: 0 <= j < i ==> phdrs[j] == Laid(hdr, ps, j)
      modifies `phdrs
      ensures phdrs == old(phdrs)[i := Laid(hdr, ps, i)]
    {
      hide DataOffset;
      var special := i == 0 || i == 2;
      var p := phdrs[i];
      if !special {
        p := p.(offset := dataOffset);
      }
      if i == 0 {
        p := p.(filesz := hdr.phentsize * hdr.phnum);
        p := p.(memsz := p.filesz);
      }
      if i == 1 {
        p := p.(vaddr := phdrs[0].vaddr + phdrs[0].filesz);
        p := p.(paddr := p.vaddr);
      }
      if i == 2 {
        p := p.(filesz := hdr.phentsize * hdr.phnum + phdrs[i - 1].filesz);
      }
      phdrs := phdrs[i := p];
    }

    /** elf32.write. */
    method Write(file: File, offset: nat)
      requires hdr.phnum == |phdrs| && |hdr.ident| == 16
      modifies file, `phdrs
      ensures file.data == FileAfter(old(file.data), offset, hdr, old(phdrs), |old(phdrs)|)
      ensures |phdrs| == |old(phdrs)| && forall i :: 0 <= i < |phdrs| ==> phdrs[i] == Laid(hdr, old(phdrs), i)
    {
      hide WriteAt, EhdrBytes, WritePhdr, TableSize, Laid;
      ghost var ps := phdrs;
      WriteHeader(file, offset);
      var dataOffset := hdr.phoff + hdr.phentsize * hdr.phnum;
      for i := 0 to hdr.phnum
        invariant |phdrs| == |ps|
        invariant forall j :: 0 <= j < i ==> phdrs[j] == Laid(hdr, ps, j)
        invariant forall j :: i <= j < |ps| ==> phdrs[j] == ps[j]
        invariant dataOffset == DataOffset(hdr, ps, i)
        invariant file.data == FileAfter(old(file.data), offset, hdr, ps, i)
      {
        LayOut(i, dataOffset, ps);
        LaidSegment(hdr, ps, i);
        var written := WritePhdrAt(file, offset, phdrs[i], i, !(i == 0 || i == 2));
        dataOffset := dataOffset + written;
      }
    }

    /** insert_phdr: a blank header in front of the first one, other than the very first, that
        lies above the address; in front of all when there is none. */
    method InsertPhdr(addr: nat) returns (at: nat)
      requires hdr.phnum == |phdrs|
      modifies this
      ensures at == InsertionPoint(old(phdrs), addr, 1) && at <= |old(phdrs)|
      ensures phdrs == old(phdrs)[..at] + [BLANK] + old(phdrs)[at..]
      ensures hdr == old(hdr).(phnum := |phdrs|)
    {
      var num: nat := 0;
      for i := 0 to hdr.phnum
        invariant num <= |phdrs|
        invariant num == 0 ==> forall j :: 1 <= j < i ==> phdrs[j].vaddr <= addr
        invariant num > 0 ==> num < i && phdrs[num].vaddr > addr && forall j :: 1 <= j < num ==> phdrs[j].vaddr <= addr
      {
        if phdrs[i].vaddr > addr {
          if num == 0 {
            num := i;
          }
        }
      }
      InsertionPointIs(phdrs, addr, num);
      hdr := hdr.(phnum := hdr.phnum + 1);
      phdrs := phdrs[..num] + [Phdr(0, 0, 0, 0, 0, 0, 0, 0, [])] + phdrs[num..];
      at := num;
    }
  }

  /** elf32's reader. */
  method ReadElf(file: File, offset: nat) returns (r: Option<(Ehdr, seq<Phdr>)>)
    modifies file`pos
    ensures match ReadEhdr(file.data, offset)
      case None => r == None
      case Some(h) =>
        && (r == None <==> exists i :: 0 <= i < h.phnum && ReadPhdr(file.data, offset, h, i) == None)
        && (r.Some? ==> r.value.0 == h && |r.value.1| == h.phnum)
        && (r.Some? ==> forall i :: 0 <= i < h.phnum ==> ReadPhdr(file.data, offset, h, i) == Some(r.value.1[i]))
  {
    hide ReadAt, Width, Unpack;
    HeaderSizes();
    file.Seek(offset);
    var ident := file.Read(16);
    file.Seek(offset + 16);
    var rest := file.Read(36);
    if |rest| != 36 {
      return None;
    }
    var h := EhdrOf(ident, Unpack([2, 2, 4, 4, 4, 4, 4, 2, 2, 2, 2, 2, 2], rest));
    assert ReadEhdr(file.data, offset) == Some(h);
    var ps := [];
    for i := 0 to h.phnum
      invariant |ps| == i && file.data == old(file.data)
      invariant forall j :: 0 <= j < i ==> ReadPhdr(file.data, offset, h, j) == Some(ps[j])
    {
      file.Seek(offset + h.phoff + h.phentsize * i);
      var s := file.Read(32);
      if |s| != 32 {
        assert ReadPhdr(file.data, offset, h, i) == None;
        return None;
      }
      var v := Unpack([4, 4, 4, 4, 4, 4, 4, 4], s);
      file.Seek(offset + v[1]);
      var content := file.Read(v[4]);
      ps := ps + [PhdrOf(v, content)];
    }
    return Some((h, ps));
  }

  const BLANK: Phdr := Phdr(0, 0, 0, 0, 0, 0, 0, 0, [])

  function InsertionPoint(ps: seq<Phdr>, addr: nat, i: nat): nat
    decreases |ps| - i
  {
    if i >= |ps| then 0 else if ps[i].vaddr > addr then i else InsertionPoint(ps, addr, i + 1)
  }

  lemma {:induction false} InsertionPointFrom(ps: seq<Phdr>, addr: nat, i: nat, num: nat)
    requires i >= 1 && forall j :: i <= j < |ps| && (num == 0 || j < num) ==> ps[j].vaddr <= addr
    requires num == 0 || (i <= num < |ps| && ps[num].vaddr > addr)
    ensures InsertionPoint(ps, addr, i) == num
    decreases |ps| - i
  {
    if i < |ps| && i != num {
      InsertionPointFrom(ps, addr, i + 1, num);
    }
  }

  lemma InsertionPointIs(ps: seq<Phdr>, addr: nat, num: nat)
    requires forall j :: 1 <= j < |ps| && (num == 0 || j < num) ==> ps[j].vaddr <= addr
    requires num == 0 || (1 <= num < |ps| && ps[num].vaddr > addr)
    ensures InsertionPoint(ps, addr, 1) == num
  {
    InsertionPointFrom(ps, addr, 1, num);
  }

  predicate Ascending(ps: seq<Phdr>) {
    forall i, j :: 0 <= i < j < |ps| ==> ps[i].vaddr <= ps[j].vaddr
  }

  /** Once the blank header gets its address the table is still in ascending order exactly when
      the address lies between the first header and the last, or, with none but the first above
      it, in front of the first. Behind the last header it is put in the wrong place. */
  lemma InsertKeepsOrderExactly(ps: seq<Phdr>, addr: nat)
    requires Ascending(ps)
    ensures var at := InsertionPoint(ps, addr, 1);
      && at <= |ps|
      && (Ascending(ps[..at] + [BLANK.(vaddr := addr)] + ps[at..])
          <==> if |ps| > 1 && ps[|ps| - 1].vaddr > addr then ps[0].vaddr <= addr else ps == [] || addr <= ps[0].vaddr)
  {
    InsertionPointBounds(ps, addr, 1);
    var at, blank := InsertionPoint(ps, addr, 1), BLANK.(vaddr := addr);
    var r := ps[..at] + [blank] + ps[at..];
    assert r[at] == blank;
    if at > 0 {
      assert r[0] == ps[0] && ps[at].vaddr <= ps[|ps| - 1].vaddr;
    } else if ps != [] {
      assert r[1] == ps[0];
    }
  }

  lemma {:induction false} InsertionPointBounds(ps: seq<Phdr>, addr: nat, i: nat)
    requires i >= 1
    ensures var at := InsertionPoint(ps, addr, i);
      && (at == 0 || i <= at < |ps|) && (at > 0 ==> ps[at].vaddr > addr)
      && forall j :: i <= j < |ps| && (at == 0 || j < at) ==> ps[j].vaddr <= addr
    decreases |ps| - i
  {
    if i < |ps| && ps[i].vaddr <= addr {
      InsertionPointBounds(ps, addr, i + 1);
    }
  }
}
