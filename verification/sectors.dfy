/** Where redirected storage requests land on the SD card: the arithmetic of
    wafel_core/source/patch_asm.S and wafel_core/source/rednand/sal_partition.c. */
module Sectors {
  import opened Words
  import opened Quotients

  const SECTOR := 0x200

  // ----- the halving loop -----

  /** How often the loop runs; it compares as signed. */
  function Halvings(blockSize: U32): nat {
    if Signed32(blockSize) > SECTOR then 1 + Halvings(blockSize / 2) else 0
  }

  datatype Extent = Extent(offset: U32, count: U32, blockSize: U32)

  /** The request in the units the loop ends with. */
  function Adjusted(e: Extent): Extent {
    Scaled(e, Power2(Halvings(e.blockSize)))
  }

  /** sdcard_readwrite_block_size_adjust: the card wants blocks of 512 bytes. */
  method AdjustBlockSize(e: Extent) returns (r: Extent)
    ensures Signed32(r.blockSize) <= SECTOR
    ensures r == Adjusted(e)
  {
    hide Scaled, Halvings, Signed32;
    r := e;
    ghost var k: nat := 0;
    ScaledOnce(e);
    while Signed32(r.blockSize) > 0x200
      invariant k + Halvings(r.blockSize) == Halvings(e.blockSize)
      invariant r == Scaled(e, Power2(k))
      decreases r.blockSize
    {
      ScaledTwice(e, Power2(k));
      HalvingOnce(r.blockSize);
      r := Extent(r.offset * 2 % TWO32, r.count * 2 % TWO32, r.blockSize / 2);
      k := k + 1;
    }
    NoHalving(r.blockSize);
  }

  lemma HalvingOnce(blockSize: U32)
    requires Signed32(blockSize) > SECTOR
    ensures Halvings(blockSize) == 1 + Halvings(blockSize / 2) && 0 <= blockSize / 2 < blockSize
  {
  }

  lemma NoHalving(blockSize: U32)
    requires Signed32(blockSize) <= SECTOR
    ensures Halvings(blockSize) == 0
  {
  }

  function Scaled(e: Extent, f: nat): Extent
    requires f > 0
  {
    Extent(e.offset * f % TWO32, e.count * f % TWO32, e.blockSize / f)
  }

  lemma ScaledOnce(e: Extent)
    ensures Scaled(e, 1) == e
  {
  }

  lemma ScaledTwice(e: Extent, f: nat)
    requires f > 0
    ensures var r := Scaled(e, f);
      Scaled(e, 2 * f) == Extent(r.offset * 2 % TWO32, r.count * 2 % TWO32, r.blockSize / 2)
  {
    HalfStep(e.blockSize, f);
    DoubleStep(e.count * f);
    DoubleStep(e.offset * f);
    assert e.count * (2 * f) == e.count * f * 2 && e.offset * (2 * f) == e.offset * f * 2;
  }

  lemma HalfStep(x: nat, f: nat)
    requires f > 0
    ensures x / f / 2 == x / (2 * f)
  {
    var q, r := x / f, x % f;
    assert x == q * f + r;
    var h := q / 2;
    Doubled(h, f);
    if q == 2 * h {
      QuotientIs(x, 2 * f, h, r);
    } else {
      assert q == 2 * h + 1;
      Successor(2 * h, f);
      QuotientIs(x, 2 * f, h, f + r);
    }
  }

  lemma Doubled(h: int, f: int)
    ensures 2 * h * f == h * (2 * f)
  {
  }

  lemma Successor(n: int, f: int)
    ensures (n + 1) * f == n * f + f
  {
  }

  lemma DoubleStep(x: nat)
    ensures x % TWO32 * 2 % TWO32 == x * 2 % TWO32
  {
    var q, r := x / TWO32, x % TWO32;
    assert x * 2 == TWO32 * (2 * q) + 2 * r;
    Period(2 * q, 2 * r);
  }

  lemma Period(k: int, y: int)
    ensures (TWO32 * k + y) % TWO32 == y % TWO32
  {
    assert TWO32 * k + y == TWO32 * (k + y / TWO32) + y % TWO32;
  }

  /** A block size the loop was meant for. */
  ghost predicate SectorMultiple(blockSize: U32, k: nat) {
    blockSize == SECTOR * Power2(k) && blockSize < 0x8000_0000
  }

  lemma HalfOfMultiple(blockSize: U32, k: nat)
    requires SectorMultiple(blockSize, k)
    ensures k > 0 ==> SectorMultiple(blockSize / 2, k - 1) && blockSize >= 2 * SECTOR
    ensures k == 0 ==> blockSize == SECTOR
  {
    if k > 0 {
      var p := Power2(k - 1);
      assert blockSize == 2 * (SECTOR * p) && SECTOR * p >= SECTOR;
    }
  }

  lemma {:induction false} HalvingsOfMultiple(blockSize: U32, k: nat)
    requires SectorMultiple(blockSize, k)
    ensures Halvings(blockSize) == k
    decreases k
  {
    HalfOfMultiple(blockSize, k);
    assert blockSize < 0x8000_0000 && Signed32(blockSize) == blockSize;
    hide SectorMultiple;
    if k > 0 {
      HalvingsOfMultiple(blockSize / 2, k - 1);
    }
  }

  /** The size comes out as one sector exactly for 512 shifted left some number of times. */
  lemma {:induction false} OneSectorExactly(blockSize: U32)
    requires blockSize < 0x8000_0000
    ensures blockSize / Power2(Halvings(blockSize)) == SECTOR && blockSize % Power2(Halvings(blockSize)) == 0
      <==> SectorMultiple(blockSize, Halvings(blockSize))
  {
    var f := Power2(Halvings(blockSize));
    if blockSize / f == SECTOR && blockSize % f == 0 {
      assert blockSize == blockSize / f * f;
    }
    if SectorMultiple(blockSize, Halvings(blockSize)) {
      QuotientIs(blockSize, f, SECTOR, 0);
      assert blockSize == SECTOR * f;
    }
  }

  /** Bytes asked for are bytes transferred, at the same byte offset, for every such size as
      long as neither register overflows. */
  lemma BytesConserved(e: Extent, k: nat)
    requires SectorMultiple(e.blockSize, k)
    requires e.offset * Power2(k) < TWO32 && e.count * Power2(k) < TWO32
    ensures var r := Adjusted(e);
      && r.blockSize == SECTOR
      && r.count * r.blockSize == e.count * e.blockSize
      && r.offset * r.blockSize == e.offset * e.blockSize
  {
    HalvingsOfMultiple(e.blockSize, k);
    var f := Power2(k);
    assert e.blockSize == SECTOR * f;
    hide Halvings, Power2, SectorMultiple;
    ScaledSmall(e, f);
    hide Scaled;
    Regroup(e.count, f);
    Regroup(e.offset, f);
  }

  lemma ScaledSmall(e: Extent, f: nat)
    requires f > 0 && e.blockSize == SECTOR * f && e.offset * f < TWO32 && e.count * f < TWO32
    ensures Scaled(e, f) == Extent(e.offset * f, e.count * f, SECTOR)
  {
    QuotientIs(e.blockSize, f, SECTOR, 0);
    SmallWord(e.offset * f);
    SmallWord(e.count * f);
  }

  lemma SmallWord(x: nat)
    requires x < TWO32
    ensures x % TWO32 == x
  {
  }

  lemma Regroup(x: int, f: int)
    ensures x * f * SECTOR == x * (SECTOR * f)
  {
  }

  // ----- the commands that reach the SD driver -----

  /** Offsets and sizes in SD sectors. redmlcSize is the word that the card patch tests and that
      nothing sets; mlcType is the device type found in the handle that MLC requests carry. */
  datatype Config = Config(slcOff: U32, slcSize: U32, slccmptOff: U32, slccmptSize: U32,
                           mlcOff: U32, mlcSize: U32, redmlcSize: U32, mlcType: U32)

  /** The parameters sdcard_readwrite hands to the SD driver. */
  datatype SdCommand = SdCommand(count: U32, blockSize: U32, ctype: U32, offsetHigh: U32, offsetLow: U32)

  /** A request either goes to the function the patch replaces or becomes a command. */
  datatype Outcome = Original(hi: U32, lo: U32, count: U32, blockSize: U32) | Sent(c: SdCommand)

  /** The first block and how many, as the receiver sees them. */
  function Placed(o: Outcome): (nat, nat) {
    match o
    case Original(hi, lo, count, _) => (hi * TWO32 + lo, count)
    case Sent(c) => (c.offsetHigh * TWO32 + c.offsetLow, c.count)
  }

  /** What ends up with the driver for an offset in blocks of some size: a nonzero
      first argument makes a read, command type 3. */
  function CommandFor(read: U32, offset: U32, count: U32, blockSize: U32): SdCommand {
    var e := Adjusted(Extent(offset, count, blockSize));
    SdCommand(e.count, e.blockSize, if read != 0 then 3 else 0, 0, e.offset)
  }

  /** sdcard_readwrite, as far as the command. */
  method SdcardReadWrite(read: U32, count: U32, blockSize: U32, offset: U32) returns (c: SdCommand)
    ensures c == CommandFor(read, offset, count, blockSize)
    ensures (c.ctype == 3 <==> read != 0) && (c.ctype == 0 <==> read == 0) && c.offsetHigh == 0
  {
    var e := AdjustBlockSize(Extent(offset, count, blockSize));
    c := SdCommand(e.count, e.blockSize, if read != 0 then 3 else 0, 0, e.offset);
  }

  method ReadWriteCallback(read: U32, offsetOffset: U32, offsetLow: U32, count: U32, blockSize: U32)
    returns (c: SdCommand)
    ensures c == CommandFor(read, Wrap32(offsetLow + offsetOffset), count, blockSize)
    ensures (c.ctype == 3 <==> read != 0) && (c.ctype == 0 <==> read == 0)
  {
    c := SdcardReadWrite(read, count, blockSize, Wrap32(offsetLow + offsetOffset));
  }

  /** The SLC bank a device word selects: its offset and size. */
  function Bank(cfg: Config, device: U32): (U32, U32) {
    if device != 0 then (cfg.slcOff, cfg.slcSize) else (cfg.slccmptOff, cfg.slccmptSize)
  }

  function SlcRequest(device: U32, page: U32, count: U32): Request {
    if device != 0 then Slc(page, count) else Slccmpt(page, count)
  }

  /** slcRead1_patch and slcWrite1_patch: sent exactly if the bank has a size, and then, in pages,
      to where Landing says. The high word of the page number is overwritten. */
  method SlcReadWrite(cfg: Config, device: U32, read: U32, hi: U32, page: U32, count: U32, blockSize: U32)
    returns (o: Outcome)
    ensures var (off, size) := Bank(cfg, device);
      o == if size == 0 then Original(hi, page, count, blockSize)
           else Sent(CommandFor(read, Wrap32(page + off / 4), count, blockSize))
    ensures o.Sent? && blockSize == PAGE ==> Placed(o) == Landing(cfg, SlcRequest(device, page, count))
    ensures o.Sent? ==> (o.c.ctype == 3 <==> read != 0) && (o.c.ctype == 0 <==> read == 0)
  {
    hide Adjusted;
    var size := if device != 0 then cfg.slcSize else cfg.slccmptSize;
    if size == 0 {
      return Original(hi, page, count, blockSize);
    }
    var off := if device != 0 then cfg.slcOff else cfg.slccmptOff;
    var c := ReadWriteCallback(read, off / 4, page, count, blockSize);
    return Sent(c);
  }

  /** The card patch leaves requests of the card itself alone unless redmlc_size_sectors is set. */
  predicate CardPasses(cfg: Config, deviceType: U32) {
    deviceType == 5 && cfg.redmlcSize == 0
  }

  /** sdcardRead_patch and sdcardWrite_patch. The high word of the block number is dropped. */
  method SdReadWrite(cfg: Config, deviceType: U32, read: U32, hi: U32, lo: U32, count: U32, blockSize: U32)
    returns (o: Outcome)
    ensures o == if CardPasses(cfg, deviceType) then Original(hi, lo, count, blockSize)
                 else Sent(CommandFor(read, lo, count, blockSize))
    ensures o.Sent? ==> (o.c.ctype == 3 <==> read != 0) && (o.c.ctype == 0 <==> read == 0)
  {
    hide Adjusted;
    if deviceType == 5 && cfg.redmlcSize == 0 {
      return Original(hi, lo, count, blockSize);
    }
    var c := ReadWriteCallback(read, 0, lo, count, blockSize);
    SmallWord(lo);
    return Sent(c);
  }

  /** A request of the redirected MLC: read_wrapper or write_wrapper, then the card patch. In
      sectors it is placed where Landing says. */
  method MlcReadWrite(cfg: Config, read: U32, hi: U32, lo: U32, count: U32, blockSize: U32) returns (o: Outcome)
    ensures var (h, l) := AddOffset(hi, lo, cfg.mlcOff);
      o == if CardPasses(cfg, cfg.mlcType) then Original(h, l, count, blockSize)
           else Sent(CommandFor(read, l, count, blockSize))
    ensures blockSize == SECTOR ==> Placed(o) == Landing(cfg, Mlc(hi, lo, count))
    ensures o.Sent? ==> (o.c.ctype == 3 <==> read != 0) && (o.c.ctype == 0 <==> read == 0)
  {
    hide Adjusted;
    var combined: nat := (hi * 0x1_0000_0000 + lo + cfg.mlcOff) % 0x1_0000_0000_0000_0000;
    o := SdReadWrite(cfg, cfg.mlcType, read, combined / 0x1_0000_0000, combined % 0x1_0000_0000, count, blockSize);
    SectorAdjusted(combined % 0x1_0000_0000, count);
  }

  const PAGE: U32 := 0x800

  lemma PageAdjusted(offset: U32, count: U32)
    ensures Adjusted(Extent(offset, count, PAGE)) == Extent(offset * 4 % TWO32, count * 4 % TWO32, SECTOR)
  {
    assert Power2(2) == 2 * Power2(1) && Power2(1) == 2 * Power2(0);
    HalvingsOfMultiple(PAGE, 2);
    assert PAGE / 4 == SECTOR;
  }

  lemma SectorAdjusted(offset: U32, count: U32)
    ensures Adjusted(Extent(offset, count, SECTOR)) == Extent(offset, count, SECTOR)
  {
    HalvingsOfMultiple(SECTOR, 0);
    SmallWord(offset);
    SmallWord(count);
  }

  /** Page p of a bank lands on the four sectors from off + 4p exactly when the bank starts on
      a multiple of four sectors. */
  lemma PageSectorsExactly(off: U32, page: U32, count: U32)
    requires off + 4 * (page + count) < TWO32
    ensures var e := Adjusted(Extent(Wrap32(page + off / 4), count, PAGE));
      && e.blockSize == SECTOR && e.count == 4 * count
      && (e.offset == off + 4 * page <==> off % 4 == 0)
  {
    hide Adjusted;
    var n := page + off / 4;
    assert 4 * n == 4 * page + off - off % 4;
    SmallWord(n);
    PageAdjusted(n, count);
    SmallWord(n * 4);
    SmallWord(count * 4);
  }

  // ----- MLC: 64-bit block numbers -----

  /** ADD_OFFSET on a high and a low word. */
  function AddOffset(hi: U32, lo: U32, off: U32): (U32, U32) {
    var combined := (hi * TWO32 + lo + off) % (TWO32 * TWO32);
    (combined / TWO32, combined % TWO32)
  }

  /** The carry goes into the high word. */
  lemma AddOffsetCarries(hi: U32, lo: U32, off: U32)
    requires hi * TWO32 + lo + off < TWO32 * TWO32
    ensures var (h, l) := AddOffset(hi, lo, off);
      && h * TWO32 + l == hi * TWO32 + lo + off
      && h == hi + (if lo + off >= TWO32 then 1 else 0) && l == Wrap32(lo + off)
  {
    var sum := hi * TWO32 + lo + off;
    var c := if lo + off >= TWO32 then 1 else 0;
    assert sum == TWO32 * (hi + c) + (lo + off - c * TWO32);
  }

  // ----- regions -----

  /** A request on one of the three redirected stores, in that store's own units. */
  datatype Request =
    | Slc(page: U32, count: U32)
    | Slccmpt(page: U32, count: U32)
    | Mlc(hi: U32, lo: U32, count: U32)

  /** The first sector and how many, by the code's own arithmetic. */
  function Landing(cfg: Config, r: Request): (nat, nat) {
    match r
    case Slc(page, count) =>
      var e := Adjusted(Extent(Wrap32(page + cfg.slcOff / 4), count, PAGE));
      (e.offset, e.count)
    case Slccmpt(page, count) =>
      var e := Adjusted(Extent(Wrap32(page + cfg.slccmptOff / 4), count, PAGE));
      (e.offset, e.count)
    case Mlc(hi, lo, count) =>
      var (h, l) := AddOffset(hi, lo, cfg.mlcOff);
      (if CardPasses(cfg, cfg.mlcType) then h * TWO32 + l else l, count)
  }

  /** Block n of the redirected MLC lands on offset + n exactly if the original function gets it
      or the sum is a word: the card patch drops what is above. */
  lemma MlcLandsExactly(cfg: Config, hi: U32, lo: U32, count: U32)
    requires hi * TWO32 + lo + cfg.mlcOff < TWO32 * TWO32
    ensures Landing(cfg, Mlc(hi, lo, count)).0 == cfg.mlcOff + (hi * TWO32 + lo)
       <==> CardPasses(cfg, cfg.mlcType) || cfg.mlcOff + (hi * TWO32 + lo) < TWO32
  {
    hide AddOffset;
    AddOffsetCarries(hi, lo, cfg.mlcOff);
  }

  /** The part of the card a store has been given. */
  function Region(cfg: Config, r: Request): (nat, nat) {
    match r
    case Slc(_, _) => (cfg.slcOff, cfg.slcSize)
    case Slccmpt(_, _) => (cfg.slccmptOff, cfg.slccmptSize)
    case Mlc(_, _, _) => (cfg.mlcOff, cfg.mlcSize)
  }

  /** The request asks for nothing beyond its store's size. */
  predicate Fits(cfg: Config, r: Request) {
    match r
    case Slc(page, count) => 4 * (page + count) <= cfg.slcSize
    case Slccmpt(page, count) => 4 * (page + count) <= cfg.slccmptSize
    case Mlc(hi, lo, count) => hi * TWO32 + lo + count <= cfg.mlcSize
  }

  predicate Apart(a: int, n: int, b: int, m: int) {
    a + n <= b || b + m <= a
  }

  /** Stretches are apart exactly if they have nothing in common. */
  lemma ApartExactly(a: int, n: int, b: int, m: int)
    requires n > 0 && m > 0
    ensures Apart(a, n, b, m) <==> forall x :: !Within(x, a, n) || !Within(x, b, m)
  {
    var x := if a < b then b else a;
    assert !Apart(a, n, b, m) ==> Within(x, a, n) && Within(x, b, m);
  }

  predicate Within(x: int, a: int, n: int) { a <= x < a + n }

  /** Regions that lie on the card without overlap, the SLC ones starting on whole pages. */
  predicate GoodConfig(cfg: Config) {
    && cfg.slcOff % 4 == 0 && cfg.slccmptOff % 4 == 0
    && cfg.slcOff + cfg.slcSize < TWO32 && cfg.slccmptOff + cfg.slccmptSize < TWO32 && cfg.mlcOff + cfg.mlcSize < TWO32
    && Apart(cfg.slcOff, cfg.slcSize, cfg.slccmptOff, cfg.slccmptSize)
    && Apart(cfg.slcOff, cfg.slcSize, cfg.mlcOff, cfg.mlcSize)
    && Apart(cfg.slccmptOff, cfg.slccmptSize, cfg.mlcOff, cfg.mlcSize)
  }

  /** Where a fitting request lands: at its store's offset plus its own position. */
  lemma LandsAtOffset(cfg: Config, r: Request)
    requires GoodConfig(cfg) && Fits(cfg, r)
    ensures Landing(cfg, r) ==
      match r
      case Slc(page, count) => (cfg.slcOff + 4 * page, 4 * count)
      case Slccmpt(page, count) => (cfg.slccmptOff + 4 * page, 4 * count)
      case Mlc(hi, lo, count) => (cfg.mlcOff + hi * TWO32 + lo, count)
  {
    hide Adjusted, AddOffset;
    match r
    case Slc(page, count) => PageSectorsExactly(cfg.slcOff, page, count);
    case Slccmpt(page, count) => PageSectorsExactly(cfg.slccmptOff, page, count);
    case Mlc(hi, lo, count) => MlcLandsExactly(cfg, hi, lo, count);
  }

  /** No request leaves its region, and so no sector is ever shared between two stores. */
  lemma StoresNeverShareASector(cfg: Config, r: Request, r': Request, x: int)
    requires GoodConfig(cfg) && Fits(cfg, r) && Fits(cfg, r')
    ensures var ((start, count), (off, size)) := (Landing(cfg, r), Region(cfg, r));
      Within(x, start, count) ==> Within(x, off, size)
    ensures var ((start, count), (start', count')) := (Landing(cfg, r), Landing(cfg, r'));
      Within(x, start, count) && Within(x, start', count') ==> (r.Slc? <==> r'.Slc?) && (r.Mlc? <==> r'.Mlc?)
  {
    hide Landing;
    LandsAtOffset(cfg, r);
    LandsAtOffset(cfg, r');
  }

  /** Within a store, requests for different pages or blocks share no sector either. */
  lemma DifferentPagesDifferentSectors(cfg: Config, r: Request, r': Request, x: int)
    requires GoodConfig(cfg) && Fits(cfg, r) && Fits(cfg, r') && (r.Slc? <==> r'.Slc?) && (r.Mlc? <==> r'.Mlc?)
    requires match r
      case Slc(p, n) => Apart(p, n, r'.page, r'.count)
      case Slccmpt(p, n) => Apart(p, n, r'.page, r'.count)
      case Mlc(hi, lo, n) => Apart(hi * TWO32 + lo, n, r'.hi * TWO32 + r'.lo, r'.count)
    ensures var ((start, count), (start', count')) := (Landing(cfg, r), Landing(cfg, r'));
      !(Within(x, start, count) && Within(x, start', count'))
  {
    hide Landing;
    LandsAtOffset(cfg, r);
    LandsAtOffset(cfg, r');
  }

  // ----- the partition wrappers -----

  /** A device's operation as a function pointer: the real one, the wrapper around what was
      saved, or the handler that crashes. */
  datatype Op = Real(id: nat) | Wrapper | Crash

  /** A call under way, or what came of it. */
  datatype Call = Inside(op: Op, hi: U32, lo: U32) | Reached(id: nat, hi: U32, lo: U32) | Crashed

  /** The next call: a wrapper adds the offset and calls what was saved. */
  function Step(saved: Op, off: U32, c: Call): Call {
    match c
    case Inside(Real(id), hi, lo) => Reached(id, hi, lo)
    case Inside(Crash, _, _) => Crashed
    case Inside(Wrapper, hi, lo) => var (h, l) := AddOffset(hi, lo, off); Inside(saved, h, l)
    case Reached(_, _, _) => c
    case Crashed => c
  }

  function Steps(saved: Op, off: U32, c: Call, n: nat): Call {
    if n == 0 then c else Step(saved, off, Steps(saved, off, c, n - 1))
  }

  /** With a wrapper saved as the real operation, after any number of calls another is made. */
  lemma {:induction false} StillInside(off: U32, hi: U32, lo: U32, n: nat)
    ensures var c := Steps(Wrapper, off, Inside(Wrapper, hi, lo), n); c.Inside? && c.op == Wrapper
  {
    hide AddOffset;
    if n > 0 {
      StillInside(off, hi, lo, n - 1);
    }
  }

  ghost predicate Ends(saved: Op, off: U32, c: Call) {
    exists n :: !Steps(saved, off, c, n).Inside?
  }

  /** A call of the wrapper comes to an end exactly if what was saved is not the wrapper; a real
      operation is then reached once, at the moved address. */
  lemma EndsExactly(saved: Op, off: U32, hi: U32, lo: U32)
    ensures Ends(saved, off, Inside(Wrapper, hi, lo)) <==> saved != Wrapper
    ensures saved.Real? ==>
      var (h, l) := AddOffset(hi, lo, off);
      Steps(saved, off, Inside(Wrapper, hi, lo), 2) == Reached(saved.id, h, l)
  {
    hide AddOffset;
    var c := Inside(Wrapper, hi, lo);
    if saved == Wrapper {
      forall n: nat
        ensures Steps(saved, off, c, n).Inside?
      {
        StillInside(off, hi, lo, n);
      }
    } else {
      assert Steps(saved, off, c, 0) == c;
      assert Steps(saved, off, c, 1) == Inside(saved, AddOffset(hi, lo, off).0, AddOffset(hi, lo, off).1);
      assert !Steps(saved, off, c, 2).Inside?;
    }
  }

  datatype Kind = Read | Write | Sync

  class AttachArg {
    var opRead: Op
    var opWrite: Op
    var opRead2: Op
    var opWrite2: Op
    var opSync: Op
    var deviceType: U32
    var maxLba: U32
    var blockCount: U32

    function OpOf(kind: Kind): Op
      reads this
    {
      match kind
      case Read => opRead
      case Write => opWrite
      case Sync => opSync
    }
  }

  class Partition {
    var offset: U32
    var size: U32
    var realRead: Op
    var realWrite: Op
    var realSync: Op

    function Saved(kind: Kind): Op
      reads this
    {
      match kind
      case Read => realRead
      case Write => realWrite
      case Sync => realSync
    }

    /** patch_partition_attach_arg: each operation is saved and replaced by its wrapper. */
    method PatchAttachArg(arg: AttachArg, deviceType: U32)
      modifies `realRead, `realWrite, `realSync, arg
      ensures forall kind: Kind :: Saved(kind) == old(arg.OpOf(kind)) && arg.OpOf(kind) == Wrapper
      ensures arg.opRead2 == Crash && arg.opWrite2 == Crash
      ensures arg.deviceType == deviceType && arg.maxLba == Wrap32(size - 1) && arg.blockCount == size
    {
      realRead := arg.opRead;
      realWrite := arg.opWrite;
      realSync := arg.opSync;
      arg.opRead := Wrapper;
      arg.opWrite := Wrapper;
      arg.opRead2 := Crash;
      arg.opWrite2 := Crash;
      arg.opSync := Wrapper;
      arg.deviceType := deviceType;
      arg.maxLba := Wrap32(size - 1);
      arg.blockCount := size;
    }

    /** A device attached through the patch: any of its operations comes to an end exactly if the
        argument did not hold a wrapper before. */
    method Attach(arg: AttachArg, deviceType: U32)
      modifies `realRead, `realWrite, `realSync, arg
      ensures forall kind: Kind, hi: U32, lo: U32 ::
        Ends(Saved(kind), offset, Inside(arg.OpOf(kind), hi, lo)) <==> old(arg.OpOf(kind)) != Wrapper
    {
      hide Ends;
      PatchAttachArg(arg, deviceType);
      forall kind: Kind, hi: U32, lo: U32
        ensures Ends(Saved(kind), offset, Inside(arg.OpOf(kind), hi, lo)) <==> old(arg.OpOf(kind)) != Wrapper
      {
        EndsExactly(Saved(kind), offset, hi, lo);
      }
    }

    /** Patching one argument twice: none of its operations comes to an end. */
    method AttachTwice(arg: AttachArg, deviceType: U32)
      modifies `realRead, `realWrite, `realSync, arg
      ensures forall kind: Kind, hi: U32, lo: U32, n: nat ::
        Steps(Saved(kind), offset, Inside(arg.OpOf(kind), hi, lo), n).Inside?
    {
      hide Steps;
      PatchAttachArg(arg, deviceType);
      PatchAttachArg(arg, deviceType);
      forall kind: Kind, hi: U32, lo: U32, n: nat
        ensures Steps(Saved(kind), offset, Inside(arg.OpOf(kind), hi, lo), n).Inside?
      {
        StillInside(offset, hi, lo, n);
      }
    }
  }
}
