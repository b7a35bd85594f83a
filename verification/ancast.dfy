/** The encrypted body of the image that scripts/anpack.py writes. */
module Ancast {
  import opened Words
  import opened Anpack
  import opened Quotients

  type Block = b: seq<Byte> | |b| == 16 witness seq(16, i => 0)
  type Digest = d: seq<Byte> | |d| == 20 witness seq(20, i => 0)

  // ----- cipher block chaining, section 6.2 of NIST SP 800-38A -----

  /** Exclusive or of the low n bits. */
  function XorBits(a: nat, b: nat, n: nat): (x: nat)
    decreases n
  {
    if n == 0 then 0 else 2 * XorBits(a / 2, b / 2, n - 1) + if a % 2 == b % 2 then 0 else 1
  }

  lemma {:induction false} XorBitsBound(a: nat, b: nat, n: nat)
    ensures XorBits(a, b, n) < Power2(n)
    decreases n
  {
    if n > 0 {
      XorBitsBound(a / 2, b / 2, n - 1);
    }
  }

  lemma {:induction false} XorBitsTwice(a: nat, b: nat, n: nat)
    requires a < Power2(n)
    ensures XorBits(XorBits(a, b, n), b, n) == a
    decreases n
  {
    if n > 0 {
      XorBitsTwice(a / 2, b / 2, n - 1);
    }
  }

  /** Bit k of a number. */
  function Bit(a: nat, k: nat): nat { a / Power2(k) % 2 }

  lemma BitOfHalf(a: nat, k: nat)
    requires k > 0
    ensures Bit(a, k) == Bit(a / 2, k - 1)
  {
    var p := Power2(k - 1);
    var q, r := a / 2 / p, a / 2 % p;
    TwiceAsMuch(q, p, r, a);
    QuotientIs(a, 2 * p, q, 2 * r + a % 2);
  }

  lemma TwiceAsMuch(q: nat, p: nat, r: nat, a: nat)
    requires a / 2 == q * p + r
    ensures a == q * (2 * p) + (2 * r + a % 2)
  {
  }

  /** Bit k of the result is set exactly where those of the operands differ. */
  lemma {:induction false} XorByBit(a: nat, b: nat, n: nat, k: nat)
    requires k < n
    ensures Bit(XorBits(a, b, n), k) == 1 <==> Bit(a, k) != Bit(b, k)
    decreases n
  {
    var x := XorBits(a, b, n);
    if k > 0 {
      XorByBit(a / 2, b / 2, n - 1, k - 1);
      assert x / 2 == XorBits(a / 2, b / 2, n - 1);
      hide Bit, XorBits;
      BitOfHalf(x, k);
      BitOfHalf(a, k);
      BitOfHalf(b, k);
    }
  }

  /** Numbers that have the same bits are the same. */
  lemma {:induction false} SameBits(a: nat, b: nat, n: nat)
    requires a < Power2(n) && b < Power2(n) && forall k :: 0 <= k < n ==> Bit(a, k) == Bit(b, k)
    ensures a == b
    decreases n
  {
    if n > 0 {
      assert Bit(a, 0) == a % 2 && Bit(b, 0) == b % 2;
      hide Bit;
      forall k | 0 <= k < n - 1
        ensures Bit(a / 2, k) == Bit(b / 2, k)
      {
        BitOfHalf(a, k + 1);
        BitOfHalf(b, k + 1);
        assert Bit(a, k + 1) == Bit(b, k + 1);
      }
      SameBits(a / 2, b / 2, n - 1);
    }
  }

  lemma EightBits()
    ensures Power2(8) == 0x100
  {
    assert Power2(4) == 16;
  }

  function XorByte(a: Byte, b: Byte): Byte {
    EightBits();
    XorBitsBound(a, b, 8);
    XorBits(a, b, 8)
  }

  function Xor(a: Block, b: Block): Block {
    seq(16, i requires 0 <= i < 16 => XorByte(a[i], b[i]))
  }

  /** One pass over whole blocks. */
  function Cbc(e: Block -> Block, iv: Block, data: seq<Byte>): (c: seq<Byte>)
    requires |data| % 16 == 0
    ensures |c| == |data|
    decreases |data|
  {
    if data == [] then []
    else
      var c := e(Xor(data[..16], iv));
      c + Cbc(e, c, data[16..])
  }

  /** Where a pass has got to: the last block of its output. */
  function NextIv(iv: Block, c: seq<Byte>): Block {
    if |c| < 16 then iv else c[|c| - 16..]
  }

  /** The bits set in x are those in which a and b differ. */
  ghost predicate IsXor(x: Block, a: Block, b: Block) {
    forall i, k :: 0 <= i < 16 && 0 <= k < 8 ==> (Bit(x[i], k) == 1 <==> Bit(a[i], k) != Bit(b[i], k))
  }

  lemma XorIs(a: Block, b: Block)
    ensures IsXor(Xor(a, b), a, b)
  {
    hide XorBits, Bit;
    forall i, k | 0 <= i < 16 && 0 <= k < 8
      ensures Bit(Xor(a, b)[i], k) == 1 <==> Bit(a[i], k) != Bit(b[i], k)
    {
      XorByBit(a[i], b[i], 8, k);
    }
  }

  /** The defining equations of the mode: block j is the cipher of the block whose set bits are
      those in which plaintext block j and ciphertext block j - 1 differ. */
  lemma CbcBlock(e: Block -> Block, iv: Block, data: seq<Byte>, j: nat) returns (x: Block)
    requires |data| % 16 == 0 && 16 * j + 16 <= |data|
    ensures var c := Cbc(e, iv, data);
      && c[16 * j..16 * j + 16] == e(x)
      && IsXor(x, data[16 * j..16 * j + 16], if j == 0 then iv else c[16 * j - 16..16 * j])
  {
    hide Xor, Cbc, IsXor;
    var c := Cbc(e, iv, data);
    var a, b := data[16 * j..16 * j + 16], if j == 0 then iv else c[16 * j - 16..16 * j];
    x := Xor(a, b);
    CbcBlockIs(e, iv, data, j);
    XorIs(a, b);
  }

  lemma {:induction false} CbcBlockIs(e: Block -> Block, iv: Block, data: seq<Byte>, j: nat)
    requires |data| % 16 == 0 && 16 * j + 16 <= |data|
    ensures var c := Cbc(e, iv, data);
      c[16 * j..16 * j + 16] == e(Xor(data[16 * j..16 * j + 16], if j == 0 then iv else c[16 * j - 16..16 * j]))
    decreases j
  {
    hide Xor;
    var first := e(Xor(data[..16], iv));
    var c, rest := Cbc(e, iv, data), Cbc(e, first, data[16..]);
    assert c == first + rest;
    if j == 0 {
      assert c[0..16] == first && data[0..16] == data[..16];
    } else {
      CbcBlockIs(e, first, data[16..], j - 1);
      SliceBehind(first, rest, 16 * (j - 1), 16 * j);
      SliceBehind(data[..16], data[16..], 16 * (j - 1), 16 * j);
      assert data[..16] + data[16..] == data;
      if j == 1 {
        assert c[0..16] == first;
      } else {
        SliceBehind(first, rest, 16 * (j - 2), 16 * (j - 1));
      }
    }
  }

  lemma SliceBehind(first: seq<Byte>, rest: seq<Byte>, a: nat, b: nat)
    requires |first| == 16 && a <= b <= |rest|
    ensures (first + rest)[a + 16..b + 16] == rest[a..b]
  {
  }

  /** A pass may stop at a block boundary and go on with the last ciphertext block as its
      initialization vector. */
  lemma {:induction false} CbcAppend(e: Block -> Block, iv: Block, a: seq<Byte>, b: seq<Byte>)
    requires |a| % 16 == 0 && |b| % 16 == 0
    ensures Cbc(e, iv, a + b) == Cbc(e, iv, a) + Cbc(e, NextIv(iv, Cbc(e, iv, a)), b)
    decreases |a|
  {
    hide Xor, NextIv;
    if a == [] {
      NextIvAtStart(iv);
      assert a + b == b;
    } else {
      var c := e(Xor(a[..16], iv));
      assert (a + b)[..16] == a[..16] && (a + b)[16..] == a[16..] + b;
      CbcAppend(e, c, a[16..], b);
      var rest := Cbc(e, c, a[16..]);
      NextIvOfRest(iv, c, rest);
      assert Cbc(e, iv, a) == c + rest;
      assert c + (rest + Cbc(e, NextIv(c, rest), b)) == c + rest + Cbc(e, NextIv(c, rest), b);
    }
  }

  lemma NextIvAtStart(iv: Block)
    ensures NextIv(iv, []) == iv
  {
  }

  lemma NextIvOfRest(iv: Block, c: Block, rest: seq<Byte>)
    requires |rest| % 16 == 0
    ensures NextIv(iv, c + rest) == NextIv(c, rest)
  {
    if rest == [] {
      assert c + rest == c;
    }
  }

  /** Section 6.2's decryption. */
  function CbcDecrypt(d: Block -> Block, iv: Block, c: seq<Byte>): (p: seq<Byte>)
    requires |c| % 16 == 0
    ensures |p| == |c|
    decreases |c|
  {
    if c == [] then [] else Xor(d(c[..16]), iv) + CbcDecrypt(d, c[..16], c[16..])
  }

  lemma XorByteTwice(a: Byte, b: Byte)
    ensures XorByte(XorByte(a, b), b) == a
  {
    hide XorBits;
    EightBits();
    XorBitsTwice(a, b, 8);
  }

  lemma XorTwice(a: Block, b: Block)
    ensures Xor(Xor(a, b), b) == a
  {
    hide XorByte;
    forall i | 0 <= i < 16
      ensures XorByte(XorByte(a[i], b[i]), b[i]) == a[i]
    {
      XorByteTwice(a[i], b[i]);
    }
  }

  /** Whatever inverts the block function decrypts the body. */
  lemma {:induction false} CbcDecrypts(e: Block -> Block, d: Block -> Block, iv: Block, data: seq<Byte>)
    requires |data| % 16 == 0 && forall b :: d(e(b)) == b
    ensures CbcDecrypt(d, iv, Cbc(e, iv, data)) == data
    decreases |data|
  {
    hide Xor;
    if data != [] {
      var c := e(Xor(data[..16], iv));
      var all := Cbc(e, iv, data);
      assert all[..16] == c && all[16..] == Cbc(e, c, data[16..]);
      XorTwice(data[..16], iv);
      CbcDecrypts(e, d, c, data[16..]);
    }
  }

  // ----- encrypt -----

  /** How much of a body of n bytes the loop takes: it stops at a chunk of fewer than 16. */
  function Taken(n: nat): (t: nat)
    ensures t <= n
  {
    if n % 0x4000 < 16 then n - n % 0x4000 else n
  }

  /** The body as stored. */
  function Stored(e: Block -> Block, iv: Block, noCrypto: bool, body: seq<Byte>): seq<Byte>
    requires noCrypto || |body| % 16 == 0
  {
    if noCrypto then body[..Taken(|body|)] else Cbc(e, iv, body)
  }

  lemma ReadsNext(data: seq<Byte>, offset: nat, i: nat)
    requires offset + i <= |data|
    ensures var body, dec := data[offset..], ReadAt(data, offset + i, 0x4000);
      i + |dec| <= |body| && body[..i] + dec == body[..i + |dec|]
        && |dec| == if i + 0x4000 < |body| then 0x4000 else |body| - i
  {
  }

  /** Where the loop can stand in a body of n bytes. */
  ghost predicate AtChunk(i: nat, n: nat) {
    i <= n && (i % 0x4000 == 0 || (i == n && i % 0x4000 >= 16))
  }

  lemma ChunkStep(i: nat, n: nat, size: nat)
    requires AtChunk(i, n) && size == if i + 0x4000 < n then 0x4000 else n - i
    ensures size >= 16 ==> AtChunk(i + size, n)
    ensures size < 16 ==> Taken(n) == i
  {
    if i % 0x4000 == 0 {
      SmallRemainder(i, size);
    }
  }

  lemma SmallRemainder(i: nat, size: nat)
    requires size <= 0x4000 && i % 0x4000 == 0
    ensures (i + size) % 0x4000 == if size == 0x4000 then 0 else size
  {
    var q := i / 0x4000;
    if size == 0x4000 {
      assert i + size == 0x4000 * (q + 1);
    } else {
      assert i + size == 0x4000 * q + size;
    }
  }

  /** The loop has taken i bytes of the body. */
  ghost predicate Progress(e: Block -> Block, iv0: Block, noCrypto: bool, body: seq<Byte>, i: nat, buffer: seq<Byte>,
                           iv: Block) {
    && i <= |body| && AtChunk(i, |body|)
    && (noCrypto ==> buffer == body[..i])
    && (!noCrypto ==> i % 16 == 0 && buffer == Cbc(e, iv0, body[..i]) && iv == NextIv(iv0, buffer))
  }

  lemma ProgressStarts(e: Block -> Block, iv0: Block, noCrypto: bool, body: seq<Byte>)
    ensures Progress(e, iv0, noCrypto, body, 0, [], iv0)
  {
  }

  lemma ProgressStep(e: Block -> Block, iv0: Block, noCrypto: bool, body: seq<Byte>, i: nat, buffer: seq<Byte>,
                     iv: Block,
                     dec: seq<Byte>, enc: seq<Byte>)
    requires Progress(e, iv0, noCrypto, body, i, buffer, iv) && |dec| >= 16
    requires i + |dec| <= |body| && body[..i] + dec == body[..i + |dec|]
    requires |dec| == if i + 0x4000 < |body| then 0x4000 else |body| - i
    requires if noCrypto then enc == dec else |dec| % 16 == 0 && enc == Cbc(e, iv, dec)
    ensures Progress(e, iv0, noCrypto, body, i + |dec|, buffer + enc, enc[|enc| - 16..])
  {
    hide Cbc, AtChunk, NextIv;
    ChunkStep(i, |body|, |dec|);
    if !noCrypto {
      CbcAppend(e, iv0, body[..i], dec);
      NextIvIsTail(iv0, buffer, enc);
      BlocksAdd(i, |dec|);
    }
  }

  lemma NextIvIsTail(iv: Block, buffer: seq<Byte>, enc: seq<Byte>)
    requires |enc| >= 16
    ensures NextIv(iv, buffer + enc) == enc[|enc| - 16..]
  {
  }

  lemma BlocksAdd(i: nat, size: nat)
    requires i % 16 == 0 && size % 16 == 0
    ensures (i + size) % 16 == 0
  {
  }

  lemma ProgressEnds(e: Block -> Block, iv0: Block, noCrypto: bool, body: seq<Byte>, i: nat, buffer: seq<Byte>,
                     iv: Block, size: nat)
    requires Progress(e, iv0, noCrypto, body, i, buffer, iv) && size < 16
    requires noCrypto || |body| % 16 == 0
    requires size == if i + 0x4000 < |body| then 0x4000 else |body| - i
    ensures buffer == Stored(e, iv0, noCrypto, body)
  {
    hide Cbc, AtChunk, Taken;
    ChunkStep(i, |body|, size);
    if !noCrypto {
      WholeBlocks(i, |body|, size);
    }
    assert body[..|body|] == body;
  }

  lemma WholeBlocks(i: nat, n: nat, size: nat)
    requires n % 16 == 0 && i % 16 == 0 && size == if i + 0x4000 < n then 0x4000 else n - i
    ensures size % 16 == 0
  {
  }

  /** encrypt: the body is replaced by its stored form, and what is hashed is just that. */
  method Encrypt(file: File, offset: nat, noCrypto: bool, e: Block -> Block, iv0: Block) returns (hashed: seq<Byte>)
    requires offset <= |file.data| && (noCrypto || (|file.data| - offset) % 16 == 0)
    modifies file
    ensures hashed == Stored(e, iv0, noCrypto, old(file.data)[offset..])
    ensures file.data == WriteAt(old(file.data), offset, hashed)
  {
    ghost var data, body := file.data, file.data[offset..];
    file.Seek(offset);
    var buffer: seq<Byte> := [];
    var iv: Block := iv0;
    hashed := [];
    ghost var i := 0;
    ProgressStarts(e, iv0, noCrypto, body);
    while true
      invariant i <= |body| && file.pos == offset + i && file.data == data && buffer == hashed
      invariant !noCrypto ==> i % 16 == 0
      invariant Progress(e, iv0, noCrypto, body, i, buffer, iv)
      decreases |body| - i
    {
      hide Cbc, WriteAt, ReadAt, Progress, Stored;
      var dec := file.Read(0x4000);
      ReadsNext(data, offset, i);
      if |dec| < 0x10 {
        ProgressEnds(e, iv0, noCrypto, body, i, buffer, iv, |dec|);
        break;
      }
      var enc: seq<Byte>;
      if noCrypto {
        enc := dec;
      } else {
        WholeBlocks(i, |body|, |dec|);
        enc := Cbc(e, iv, dec);
      }
      ProgressStep(e, iv0, noCrypto, body, i, buffer, iv, dec, enc);
      hashed := hashed + enc;
      buffer := buffer + enc;
      iv := enc[|enc| - 0x10..];
      i := i + |dec|;
    }
    file.Seek(offset);
    file.Write(buffer);
  }

  // ----- the whole image -----

  const BODY := 0x200

  /** Rounded up to whole pages. */
  function RoundUp(size: int): (r: int)
    ensures r % 0x1000 == 0 && size <= r < size + 0x1000
  {
    (size + 0xFFF) / 0x1000 * 0x1000
  }

  /** The image before encryption: container header, ELF, zeros up to whole pages behind BODY. */
  function Plain(header: seq<Byte>, h: Ehdr, ps: seq<Phdr>): seq<Byte> {
    var written := FileAfter(WriteAt([], 0, header), |header|, h, ps, |ps|);
    PagesStart(|written|);
    written + seq(RoundUp(|written| - BODY) + BODY - |written|, i => 0)
  }

  lemma PlainPages(header: seq<Byte>, h: Ehdr, ps: seq<Phdr>)
    ensures var data := Plain(header, h, ps); |data| >= BODY && (|data| - BODY) % 0x1000 == 0
  {
    hide RoundUp, FileAfter, WriteAt;
    PagesStart(|FileAfter(WriteAt([], 0, header), |header|, h, ps, |ps|)|);
  }

  lemma PagesStart(n: nat)
    ensures RoundUp(n - BODY) >= 0
  {
  }

  lemma PagesAreTaken(n: nat)
    requires n % 0x1000 == 0
    ensures Taken(n) == n
  {
    var r, q := n % 0x4000, n / 0x4000;
    assert n == 0x4000 * q + r;
    SmallMultiple(4 * q, r);
  }

  lemma SmallMultiple(q: nat, r: nat)
    requires r < 0x4000 && (0x1000 * q + r) % 0x1000 == 0
    ensures r < 16 ==> r == 0
  {
  }

  lemma PagesAreBlocks(n: nat)
    requires n % 0x1000 == 0
    ensures n % 16 == 0
  {
    MultipleOf16(0x100 * (n / 0x1000));
  }

  lemma MultipleOf16(k: nat)
    ensures 16 * k % 16 == 0
  {
  }

  /** Of whole pages everything is stored. */
  lemma PagesStored(e: Block -> Block, iv: Block, noCrypto: bool, body: seq<Byte>)
    requires |body| % 0x1000 == 0
    ensures |body| % 16 == 0 && Stored(e, iv, noCrypto, body) == if noCrypto then body else Cbc(e, iv, body)
    ensures |Stored(e, iv, noCrypto, body)| == |body|
  {
    hide Cbc, Taken;
    PagesAreTaken(|body|);
    PagesAreBlocks(|body|);
    assert body[..|body|] == body;
  }

  lemma StampKeepsBody(data: seq<Byte>, pos: nat, s: seq<Byte>)
    requires pos + |s| <= BODY <= |data|
    ensures |WriteAt(data, pos, s)| == |data| && WriteAt(data, pos, s)[BODY..] == data[BODY..]
  {
    hide WriteAt;
    Overwritten(data, pos, s, BODY, |data|);
  }

  lemma WriteAtEnd(data: seq<Byte>, s: seq<Byte>)
    ensures WriteAt(data, |data|, s) == data + s
  {
  }

  /** A write within the file, and a stretch that it does not reach. */
  lemma Overwritten(data: seq<Byte>, pos: nat, s: seq<Byte>, a: nat, b: nat)
    requires pos + |s| <= |data| && a <= b <= |data| && (b <= pos || pos + |s| <= a)
    ensures var r := WriteAt(data, pos, s);
      |r| == |data| && r[pos..pos + |s|] == s && r[a..b] == data[a..b]
  {
    var r := WriteAt(data, pos, s);
    if s != [] {
      assert |r| == |data|;
      forall k | a <= k < b
        ensures r[k] == data[k]
      {
        WrittenByte(data, pos, s, k);
      }
      forall k | 0 <= k < |s|
        ensures r[pos + k] == s[k]
      {
        WrittenByte(data, pos, s, pos + k);
      }
    }
  }

  class Ancast {
    const header: seq<Byte>
    const elf: Elf
    const noCrypto: bool

    constructor (container: seq<Byte>, contents: Elf, plain: bool)
      ensures header == container && elf == contents && noCrypto == plain
    {
      header, elf, noCrypto := container, contents, plain;
    }

    /** ancast.write, on a new file: whole pages follow the header area, they are the padded image
        as it is or in one pass of the cipher, and the header area holds their size and digest. */
    method Write(file: File, e: Block -> Block, iv: Block, sha1: seq<Byte> -> Digest)
      requires file.data == [] && file.pos == 0
      requires elf.hdr.phnum == |elf.phdrs| && |elf.hdr.ident| == 16
      modifies file, elf
      ensures var plain := Plain(header, old(elf.hdr), old(elf.phdrs));
        && |file.data| == |plain| && |plain| >= BODY && (|plain| - BODY) % 0x1000 == 0
        && |plain[BODY..]| % 16 == 0
        && file.data[BODY..] == (if noCrypto then plain[BODY..] else Cbc(e, iv, plain[BODY..]))
        && file.data[0x1AC..0x1B0] == PackField(4, |file.data| - BODY)
        && file.data[0x1B0..0x1C4] == sha1(file.data[BODY..])
        && (noCrypto ==> file.data[0x1A0..0x1A2] == PackField(2, 1))
    {
      hide FileAfter, WriteAt, Cbc, Stored, RoundUp, PackField;
      file.Write(header);
      elf.Write(file, |header|);
      ghost var plain := Plain(header, old(elf.hdr), old(elf.phdrs));
      var total := Pad(file);
      assert file.data == plain;
      PlainPages(header, old(elf.hdr), old(elf.phdrs));
      hide Plain;
      PagesStored(e, iv, noCrypto, plain[BODY..]);
      var hashed := Encrypt(file, 0x200, noCrypto, e, iv);
      Overwritten(plain, BODY, hashed, 0, 0);
      assert file.data[BODY..] == hashed;
      Stamp(file, total, sha1(hashed));
    }

    /** The zeros behind the written image. */
    method Pad(file: File) returns (total: nat)
      modifies file
      ensures BODY + total == |file.data| && total == RoundUp(|old(file.data)| - BODY)
      ensures file.data == old(file.data) + seq(total + BODY - |old(file.data)|, i => 0)
    {
      hide WriteAt, RoundUp;
      file.SeekEnd();
      var size := file.pos - 0x200;
      PagesStart(file.pos);
      total := RoundUp(size);
      WriteAtEnd(file.data, seq(total - size, i => 0));
      file.Write(seq(total - size, i => 0));
    }

    /** The fields put into the header area at the end. */
    method Stamp(file: File, total: nat, digest: Digest)
      requires |file.data| >= BODY
      modifies file
      ensures |file.data| == |old(file.data)| && file.data[BODY..] == old(file.data)[BODY..]
      ensures file.data[0x1AC..0x1B0] == PackField(4, total) && file.data[0x1B0..0x1C4] == digest
      ensures noCrypto ==> file.data[0x1A0..0x1A2] == PackField(2, 1)
    {
      hide WriteAt, PackField;
      if noCrypto {
        StampKeepsBody(file.data, 0x1A0, PackField(2, 1));
        Overwritten(file.data, 0x1A0, PackField(2, 1), 0, 0);
        file.Seek(0x1A0);
        file.Write(PackField(2, 1));
      }
      StampKeepsBody(file.data, 0x1AC, PackField(4, total));
      Overwritten(file.data, 0x1AC, PackField(4, total), 0x1A0, 0x1A2);
      file.Seek(0x1AC);
      file.Write(PackField(4, total));
      StampKeepsBody(file.data, 0x1B0, digest);
      Overwritten(file.data, 0x1B0, digest, 0x1A0, 0x1A2);
      Overwritten(file.data, 0x1B0, digest, 0x1AC, 0x1B0);
      file.Write(digest);
    }
  }
}
