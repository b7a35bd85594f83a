/** Bytes inside 32-bit buffer words, on hosts of either byte order. */
module Sha1Bytes {
  import opened Sha1Spec

  function Rotr8(x: bv32): bv32 { (x >> 8) | (x << 24) }
  function Rotr24(x: bv32): bv32 { (x >> 24) | (x << 8) }

  function Bswap32(x: bv32): bv32 {
    (Rotr24(x) & 0x00ff00ff) | (Rotr8(x) & 0xff00ff00)
  }

  /** A word with byte n, counted from its most significant end, replaced. */
  function SetByte(w: bv32, n: nat, b: bv8): bv32
    requires n < 4
  {
    if n == 0 then (w & 0x00ffffff) | ((b as bv32) << 24)
    else if n == 1 then (w & 0xff00ffff) | ((b as bv32) << 16)
    else if n == 2 then (w & 0xffff00ff) | ((b as bv32) << 8)
    else (w & 0xffffff00) | (b as bv32)
  }

  lemma SetByte0(w: bv32, b: bv8)
    ensures ByteOf(SetByte(w, 0, b), 0) == b
    ensures ByteOf(SetByte(w, 0, b), 1) == ByteOf(w, 1)
    ensures ByteOf(SetByte(w, 0, b), 2) == ByteOf(w, 2)
    ensures ByteOf(SetByte(w, 0, b), 3) == ByteOf(w, 3)
  {
    assert (((w & 0x00ffffff) | ((b as bv32) << 24)) >> 24) as bv8 == b;
    assert ((((w & 0x00ffffff) | ((b as bv32) << 24)) >> 16) & 0xff) as bv8 == (((w) >> 16) & 0xff) as bv8;
    assert ((((w & 0x00ffffff) | ((b as bv32) << 24)) >> 8) & 0xff) as bv8 == (((w) >> 8) & 0xff) as bv8;
    assert (((w & 0x00ffffff) | ((b as bv32) << 24)) & 0xff) as bv8 == ((w) & 0xff) as bv8;
  }

  lemma SetByte1(w: bv32, b: bv8)
    ensures ByteOf(SetByte(w, 1, b), 0) == ByteOf(w, 0)
    ensures ByteOf(SetByte(w, 1, b), 1) == b
    ensures ByteOf(SetByte(w, 1, b), 2) == ByteOf(w, 2)
    ensures ByteOf(SetByte(w, 1, b), 3) == ByteOf(w, 3)
  {
    assert (((w & 0xff00ffff) | ((b as bv32) << 16)) >> 24) as bv8 == ((w) >> 24) as bv8;
    assert ((((w & 0xff00ffff) | ((b as bv32) << 16)) >> 16) & 0xff) as bv8 == b;
    assert ((((w & 0xff00ffff) | ((b as bv32) << 16)) >> 8) & 0xff) as bv8 == (((w) >> 8) & 0xff) as bv8;
    assert (((w & 0xff00ffff) | ((b as bv32) << 16)) & 0xff) as bv8 == ((w) & 0xff) as bv8;
  }

  lemma SetByte2(w: bv32, b: bv8)
    ensures ByteOf(SetByte(w, 2, b), 0) == ByteOf(w, 0)
    ensures ByteOf(SetByte(w, 2, b), 1) == ByteOf(w, 1)
    ensures ByteOf(SetByte(w, 2, b), 2) == b
    ensures ByteOf(SetByte(w, 2, b), 3) == ByteOf(w, 3)
  {
    assert (((w & 0xffff00ff) | ((b as bv32) << 8)) >> 24) as bv8 == ((w) >> 24) as bv8;
    assert ((((w & 0xffff00ff) | ((b as bv32) << 8)) >> 16) & 0xff) as bv8 == (((w) >> 16) & 0xff) as bv8;
    assert ((((w & 0xffff00ff) | ((b as bv32) << 8)) >> 8) & 0xff) as bv8 == b;
    assert (((w & 0xffff00ff) | ((b as bv32) << 8)) & 0xff) as bv8 == ((w) & 0xff) as bv8;
  }

  lemma SetByte3(w: bv32, b: bv8)
    ensures ByteOf(SetByte(w, 3, b), 0) == ByteOf(w, 0)
    ensures ByteOf(SetByte(w, 3, b), 1) == ByteOf(w, 1)
    ensures ByteOf(SetByte(w, 3, b), 2) == ByteOf(w, 2)
    ensures ByteOf(SetByte(w, 3, b), 3) == b
  {
    assert (((w & 0xffffff00) | (b as bv32)) >> 24) as bv8 == ((w) >> 24) as bv8;
    assert ((((w & 0xffffff00) | (b as bv32)) >> 16) & 0xff) as bv8 == (((w) >> 16) & 0xff) as bv8;
    assert ((((w & 0xffffff00) | (b as bv32)) >> 8) & 0xff) as bv8 == (((w) >> 8) & 0xff) as bv8;
    assert (((w & 0xffffff00) | (b as bv32)) & 0xff) as bv8 == b;
  }

  lemma SetByteReadsBack(w: bv32, n: nat, b: bv8, m: nat)
    requires n < 4 && m < 4
    ensures ByteOf(SetByte(w, n, b), m) == if m == n then b else ByteOf(w, m)
  {
    hide SetByte, ByteOf;
    match n {
      case 0 => SetByte0(w, b);
      case 1 => SetByte1(w, b);
      case 2 => SetByte2(w, b);
      case _ => SetByte3(w, b);
    }
  }

  lemma BswapReverses(w: bv32, n: nat)
    requires n < 4
    ensures ByteOf(Bswap32(w), n) == ByteOf(w, 3 - n)
  {
  }

  lemma WordOfBytes(w: bv32)
    ensures Word(ByteOf(w, 0), ByteOf(w, 1), ByteOf(w, 2), ByteOf(w, 3)) == w
  {
  }

  /** The byte at address k of the word buffer: a little-endian host keeps the least
      significant byte of each word first. */
  function BufByte(buf: seq<bv32>, le: bool, k: nat): bv8
    requires |buf| == 16 && k < 64
  {
    ByteOf(buf[k / 4], if le then 3 - k % 4 else k % 4)
  }

  /** The four bytes of buffer word j, read in address order as one big-endian word. */
  function MemWord(buf: seq<bv32>, le: bool, j: nat): bv32
    requires |buf| == 16 && j < 16
  {
    Word(BufByte(buf, le, 4 * j), BufByte(buf, le, 4 * j + 1), BufByte(buf, le, 4 * j + 2), BufByte(buf, le, 4 * j + 3))
  }

  lemma MemWordValue(buf: seq<bv32>, le: bool, j: nat)
    requires |buf| == 16 && j < 16
    ensures MemWord(buf, le, j) == if le then Bswap32(buf[j]) else buf[j]
  {
    var w := buf[j];
    assert 4 * j / 4 == j && (4 * j + 1) / 4 == j && (4 * j + 2) / 4 == j && (4 * j + 3) / 4 == j;
    WordOfBytes(if le then Bswap32(w) else w);
    if le {
      BswapReverses(w, 0);
      BswapReverses(w, 1);
      BswapReverses(w, 2);
      BswapReverses(w, 3);
    }
  }

  /** memcpy into the buffer, byte by byte. */
  method CopyIn(buf: array<bv32>, le: bool, pos: nat, src: seq<bv8>)
    requires buf.Length == 16 && pos + |src| <= 64
    modifies buf
    ensures forall k :: 0 <= k < 64 ==>
      BufByte(buf[..], le, k) == if pos <= k < pos + |src| then src[k - pos] else old(BufByte(buf[..], le, k))
  {
    for i := 0 to |src|
      invariant forall k :: 0 <= k < 64 ==>
        BufByte(buf[..], le, k) == if pos <= k < pos + i then src[k - pos] else old(BufByte(buf[..], le, k))
    {
      var at := pos + i;
      var n := if le then 3 - at % 4 else at % 4;
      ghost var before := buf[..];
      buf[at / 4] := SetByte(buf[at / 4], n, src[i]);
      forall k | 0 <= k < 64
        ensures BufByte(buf[..], le, k) == if k == at then src[i] else BufByte(before, le, k)
      {
        if k / 4 == at / 4 {
          SetByteReadsBack(before[at / 4], n, src[i], if le then 3 - k % 4 else k % 4);
        }
      }
    }
  }

  /** bsw_32: the first n words become the big-endian reading of their bytes. */
  method BswWords(buf: array<bv32>, le: bool, n: nat)
    requires buf.Length == 16 && n <= 16
    modifies buf
    ensures forall j :: 0 <= j < n ==> buf[j] == old(MemWord(buf[..], le, j))
    ensures forall j :: n <= j < 16 ==> buf[j] == old(buf[j])
  {
    if le {
      var i := n;
      while i > 0
        invariant 0 <= i <= n
        invariant forall j :: i <= j < n ==> buf[j] == old(MemWord(buf[..], le, j))
        invariant forall j :: 0 <= j < i || n <= j < 16 ==> buf[j] == old(buf[j])
      {
        i := i - 1;
        MemWordValue(old(buf[..]), le, i);
        buf[i] := Bswap32(buf[i]);
      }
    } else {
      forall j | 0 <= j < n
        ensures buf[j] == MemWord(buf[..], le, j)
      {
        MemWordValue(buf[..], le, j);
      }
    }
  }
}
