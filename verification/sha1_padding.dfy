/** What the padded tail of a message looks like word by word. */
module Sha1Padding {
  import opened Sha1Spec
  import opened Sha1Bytes

  /** The mask-and-set of sha1_end on the word that holds the end of the message; n of its
      bytes belong to the message. */
  function PadWord(w: bv32, n: nat): bv32
    requires n < 4
  {
    if n == 0 then (w & 0x80000000) | 0x80000000
    else if n == 1 then (w & 0xff800000) | 0x00800000
    else if n == 2 then (w & 0xffff8000) | 0x00008000
    else (w & 0xffffff80) | 0x00000080
  }

  /** It keeps the n message bytes, appends the one bit and clears the rest. */
  lemma PadWordBytes(b0: bv8, b1: bv8, b2: bv8, b3: bv8, any: bv32)
    ensures PadWord(any, 0) == Word(0x80, 0, 0, 0)
    ensures PadWord(Word(b0, b1, b2, b3), 1) == Word(b0, 0x80, 0, 0)
    ensures PadWord(Word(b0, b1, b2, b3), 2) == Word(b0, b1, 0x80, 0)
    ensures PadWord(Word(b0, b1, b2, b3), 3) == Word(b0, b1, b2, 0x80)
  {
  }

  function LengthHigh(len: nat): bv32
    requires len < 0x2000_0000_0000_0000
  {
    (8 * len / 0x1_0000_0000) as bv32
  }

  function LengthLow(len: nat): bv32 {
    (8 * len % 0x1_0000_0000) as bv32
  }

  /** Where each byte of the tail comes from. */
  lemma PaddedByte(m: seq<bv8>, x: nat)
    requires |m| < 0x2000_0000_0000_0000 && x < |Pad(m)|
    ensures Pad(m)[x] ==
      if x < |m| then m[x]
      else if x == |m| then 0x80
      else if x < |Pad(m)| - 8 then 0
      else LengthField(|m|)[x - (|Pad(m)| - 8)]
  {
  }

  /** How many blocks the padded message has. */
  lemma PaddedBlocks(m: seq<bv8>)
    requires |m| < 0x2000_0000_0000_0000
    ensures |Pad(m)| == 64 * (|m| / 64 + if |m| % 64 <= 55 then 1 else 2)
  {
    var q, r := |m| / 64, |m| % 64;
    assert |Pad(m)| == 64 * q + r + 9 + PadZeros(|m|);
  }

  lemma ZeroWord()
    ensures Word(0, 0, 0, 0) == 0
  {
  }

  lemma PaddedEnd(m: seq<bv8>)
    requires |m| < 0x2000_0000_0000_0000
    ensures Pad(m)[|Pad(m)| - 8..] == LengthField(|m|)
  {
  }

  /** The last block ends with the length in bits. */
  lemma LengthWords(m: seq<bv8>, n: nat)
    requires |m| < 0x2000_0000_0000_0000 && |Pad(m)| == 64 * n + 64
    ensures BlockWords(Pad(m), n)[14] == LengthHigh(|m|) && BlockWords(Pad(m), n)[15] == LengthLow(|m|)
  {
    hide Word, ByteOf, Pad, LengthHigh, LengthLow, LengthField;
    var p, hi, lo := Pad(m), LengthHigh(|m|), LengthLow(|m|);
    var t := p[64 * n + 56..];
    PaddedEnd(m);
    LengthFieldWords(|m|);
    assert t == BytesOf(hi) + BytesOf(lo);
    WordOfBytes(hi);
    WordOfBytes(lo);
    assert t[0] == p[64 * n + 56] && t[1] == p[64 * n + 57] && t[2] == p[64 * n + 58] && t[3] == p[64 * n + 59];
    assert t[4] == p[64 * n + 60] && t[5] == p[64 * n + 61] && t[6] == p[64 * n + 62] && t[7] == p[64 * n + 63];
  }

  lemma LengthFieldWords(len: nat)
    requires len < 0x2000_0000_0000_0000
    ensures LengthField(len) == BytesOf(LengthHigh(len)) + BytesOf(LengthLow(len))
  {
  }

  /** Words wholly between the one bit and the length are zero. */
  lemma ZeroWords(m: seq<bv8>, n: nat, j: nat)
    requires |m| < 0x2000_0000_0000_0000 && j < 16 && 64 * n + 64 <= |Pad(m)|
    requires |m| < 64 * n + 4 * j && 64 * n + 4 * j + 4 <= |Pad(m)| - 8
    ensures BlockWords(Pad(m), n)[j] == 0
  {
    hide Word, Pad, LengthField, PadZeros;
    PaddedByte(m, 64 * n + 4 * j);
    PaddedByte(m, 64 * n + 4 * j + 1);
    PaddedByte(m, 64 * n + 4 * j + 2);
    PaddedByte(m, 64 * n + 4 * j + 3);
    ZeroWord();
  }

  /** Words wholly inside the message are the buffered bytes. */
  lemma MessageWord(m: seq<bv8>, buf: seq<bv32>, le: bool, q: nat, j: nat)
    requires |m| < 0x2000_0000_0000_0000 && |buf| == 16
    requires 64 * q + 4 * j + 4 <= |m| < 64 * q + 64
    requires forall k :: 0 <= k < |m| - 64 * q ==> BufByte(buf, le, k) == m[64 * q + k]
    ensures 64 * q + 64 <= |Pad(m)| && MemWord(buf, le, j) == BlockWords(Pad(m), q)[j]
  {
    hide Word, Pad, BufByte, LengthField, PadZeros;
    PaddedBlocks(m);
    var at := 64 * q + 4 * j;
    PaddedByte(m, at);
    PaddedByte(m, at + 1);
    PaddedByte(m, at + 2);
    PaddedByte(m, at + 3);
    assert BufByte(buf, le, 4 * j) == m[at] && BufByte(buf, le, 4 * j + 1) == m[at + 1];
    assert BufByte(buf, le, 4 * j + 2) == m[at + 2] && BufByte(buf, le, 4 * j + 3) == m[at + 3];
  }

  /** The word holding the end of the message, n bytes into word j of block q, is the masked word. */
  lemma EndWord(m: seq<bv8>, buf: seq<bv32>, le: bool, w: bv32, q: nat, j: nat, n: nat)
    requires |m| < 0x2000_0000_0000_0000 && |buf| == 16
    requires |m| == 64 * q + 4 * j + n && j < 16 && n < 4
    requires forall k :: 0 <= k < 4 * j + n ==> BufByte(buf, le, k) == m[64 * q + k]
    requires n != 0 ==> w == MemWord(buf, le, j)
    ensures 64 * q + 64 <= |Pad(m)|
    ensures PadWord(w, n) == BlockWords(Pad(m), q)[j]
  {
    hide Word, Pad, BufByte, PadWord, LengthField, PadZeros;
    PaddedBlocks(m);
    var at := 64 * q + 4 * j;
    PaddedByte(m, at);
    PaddedByte(m, at + 1);
    PaddedByte(m, at + 2);
    PaddedByte(m, at + 3);
    var b0, b1, b2, b3 :=
      BufByte(buf, le, 4 * j), BufByte(buf, le, 4 * j + 1), BufByte(buf, le, 4 * j + 2), BufByte(buf, le, 4 * j + 3);
    PadWordBytes(b0, b1, b2, b3, w);
    var p := Pad(m);
    assert BlockWords(p, q)[j] == Word(p[at], p[at + 1], p[at + 2], p[at + 3]);
    if n == 0 {
      assert p[at] == 0x80 && p[at + 1] == 0 && p[at + 2] == 0 && p[at + 3] == 0;
    } else if n == 1 {
      assert p[at] == b0 && p[at + 1] == 0x80 && p[at + 2] == 0 && p[at + 3] == 0;
    } else if n == 2 {
      assert p[at] == b0 && p[at + 1] == b1 && p[at + 2] == 0x80 && p[at + 3] == 0;
    } else {
      assert p[at] == b0 && p[at + 1] == b1 && p[at + 2] == b2 && p[at + 3] == 0x80;
    }
  }

  /** After reordering the used words and masking the last of them, every word up to the end
      of the message is that of the padded block. */
  lemma TailWords(m: seq<bv8>, buf: seq<bv32>, words: seq<bv32>, le: bool, q: nat, r: nat)
    requires |m| < 0x2000_0000_0000_0000 && |buf| == 16 && |words| == 16
    requires |m| == 64 * q + r && r < 64
    requires forall k :: 0 <= k < r ==> BufByte(buf, le, k) == m[64 * q + k]
    requires forall j :: 0 <= j < r / 4 ==> words[j] == MemWord(buf, le, j)
    requires words[r / 4] == PadWord(if r % 4 == 0 then buf[r / 4] else MemWord(buf, le, r / 4), r % 4)
    ensures 64 * q + 64 <= |Pad(m)|
    ensures forall j :: 0 <= j <= r / 4 ==> words[j] == BlockWords(Pad(m), q)[j]
  {
    hide Word, Pad, BufByte, MemWord, BlockWords, LengthField, PadZeros, PadWord;
    EndWord(m, buf, le, if r % 4 == 0 then buf[r / 4] else MemWord(buf, le, r / 4), q, r / 4, r % 4);
    forall j | 0 <= j < r / 4
      ensures words[j] == BlockWords(Pad(m), q)[j]
    {
      MessageWord(m, buf, le, q, j);
    }
  }

  /** The two counter words hold the length in bits after the shifts of sha1_end. */
  lemma CounterBits(len: nat, c0: int, c1: int)
    requires len < 0x2000_0000_0000_0000
    requires c0 == len % 0x1_0000_0000 && c1 == len / 0x1_0000_0000 % 0x1_0000_0000
    ensures 8 * c1 % 0x1_0000_0000 + c0 / 0x2000_0000 == 8 * len / 0x1_0000_0000
    ensures 8 * c0 % 0x1_0000_0000 == 8 * len % 0x1_0000_0000
  {
    var hi, lo := c0 / 0x2000_0000, c0 % 0x2000_0000;
    assert len == 0x1_0000_0000 * c1 + c0;
    assert 8 * len == 0x1_0000_0000 * (8 * c1 + hi) + 8 * lo;
    assert 8 * c0 == 0x1_0000_0000 * hi + 8 * lo;
  }
}
