/** A finished patch file byte by byte, as salt-patch-src/main.c lays it out on disk. */
module PatchBytes {
  import opened Words
  import opened SaltPatch
  import Sha1Spec

  /** A word with its most significant byte first. */
  function Be(w: U32): (s: seq<Byte>)
    ensures |s| == 4
  {
    [w / 0x100_0000, w / 0x1_0000 % 0x100, w / 0x100 % 0x100, w % 0x100]
  }

  function ChunkBytes(c: Chunk): seq<Byte> {
    match c
    case Data(addr, words) => [0, 0, 0, 0] + Be(addr) + Be(Wrap32(4 * |words|)) + Laid(words)
    case Fill(addr, n) => [0, 0, 0, 1] + Be(addr) + Be(Wrap32(4 * n))
  }

  function AllChunkBytes(cs: seq<Chunk>): seq<Byte> {
    if cs == [] then [] else ChunkBytes(cs[0]) + AllChunkBytes(cs[1..])
  }

  /** "SALTPTCH", version 1, a digest, the chunks and the end mark 0xFF. */
  function PatchFileBytes(digest: seq<Byte>, cs: seq<Chunk>): seq<Byte> {
    [0x53, 0x41, 0x4C, 0x54, 0x50, 0x54, 0x43, 0x48] + [0, 0, 0, 1] + digest + AllChunkBytes(cs) + [0, 0, 0, 0xFF]
  }

  function Zeros(n: nat): seq<Byte> { seq(n, i => 0) }

  lemma BeLaid(w: U32)
    ensures Laid([PutBe32(w)]) == Be(w)
  {
    var a := w / 0x100;
    var b := a / 0x100;
    var c := b / 0x100;
    assert w == 0x100 * a + w % 0x100 && a == 0x100 * b + a % 0x100 && b == 0x100 * c + b % 0x100;
    assert b == w / 0x1_0000 && c == w / 0x100_0000;
  }

  lemma ThreeLaid(x: Quad, y: Quad, z: Quad, rest: seq<Quad>)
    ensures Laid([x, y, z] + rest) == Laid([x]) + Laid([y]) + Laid([z]) + Laid(rest)
  {
    hide Laid;
    LaidAppend([x, y, z], rest);
    assert [x, y, z] == [x] + [y] + [z];
    LaidAppend([x] + [y], [z]);
    LaidAppend([x], [y]);
  }

  lemma SmallBe()
    ensures Be(0) == [0, 0, 0, 0] && Be(1) == [0, 0, 0, 1] && Be(0xFF) == [0, 0, 0, 0xFF]
  {
  }

  lemma ChunkLaid(c: Chunk)
    ensures Laid(ChunkFile(c)) == ChunkBytes(c)
  {
    hide Laid, PutBe32, Be;
    SmallBe();
    var t, len := if c.Data? then TYPE_DATA else TYPE_FILL, Wrap32(4 * ChunkLength(c));
    BeLaid(t);
    BeLaid(c.addr);
    BeLaid(len);
    ThreeLaid(PutBe32(t), PutBe32(c.addr), PutBe32(len), if c.Data? then c.words else []);
    NothingLaid();
  }

  lemma NothingLaid()
    ensures Laid([]) == []
  {
  }

  lemma {:induction false} ChunksLaid(cs: seq<Chunk>)
    ensures Laid(ChunksFile(cs)) == AllChunkBytes(cs)
    decreases |cs|
  {
    hide Laid, ChunkFile, ChunkBytes;
    if cs == [] {
      NothingLaid();
    } else {
      ChunkLaid(cs[0]);
      ChunksLaid(cs[1..]);
      LaidAppend(ChunkFile(cs[0]), ChunksFile(cs[1..]));
    }
  }

  lemma MagicLaid()
    ensures Laid(MAGIC) == [0x53, 0x41, 0x4C, 0x54, 0x50, 0x54, 0x43, 0x48]
  {
  }

  /** The words of a file with some digest in it. */
  lemma WordsLaid(digest: seq<Quad>, cs: seq<Chunk>)
    ensures Laid(MAGIC + [PutBe32(VERSION)] + digest + ChunksFile(cs) + [PutBe32(TYPE_EOF)])
         == PatchFileBytes(Laid(digest), cs)
  {
    hide Laid, PutBe32, Be;
    var version, end := [PutBe32(VERSION)], [PutBe32(TYPE_EOF)];
    LaidAppend(MAGIC + version + digest + ChunksFile(cs), end);
    LaidAppend(MAGIC + version + digest, ChunksFile(cs));
    LaidAppend(MAGIC + version, digest);
    LaidAppend(MAGIC, version);
    MagicLaid();
    SmallBe();
    BeLaid(VERSION);
    BeLaid(TYPE_EOF);
    ChunksLaid(cs);
  }

  lemma ZeroDigestLaid()
    ensures Laid(NO_DIGEST) == Zeros(20)
  {
  }

  lemma UnhashedLaid(cs: seq<Chunk>)
    ensures Laid(Unhashed(cs)) == PatchFileBytes(Zeros(20), cs)
  {
    hide Laid, PutBe32, ChunksFile;
    ZeroDigestLaid();
    WordsLaid(NO_DIGEST, cs);
    assert Unhashed(cs) == MAGIC + [PutBe32(VERSION)] + NO_DIGEST + ChunksFile(cs) + [PutBe32(TYPE_EOF)];
  }

  lemma FinishedWords(cs: seq<Chunk>)
    requires 4 * |Unhashed(cs)| < 0x2000_0000_0000_0000
    ensures Finished(cs)
         == MAGIC + [PutBe32(VERSION)] + Sha1Words(Unhashed(cs)) + ChunksFile(cs) + [PutBe32(TYPE_EOF)]
  {
    hide Sha1Words, PutBe32, ChunksFile;
    var u := Unhashed(cs);
    assert u[..3] == MAGIC + [PutBe32(VERSION)] && u[8..] == ChunksFile(cs) + [PutBe32(TYPE_EOF)];
  }

  lemma FirstHashed(q: Quad, k: nat)
    requires k < 4
    ensures BytesOfQuad(q)[k] == Octet(Laid([q])[k])
  {
    hide Octet, Laid;
    FirstLaid(q);
  }

  /** What is hashed are the bytes of the file in their order. */
  lemma {:induction false} HashedBytes(file: seq<Quad>, k: nat)
    requires k < 4 * |file|
    ensures FileBytes(file)[k] == Octet(Laid(file)[k])
    decreases |file|
  {
    hide Laid, BytesOfQuad, FileBytes, Octet;
    var q, rest := file[0], file[1..];
    FileBytesFirst(file);
    assert file == [q] + rest;
    LaidAppend([q], rest);
    if k < 4 {
      FirstHashed(q, k);
    } else {
      HashedBytes(rest, k - 4);
    }
  }

  lemma FileBytesFirst(file: seq<Quad>)
    requires file != []
    ensures FileBytes(file) == BytesOfQuad(file[0]) + FileBytes(file[1..])
  {
    hide BytesOfQuad;
  }

  lemma OctetIs(b: Byte)
    ensures Octet(b) == b as bv8
  {
  }

  lemma FirstLaid(q: Quad)
    ensures Laid([q]) == [q.b0, q.b1, q.b2, q.b3]
  {
  }

  lemma DigestLaid(d: seq<bv8>, k: nat)
    requires |d| == 20 && k < 20
    ensures Laid(DigestWords(d))[k] == d[k] as int
  {
  }

  /** The finished file: its digest field holds the SHA-1 of the file in which that field is zero. */
  lemma FinishedBytes(cs: seq<Chunk>) returns (digest: seq<Byte>, hashed: seq<bv8>)
    requires |PatchFileBytes(Zeros(20), cs)| < 0x2000_0000_0000_0000
    ensures 4 * |Unhashed(cs)| < 0x2000_0000_0000_0000
    ensures Laid(Finished(cs)) == PatchFileBytes(digest, cs) && |digest| == 20
    ensures |hashed| == |PatchFileBytes(Zeros(20), cs)| < 0x2000_0000_0000_0000
    ensures forall k :: 0 <= k < |hashed| ==> hashed[k] == PatchFileBytes(Zeros(20), cs)[k] as bv8
    ensures |Sha1Spec.Sha1(hashed)| == 20 && forall k :: 0 <= k < 20 ==> digest[k] == Sha1Spec.Sha1(hashed)[k] as int
  {
    hide Laid, PutBe32, ChunksFile, FileBytes, DigestWords, Sha1Spec.Sha1, PatchFileBytes, Finished, Unhashed,
      Octet;
    var u := Unhashed(cs);
    UnhashedLaid(cs);
    hashed := FileBytes(u);
    DigestLength(hashed);
    digest := Laid(Sha1Words(u));
    FinishedWords(cs);
    WordsLaid(Sha1Words(u), cs);
    forall k | 0 <= k < |hashed|
      ensures hashed[k] == Laid(u)[k] as bv8
    {
      HashedBytes(u, k);
      OctetIs(Laid(u)[k]);
    }
    forall k | 0 <= k < 20
      ensures digest[k] == Sha1Spec.Sha1(hashed)[k] as int
    {
      DigestLaid(Sha1Spec.Sha1(hashed), k);
    }
  }

  lemma WholeWordsLaid(ws: seq<Quad>)
    ensures WholeWords(Laid(ws)) == ws
  {
    var back := WholeWords(Laid(ws));
    forall i | 0 <= i < |ws|
      ensures back[i] == ws[i]
    {
      LaidAt(ws, i);
    }
  }

  /** Reading the bytes of a finished file lists its chunks and the end mark. */
  lemma FileReadsBack(cs: seq<Chunk>, stray: nat -> U32)
    requires Storable(cs) && 4 * |Unhashed(cs)| < 0x2000_0000_0000_0000
    ensures ReadAll(WholeWords(Laid(Finished(cs))), stray) == SaltPatch.Listing.Chunks(EventsOf(cs) + [EndOfFile])
  {
    hide ReadAll, WholeWords, Laid, Finished;
    WholeWordsLaid(Finished(cs));
    FinishedReadsBack(cs, stray);
  }
}
