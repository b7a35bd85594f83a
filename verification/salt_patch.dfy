/** The patch generator and reader of salt-patch-src/main.c. Files and memory are taken word by
    word, a word being its four bytes in file order. */
module SaltPatch {
  import opened Words
  import Sha1Spec
  import Sha1Code

  /** Four bytes in file order. */
  datatype Quad = Quad(b0: Byte, b1: Byte, b2: Byte, b3: Byte)

  const ZERO := Quad(0, 0, 0, 0)

  /** putbe32 and getbe32. */
  function PutBe32(w: U32): Quad {
    Quad(ByteOfWord(w, 0), ByteOfWord(w, 1), ByteOfWord(w, 2), ByteOfWord(w, 3))
  }

  function GetBe32(q: Quad): U32 { WordOfBytes(q.b0, q.b1, q.b2, q.b3) }

  lemma BeRoundTrip(w: U32)
    ensures GetBe32(PutBe32(w)) == w
  {
    hide ByteOfWord, WordOfBytes;
    WordThereAndBack(w);
  }

  // ----- chunks and their effect on memory -----

  datatype Chunk = Data(addr: U32, words: seq<Quad>) | Fill(addr: U32, count: nat)

  function ChunkLength(c: Chunk): nat {
    match c
    case Data(_, ws) => |ws|
    case Fill(_, n) => n
  }

  /** Word k of the chunk's range. */
  function ChunkWord(c: Chunk, k: nat): Quad
    requires k < ChunkLength(c)
  {
    match c
    case Data(_, ws) => ws[k]
    case Fill(_, _) => ZERO
  }

  /** Memory by word, from the section's base address on. A chunk's address counts bytes. */
  function Applied(image: seq<Quad>, base: U32, c: Chunk): (r: seq<Quad>)
    ensures |r| == |image|
  {
    seq(|image|, i requires 0 <= i < |image| =>
      if c.addr <= base + 4 * i < c.addr + 4 * ChunkLength(c) && (base + 4 * i - c.addr) % 4 == 0
      then ChunkWord(c, (base + 4 * i - c.addr) / 4) else image[i])
  }

  function AppliedAll(image: seq<Quad>, base: U32, cs: seq<Chunk>): (r: seq<Quad>)
    ensures |r| == |image|
    decreases |cs|
  {
    if cs == [] then image else AppliedAll(Applied(image, base, cs[0]), base, cs[1..])
  }

  /** The part of image from word j on replaced. */
  function Overlaid(image: seq<Quad>, j: nat, ws: seq<Quad>): (r: seq<Quad>)
    requires j + |ws| <= |image|
    ensures |r| == |image|
  {
    image[..j] + ws + image[j + |ws|..]
  }

  lemma AppliedOverlays(image: seq<Quad>, base: U32, c: Chunk, j: nat, ws: seq<Quad>)
    requires c.addr == base + 4 * j && |ws| == ChunkLength(c) && j + |ws| <= |image|
    requires forall k :: 0 <= k < |ws| ==> ws[k] == ChunkWord(c, k)
    ensures Applied(image, base, c) == Overlaid(image, j, ws)
  {
    var r, o := Applied(image, base, c), Overlaid(image, j, ws);
    forall i | 0 <= i < |image|
      ensures r[i] == o[i]
    {
      if j <= i < j + |ws| {
        assert o[i] == ws[i - j] && (base + 4 * i - c.addr) / 4 == i - j;
      }
    }
  }

  // ----- runs -----

  /** The end of the run of equal flags that starts at i. */
  function RunEnd(flags: seq<bool>, i: nat, k: nat): (e: nat)
    requires i < k <= |flags|
    ensures k <= e <= |flags|
    ensures forall x :: k <= x < e ==> flags[x] == flags[i]
    ensures e < |flags| ==> flags[e] != flags[i]
    decreases |flags| - k
  {
    if k < |flags| && flags[k] == flags[i] then RunEnd(flags, i, k + 1) else k
  }

  /** Where two versions differ, over the length of the old one. */
  function Differs(a: seq<Quad>, b: seq<Quad>): (f: seq<bool>)
    requires |a| <= |b|
    ensures |f| == |a|
  {
    seq(|a|, i requires 0 <= i < |a| => a[i] != b[i])
  }

  /** The runs of set flags from i on: each as long as it can be, one after the other with a
      gap between. */
  function Spans(flags: seq<bool>, i: nat): (s: seq<(nat, nat)>)
    requires i <= |flags| && (i == 0 || i == |flags| || !flags[i] || !flags[i - 1])
    ensures forall k :: 0 <= k < |s| ==> i <= s[k].0 && IsMaximalRun(flags, s[k].0, s[k].1)
    ensures forall k, l :: 0 <= k < l < |s| ==> s[k].1 < s[l].0
    decreases |flags| - i
  {
    if i == |flags| then []
    else if flags[i] then
      var e := RunEnd(flags, i, i + 1);
      [(i, e)] + Spans(flags, e)
    else Spans(flags, i + 1)
  }

  ghost predicate IsMaximalRun(flags: seq<bool>, j: nat, e: nat) {
    && j < e <= |flags|
    && (forall x :: j <= x < e ==> flags[x])
    && (j == 0 || !flags[j - 1]) && (e == |flags| || !flags[e])
  }

  /** What a 32-bit length in bytes leaves of some words. */
  function Clip(ws: seq<Quad>): (r: seq<Quad>)
    ensures 4 * |ws| < TWO32 ==> r == ws
  {
    ClipFits(|ws|);
    ws[..Wrap32(4 * |ws|) / 4]
  }

  lemma ClipFits(n: nat)
    ensures Wrap32(4 * n) / 4 <= n && (4 * n < TWO32 ==> Wrap32(4 * n) / 4 == n)
    ensures Wrap32(4 * (Wrap32(4 * n) / 4)) == Wrap32(4 * n)
  {
    var m := n % 0x4000_0000;
    assert 4 * n == TWO32 * (n / 0x4000_0000) + 4 * m;
    assert Wrap32(4 * n) == 4 * m;
  }

  function CopyChunk(b: seq<Quad>, base: U32, span: (nat, nat)): Chunk
    requires span.0 < span.1 <= |b|
  {
    Data(Wrap32(base + 4 * span.0), Clip(b[span.0..span.1]))
  }

  function CopyChunks(b: seq<Quad>, base: U32, spans: seq<(nat, nat)>): (cs: seq<Chunk>)
    requires forall k :: 0 <= k < |spans| ==> spans[k].0 < spans[k].1 <= |b|
    ensures |cs| == |spans|
  {
    seq(|spans|, k requires 0 <= k < |spans| => CopyChunk(b, base, spans[k]))
  }

  /** n words of a buffer from word j on; stray stands for what lies behind the buffer. */
  function WordsFrom(b: seq<Quad>, stray: nat -> Quad, j: nat, n: nat): (ws: seq<Quad>)
    ensures |ws| == n
  {
    seq(n, i requires 0 <= i < n => if j + i < |b| then b[j + i] else stray(j + i))
  }

  /** As much of the new version as the old one is compared with, and at least all of it. */
  function Compared(a: seq<Quad>, b: seq<Quad>, stray: nat -> Quad): (v: seq<Quad>)
    ensures |a| <= |v| && (|a| <= |b| ==> v == b)
  {
    WordsFrom(b, stray, 0, if |a| <= |b| then |b| else |a|)
  }

  /** Everything patch_diff_to_file emits: the runs of words that differ, and what the new
      version has beyond the old one, by the difference of their lengths in 32 bits. */
  function DiffChunks(a: seq<Quad>, b: seq<Quad>, stray: nat -> Quad, base: U32): seq<Chunk> {
    var v := Compared(a, b, stray);
    CopyChunks(v, base, Spans(Differs(a, v), 0))
    + if |a| == |b| then []
      else [Data(Wrap32(base + 4 * |a|), Clip(WordsFrom(b, stray, |a|, Wrap32(|b| - |a|))))]
  }

  /** All runs of equal flags from i on. */
  function Cuts(flags: seq<bool>, i: nat): (s: seq<(nat, nat)>)
    requires i <= |flags|
    ensures forall k :: 0 <= k < |s| ==> s[k].0 < s[k].1 <= |flags|
    decreases |flags| - i
  {
    if i == |flags| then []
    else
      var e := RunEnd(flags, i, i + 1);
      [(i, e)] + Cuts(flags, e)
  }

  /** Run k starts where the one before it ended, flags are equal within it and change behind
      it, and the last one ends at the end: the runs leave nothing out. */
  lemma {:induction false} CutsTile(flags: seq<bool>, i: nat, k: nat)
    requires i <= |flags| && k < |Cuts(flags, i)|
    ensures var s := Cuts(flags, i);
      && s[k].0 == (if k == 0 then i else s[k - 1].1)
      && (forall x :: s[k].0 <= x < s[k].1 ==> flags[x] == flags[s[k].0])
      && (if k == |s| - 1 then s[k].1 == |flags| else s[k].1 < |flags| && flags[s[k].1] != flags[s[k].0])
    decreases |flags| - i
  {
    hide RunEnd;
    var e := RunEnd(flags, i, i + 1);
    var s, rest := Cuts(flags, i), Cuts(flags, e);
    assert s == [(i, e)] + rest;
    if k > 0 {
      CutsTile(flags, e, k - 1);
      assert s[k] == rest[k - 1];
    }
  }

  function Zeros(b: seq<Quad>): (f: seq<bool>)
    ensures |f| == |b|
  {
    seq(|b|, i requires 0 <= i < |b| => b[i] == ZERO)
  }

  function CutChunk(b: seq<Quad>, base: U32, cut: (nat, nat)): Chunk
    requires cut.0 < cut.1 <= |b|
  {
    if b[cut.0] == ZERO then Fill(Wrap32(base + 4 * cut.0), cut.1 - cut.0) else CopyChunk(b, base, cut)
  }

  function CutChunks(b: seq<Quad>, base: U32, cuts: seq<(nat, nat)>): (cs: seq<Chunk>)
    requires forall k :: 0 <= k < |cuts| ==> cuts[k].0 < cuts[k].1 <= |b|
    ensures |cs| == |cuts|
  {
    seq(|cuts|, k requires 0 <= k < |cuts| => CutChunk(b, base, cuts[k]))
  }

  /** Everything patch_add_to_file emits. */
  function FullChunks(b: seq<Quad>, base: U32): seq<Chunk> {
    CutChunks(b, base, Cuts(Zeros(b), 0))
  }

  // ----- what the chunks achieve -----

  /** Up to word i the image is the new version, from there to the old length still the old. */
  ghost predicate Halfway(image: seq<Quad>, a: seq<Quad>, b: seq<Quad>, i: nat) {
    && i <= |a| <= |b| <= |image|
    && (forall k :: 0 <= k < i ==> image[k] == b[k])
    && (forall k :: i <= k < |a| ==> image[k] == a[k])
  }

  /** The image fits the address space from base on, and its length a 32-bit count of bytes. */
  predicate InMemory(image: seq<Quad>, base: U32) {
    base + 4 * |image| <= TWO32 && 4 * |image| < TWO32
  }

  lemma OneThenRest(image: seq<Quad>, base: U32, c: Chunk, cs: seq<Chunk>)
    ensures AppliedAll(image, base, [c] + cs) == AppliedAll(Applied(image, base, c), base, cs)
  {
    hide Applied;
    assert ([c] + cs)[1..] == cs;
  }

  /** Copying words i up to e of the new version moves the boundary from i to e. */
  lemma CopyMovesBoundary(image: seq<Quad>, a: seq<Quad>, b: seq<Quad>, base: U32, i: nat, e: nat)
    requires Halfway(image, a, b, i) && InMemory(image, base) && i < e <= |a|
    ensures var next := Applied(image, base, CopyChunk(b, base, (i, e)));
      Halfway(next, a, b, e) && forall k :: |a| <= k < |image| ==> next[k] == image[k]
  {
    hide Applied;
    AppliedOverlays(image, base, CopyChunk(b, base, (i, e)), i, b[i..e]);
  }

  lemma CopyChunksCons(b: seq<Quad>, base: U32, span: (nat, nat), rest: seq<(nat, nat)>)
    requires span.0 < span.1 <= |b| && forall k :: 0 <= k < |rest| ==> rest[k].0 < rest[k].1 <= |b|
    ensures CopyChunks(b, base, [span] + rest) == [CopyChunk(b, base, span)] + CopyChunks(b, base, rest)
  {
    hide CopyChunk;
  }

  lemma {:induction false} SpansPatch(image: seq<Quad>, a: seq<Quad>, b: seq<Quad>, base: U32, i: nat)
    requires Halfway(image, a, b, i) && InMemory(image, base)
    requires i == 0 || i == |a| || a[i] == b[i] || a[i - 1] == b[i - 1]
    ensures var r := AppliedAll(image, base, CopyChunks(b, base, Spans(Differs(a, b), i)));
      Halfway(r, a, b, |a|) && forall k :: |a| <= k < |image| ==> r[k] == image[k]
    decreases |a| - i
  {
    hide Applied, CopyChunk, CopyChunks;
    var flags := Differs(a, b);
    if i == |a| {
      assert CopyChunks(b, base, Spans(flags, i)) == [];
    } else if flags[i] {
      var e := RunEnd(flags, i, i + 1);
      CopyMovesBoundary(image, a, b, base, i, e);
      CopyChunksCons(b, base, (i, e), Spans(flags, e));
      OneThenRest(image, base, CopyChunk(b, base, (i, e)), CopyChunks(b, base, Spans(flags, e)));
      SpansPatch(Applied(image, base, CopyChunk(b, base, (i, e))), a, b, base, e);
    } else {
      SpansPatch(image, a, b, base, i + 1);
    }
  }

  lemma {:induction false} AppliedAllAppend(image: seq<Quad>, base: U32, cs: seq<Chunk>, ds: seq<Chunk>)
    ensures AppliedAll(image, base, cs + ds) == AppliedAll(AppliedAll(image, base, cs), base, ds)
    decreases |cs|
  {
    if cs == [] {
      assert cs + ds == ds;
    } else {
      assert (cs + ds)[1..] == cs[1..] + ds;
      AppliedAllAppend(Applied(image, base, cs[0]), base, cs[1..], ds);
    }
  }

  lemma RunsApplied(image: seq<Quad>, a: seq<Quad>, b: seq<Quad>, base: U32)
    requires |a| <= |b| <= |image| && InMemory(image, base) && a <= image
    ensures AppliedAll(image, base, CopyChunks(b, base, Spans(Differs(a, b), 0))) == b[..|a|] + image[|a|..]
  {
    hide Applied, AppliedAll, CopyChunks, Differs, Spans;
    SpansPatch(image, a, b, base, 0);
    var half := AppliedAll(image, base, CopyChunks(b, base, Spans(Differs(a, b), 0)));
    assert forall k :: |a| <= k < |image| ==> half[k] == image[k];
  }

  /** What the new version has beyond the old one. */
  lemma TailApplied(image: seq<Quad>, a: seq<Quad>, b: seq<Quad>, stray: nat -> Quad, base: U32)
    requires |a| < |b| <= |image| && InMemory(image, base)
    ensures var tail := Data(Wrap32(base + 4 * |a|), Clip(WordsFrom(b, stray, |a|, Wrap32(|b| - |a|))));
      AppliedAll(b[..|a|] + image[|a|..], base, [tail]) == b + image[|b|..]
  {
    hide Applied, AppliedAll, Overlaid, Clip;
    var half, tail := b[..|a|] + image[|a|..], Data(base + 4 * |a|, b[|a|..]);
    assert WordsFrom(b, stray, |a|, Wrap32(|b| - |a|)) == b[|a|..];
    AppliedOverlays(half, base, tail, |a|, b[|a|..]);
    AppliedOne(half, base, tail);
    TailOverlaid(image, b, |a|);
  }

  /** Applying the diff to memory that holds the old version, padded to words, leaves the new
      version in its place and nothing else changed. */
  lemma DiffPatches(image: seq<Quad>, a: seq<Quad>, b: seq<Quad>, stray: nat -> Quad, base: U32)
    requires |a| <= |b| <= |image| && InMemory(image, base) && a <= image
    ensures AppliedAll(image, base, DiffChunks(a, b, stray, base)) == b + image[|b|..]
  {
    hide Applied, AppliedAll, CopyChunks, Clip, WordsFrom, Compared, Differs, Spans;
    var runs := CopyChunks(b, base, Spans(Differs(a, b), 0));
    RunsApplied(image, a, b, base);
    if |a| != |b| {
      var tail := Data(Wrap32(base + 4 * |a|), Clip(WordsFrom(b, stray, |a|, Wrap32(|b| - |a|))));
      AppliedAllAppend(image, base, runs, [tail]);
      TailApplied(image, a, b, stray, base);
    } else {
      assert runs + [] == runs;
      assert b[..|a|] == b;
    }
  }

  lemma AppliedOne(image: seq<Quad>, base: U32, c: Chunk)
    ensures AppliedAll(image, base, [c]) == Applied(image, base, c)
  {
    hide Applied;
  }

  /** Where the new version is the shorter one, the word behind its end comes out of whatever
      lies behind it in the buffer. */
  lemma ShorterReadsOn(image: seq<Quad>, a: seq<Quad>, b: seq<Quad>, s: Quad, base: U32)
    requires |b| < |a| <= |image| && InMemory(image, base) && a <= image
    ensures AppliedAll(image, base, DiffChunks(a, b, (k: nat) => s, base))[|b|] == s
  {
    hide Applied, CopyChunks, Spans;
    var stray := (k: nat) => s;
    var v := Compared(a, b, stray);
    var runs := CopyChunks(v, base, Spans(Differs(a, v), 0));
    SpansPatch(image, a, v, base, 0);
    var half := AppliedAll(image, base, runs);
    assert half[|b|] == v[|b|] == s;
    var tail := Data(Wrap32(base + 4 * |a|), Clip(WordsFrom(b, stray, |a|, Wrap32(|b| - |a|))));
    AppliedAllAppend(image, base, runs, [tail]);
    AppliedOne(half, base, tail);
    OnlyStrays(half, base, tail, |b|, s);
  }

  lemma OnlyStrays(image: seq<Quad>, base: U32, c: Chunk, i: nat, s: Quad)
    requires i < |image| && image[i] == s && c.Data? && forall k :: 0 <= k < |c.words| ==> c.words[k] == s
    ensures Applied(image, base, c)[i] == s
  {
  }

  /** The diff patches the one version into the other, whatever lies behind the new one, if and
      only if the new one is not the shorter. */
  lemma DiffPatchesExactly(image: seq<Quad>, a: seq<Quad>, b: seq<Quad>, base: U32)
    requires a <= image && |b| <= |image| && InMemory(image, base)
    ensures (forall stray :: AppliedAll(image, base, DiffChunks(a, b, stray, base)) == b + image[|b|..]) <==> |a| <= |b|
  {
    hide AppliedAll, DiffChunks;
    if |a| <= |b| {
      forall stray
        ensures AppliedAll(image, base, DiffChunks(a, b, stray, base)) == b + image[|b|..]
      {
        DiffPatches(image, a, b, stray, base);
      }
    } else {
      var s := if a[|b|] == ZERO then Quad(1, 0, 0, 0) else ZERO;
      var stray := (k: nat) => s;
      ShorterReadsOn(image, a, b, s, base);
      assert (b + image[|b|..])[|b|] == image[|b|] == a[|b|];
      assert AppliedAll(image, base, DiffChunks(a, b, stray, base)) != b + image[|b|..];
    }
  }

  lemma TailOverlaid(image: seq<Quad>, b: seq<Quad>, n: nat)
    requires n <= |b| <= |image|
    ensures Overlaid(b[..n] + image[n..], n, b[n..]) == b + image[|b|..]
  {
  }

  lemma CutChunksCons(b: seq<Quad>, base: U32, cut: (nat, nat), rest: seq<(nat, nat)>)
    requires cut.0 < cut.1 <= |b| && forall k :: 0 <= k < |rest| ==> rest[k].0 < rest[k].1 <= |b|
    ensures CutChunks(b, base, [cut] + rest) == [CutChunk(b, base, cut)] + CutChunks(b, base, rest)
  {
    hide CutChunk;
  }

  lemma CutOverlays(image: seq<Quad>, b: seq<Quad>, base: U32, i: nat, e: nat)
    requires i < e <= |b| <= |image| && InMemory(image, base)
    requires forall x :: i <= x < e ==> (b[x] == ZERO <==> b[i] == ZERO)
    ensures Applied(image, base, CutChunk(b, base, (i, e))) == Overlaid(image, i, b[i..e])
  {
    hide Applied, Overlaid;
    AppliedOverlays(image, base, CutChunk(b, base, (i, e)), i, b[i..e]);
  }

  lemma OverlaidStep(image: seq<Quad>, b: seq<Quad>, i: nat, e: nat)
    requires i < e <= |b| <= |image|
    ensures var next := Overlaid(image, i, b[i..e]);
      next[..e] + b[e..] + next[|b|..] == image[..i] + b[i..] + image[|b|..]
  {
  }

  lemma {:induction false} CutsRebuild(image: seq<Quad>, b: seq<Quad>, base: U32, i: nat)
    requires i <= |b| <= |image| && InMemory(image, base)
    ensures AppliedAll(image, base, CutChunks(b, base, Cuts(Zeros(b), i))) == image[..i] + b[i..] + image[|b|..]
    decreases |b| - i
  {
    hide Applied, CutChunk, CutChunks, Overlaid;
    var flags := Zeros(b);
    if i == |b| {
      assert CutChunks(b, base, Cuts(flags, i)) == [];
    } else {
      var e := RunEnd(flags, i, i + 1);
      forall x | i <= x < e
        ensures b[x] == ZERO <==> b[i] == ZERO
      {
        assert flags[x] == flags[i];
      }
      CutOverlays(image, b, base, i, e);
      CutChunksCons(b, base, (i, e), Cuts(flags, e));
      OneThenRest(image, base, CutChunk(b, base, (i, e)), CutChunks(b, base, Cuts(flags, e)));
      CutsRebuild(Overlaid(image, i, b[i..e]), b, base, e);
      OverlaidStep(image, b, i, e);
    }
  }

  /** The chunks of a whole file rebuild it over any prior memory and touch nothing beyond. */
  lemma FullChunksRebuild(image: seq<Quad>, b: seq<Quad>, base: U32)
    requires |b| <= |image| && InMemory(image, base)
    ensures AppliedAll(image, base, FullChunks(b, base)) == b + image[|b|..]
  {
    CutsRebuild(image, b, base, 0);
    assert image[..0] + b[0..] == b;
  }

  // ----- words as bytes -----

  /** A file read into a zeroed buffer of whole words. */
  function Padded(bytes: seq<Byte>): (ws: seq<Quad>)
    ensures |ws| == (|bytes| + 3) / 4
  {
    seq((|bytes| + 3) / 4, i requires 0 <= i < (|bytes| + 3) / 4 =>
      Quad(ByteAt(bytes, 4 * i), ByteAt(bytes, 4 * i + 1), ByteAt(bytes, 4 * i + 2), ByteAt(bytes, 4 * i + 3)))
  }

  function ByteAt(bytes: seq<Byte>, k: nat): Byte {
    if k < |bytes| then bytes[k] else 0
  }

  function ByteOfQuad(q: Quad, k: nat): Byte
    requires k < 4
  {
    if k == 0 then q.b0 else if k == 1 then q.b1 else if k == 2 then q.b2 else q.b3
  }

  /** Words laid out byte by byte. */
  function Laid(ws: seq<Quad>): (s: seq<Byte>)
    ensures |s| == 4 * |ws|
  {
    seq(4 * |ws|, k requires 0 <= k < 4 * |ws| => ByteOfQuad(ws[k / 4], k % 4))
  }

  /** Zeros up to a whole number of words. */
  function ZeroPadded(bytes: seq<Byte>): (s: seq<Byte>)
    ensures |s| % 4 == 0 && |bytes| <= |s| < |bytes| + 4 && bytes <= s
    ensures forall k :: |bytes| <= k < |s| ==> s[k] == 0
  {
    bytes + seq((4 - |bytes| % 4) % 4, i => 0)
  }

  lemma PaddedSize(n: nat)
    ensures (n + 3) / 4 * 4 == n + (4 - n % 4) % 4
  {
  }

  lemma PaddedByte(bytes: seq<Byte>, k: nat)
    requires k < 4 * |Padded(bytes)|
    ensures Laid(Padded(bytes))[k] == ByteAt(bytes, k)
  {
    hide ByteAt;
    WordAndByte(k);
    ByteOfPadded(bytes, k / 4, k % 4);
  }

  lemma WordAndByte(k: nat)
    ensures 4 * (k / 4) + k % 4 == k
  {
  }

  lemma ByteOfPadded(bytes: seq<Byte>, i: nat, k: nat)
    requires i < |Padded(bytes)| && k < 4
    ensures ByteOfQuad(Padded(bytes)[i], k) == ByteAt(bytes, 4 * i + k)
  {
    hide ByteAt;
  }

  /** The buffer holds the file's bytes in their order, and zeros behind them. */
  lemma PaddedBytes(bytes: seq<Byte>)
    ensures Laid(Padded(bytes)) == ZeroPadded(bytes)
  {
    hide Laid, Padded;
    PaddedSize(|bytes|);
    var l, z := Laid(Padded(bytes)), ZeroPadded(bytes);
    forall k | 0 <= k < |l|
      ensures l[k] == z[k]
    {
      PaddedByte(bytes, k);
    }
  }

  lemma LaidAppend(a: seq<Quad>, b: seq<Quad>)
    ensures Laid(a + b) == Laid(a) + Laid(b)
  {
    hide ByteOfQuad;
    forall k | 4 * |a| <= k < 4 * |a| + 4 * |b|
      ensures k / 4 - |a| == (k - 4 * |a|) / 4 && k % 4 == (k - 4 * |a|) % 4
    {
    }
  }

  /** Words that lay out alike are alike. */
  lemma LaidInjective(a: seq<Quad>, b: seq<Quad>)
    requires Laid(a) == Laid(b)
    ensures a == b
  {
    forall i | 0 <= i < |a|
      ensures a[i] == b[i]
    {
      LaidAt(a, i);
      LaidAt(b, i);
    }
  }

  lemma LaidAt(a: seq<Quad>, i: nat)
    requires i < |a|
    ensures a[i] == Quad(Laid(a)[4 * i], Laid(a)[4 * i + 1], Laid(a)[4 * i + 2], Laid(a)[4 * i + 3])
  {
  }

  /** Applied to memory, the chunks leave just the bytes of a file there, with zeros up to a whole
      word, and the bytes behind as they were. */
  ghost predicate Leaves(cs: seq<Chunk>, base: U32, image: seq<Quad>, bytes: seq<Byte>)
    requires |ZeroPadded(bytes)| <= 4 * |image|
  {
    Laid(AppliedAll(image, base, cs)) == ZeroPadded(bytes) + Laid(image)[|ZeroPadded(bytes)|..]
  }

  lemma LeavesWords(cs: seq<Chunk>, base: U32, image: seq<Quad>, bytes: seq<Byte>)
    requires |ZeroPadded(bytes)| <= 4 * |image| && |Padded(bytes)| <= |image|
    requires AppliedAll(image, base, cs) == Padded(bytes) + image[|Padded(bytes)|..]
    ensures Leaves(cs, base, image, bytes)
  {
    hide Laid, Padded, ZeroPadded, AppliedAll;
    var n := |Padded(bytes)|;
    PaddedBytes(bytes);
    LaidAppend(Padded(bytes), image[n..]);
    LaidAppend(image[..n], image[n..]);
    assert image[..n] + image[n..] == image;
  }

  /** Over any memory, the chunks of a file leave the file. */
  lemma FileLeft(image: seq<Quad>, bytes: seq<Byte>, base: U32)
    requires |ZeroPadded(bytes)| <= 4 * |image| && InMemory(image, base)
    ensures Leaves(FullChunks(Padded(bytes), base), base, image, bytes)
  {
    hide Padded, FullChunks, AppliedAll, Leaves;
    PaddedSize(|bytes|);
    FullChunksRebuild(image, Padded(bytes), base);
    LeavesWords(FullChunks(Padded(bytes), base), base, image, bytes);
  }

  /** Over memory that holds the old version, the chunks of the difference leave the new one. */
  lemma PatchLeft(image: seq<Quad>, old': seq<Byte>, bytes: seq<Byte>, stray: nat -> Quad, base: U32)
    requires |ZeroPadded(old')| <= |ZeroPadded(bytes)| <= 4 * |image| && InMemory(image, base)
    requires ZeroPadded(old') <= Laid(image)
    ensures Leaves(DiffChunks(Padded(old'), Padded(bytes), stray, base), base, image, bytes)
  {
    hide Padded, ZeroPadded, DiffChunks, AppliedAll, Leaves, Laid;
    PaddedBytes(old');
    PaddedBytes(bytes);
    HeldWords(image, Padded(old'));
    DiffPatches(image, Padded(old'), Padded(bytes), stray, base);
    LeavesWords(DiffChunks(Padded(old'), Padded(bytes), stray, base), base, image, bytes);
  }

  /** Whatever memory holds. */
  ghost predicate LeavesAnywhere(cs: seq<Chunk>, base: U32, bytes: seq<Byte>) {
    forall image: seq<Quad> :: |ZeroPadded(bytes)| <= 4 * |image| && InMemory(image, base)
      ==> Leaves(cs, base, image, bytes)
  }

  /** Whatever memory holds behind the old version. */
  ghost predicate LeavesOver(cs: seq<Chunk>, base: U32, old': seq<Byte>, bytes: seq<Byte>) {
    forall image: seq<Quad> ::
      |ZeroPadded(bytes)| <= 4 * |image| && InMemory(image, base) && ZeroPadded(old') <= Laid(image)
      ==> Leaves(cs, base, image, bytes)
  }

  lemma FileLeftAnywhere(bytes: seq<Byte>, base: U32)
    ensures LeavesAnywhere(FullChunks(Padded(bytes), base), base, bytes)
  {
    hide Leaves, Padded, ZeroPadded, FullChunks, InMemory;
    forall image: seq<Quad> | |ZeroPadded(bytes)| <= 4 * |image| && InMemory(image, base)
      ensures Leaves(FullChunks(Padded(bytes), base), base, image, bytes)
    {
      FileLeft(image, bytes, base);
    }
  }

  lemma PatchLeftAnywhere(old': seq<Byte>, bytes: seq<Byte>, stray: nat -> Quad, base: U32)
    ensures |Padded(old')| <= |Padded(bytes)| <==> |ZeroPadded(old')| <= |ZeroPadded(bytes)|
    ensures |Padded(old')| <= |Padded(bytes)| ==>
      LeavesOver(DiffChunks(Padded(old'), Padded(bytes), stray, base), base, old', bytes)
  {
    hide Leaves, DiffChunks, InMemory, Laid;
    PaddedSize(|old'|);
    PaddedSize(|bytes|);
    hide Padded, ZeroPadded;
    if |Padded(old')| <= |Padded(bytes)| {
      forall image: seq<Quad> |
        |ZeroPadded(bytes)| <= 4 * |image| && InMemory(image, base) && ZeroPadded(old') <= Laid(image)
        ensures Leaves(DiffChunks(Padded(old'), Padded(bytes), stray, base), base, image, bytes)
      {
        PatchLeft(image, old', bytes, stray, base);
      }
    }
  }

  lemma HeldWords(image: seq<Quad>, a: seq<Quad>)
    requires Laid(a) <= Laid(image)
    ensures a <= image
  {
    hide Laid;
    var n := |a|;
    assert image[..n] + image[n..] == image;
    LaidAppend(image[..n], image[n..]);
    LaidInjective(a, image[..n]);
  }

  // ----- the file format -----

  const TYPE_DATA: U32 := 0
  const TYPE_FILL: U32 := 1
  const TYPE_EOF: U32 := 0xFF

  const MAGIC: seq<Quad> := [Quad(0x53, 0x41, 0x4C, 0x54), Quad(0x50, 0x54, 0x43, 0x48)]   // SALT PTCH
  const VERSION: U32 := 1

  /** Magic, version, and the five words of the digest, zero at first. */
  function Header(): (h: seq<Quad>)
    ensures |h| == 8
  {
    MAGIC + [PutBe32(VERSION)] + [ZERO, ZERO, ZERO, ZERO, ZERO]
  }

  function ChunkFile(c: Chunk): seq<Quad> {
    [PutBe32(if c.Data? then TYPE_DATA else TYPE_FILL), PutBe32(c.addr), PutBe32(Wrap32(4 * ChunkLength(c)))]
    + if c.Data? then c.words else []
  }

  function ChunksFile(cs: seq<Chunk>): seq<Quad> {
    if cs == [] then [] else ChunkFile(cs[0]) + ChunksFile(cs[1..])
  }

  lemma {:induction false} ChunksFileAppend(cs: seq<Chunk>, ds: seq<Chunk>)
    ensures ChunksFile(cs + ds) == ChunksFile(cs) + ChunksFile(ds)
    decreases |cs|
  {
    if cs == [] {
      assert cs + ds == ds;
    } else {
      assert (cs + ds)[1..] == cs[1..] + ds;
      ChunksFileAppend(cs[1..], ds);
    }
  }

  /** What the reader prints. */
  datatype Event = DataChunk(addr: U32, len: U32) | FillChunk(addr: U32, len: U32) | EndOfFile | Unknown(w: U32)

  datatype Listing = BadMagic | BadVersion | Chunks(events: seq<Event>)

  /** A word of the file as a number; stray stands for whatever lies beyond its end. */
  function NumberAt(file: seq<Quad>, stray: nat -> U32, k: nat): U32 {
    if k < |file| then GetBe32(file[k]) else stray(k)
  }

  /** One step of the reader: what it prints and how far it goes on. */
  function ReadStep(file: seq<Quad>, stray: nat -> U32, cur: nat): (r: (Event, nat))
    requires cur < |file|
    ensures cur < r.1
  {
    var t := NumberAt(file, stray, cur);
    if t == TYPE_DATA then
      (DataChunk(NumberAt(file, stray, cur + 1), NumberAt(file, stray, cur + 2)),
       cur + 3 + NumberAt(file, stray, cur + 2) / 4)
    else if t == TYPE_FILL then
      (FillChunk(NumberAt(file, stray, cur + 1), NumberAt(file, stray, cur + 2)), cur + 3)
    else if t == TYPE_EOF then (EndOfFile, cur + 1)
    else (Unknown(t), cur + 1)
  }

  function ReadFrom(file: seq<Quad>, stray: nat -> U32, cur: nat): seq<Event>
    decreases |file| - cur
  {
    if cur >= |file| then []
    else
      var (e, next) := ReadStep(file, stray, cur);
      [e] + ReadFrom(file, stray, next)
  }

  function EventOf(c: Chunk): Event {
    if c.Data? then DataChunk(c.addr, Wrap32(4 * |c.words|)) else FillChunk(c.addr, Wrap32(4 * c.count))
  }

  function EventsOf(cs: seq<Chunk>): (es: seq<Event>)
    ensures |es| == |cs|
  {
    seq(|cs|, k requires 0 <= k < |cs| => EventOf(cs[k]))
  }

  /** Lengths that the length field can hold. */
  predicate Storable(cs: seq<Chunk>) {
    forall k :: 0 <= k < |cs| ==> 4 * ChunkLength(cs[k]) < TWO32
  }

  /** Reading chunks written one after the other gives back those chunks, then the end mark,
      and stops exactly there. */
  lemma {:induction false} ReadsBack(file: seq<Quad>, stray: nat -> U32, cur: nat, cs: seq<Chunk>)
    requires Storable(cs) && cur <= |file|
    requires file[cur..] == ChunksFile(cs) + [PutBe32(TYPE_EOF)]
    ensures ReadFrom(file, stray, cur) == EventsOf(cs) + [EndOfFile]
    decreases |cs|
  {
    hide PutBe32, GetBe32, ReadFrom, ReadStep, ChunkFile, EventOf, EventsOf;
    if cs == [] {
      EndMarkRead(file, stray, cur);
      assert EventsOf(cs) == [];
    } else {
      var c, rest := cs[0], ChunksFile(cs[1..]) + [PutBe32(TYPE_EOF)];
      assert file[cur..] == ChunkFile(c) + rest;
      OneChunkRead(file, stray, cur, c, rest);
      ReadFromOnce(file, stray, cur);
      ReadsBack(file, stray, cur + |ChunkFile(c)|, cs[1..]);
      EventsFirst(cs);
      assert [EventOf(c)] + (EventsOf(cs[1..]) + [EndOfFile]) == [EventOf(c)] + EventsOf(cs[1..]) + [EndOfFile];
    }
  }

  lemma EventsFirst(cs: seq<Chunk>)
    requires cs != []
    ensures EventsOf(cs) == [EventOf(cs[0])] + EventsOf(cs[1..])
  {
    hide EventOf;
  }

  lemma ReadFromOnce(file: seq<Quad>, stray: nat -> U32, cur: nat)
    requires cur < |file|
    ensures var (e, next) := ReadStep(file, stray, cur); ReadFrom(file, stray, cur) == [e] + ReadFrom(file, stray, next)
  {
    hide ReadStep;
  }

  lemma EndMarkRead(file: seq<Quad>, stray: nat -> U32, cur: nat)
    requires cur <= |file| && file[cur..] == [PutBe32(TYPE_EOF)]
    ensures ReadFrom(file, stray, cur) == [EndOfFile]
  {
    hide PutBe32, GetBe32, ReadFrom;
    assert file[cur..][0] == file[cur] && |file| == cur + 1;
    BeRoundTrip(TYPE_EOF);
    ReadFromOnce(file, stray, cur);
    NothingToRead(file, stray, cur + 1);
  }

  lemma NothingToRead(file: seq<Quad>, stray: nat -> U32, cur: nat)
    requires cur >= |file|
    ensures ReadFrom(file, stray, cur) == []
  {
  }

  lemma OneChunkRead(file: seq<Quad>, stray: nat -> U32, cur: nat, c: Chunk, rest: seq<Quad>)
    requires 4 * ChunkLength(c) < TWO32 && cur <= |file|
    requires file[cur..] == ChunkFile(c) + rest
    ensures cur < |file| && ReadStep(file, stray, cur) == (EventOf(c), cur + |ChunkFile(c)|)
    ensures cur + |ChunkFile(c)| <= |file| && file[cur + |ChunkFile(c)|..] == rest
  {
    hide PutBe32, GetBe32;
    var f := ChunkFile(c);
    assert file[cur..][0] == file[cur] == f[0];
    assert file[cur..][1] == file[cur + 1] == f[1];
    assert file[cur..][2] == file[cur + 2] == f[2];
    BeRoundTrip(if c.Data? then TYPE_DATA else TYPE_FILL);
    BeRoundTrip(c.addr);
    BeRoundTrip(Wrap32(4 * ChunkLength(c)));
    assert file[cur + |f|..] == file[cur..][|f|..];
  }

  // ----- the digest -----

  function Octet(b: Byte): bv8 { b as bv8 }

  function BytesOfQuad(q: Quad): (s: seq<bv8>)
    ensures |s| == 4
  {
    [Octet(q.b0), Octet(q.b1), Octet(q.b2), Octet(q.b3)]
  }

  /** The file as the bytes that are hashed. */
  function FileBytes(file: seq<Quad>): (s: seq<bv8>)
    ensures |s| == 4 * |file|
  {
    if file == [] then [] else BytesOfQuad(file[0]) + FileBytes(file[1..])
  }

  function DigestWords(d: seq<bv8>): (ws: seq<Quad>)
    requires |d| == 20
    ensures |ws| == 5
  {
    seq(5, i requires 0 <= i < 5 => Quad(d[4 * i] as int, d[4 * i + 1] as int, d[4 * i + 2] as int,
                                         d[4 * i + 3] as int))
  }

  /** The file with other words where the digest goes. */
  function WithDigest(file: seq<Quad>, ws: seq<Quad>): (r: seq<Quad>)
    requires |file| >= 8 && |ws| == 5
    ensures |r| == |file|
  {
    file[..3] + ws + file[8..]
  }

  const NO_DIGEST: seq<Quad> := [ZERO, ZERO, ZERO, ZERO, ZERO]

  /** Header, chunks and end mark, not yet hashed. */
  function Unhashed(cs: seq<Chunk>): (f: seq<Quad>)
    ensures |f| >= 9
  {
    Header() + ChunksFile(cs) + [PutBe32(TYPE_EOF)]
  }

  function Sha1Words(file: seq<Quad>): (ws: seq<Quad>)
    requires 4 * |file| < 0x2000_0000_0000_0000
    ensures |ws| == 5
  {
    DigestLength(FileBytes(file));
    DigestWords(Sha1Spec.Sha1(FileBytes(file)))
  }

  lemma DigestLength(m: seq<bv8>)
    requires |m| < 0x2000_0000_0000_0000
    ensures |Sha1Spec.Sha1(m)| == 20
  {
    hide Sha1Spec.Chain, Sha1Spec.Pad;
  }

  /** The finished file. */
  function Finished(cs: seq<Chunk>): seq<Quad>
    requires 4 * |Unhashed(cs)| < 0x2000_0000_0000_0000
  {
    WithDigest(Unhashed(cs), Sha1Words(Unhashed(cs)))
  }

  /** The stored digest is the SHA-1 of the file with its digest field zeroed. */
  lemma DigestChecks(cs: seq<Chunk>)
    requires 4 * |Unhashed(cs)| < 0x2000_0000_0000_0000
    ensures var f := Finished(cs);
      && |f| >= 9 && f[3..8] == Sha1Words(Unhashed(cs)) && WithDigest(f, NO_DIGEST) == Unhashed(cs)
  {
    hide Sha1Words, PutBe32;
    var u := Unhashed(cs);
    assert u[..3] + NO_DIGEST + u[8..] == u by {
      assert u[..8] == Header();
      assert u == u[..8] + u[8..];
    }
  }

  /** Reading a finished file lists exactly its chunks and the end mark. */
  lemma FinishedReadsBack(cs: seq<Chunk>, stray: nat -> U32)
    requires Storable(cs) && 4 * |Unhashed(cs)| < 0x2000_0000_0000_0000
    ensures ReadAll(Finished(cs), stray) == Chunks(EventsOf(cs) + [EndOfFile])
  {
    hide Sha1Words, ReadFrom;
    var u, f := Unhashed(cs), Finished(cs);
    assert f[8..] == u[8..] && u[8..] == ChunksFile(cs) + [PutBe32(TYPE_EOF)];
    assert u[..3] == Header()[..3] && f[..3] == u[..3];
    assert f[0] == f[..3][0] && f[1] == f[..3][1] && f[2] == f[..3][2];
    BeRoundTrip(VERSION);
    ReadsBack(f, stray, 8, cs);
  }

  function ReadAll(file: seq<Quad>, stray: nat -> U32): Listing {
    if NumberAt(file, stray, 0) != GetBe32(MAGIC[0]) || NumberAt(file, stray, 1) != GetBe32(MAGIC[1]) then BadMagic
    else if NumberAt(file, stray, 2) != VERSION then BadVersion
    else Chunks(ReadFrom(file, stray, 8))
  }

  // ----- the code -----

  class PatchFile {
    var file: seq<Quad>
    ghost var chunks: seq<Chunk>

    /** What has been written is the header and the chunks so far. */
    ghost predicate Open()
      reads this
    {
      file == Header() + ChunksFile(chunks)
    }

    /** write_patch_header on a new file. */
    constructor ()
      ensures Open() && chunks == []
    {
      file := [Quad(0x53, 0x41, 0x4C, 0x54), Quad(0x50, 0x54, 0x43, 0x48), PutBe32(1), ZERO, ZERO, ZERO, ZERO, ZERO];
      chunks := [];
    }

    method AddDiff(data: seq<Quad>, base: U32)
      requires Open()
      modifies this
      ensures Open() && chunks == old(chunks) + [Data(base, Clip(data))]
    {
      ClipFits(|data|);
      var len: U32 := Wrap32(4 * |data|);
      Emit(Data(base, Clip(data)), PutBe32(0), PutBe32(base), PutBe32(len), data[..len / 4]);
    }

    method AddMemset(words: nat, base: U32)
      requires Open()
      modifies this
      ensures Open() && chunks == old(chunks) + [Fill(base, words)]
    {
      Emit(Fill(base, words), PutBe32(1), PutBe32(base), PutBe32(Wrap32(words * 4)), []);
    }

    /** fwrite of a chunk header and its data. */
    method Emit(ghost c: Chunk, t: Quad, addr: Quad, len: Quad, data: seq<Quad>)
      requires Open() && ChunkFile(c) == [t, addr, len] + data
      modifies this
      ensures Open() && chunks == old(chunks) + [c]
    {
      hide ChunkFile, ChunksFile;
      ChunksFileOne(chunks, c);
      file := file + [t, addr, len];
      file := file + data;
      chunks := chunks + [c];
    }

    /** patch_diff_to_file. It stays within the new version exactly if that is not shorter. */
    method DiffToFile(unpatched: seq<Byte>, patched: seq<Byte>, stray: nat -> Quad, base: U32)
      returns (ghost inRange: bool)
      requires Open()
      modifies this
      ensures Open() && chunks == old(chunks) + DiffChunks(Padded(unpatched), Padded(patched), stray, base)
      ensures inRange <==> |ZeroPadded(unpatched)| <= |ZeroPadded(patched)|
      ensures inRange ==> LeavesOver(chunks[|old(chunks)|..], base, unpatched, patched)
    {
      hide Spans, CopyChunk, CopyChunks, RunEnd, Padded, Clip, WordsFrom, Compared, Open, ZeroPadded, LeavesOver;
      var a, b := Padded(unpatched), Padded(patched);
      ghost var v, seen: nat := Compared(a, b, stray), 0;
      ghost var flags := Differs(a, v);
      ghost var spans: seq<(nat, nat)> := [];
      var i := 0;
      NoChunks(v, base);
      while i < |a|
        invariant 0 <= i <= seen <= |a| && Open() && AtRunStart(flags, i)
        invariant forall k :: 0 <= k < |spans| ==> spans[k].0 < spans[k].1 <= |v|
        invariant spans + Spans(flags, i) == Spans(flags, 0)
        invariant chunks == old(chunks) + CopyChunks(v, base, spans)
      {
        SpansStep(flags, spans, i);
        ComparedAt(a, b, stray, i);
        var j := i;
        seen := if seen < i + 1 then i + 1 else seen;
        if a[i] != WordsFrom(b, stray, i, 1)[0] {
          i, seen := EndOfDifference(a, b, stray, j);
          ComparedSlice(a, b, stray, j, i);
          AddDiff(WordsFrom(b, stray, j, i - j), Wrap32(base + 4 * j));
          CopyChunksSnoc(v, base, spans, (j, i));
          spans := spans + [(j, i)];
        } else {
          i := i + 1;
        }
      }
      SpansStep(flags, spans, i);
      inRange := seen <= |b|;
      if |a| != |b| {
        AddDiff(WordsFrom(b, stray, |a|, Wrap32(|b| - |a|)), Wrap32(base + 4 * |a|));
      }
      assert chunks[|old(chunks)|..] == DiffChunks(a, b, stray, base);
      PatchLeftAnywhere(unpatched, patched, stray, base);
    }

    /** patch_add_to_file. */
    method AddToFile(patched: seq<Byte>, base: U32)
      requires Open()
      modifies this
      ensures Open() && chunks == old(chunks) + FullChunks(Padded(patched), base)
      ensures LeavesAnywhere(chunks[|old(chunks)|..], base, patched)
    {
      hide Cuts, CutChunks, CutChunk, CopyChunk, RunEnd, Padded, Zeros, Header, ChunksFile, LeavesAnywhere;
      var b := Padded(patched);
      ghost var flags := Zeros(b);
      ghost var cuts: seq<(nat, nat)> := [];
      var i := 0;
      NoChunks(b, base);
      while i < |b|
        invariant 0 <= i <= |b| && Open()
        invariant forall k :: 0 <= k < |cuts| ==> cuts[k].0 < cuts[k].1 <= |b|
        invariant cuts + Cuts(flags, i) == Cuts(flags, 0)
        invariant chunks == old(chunks) + CutChunks(b, base, cuts)
      {
        CutsStep(flags, cuts, i);
        var j := i;
        i := EndOfCut(b, j);
        if b[j] == ZERO {
          AddMemset(i - j, Wrap32(base + 4 * j));
        } else {
          AddDiff(b[j..i], Wrap32(base + 4 * j));
        }
        CutChunksSnoc(b, base, cuts, (j, i));
        cuts := cuts + [(j, i)];
      }
      CutsStep(flags, cuts, i);
      assert chunks[|old(chunks)|..] == FullChunks(b, base);
      FileLeftAnywhere(patched, base);
    }

    /** write_patch_footer_and_hash: the end mark, the digest over the whole file in pieces of
        0x2000 bytes, and the digest stored in the header. */
    method Finish(littleEndian: bool)
      requires Open() && 4 * |Unhashed(chunks)| < 0x2000_0000_0000_0000
      modifies this
      ensures chunks == old(chunks) && file == Finished(chunks)
    {
      hide Header, ChunksFile, PutBe32, FileBytes, DigestWords, Sha1Spec.Sha1;
      file := file + [PutBe32(0xFF)];
      var digest := Digest(file, littleEndian);
      file := file[..3] + DigestWords(digest) + file[8..];
    }
  }

  /** The hashing loop of the footer. */
  method Digest(file: seq<Quad>, littleEndian: bool) returns (digest: seq<bv8>)
    requires 4 * |file| < 0x2000_0000_0000_0000
    ensures |digest| == 20 && digest == Sha1Spec.Sha1(FileBytes(file))
  {
    hide Sha1Spec.Sha1, FileBytes;
    var bytes := FileBytes(file);
    var sha := new Sha1Code.Context(littleEndian);
    sha.Begin();
    var i := 0;
    while i < |bytes|
      invariant 0 <= i && sha.Valid() && sha.message == bytes[..Min(i, |bytes|)]
      invariant fresh(sha) && fresh(sha.hash) && fresh(sha.wbuf)
    {
      var size := if |bytes| - i < 0x2000 then |bytes| - i else 0x2000;
      sha.Hash(bytes[i..i + size]);
      assert bytes[..i] + bytes[i..i + size] == bytes[..i + size];
      i := i + 0x2000;
    }
    assert bytes[..|bytes|] == bytes;
    var hval := new bv8[20];
    sha.End(hval);
    digest := hval[..];
  }

  function Min(a: nat, b: nat): nat {
    if a < b then a else b
  }

  /** The inner loop of patch_diff_to_file. So many words of the new version have been read. */
  method EndOfDifference(a: seq<Quad>, b: seq<Quad>, stray: nat -> Quad, j: nat) returns (i: nat, ghost seen: nat)
    requires j < |a| && a[j] != Compared(a, b, stray)[j]
    ensures i == RunEnd(Differs(a, Compared(a, b, stray)), j, j + 1)
    ensures i <= seen <= |a|
  {
    hide RunEnd;
    ghost var flags := Differs(a, Compared(a, b, stray));
    i := j;
    seen := j + 1;
    while a[i] != WordsFrom(b, stray, i, 1)[0]
      invariant j <= i < |a| && i < seen <= |a| && forall x :: j <= x < i ==> flags[x]
      decreases |a| - i
    {
      i := i + 1;
      if i >= |a| {
        break;
      }
      seen := i + 1;
    }
    RunEndUnique(flags, j, j + 1, i);
  }

  /** The inner loops of patch_add_to_file. */
  method EndOfCut(b: seq<Quad>, j: nat) returns (i: nat)
    requires j < |b|
    ensures i == RunEnd(Zeros(b), j, j + 1)
  {
    hide RunEnd;
    ghost var flags := Zeros(b);
    i := j;
    if b[i] == ZERO {
      while b[i] == ZERO
        invariant j <= i < |b| && forall x :: j <= x < i ==> flags[x]
        decreases |b| - i
      {
        i := i + 1;
        if i >= |b| {
          break;
        }
      }
    } else {
      while b[i] != ZERO
        invariant j <= i < |b| && forall x :: j <= x < i ==> !flags[x]
        decreases |b| - i
      {
        i := i + 1;
        if i >= |b| {
          break;
        }
      }
    }
    RunEndUnique(flags, j, j + 1, i);
  }

  /** The whole words of a file. */
  function WholeWords(bytes: seq<Byte>): (ws: seq<Quad>)
    ensures |ws| == |bytes| / 4
  {
    seq(|bytes| / 4, i requires 0 <= i < |bytes| / 4 =>
      Quad(bytes[4 * i], bytes[4 * i + 1], bytes[4 * i + 2], bytes[4 * i + 3]))
  }

  lemma MagicNumbers()
    ensures GetBe32(MAGIC[0]) == 0x5341_4C54 && GetBe32(MAGIC[1]) == 0x5054_4348
  {
  }

  /** patch_read, on a file whose words its 32-bit counter can count. stray stands for the word
      that a file may end in the middle of, and for what lies behind. */
  method PatchRead(bytes: seq<Byte>, stray: nat -> U32) returns (listing: Listing)
    requires |bytes| / 4 < 0xC000_0000 - 1
    ensures listing == ReadAll(WholeWords(bytes), stray)
  {
    hide GetBe32, ReadFrom, WholeWords;
    var file := WholeWords(bytes);
    MagicNumbers();
    if NumberAt(file, stray, 0) != 0x5341_4C54 || NumberAt(file, stray, 1) != 0x5054_4348 {
      return BadMagic;
    }
    if NumberAt(file, stray, 2) != 1 {
      return BadVersion;
    }
    var cur: U32 := 8;
    var events := [];
    while cur < |file|
      invariant events + ReadFrom(file, stray, cur) == ReadFrom(file, stray, 8)
      decreases |file| - cur
    {
      ReadFromStep(file, stray, events, cur);
      var t := NumberAt(file, stray, cur);
      if t == 0 {
        events := events + [DataChunk(NumberAt(file, stray, cur + 1), NumberAt(file, stray, cur + 2))];
        var words := NumberAt(file, stray, cur + 2) / 4;
        cur := cur + (3 + words);
      } else if t == 1 {
        events := events + [FillChunk(NumberAt(file, stray, cur + 1), NumberAt(file, stray, cur + 2))];
        cur := cur + 3;
      } else if t == 0xFF {
        events := events + [EndOfFile];
        cur := cur + 1;
      } else {
        events := events + [Unknown(t)];
        cur := cur + 1;
      }
    }
    ReadFromStep(file, stray, events, cur);
    listing := Chunks(events);
  }

  lemma ReadFromStep(file: seq<Quad>, stray: nat -> U32, done: seq<Event>, cur: nat)
    ensures cur >= |file| ==> done + ReadFrom(file, stray, cur) == done
    ensures cur < |file| ==>
      var (e, next) := ReadStep(file, stray, cur);
      done + ReadFrom(file, stray, cur) == done + [e] + ReadFrom(file, stray, next)
  {
    hide ReadStep;
    if cur < |file| {
      var r := ReadStep(file, stray, cur);
      assert done + ([r.0] + ReadFrom(file, stray, r.1)) == done + [r.0] + ReadFrom(file, stray, r.1);
    }
  }

  lemma {:induction false} RunEndUnique(flags: seq<bool>, i: nat, k: nat, e: nat)
    requires i < k <= e <= |flags|
    requires forall x :: i <= x < e ==> flags[x] == flags[i]
    requires e < |flags| ==> flags[e] != flags[i]
    ensures RunEnd(flags, i, k) == e
  {
    hide RunEnd;
  }

  lemma ComparedAt(a: seq<Quad>, b: seq<Quad>, stray: nat -> Quad, i: nat)
    requires i < |a|
    ensures WordsFrom(b, stray, i, 1)[0] == Compared(a, b, stray)[i]
  {
  }

  lemma ComparedSlice(a: seq<Quad>, b: seq<Quad>, stray: nat -> Quad, j: nat, i: nat)
    requires j <= i <= |a|
    ensures WordsFrom(b, stray, j, i - j) == Compared(a, b, stray)[j..i]
  {
  }

  lemma ChunksFileOne(cs: seq<Chunk>, c: Chunk)
    ensures ChunksFile(cs + [c]) == ChunksFile(cs) + ChunkFile(c)
  {
    ChunksFileAppend(cs, [c]);
    assert [c][1..] == [];
    assert ChunkFile(c) + [] == ChunkFile(c);
    assert ChunksFile([c]) == ChunkFile(c) + ChunksFile([]);
  }

  lemma NoChunks(b: seq<Quad>, base: U32)
    ensures CopyChunks(b, base, []) == [] && CutChunks(b, base, []) == []
  {
  }

  /** The positions at which the outer loop stands. */
  ghost predicate AtRunStart(flags: seq<bool>, i: nat)
    requires i <= |flags|
  {
    i == 0 || i == |flags| || !flags[i] || !flags[i - 1]
  }

  lemma SpansStep(flags: seq<bool>, done: seq<(nat, nat)>, i: nat)
    requires i <= |flags| && AtRunStart(flags, i)
    ensures i == |flags| ==> done + Spans(flags, i) == done
    ensures i < |flags| && !flags[i] ==>
      AtRunStart(flags, i + 1) && done + Spans(flags, i) == done + Spans(flags, i + 1)
    ensures i < |flags| && flags[i] ==>
      var e := RunEnd(flags, i, i + 1);
      AtRunStart(flags, e) && done + Spans(flags, i) == done + [(i, e)] + Spans(flags, e)
  {
    hide RunEnd;
    if i < |flags| && flags[i] {
      var e := RunEnd(flags, i, i + 1);
      assert done + ([(i, e)] + Spans(flags, e)) == done + [(i, e)] + Spans(flags, e);
    }
  }

  lemma CutsStep(flags: seq<bool>, done: seq<(nat, nat)>, i: nat)
    requires i <= |flags|
    ensures i == |flags| ==> done + Cuts(flags, i) == done
    ensures i < |flags| ==>
      var e := RunEnd(flags, i, i + 1);
      done + Cuts(flags, i) == done + [(i, e)] + Cuts(flags, e)
  {
    hide RunEnd;
    if i < |flags| {
      var e := RunEnd(flags, i, i + 1);
      assert done + ([(i, e)] + Cuts(flags, e)) == done + [(i, e)] + Cuts(flags, e);
    }
  }

  lemma CutChunksSnoc(b: seq<Quad>, base: U32, cuts: seq<(nat, nat)>, cut: (nat, nat))
    requires cut.0 < cut.1 <= |b| && forall k :: 0 <= k < |cuts| ==> cuts[k].0 < cuts[k].1 <= |b|
    ensures b[cut.0] == ZERO ==>
      CutChunks(b, base, cuts + [cut]) == CutChunks(b, base, cuts) + [Fill(Wrap32(base + 4 * cut.0), cut.1 - cut.0)]
    ensures b[cut.0] != ZERO ==>
      CutChunks(b, base, cuts + [cut]) == CutChunks(b, base, cuts) + [Data(Wrap32(base + 4 * cut.0),
        Clip(b[cut.0..cut.1]))]
  {
    var c := CutChunk(b, base, cut);
    assert c == if b[cut.0] == ZERO then Fill(Wrap32(base + 4 * cut.0), cut.1 - cut.0) else CopyChunk(b, base, cut);
    hide CutChunk;
    assert CutChunks(b, base, cuts + [cut]) == CutChunks(b, base, cuts) + [c];
  }

  lemma CopyChunksSnoc(b: seq<Quad>, base: U32, spans: seq<(nat, nat)>, span: (nat, nat))
    requires span.0 < span.1 <= |b| && forall k :: 0 <= k < |spans| ==> spans[k].0 < spans[k].1 <= |b|
    ensures CopyChunks(b, base, spans + [span])
         == CopyChunks(b, base, spans) + [Data(Wrap32(base + 4 * span.0), Clip(b[span.0..span.1]))]
  {
    assert CopyChunk(b, base, span) == Data(Wrap32(base + 4 * span.0), Clip(b[span.0..span.1]));
    hide CopyChunk, Clip;
  }
}
