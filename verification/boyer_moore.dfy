/** The Boyer-Moore byte search of wafel_core/source/bm.c. */
module BoyerMoore {
  import opened Words

  const ALPHABET_LEN := 256

  /** What a search is for: the pattern stands in the text at offset k. */
  ghost predicate OccursAt(text: seq<Byte>, pat: seq<Byte>, k: int) {
    0 <= k <= |text| - |pat| && forall x :: 0 <= x < |pat| ==> text[k + x] == pat[x]
  }

  ghost predicate LeftmostOccurrence(text: seq<Byte>, pat: seq<Byte>, r: Option<nat>) {
    match r
    case Some(k) => OccursAt(text, pat, k) && forall h :: 0 <= h < k ==> !OccursAt(text, pat, h)
    case None => forall h :: !OccursAt(text, pat, h)
  }

  // ----- the bad-character table -----

  /** r is the last position of c in pat, the final character left out; -1 if there is none. */
  ghost predicate LastBefore(pat: seq<Byte>, c: Byte, r: int) {
    && -1 <= r < |pat| - 1
    && (r >= 0 ==> pat[r] == c)
    && forall k :: r < k < |pat| - 1 ==> pat[k] != c
  }

  ghost predicate IsDelta1(d: seq<Int32>, pat: seq<Byte>) {
    && |d| == ALPHABET_LEN
    && forall c: Byte :: 0 <= c < ALPHABET_LEN && |pat| > 0 ==> LastBefore(pat, c, |pat| - 1 - d[c])
  }

  method MakeDelta1(delta1: array<Int32>, pat: seq<Byte>)
    requires delta1.Length == ALPHABET_LEN
    requires |pat| < 0x8000_0000
    modifies delta1
    ensures IsDelta1(delta1[..], pat)
  {
    for i := 0 to ALPHABET_LEN
      invariant forall c :: 0 <= c < i ==> delta1[c] == |pat|
    {
      delta1[i] := |pat|;
    }
    var i: Int32 := 0;
    while i < |pat| - 1
      invariant 0 <= i && (|pat| > 0 ==> i <= |pat| - 1)
      invariant forall c: Byte :: 0 <= c < ALPHABET_LEN ==>
        var r := |pat| - 1 - delta1[c];
        -1 <= r < i <= |pat| && (r >= 0 ==> pat[r] == c) && forall k :: r < k < i ==> pat[k] != c
    {
      delta1[pat[i]] := |pat| - 1 - i;
      i := i + 1;
    }
  }

  // ----- the good-suffix table -----

  /** The part of pat from s on reappears at its beginning. */
  ghost predicate SuffixIsPrefix(pat: seq<Byte>, s: int) {
    0 <= s <= |pat| && forall k :: s <= k < |pat| ==> pat[k - s] == pat[k]
  }

  method IsPrefix(word: seq<Byte>, pos: int) returns (r: bool)
    requires 0 <= pos <= |word| < 0x8000_0000
    ensures r <==> SuffixIsPrefix(word, pos)
  {
    var i: Int32 := 0;
    var suffixlen: Int32 := |word| - pos;
    while i < suffixlen
      invariant 0 <= i <= suffixlen
      invariant forall k :: pos <= k < pos + i ==> word[k - pos] == word[k]
    {
      if word[i] != word[pos + i] {
        assert word[pos + i - pos] != word[pos + i];
        return false;
      }
      i := i + 1;
    }
    return true;
  }

  /** The n characters ending at pos are the last n characters of the word. */
  ghost predicate AgreesBack(word: seq<Byte>, pos: nat, n: nat) {
    n <= pos < |word| &&
    forall k :: |word| - n <= k < |word| ==> word[k - (|word| - 1 - pos)] == word[k]
  }

  method SuffixLength(word: seq<Byte>, pos: int) returns (n: Int32)
    requires 0 <= pos < |word| < 0x8000_0000
    ensures 0 <= n && AgreesBack(word, pos, n)
    ensures n < pos ==> word[pos - n] != word[|word| - 1 - n]
  {
    n := 0;
    while word[pos - n] == word[|word| - 1 - n] && n < pos
      invariant 0 <= n && AgreesBack(word, pos, n)
    {
      n := n + 1;
    }
  }

  /** Moving the pattern right by s keeps it in agreement with the matched suffix pat[j+1..]
      wherever the two overlap, and puts under position j nothing or a different character. */
  ghost predicate GoodShift(pat: seq<Byte>, j: int, s: int) {
    && 0 <= j < |pat| && 1 <= s
    && (forall k :: j < k < |pat| && s <= k ==> pat[k - s] == pat[k])
    && (s <= j ==> pat[j - s] != pat[j])
  }

  ghost predicate LeastGoodShift(pat: seq<Byte>, j: int, s: int) {
    GoodShift(pat, j, s) && forall t :: GoodShift(pat, j, t) ==> s <= t
  }

  /** The shift of the pattern that a table entry stands for: entries count from the end. */
  function ShiftOf(d: seq<Int32>, pat: seq<Byte>, j: int): int
    requires 0 <= j < |pat| <= |d|
  {
    d[j] - (|pat| - 1 - j)
  }

  ghost predicate IsDelta2(d: seq<Int32>, pat: seq<Byte>) {
    && |d| >= |pat|
    && forall j :: 0 <= j < |pat| ==> LeastGoodShift(pat, j, ShiftOf(d, pat, j))
  }

  /** Shifting by the whole length is always good. */
  lemma WholeLengthIsGood(pat: seq<Byte>, j: nat)
    requires j < |pat|
    ensures GoodShift(pat, j, |pat|)
  {
  }

  /** A shift past position j is good exactly when the suffix it leaves is a prefix. */
  lemma GoodShiftPastMismatch(pat: seq<Byte>, j: nat, s: nat)
    requires j < |pat| && j < s <= |pat|
    ensures GoodShift(pat, j, s) <==> SuffixIsPrefix(pat, s)
  {
  }

  /** A shift s that keeps position j over the pattern is good exactly when the backward
      comparison from |pat|-1-s agrees up to j and fails there. */
  lemma GoodShiftWithinPattern(pat: seq<Byte>, j: nat, s: nat)
    requires 1 <= s <= j < |pat|
    ensures GoodShift(pat, j, s) <==>
      AgreesBack(pat, |pat| - 1 - s, |pat| - 1 - j) && pat[j - s] != pat[j]
  {
  }

  /** After the first loop has come down to p: every later entry is a good shift, and no
      good shift that clears its position is shorter. */
  ghost predicate ClearingPass(d: seq<Int32>, pat: seq<Byte>, p: int) {
    && -1 <= p && |d| >= |pat|
    && forall j :: p < j < |pat| ==>
        && GoodShift(pat, j, ShiftOf(d, pat, j))
        && j < ShiftOf(d, pat, j) <= |pat|
        && forall t :: j < t && GoodShift(pat, j, t) ==> ShiftOf(d, pat, j) <= t
  }

  /** After the second loop has come up to p: as above, and no good shift longer than
      |pat|-1-p is shorter than the entry. */
  ghost predicate MatchingPass(d: seq<Int32>, pat: seq<Byte>, p: int) {
    && |d| >= |pat|
    && forall j :: 0 <= j < |pat| ==>
        && GoodShift(pat, j, ShiftOf(d, pat, j))
        && ShiftOf(d, pat, j) <= |pat|
        && (j < ShiftOf(d, pat, j) || |pat| - 1 - p < ShiftOf(d, pat, j))
        && forall t :: (j < t || |pat| - 1 - p < t) && GoodShift(pat, j, t) ==> ShiftOf(d, pat, j) <= t
  }

  lemma ClearingStep(d: seq<Int32>, pat: seq<Byte>, p: nat, lpi: int)
    requires p < |pat| && |d| >= |pat| && 2 * |pat| <= 0x8000_0000
    requires ClearingPass(d, pat, p)
    requires p < lpi <= |pat| && SuffixIsPrefix(pat, lpi)
    requires forall t :: p < t < lpi ==> !SuffixIsPrefix(pat, t)
    ensures ClearingPass(d[p := lpi + (|pat| - 1 - p)], pat, p - 1)
  {
    var e: seq<Int32> := d[p := lpi + (|pat| - 1 - p)];
    GoodShiftPastMismatch(pat, p, lpi);
    forall t | p < t && GoodShift(pat, p, t)
      ensures lpi <= t
    {
      if t <= |pat| {
        GoodShiftPastMismatch(pat, p, t);
      }
    }
    forall j | p - 1 < j < |pat|
      ensures GoodShift(pat, j, ShiftOf(e, pat, j)) && j < ShiftOf(e, pat, j) <= |pat|
      ensures forall t :: j < t && GoodShift(pat, j, t) ==> ShiftOf(e, pat, j) <= t
    {
      assert j > p ==> ShiftOf(e, pat, j) == ShiftOf(d, pat, j);
    }
  }

  /** The only entry the shift |pat|-1-p can improve is the one the comparison stopped at. */
  lemma OnlyStopImproves(pat: seq<Byte>, p: nat, slen: nat, j: nat)
    requires p < |pat| - 1 && AgreesBack(pat, p, slen)
    requires slen < p ==> pat[p - slen] != pat[|pat| - 1 - slen]
    requires |pat| - 1 - p <= j < |pat| && GoodShift(pat, j, |pat| - 1 - p)
    ensures j == |pat| - 1 - slen && pat[p - slen] != pat[|pat| - 1 - slen]
  {
    GoodShiftWithinPattern(pat, j, |pat| - 1 - p);
  }

  /** One turn of the second loop. It only ever lowers what is there. */
  lemma MatchingStep(d: seq<Int32>, e: seq<Int32>, pat: seq<Byte>, p: nat, slen: nat)
    requires p < |pat| - 1 && |d| >= |pat| && 2 * |pat| <= 0x8000_0000
    requires MatchingPass(d, pat, p)
    requires AgreesBack(pat, p, slen)
    requires slen < p ==> pat[p - slen] != pat[|pat| - 1 - slen]
    requires e == if pat[p - slen] != pat[|pat| - 1 - slen]
                  then d[|pat| - 1 - slen := |pat| - 1 - p + slen] else d
    ensures MatchingPass(e, pat, p + 1)
    ensures e[|pat| - 1 - slen] <= d[|pat| - 1 - slen]
  {
    var s := |pat| - 1 - p;
    var stop := |pat| - 1 - slen;
    GoodShiftWithinPattern(pat, stop, s);
    assert s <= stop && s <= ShiftOf(d, pat, stop);
    forall j | 0 <= j < |pat|
      ensures GoodShift(pat, j, ShiftOf(e, pat, j)) && ShiftOf(e, pat, j) <= |pat|
      ensures j < ShiftOf(e, pat, j) || |pat| - 1 - (p + 1) < ShiftOf(e, pat, j)
      ensures forall t :: (j < t || |pat| - 1 - (p + 1) < t) && GoodShift(pat, j, t) ==> ShiftOf(e, pat, j) <= t
    {
      assert j != stop || e == d ==> ShiftOf(e, pat, j) == ShiftOf(d, pat, j);
      if s <= j && GoodShift(pat, j, s) {
        OnlyStopImproves(pat, p, slen, j);
      }
    }
  }

  method FirstLoop(delta2: array<Int32>, pat: seq<Byte>)
    requires delta2.Length >= |pat|
    requires 2 * |pat| <= 0x8000_0000
    modifies delta2
    ensures ClearingPass(delta2[..], pat, -1)
  {
    var patlen: Int32 := |pat|;
    var lastPrefixIndex: Int32 := patlen - 1;
    var p: Int32 := patlen - 1;
    while p >= 0
      invariant -1 <= p <= patlen - 1
      invariant p < patlen - 1 ==> p + 1 < lastPrefixIndex <= patlen && SuffixIsPrefix(pat, lastPrefixIndex)
      invariant forall t :: p + 1 < t < lastPrefixIndex ==> !SuffixIsPrefix(pat, t)
      invariant ClearingPass(delta2[..], pat, p)
    {
      var isPrefix := IsPrefix(pat, p + 1);
      if isPrefix {
        lastPrefixIndex := p + 1;
      }
      ghost var before: seq<Int32> := delta2[..];
      ClearingStep(before, pat, p, lastPrefixIndex);
      delta2[p] := lastPrefixIndex + (patlen - 1 - p);
      assert delta2[..] == before[p := lastPrefixIndex + (patlen - 1 - p)];
      p := p - 1;
    }
  }

  method SecondLoop(delta2: array<Int32>, pat: seq<Byte>)
    requires 2 * |pat| <= 0x8000_0000
    requires ClearingPass(delta2[..], pat, -1)
    modifies delta2
    ensures IsDelta2(delta2[..], pat)
  {
    var patlen: Int32 := |pat|;
    var p: Int32 := 0;
    while p < patlen - 1
      invariant 0 <= p && (patlen > 0 ==> p <= patlen - 1)
      invariant MatchingPass(delta2[..], pat, p)
    {
      var slen := SuffixLength(pat, p);
      ghost var before: seq<Int32> := delta2[..];
      if pat[p - slen] != pat[patlen - 1 - slen] {
        delta2[patlen - 1 - slen] := patlen - 1 - p + slen;
      }
      MatchingStep(before, delta2[..], pat, p, slen);
      p := p + 1;
    }
  }

  method MakeDelta2(delta2: array<Int32>, pat: seq<Byte>)
    requires delta2.Length >= |pat|
    requires 2 * |pat| <= 0x8000_0000
    modifies delta2
    ensures IsDelta2(delta2[..], pat)
  {
    FirstLoop(delta2, pat);
    SecondLoop(delta2, pat);
  }

  // ----- why a skip never passes an occurrence -----

  /** Position j of alignment a fails while everything to its right agrees. */
  ghost predicate MismatchAt(text: seq<Byte>, pat: seq<Byte>, a: nat, j: nat) {
    && j < |pat| && a + |pat| <= |text|
    && text[a + j] != pat[j]
    && forall k :: j < k < |pat| ==> text[a + k] == pat[k]
  }

  /** Any occurrence further right is a good shift away from a mismatch. */
  lemma OccurrenceIsGoodShift(text: seq<Byte>, pat: seq<Byte>, a: nat, j: nat, h: nat)
    requires MismatchAt(text, pat, a, j) && OccursAt(text, pat, h) && a <= h
    ensures GoodShift(pat, j, h - a)
  {
    var t := h - a;
    assert forall y :: 0 <= y < |pat| - t ==> text[h + y] == pat[y];
    assert forall k {:trigger pat[k - t]} :: j <= k < |pat| && t <= k ==> text[h + (k - t)] == pat[k - t];
  }

  /** Any occurrence further right puts the text's bad character on or past its last place. */
  lemma OccurrenceClearsBadCharacter(text: seq<Byte>, pat: seq<Byte>, a: nat, j: nat, r: int, h: nat)
    requires MismatchAt(text, pat, a, j) && OccursAt(text, pat, h) && a <= h
    requires LastBefore(pat, text[a + j], r)
    ensures j - r <= h - a
  {
    OccurrenceIsGoodShift(text, pat, a, j, h);
    if h - a <= j {
      assert text[h + (j - (h - a))] == pat[j - (h - a)];
    }
  }

  /** After a mismatch, moving by the larger of the two table entries passes no occurrence,
      moves the alignment forward, and stays within int. */
  lemma SkipIsSafe(text: seq<Byte>, pat: seq<Byte>, d1: seq<Int32>, d2: seq<Int32>, a: nat, j: nat, i: int)
    requires MismatchAt(text, pat, a, j) && IsDelta1(d1, pat) && IsDelta2(d2, pat)
    requires i == a + j + if d1[text[a + j]] < d2[j] then d2[j] else d1[text[a + j]]
    ensures a + |pat| - 1 < i < |text| + |pat|
    ensures forall h: nat :: a <= h && h + |pat| - 1 < i ==> !OccursAt(text, pat, h)
  {
    var last := |pat| - 1 - d1[text[a + j]];
    WholeLengthIsGood(pat, j);
    assert GoodShift(pat, j, ShiftOf(d2, pat, j));
    assert LastBefore(pat, text[a + j], last);
    forall h: nat | a <= h && OccursAt(text, pat, h)
      ensures i <= h + |pat| - 1
    {
      OccurrenceIsGoodShift(text, pat, a, j, h);
      OccurrenceClearsBadCharacter(text, pat, a, j, last, h);
    }
  }

  method BoyerMooreSearch(text: seq<Byte>, pat: seq<Byte>) returns (r: Option<nat>)
    requires |text| < 0x8000_0000 && |text| + |pat| <= 0x8000_0000 && 2 * |pat| <= 0x8000_0000
    ensures LeftmostOccurrence(text, pat, r)
  {
    var patlen: Int32 := |pat|;
    var delta1 := new Int32[ALPHABET_LEN];
    var delta2 := new Int32[patlen * 4];
    MakeDelta1(delta1, pat);
    MakeDelta2(delta2, pat);
    ghost var d1, d2 := delta1[..], delta2[..];

    var i: Int32 := patlen - 1;
    while i < |text|
      invariant patlen - 1 <= i
      invariant d1 == delta1[..] && d2 == delta2[..]
      invariant forall h: nat :: h + patlen - 1 < i ==> !OccursAt(text, pat, h)
      decreases |text| - i
    {
      ghost var a := i - (patlen - 1);
      var j: Int32 := patlen - 1;
      while j >= 0 && text[i] == pat[j]
        invariant -1 <= j < patlen && i == a + j
        invariant forall k :: j < k < patlen ==> text[a + k] == pat[k]
      {
        i := i - 1;
        j := j - 1;
      }
      if j < 0 {
        return Some(i + 1);
      }
      assert delta1[text[i]] == d1[text[i]] && delta2[j] == d2[j];
      SkipIsSafe(text, pat, d1, d2, a, j, i + if d1[text[i]] < d2[j] then d2[j] else d1[text[i]]);
      i := i + if delta1[text[i]] < delta2[j] then delta2[j] else delta1[text[i]];
    }
    return None;
  }

  // ----- how long a pattern the int tables can carry -----

  /** One odd byte followed by equal ones: no proper suffix is a prefix. */
  function OddThenEqual(m: nat): (pat: seq<Byte>)
    requires m > 0
    ensures |pat| == m
  {
    seq(m, i => if i == 0 then 1 else 0)
  }

  ghost predicate Delta2Fits(pat: seq<Byte>) {
    forall j, s :: 0 <= j < |pat| && LeastGoodShift(pat, j, s) ==> s + (|pat| - 1 - j) < 0x8000_0000
  }

  /** The good-suffix table fits in int for every pattern of a given length exactly up to 2^30. */
  lemma Delta2FitsExactly(m: nat)
    requires m > 0
    ensures (forall pat: seq<Byte> :: |pat| == m ==> Delta2Fits(pat)) <==> m <= 0x4000_0000
  {
    if m <= 0x4000_0000 {
      forall pat: seq<Byte>, j, s | |pat| == m && 0 <= j < m && LeastGoodShift(pat, j, s)
        ensures s + (m - 1 - j) < 0x8000_0000
      {
        WholeLengthIsGood(pat, j);
      }
    } else {
      var pat := OddThenEqual(m);
      WholeLengthIsGood(pat, 0);
      forall t | 1 <= t < m
        ensures !GoodShift(pat, 0, t)
      {
        assert pat[t - t] != pat[t];
      }
      assert LeastGoodShift(pat, 0, m);
      assert !Delta2Fits(pat);
    }
  }
}
