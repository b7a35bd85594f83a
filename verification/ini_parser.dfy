/** ini_parse_stream step by step: one line buffer, changed in place, and a reader that fills it. */
module IniParser {
  import opened Ini
  import opened IniDump
  import opened IniReader
  import IniLines

  /** A C string stands in the buffer at s and ends with the NUL at e. */
  predicate StrAt(b: seq<char>, s: nat, e: nat) {
    s <= e < |b| && b[e] == '\0' && forall k :: s <= k < e ==> b[k] != '\0'
  }

  /** strlen. */
  method StrLen(line: array<char>, s: nat, ghost e: nat) returns (n: nat)
    requires StrAt(line[..], s, e)
    ensures n == e - s
  {
    n := 0;
    while line[s + n] != '\0'
      invariant n <= e - s
      decreases e - s - n
    {
      n := n + 1;
    }
  }

  lemma RStripStep(text: string, n: nat)
    requires 0 < n <= |text|
    ensures Space(text[n - 1]) ==> RStrip(text[..n]) == RStrip(text[..n - 1])
    ensures !Space(text[n - 1]) ==> RStrip(text[..n]) == text[..n]
  {
    assert text[..n][..n - 1] == text[..n - 1];
  }

  /** rstrip: NULs over the whitespace at the end. */
  method RStripAt(line: array<char>, s: nat, ghost e: nat) returns (ghost e': nat)
    requires StrAt(line[..], s, e)
    modifies line
    ensures e' <= e && StrAt(line[..], s, e') && line[s..e'] == RStrip(old(line[s..e]))
    ensures forall k :: 0 <= k < line.Length && !(e' <= k < e) ==> line[k] == old(line[k])
  {
    InsideString(line[..], s, e);
    hide RStrip, StrAt;
    ghost var text := line[s..e];
    var n := StrLen(line, s, e);
    var p := s + n;
    e' := e;
    assert text[..p - s] == text;
    while p > s && Space(line[p - 1])
      invariant s <= p == e' <= e && StrAt(line[..], s, e') && line[..][s..p] == text[..p - s]
      invariant RStrip(text[..p - s]) == RStrip(text)
      invariant forall k :: 0 <= k < line.Length && !(p <= k < e) ==> line[k] == old(line[k])
    {
      ghost var b := line[..];
      assert text[..p - s][p - s - 1] == line[p - 1];
      RStripStep(text, p - s);
      CutHere(b, s, p - 1, p);
      CutText(b, text, s, p);
      p := p - 1;
      line[p] := '\0';
      e' := p;
      assert line[..] == b[p := '\0'];
    }
    if p > s {
      assert text[..p - s][p - s - 1] == line[p - 1];
      RStripStep(text, p - s);
    } else {
      StripNothing();
    }
  }

  lemma CutText(b: seq<char>, text: string, s: nat, p: nat)
    requires s < p <= |b| && p - s <= |text| && b[s..p] == text[..p - s]
    ensures b[p - 1 := '\0'][s..p - 1] == text[..p - 1 - s]
  {
    assert b[s..p][..p - 1 - s] == b[s..p - 1];
  }

  lemma StripNothing()
    ensures RStrip("") == ""
  {
  }

  /** lskip. */
  method LSkipAt(line: array<char>, s: nat, ghost e: nat) returns (r: nat)
    requires StrAt(line[..], s, e)
    ensures r == s + Leading(line[s..e]) && r <= e && StrAt(line[..], r, e)
  {
    r := s;
    while line[r] != '\0' && Space(line[r])
      invariant s <= r <= e && Leading(line[s..e]) == r - s + Leading(line[r..e])
      decreases e - r
    {
      assert line[r..e][1..] == line[r + 1..e];
      r := r + 1;
    }
    assert r < e ==> line[r..e][0] == line[r];
  }

  /** find_chars_or_comment. */
  method FindAt(line: array<char>, s: nat, chars: string, ghost e: nat) returns (r: nat)
    requires StrAt(line[..], s, e)
    ensures r == s + Find(line[s..e], chars) && r <= e
  {
    var wasSpace := false;
    r := s;
    ghost var text := line[s..e];
    while line[r] != '\0' && line[r] !in chars && !(wasSpace && line[r] == ';')
      invariant s <= r <= e && Find(text, chars) == FindFrom(text, chars, r - s)
      invariant wasSpace <==> r > s && Space(line[r - 1])
      decreases e - r
    {
      assert text[r - s] == line[r] && (r > s ==> text[r - s - 1] == line[r - 1]);
      wasSpace := Space(line[r]);
      r := r + 1;
    }
    assert r < e ==> text[r - s] == line[r] && (r > s ==> text[r - s - 1] == line[r - 1]);
  }

  lemma CutHere(b: seq<char>, s: nat, r: nat, e: nat)
    requires StrAt(b, s, e) && s <= r <= e
    ensures StrAt(b[r := '\0'], s, r) && b[r := '\0'][s..r] == b[s..r]
    ensures r < e ==> StrAt(b[r := '\0'], r + 1, e) && b[r := '\0'][r + 1..e] == b[r + 1..e]
  {
  }

  lemma SliceOfSlice(b: seq<char>, s: nat, r: nat, e: nat)
    requires s <= r <= e <= |b|
    ensures b[s..e][..r - s] == b[s..r] && b[s..e][r - s..] == b[r..e]
    ensures r < e ==> b[s..e][r - s] == b[r]
  {
  }

  /** The value part: comment off, whitespace off, all in place. */
  method ValueAt(line: array<char>, s: nat, ghost e: nat) returns (value: string)
    requires StrAt(line[..], s, e)
    modifies line
    ensures value == ValueOf(old(line[s..e]))
  {
    hide RStrip, Find, Leading, StrAt;
    ghost var b := line[..];
    var end := FindAt(line, s, "", e);
    InsideString(b, s, e);
    SliceOfSlice(b, s, end, e);
    CutHere(b, s, end, e);
    line[end] := '\0';
    value := Skipped(line, s, end);
  }

  lemma InsideString(b: seq<char>, s: nat, e: nat)
    requires StrAt(b, s, e)
    ensures s <= e < |b| && b[e] == '\0'
  {
  }

  /** lskip and rstrip on the value. */
  method Skipped(line: array<char>, s: nat, ghost e: nat) returns (value: string)
    requires StrAt(line[..], s, e)
    modifies line
    ensures value == RStrip(LSkip(old(line[..][s..e])))
  {
    hide RStrip, Leading;
    ghost var b := line[..];
    var v := LSkipAt(line, s, e);
    SliceOfSlice(b, s, v, e);
    ghost var ve := RStripAt(line, v, e);
    var n := StrLen(line, v, ve);
    value := line[v..v + n];
  }

  /** A line that starts with an opening bracket. */
  method SectionLine(line: array<char>, start: nat, ghost e: nat) returns (l: Line)
    requires StrAt(line[..], start, e) && start < e && line[start] == '['
    modifies line
    ensures var t := old(line[start..e]);
      var f := Find(t[1..], "]");
      l == if 1 + f < |t| && t[1 + f] == ']' then Section(t[1..1 + f]) else Malformed
  {
    ghost var t := line[start..e];
    assert line[start + 1..e] == t[1..];
    var end := FindAt(line, start + 1, "]", e);
    assert end < e ==> t[end - start] == line[end];
    if line[end] == ']' {
      CutHere(line[..], start + 1, end, e);
      line[end] := '\0';
      var n := StrLen(line, start + 1, end);
      assert line[start + 1..end] == t[1..end - start];
      return Section(line[start + 1..start + 1 + n]);
    }
    return Malformed;
  }

  /** Any other line: a name, a separator and a value, or nothing of the kind. */
  method PairLine(line: array<char>, start: nat, ghost e: nat) returns (l: Line)
    requires StrAt(line[..], start, e)
    modifies line
    ensures var t := old(line[start..e]);
      var f := Find(t, "=:");
      l == if f < |t| && (t[f] == '=' || t[f] == ':') then Pair(RStrip(t[..f]), ValueOf(t[f + 1..])) else Malformed
  {
    hide RStrip, ValueOf, Find, StrAt;
    ghost var b := line[..];
    var end := FindAt(line, start, "=:", e);
    InsideString(b, start, e);
    SliceOfSlice(b, start, end, e);
    if line[end] == '=' || line[end] == ':' {
      l := SplitAt(line, start, end, e);
      BehindOne(b, start, end, e);
    } else {
      l := Malformed;
    }
  }

  lemma BehindOne(b: seq<char>, s: nat, r: nat, e: nat)
    requires s <= r < e <= |b|
    ensures b[s..e][r - s + 1..] == b[r + 1..e]
  {
  }

  /** The name in front of the separator at end and the value behind it. */
  method SplitAt(line: array<char>, start: nat, end: nat, ghost e: nat) returns (l: Line)
    requires StrAt(line[..], start, e) && start <= end < e < line.Length
    modifies line
    ensures l == Pair(RStrip(old(line[..][start..end])), ValueOf(old(line[..][end + 1..e])))
  {
    hide RStrip, ValueOf;
    ghost var b := line[..];
    CutHere(b, start, end, e);
    line[end] := '\0';
    ghost var ne := RStripAt(line, start, end);
    assert line[end + 1..e] == b[end + 1..e];
    var n := StrLen(line, start, ne);
    var name := line[start..start + n];
    var value := ValueAt(line, end + 1, e);
    l := Pair(name, value);
  }

  /** HANDLER, and the line number noted where it refuses. */
  method CallHandler(h: Handler, p: State, name: string, value: string, lineno: nat) returns (q: State)
    ensures q == Report(h, p, Entry(p.section, name, value), lineno)
  {
    var e := Entry(p.section, name, value);
    q := p.(calls := p.calls + [e]);
    if !h(p.calls, e) && q.error == 0 {
      q := q.(error := lineno);
    }
  }

  /** What a section line, a pair or neither does. */
  method Apply(h: Handler, p: State, l: Line, lineno: nat) returns (q: State)
    requires l.Section? || l.Pair? || l.Malformed?
    ensures q == Act(h, p, l, lineno)
  {
    q := p;
    match l
    case Section(title) =>
      var section := Strncpy0(title, 50);
      q := q.(section := section, prevName := "");
    case Pair(name, value) =>
      var prevName := Strncpy0(name, 50);
      q := CallHandler(h, q.(prevName := prevName), name, value, lineno);
    case Malformed =>
      if q.error == 0 {
        q := q.(error := lineno);
      }
  }

  /** The body of the loop, from the stripped line on. */
  method ActOnText(line: array<char>, start: nat, ghost e: nat, h: Handler, p: State, lineno: nat) returns (q: State)
    requires StrAt(line[..], start, e)
    modifies line
    ensures q == Act(h, p, Classify(old(line[start..e]), start > 0, p.prevName), lineno)
  {
    hide RStrip, ValueOf, Find, Truncated;
    ghost var text := line[start..e];
    assert text != "" ==> text[0] == line[start];
    q := p;
    if line[start] == ';' || line[start] == '#' {
    } else if p.prevName != "" && line[start] != '\0' && start > 0 {
      var n := StrLen(line, start, e);
      q := CallHandler(h, p, p.prevName, line[start..start + n], lineno);
    } else if line[start] == '[' {
      var l := SectionLine(line, start, e);
      q := Apply(h, p, l, lineno);
    } else if line[start] != '\0' {
      var l := PairLine(line, start, e);
      q := Apply(h, p, l, lineno);
    }
  }

  /** The body of the loop, from the line as read on. What comes out is what the line means. */
  method ParseLine(line: array<char>, ghost e: nat, h: Handler, p: State, lineno: nat) returns (q: State)
    requires StrAt(line[..], 0, e) && line.Length >= 3
    modifies line
    ensures q == Feed(h, p, old(line[0..e]), lineno)
    ensures IniLines.LineDoes(h, p, old(line[0..e]), lineno, q)
  {
    hide RStrip, Leading, Classify, Act, IniLines.LineDoes;
    ghost var b, text := line[..], line[0..e];
    var start := 0;
    if lineno == 1 && line[0] == '\U{EF}' && line[1] == '\U{BB}' && line[2] == '\U{BF}' {
      start := 3;
    }
    assert start == Skip(text, lineno);
    hide Skip, HasBom;
    SliceOfSlice(b, 0, start, e);
    ghost var e' := RStripAt(line, start, e);
    var s := LSkipAt(line, start, e');
    SliceOfSlice(line[..], start, s, e');
    q := ActOnText(line, s, e', h, p, lineno);
    IniLines.LineDoesFeed(h, p, text, lineno, q);
  }

  // ----- the stream -----

  /** A line read, as the string it leaves in the buffer. */
  ghost predicate LeavesString(b: seq<char>, e: nat, raw: string) {
    StrAt(b, 0, e) && b[0..e] == CString(raw)
  }

  lemma OneLineRead(kind: ReaderKind, text: string, raw: string, rest: string)
    requires if kind == Buffer then BufferLines(text, MAX_LINE) == [raw] + BufferLines(rest, MAX_LINE)
             else FgetsLines(text, MAX_LINE) == [raw] + FgetsLines(rest, MAX_LINE)
    ensures LinesOf(kind, text) == [CString(raw)] + LinesOf(kind, rest)
  {
    hide CString, BufferLines, FgetsLines;
  }

  lemma LeavesStringIs(b: seq<char>, e: nat, raw: string)
    requires LeavesString(b, e, raw)
    ensures e < |b| && StrAt(b, 0, e) && b[0..e] == CString(raw)
  {
  }

  lemma FilledString(b: seq<char>, s: string)
    requires |s| < |b| && b[..|s|] == s && b[|s|] == '\0'
    ensures LeavesString(b, |CString(s)|, s)
  {
    var t := CString(s);
    assert forall k :: 0 <= k < |t| ==> b[k] == b[..|s|][k] == s[k] == t[k];
    assert |t| < |s| ==> b[|t|] == b[..|s|][|t|] == s[|t|];
    assert forall k :: 0 <= k < |t| ==> t[k] in t;
  }

  class Stream {
    const kind: ReaderKind
    const text: string
    var ptr: nat
    var bytesLeft: int

    constructor (kind: ReaderKind, text: string)
      ensures Valid() && Rest() == text && this.kind == kind && this.text == text
    {
      this.kind, this.text := kind, text;
      ptr, bytesLeft := 0, |text|;
    }

    /** Past the end the buffer reader's count may have gone below zero. */
    ghost predicate Valid()
      reads this
    {
      bytesLeft > 0 ==> ptr + bytesLeft == |text|
    }

    function Rest(): string
      requires Valid()
      reads this
    {
      if bytesLeft <= 0 then "" else text[ptr..]
    }

    method Read(str: array<char>) returns (ok: bool, ghost e: nat)
      requires Valid() && str.Length == MAX_LINE
      modifies this, str
      ensures Valid() && (ok <==> old(Rest()) != "")
      ensures ok ==> e < str.Length
      ensures ok ==> StrAt(str[..], 0, e) && LinesOf(kind, old(Rest())) == [str[0..e]] + LinesOf(kind, Rest())
      ensures ok ==> |Rest()| < |old(Rest())|
      ensures !ok ==> Rest() == ""
    {
      hide StrAt, LinesOf, CString;
      ghost var raw;
      if kind == Buffer {
        ok, e, raw := ReadBuffer(str);
      } else {
        ok, e, raw := ReadFile(str);
      }
      if ok {
        OneLineRead(kind, old(Rest()), raw, Rest());
        LeavesStringIs(str[..], e, raw);
      }
    }

    /** ini_buffer_reader. */
    method ReadBuffer(str: array<char>) returns (ok: bool, ghost e: nat, ghost raw: string)
      requires Valid() && str.Length == MAX_LINE
      modifies this, str
      ensures Valid() && (ok <==> old(Rest()) != "")
      ensures ok ==> LeavesString(str[..], e, raw)
      ensures ok ==> BufferLines(old(Rest()), MAX_LINE) == [raw] + BufferLines(Rest(), MAX_LINE)
      ensures ok ==> |Rest()| < |old(Rest())|
      ensures !ok ==> Rest() == ""
    {
      hide StopFrom;
      ghost var rest := Rest();
      if bytesLeft <= 0 {
        return false, 0, "";
      }
      var idx, newline := Scan();
      assert text[ptr..ptr + idx] == rest[..idx];
      raw := rest[..idx];
      e := FillLine(str, text[ptr..ptr + idx]);
      ptr := ptr + idx + 1;
      bytesLeft := bytesLeft - (idx + 1);
      assert bytesLeft > 0 ==> text[ptr..] == rest[idx + 1..];
      if newline != '\0' && bytesLeft > 0 &&
         ((newline == '\r' && text[ptr] == '\n') || (newline == '\n' && text[ptr] == '\r')) {
        bytesLeft := bytesLeft - 1;
        ptr := ptr + 1;
      }
      ok := true;
      assert Rest() == BufferRest(rest, MAX_LINE);
    }

    /** The copying loop's search: where it stops, and the line end it stopped at. */
    method Scan() returns (idx: nat, newline: char)
      requires Valid() && bytesLeft > 0
      ensures idx == StopFrom(Rest(), MAX_LINE, 0)
      ensures newline == if idx < MAX_LINE - 1 && idx < |Rest()| then Rest()[idx] else '\0'
    {
      ghost var rest := Rest();
      idx := 0;
      newline := '\0';
      while idx < MAX_LINE - 1
        invariant 0 <= idx < MAX_LINE && idx <= bytesLeft && newline == '\0'
        invariant StopFrom(rest, MAX_LINE, 0) == StopFrom(rest, MAX_LINE, idx)
      {
        if idx == bytesLeft {
          break;
        }
        assert rest[idx] == text[ptr + idx];
        if text[ptr + idx] == '\n' {
          newline := '\n';
        } else if text[ptr + idx] == '\r' {
          newline := '\r';
        }
        if newline != '\0' {
          break;
        }
        idx := idx + 1;
      }
    }

    /** fgets. */
    method ReadFile(str: array<char>) returns (ok: bool, ghost e: nat, ghost raw: string)
      requires Valid() && str.Length == MAX_LINE
      modifies this, str
      ensures Valid() && (ok <==> old(Rest()) != "")
      ensures ok ==> LeavesString(str[..], e, raw)
      ensures ok ==> FgetsLines(old(Rest()), MAX_LINE) == [raw] + FgetsLines(Rest(), MAX_LINE)
      ensures ok ==> |Rest()| < |old(Rest())|
      ensures !ok ==> Rest() == ""
    {
      ghost var rest := Rest();
      if bytesLeft <= 0 {
        return false, 0, "";
      }
      var idx := 0;
      var more := true;
      while more && idx < MAX_LINE - 1 && idx < bytesLeft
        invariant 0 <= idx < MAX_LINE && idx <= bytesLeft
        invariant more ==> TakeFrom(rest, MAX_LINE, 0) == TakeFrom(rest, MAX_LINE, idx)
        invariant !more ==> TakeFrom(rest, MAX_LINE, 0) == idx
        decreases bytesLeft - idx
      {
        assert rest[idx] == text[ptr + idx];
        more := text[ptr + idx] != '\n';
        idx := idx + 1;
      }
      assert text[ptr..ptr + idx] == rest[..idx];
      raw := rest[..idx];
      e := FillLine(str, text[ptr..ptr + idx]);
      ptr := ptr + idx;
      bytesLeft := bytesLeft - idx;
      ok := true;
      assert idx == TakeFrom(rest, MAX_LINE, 0);
      assert Rest() == rest[idx..];
    }

    /** memcpy and the terminating NUL. */
    method FillLine(str: array<char>, s: string) returns (ghost e: nat)
      requires |s| < str.Length
      modifies str
      ensures LeavesString(str[..], e, s)
    {
      for i := 0 to |s|
        invariant str[..i] == s[..i]
      {
        str[i] := s[i];
      }
      str[|s|] := '\0';
      e := |CString(s)|;
      FilledString(str[..], s);
    }
  }

  /** ini_parse_stream: what the handler was called with, and the result. */
  method ParseStream(stream: Stream, h: Handler) returns (calls: seq<Entry>, error: nat)
    requires stream.Valid()
    modifies stream
    ensures var p := FeedAll(h, LinesOf(stream.kind, old(stream.Rest())));
      calls == p.calls && error == p.error
    ensures var lines := LinesOf(stream.kind, old(stream.Rest()));
      exists ps: seq<State> :: IniLines.Parses(h, lines, ps) && calls == ps[|lines|].calls && error == ps[|lines|].error
  {
    hide Feed, FeedAll, LinesOf, StrAt, Stream.Rest, IniLines.Parses;
    var line := new char[200];
    var p := INITIAL;
    var lineno := 0;
    ghost var all := LinesOf(stream.kind, stream.Rest());
    ghost var done: seq<string> := [];
    NoLines(h, stream.kind);
    while true
      invariant stream.Valid()
      invariant all == done + LinesOf(stream.kind, stream.Rest()) && |done| == lineno
      invariant p == FeedAll(h, done)
      decreases |stream.Rest()|
    {
      var ok;
      ghost var e;
      ok, e := stream.Read(line);
      if !ok {
        break;
      }
      lineno := lineno + 1;
      ghost var text := line[0..e];
      p := ParseLine(line, e, h, p, lineno);
      FeedAllAppend(h, done, text);
      Regrouped(done, text, LinesOf(stream.kind, stream.Rest()));
      done := done + [text];
    }
    assert done + [] == done;
    ghost var ps := StatesOf(h, all);
    return p.calls, p.error;
  }

  /** Every text has its run of states. */
  lemma StatesOf(h: Handler, lines: seq<string>) returns (ps: seq<State>)
    ensures IniLines.Parses(h, lines, ps) && |ps| == |lines| + 1 && ps[|lines|] == FeedAll(h, lines)
  {
    hide FeedAll, IniLines.Parses;
    ps := seq(|lines| + 1, k requires 0 <= k < |lines| + 1 => FeedAll(h, lines[..k]));
    IniLines.ParsesExactly(h, lines, ps);
    assert lines[..|lines|] == lines;
  }

  lemma Regrouped(a: seq<string>, x: string, b: seq<string>)
    ensures a + ([x] + b) == (a + [x]) + b
  {
  }

  lemma NoLines(h: Handler, kind: ReaderKind)
    ensures LinesOf(kind, "") == [] && FeedAll(h, []) == INITIAL
  {
    assert BufferLines("", MAX_LINE) == [] && FgetsLines("", MAX_LINE) == [];
  }

  /** Printer and parser together, step by step, through either reader. */
  method DumpThenParse(es: seq<Entry>, kind: ReaderKind, h: Handler) returns (calls: seq<Entry>, error: nat)
    requires forall k :: 0 <= k < |es| ==> GoodEntry(es[k])
    requires Accepts(h, es)
    ensures calls == es && error == 0
  {
    hide FeedAll, GoodEntry, Joined, DumpLines, LinesOf;
    var d := new Dumper();
    for i := 0 to |es|
      invariant d.Valid() && d.entries == es[..i] && fresh(d)
    {
      var ok := d.Dump(es[i].section, es[i].name, es[i].value);
      assert es[..i] + [es[i]] == es[..i + 1];
    }
    assert es[..|es|] == es;
    DumpRoundTrip(h, es);
    var stream := new Stream(kind, d.out);
    calls, error := ParseStream(stream, h);
  }
}
