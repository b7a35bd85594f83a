/** The two readers that feed the INI parser: ini_buffer_reader of
    wafel_core/source/externals/inih/examples/ini_buffer.c and an fgets, as text. */
module IniReader {
  import opened Ini
  import opened IniDump

  // ----- ini_buffer_reader -----

  predicate LineEnd(c: char) {
    c == '\n' || c == '\r'
  }

  /** Where the copying loop stops, from i on. */
  function StopFrom(text: string, num: nat, i: nat): (r: nat)
    requires num > 0 && i < num && i <= |text|
    ensures i <= r < num && r <= |text|
    ensures forall k :: i <= k < r ==> !LineEnd(text[k])
    ensures r < num - 1 && r < |text| ==> LineEnd(text[r])
    decreases num - i
  {
    if i == num - 1 || i == |text| || LineEnd(text[i]) then i else StopFrom(text, num, i + 1)
  }

  /** What is left for the next call: the character the loop stopped at is gone, whatever it
      was, and so is the second half of a two-character line end. */
  function BufferRest(text: string, num: nat): (rest: string)
    requires num > 0
    ensures text != "" ==> |rest| < |text|
  {
    var idx := StopFrom(text, num, 0);
    if idx + 1 >= |text| then ""
    else
      var rest := text[idx + 1..];
      if idx < num - 1 && LineEnd(rest[0]) && rest[0] != text[idx] then rest[1..] else rest
  }

  function BufferLines(text: string, num: nat): seq<string>
    requires num > 0
    decreases |text|
  {
    if text == "" then [] else [text[..StopFrom(text, num, 0)]] + BufferLines(BufferRest(text, num), num)
  }

  // ----- fgets -----

  /** How many characters fgets takes: through the newline, or as many as fit. */
  function TakeFrom(text: string, num: nat, i: nat): (r: nat)
    requires num > 0 && i < num && i <= |text|
    ensures i <= r < num && r <= |text|
    ensures i < num - 1 && i < |text| ==> i < r
    decreases num - i
  {
    if i == num - 1 || i == |text| then i
    else if text[i] == '\n' then i + 1
    else TakeFrom(text, num, i + 1)
  }

  function FgetsLines(text: string, num: nat): seq<string>
    requires num > 1
    decreases |text|
  {
    if text == "" then []
    else
      var n := TakeFrom(text, num, 0);
      [text[..n]] + FgetsLines(text[n..], num)
  }

  // ----- the lines of a text -----

  function FirstNewline(text: string): (n: nat)
    ensures n <= |text| && (forall k :: 0 <= k < n ==> text[k] != '\n') && (n < |text| ==> text[n] == '\n')
  {
    if text == "" || text[0] == '\n' then 0 else 1 + FirstNewline(text[1..])
  }

  /** The text behind the first line. */
  function AfterLine(text: string): (rest: string)
    ensures text != "" ==> |rest| < |text|
  {
    if FirstNewline(text) == |text| then "" else text[FirstNewline(text) + 1..]
  }

  function Lines(text: string): seq<string>
    decreases |text|
  {
    if text == "" then [] else [text[..FirstNewline(text)]] + Lines(AfterLine(text))
  }

  /** The first line with its newline, if it has one. */
  function Kept(text: string): (l: string)
    ensures text != "" ==> l != ""
  {
    if FirstNewline(text) == |text| then text else text[..FirstNewline(text) + 1]
  }

  /** The lines, each with its newline. */
  function KeptLines(text: string): seq<string>
    decreases |text|
  {
    if text == "" then [] else [Kept(text)] + KeptLines(AfterLine(text))
  }

  const LIMIT: nat := MAX_LINE - 1

  /** No line is longer than the buffer can hold. */
  predicate LinesFit(text: string)
    decreases |text|
  {
    text == "" || (FirstNewline(text) <= 199 && LinesFit(AfterLine(text)))
  }

  /** No line with its newline is. */
  predicate KeptFit(text: string)
    decreases |text|
  {
    text == "" || (|Kept(text)| <= 199 && KeptFit(AfterLine(text)))
  }

  predicate NoReturn(text: string) {
    '\r' !in text
  }

  lemma RestHasNoReturn(text: string, k: nat)
    requires NoReturn(text) && k <= |text|
    ensures NoReturn(text[k..])
  {
    assert forall c :: c in text[k..] ==> c in text;
  }

  // ----- what the buffer reader delivers -----

  /** The copying loop stops at the newline, at the end, or when the buffer is full. */
  lemma {:induction false} StopIs(text: string, i: nat)
    requires NoReturn(text) && i <= FirstNewline(text) && i <= LIMIT
    ensures StopFrom(text, MAX_LINE, i) == if FirstNewline(text) <= LIMIT then FirstNewline(text) else LIMIT
    decreases LIMIT - i
  {
    hide FirstNewline;
    if i < FirstNewline(text) && i < LIMIT {
      assert text[i] in text;
      StopIs(text, i + 1);
    }
  }

  /** The reader goes on behind the line, or where it dropped a character. */
  lemma BufferGoesOn(text: string)
    requires NoReturn(text) && text != ""
    ensures BufferRest(text, MAX_LINE) == if FirstNewline(text) <= LIMIT then AfterLine(text) else text[LIMIT + 1..]
  {
    hide StopFrom, FirstNewline;
    StopIs(text, 0);
    var idx := StopFrom(text, MAX_LINE, 0);
    if idx + 1 < |text| {
      assert text[idx + 1] in text;
    }
  }

  /** The reader delivers the lines of a text exactly if none is longer than 199 characters. */
  lemma {:induction false} BufferLinesExactly(text: string)
    requires NoReturn(text)
    ensures BufferLines(text, MAX_LINE) == Lines(text) <==> LinesFit(text)
    decreases |text|
  {
    hide StopFrom, FirstNewline, BufferRest, AfterLine;
    if text != "" {
      StopIs(text, 0);
      BufferGoesOn(text);
      var b, l := BufferLines(text, MAX_LINE), Lines(text);
      assert b[0] == text[..StopFrom(text, MAX_LINE, 0)] && l[0] == text[..FirstNewline(text)];
      if FirstNewline(text) <= LIMIT {
        AfterLineIs(text);
        RestHasNoReturn(text, |text| - |AfterLine(text)|);
        BufferLinesExactly(AfterLine(text));
        assert b[1..] == BufferLines(AfterLine(text), MAX_LINE) && l[1..] == Lines(AfterLine(text));
        assert b == [b[0]] + b[1..] && l == [l[0]] + l[1..];
      } else {
        assert |b[0]| != |l[0]|;
      }
    }
  }

  lemma AfterLineIs(text: string)
    ensures |AfterLine(text)| <= |text| && AfterLine(text) == text[|text| - |AfterLine(text)|..]
    ensures text == Kept(text) + AfterLine(text)
  {
    hide FirstNewline;
  }

  // ----- what fgets delivers -----

  lemma {:induction false} TakeIs(text: string, i: nat)
    requires i <= FirstNewline(text) && i <= LIMIT
    ensures TakeFrom(text, MAX_LINE, i) == if |Kept(text)| <= LIMIT then |Kept(text)| else LIMIT
    decreases LIMIT - i
  {
    hide FirstNewline;
    if i < FirstNewline(text) && i < LIMIT {
      TakeIs(text, i + 1);
    }
  }

  /** fgets delivers the lines with their newlines exactly if none is longer than 199 characters
      then. */
  lemma {:induction false} FgetsLinesExactly(text: string)
    ensures FgetsLines(text, MAX_LINE) == KeptLines(text) <==> KeptFit(text)
    decreases |text|
  {
    hide TakeFrom, FirstNewline, AfterLine, Kept;
    if text != "" {
      TakeIs(text, 0);
      AfterLineIs(text);
      var f, l := FgetsLines(text, MAX_LINE), KeptLines(text);
      var n := TakeFrom(text, MAX_LINE, 0);
      assert f[0] == text[..n] && l[0] == Kept(text);
      if |Kept(text)| <= LIMIT {
        assert text[..n] == Kept(text) && text[n..] == AfterLine(text);
        FgetsLinesExactly(AfterLine(text));
        assert f[1..] == FgetsLines(AfterLine(text), MAX_LINE) && l[1..] == KeptLines(AfterLine(text));
        assert f == [f[0]] + f[1..] && l == [l[0]] + l[1..];
      } else {
        assert |f[0]| != |l[0]|;
      }
    }
  }

  // ----- when the two deliver the same -----

  /** Line for line the same, but for a newline that only fgets leaves. */
  ghost predicate SameButNewlines(b: seq<string>, f: seq<string>) {
    |b| == |f| && forall k :: 0 <= k < |b| ==> f[k] == b[k] || f[k] == b[k] + "\n"
  }

  lemma KeptFitsFit(text: string)
    requires KeptFit(text)
    ensures LinesFit(text)
    decreases |text|
  {
    hide FirstNewline, AfterLine;
    if text != "" {
      KeptFitsFit(AfterLine(text));
    }
  }

  lemma {:induction false} LinesAndKept(text: string)
    ensures SameButNewlines(Lines(text), KeptLines(text))
    decreases |text|
  {
    hide FirstNewline, AfterLine;
    if text != "" {
      LinesAndKept(AfterLine(text));
      if FirstNewline(text) < |text| {
        assert Kept(text) == text[..FirstNewline(text)] + "\n";
      } else {
        assert text[..FirstNewline(text)] == text;
      }
    }
  }

  /** How many characters are no newlines. */
  function Letters(s: string): nat {
    if s == "" then 0 else (if s[0] == '\n' then 0 else 1) + Letters(s[1..])
  }

  lemma {:induction false} LettersSplit(s: string, t: string)
    ensures Letters(s + t) == Letters(s) + Letters(t)
    decreases |s|
  {
    if s == "" {
      assert s + t == t;
    } else {
      assert (s + t)[1..] == s[1..] + t;
      LettersSplit(s[1..], t);
    }
  }

  lemma {:induction false} LettersOnly(s: string)
    requires forall k :: 0 <= k < |s| ==> s[k] != '\n'
    ensures Letters(s) == |s|
  {
    if s != "" {
      LettersOnly(s[1..]);
    }
  }

  function Total(ls: seq<string>): nat {
    if ls == [] then 0 else Letters(ls[0]) + Total(ls[1..])
  }

  lemma {:induction false} SameTotal(b: seq<string>, f: seq<string>)
    requires SameButNewlines(b, f)
    ensures Total(b) == Total(f)
    decreases |b|
  {
    hide Letters;
    if b != [] {
      SameTotal(b[1..], f[1..]);
      LettersSplit(b[0], "\n");
      NewlineHasNoLetters();
    }
  }

  lemma NewlineHasNoLetters()
    ensures Letters("\n") == 0
  {
  }

  /** fgets delivers every character. */
  lemma {:induction false} FgetsTotal(text: string)
    ensures Total(FgetsLines(text, MAX_LINE)) == Letters(text)
    decreases |text|
  {
    hide TakeFrom, Letters;
    if text == "" {
      assert Letters("") == 0 by { LettersOnly(""); }
    } else {
      var n := TakeFrom(text, MAX_LINE, 0);
      FgetsTotal(text[n..]);
      LettersSplit(text[..n], text[n..]);
      assert text[..n] + text[n..] == text;
      assert FgetsLines(text, MAX_LINE)[1..] == FgetsLines(text[n..], MAX_LINE);
    }
  }

  /** The buffer reader delivers every character exactly if no line is too long. */
  lemma {:induction false} BufferTotal(text: string)
    requires NoReturn(text)
    ensures Total(BufferLines(text, MAX_LINE)) <= Letters(text)
    ensures Total(BufferLines(text, MAX_LINE)) == Letters(text) <==> LinesFit(text)
    decreases |text|
  {
    hide StopFrom, FirstNewline, BufferRest, AfterLine, Letters, Kept;
    if text == "" {
      LettersOnly("");
    } else {
      StopIs(text, 0);
      BufferGoesOn(text);
      AfterLineIs(text);
      var n, rest := StopFrom(text, MAX_LINE, 0), BufferRest(text, MAX_LINE);
      LettersOnly(text[..n]);
      assert BufferLines(text, MAX_LINE)[1..] == BufferLines(rest, MAX_LINE);
      if FirstNewline(text) <= LIMIT {
        RestHasNoReturn(text, |text| - |rest|);
        BufferTotal(rest);
        LettersOfLine(text);
      } else {
        RestHasNoReturn(text, LIMIT + 1);
        BufferTotal(rest);
        LettersDropped(text);
      }
    }
  }

  lemma LettersOfLine(text: string)
    ensures Letters(text) == FirstNewline(text) + Letters(AfterLine(text))
  {
    hide Letters, FirstNewline;
    var n := FirstNewline(text);
    LettersOnly(text[..n]);
    AfterLineIs(text);
    LettersSplit(Kept(text), AfterLine(text));
    if n < |text| {
      assert Kept(text) == text[..n] + "\n";
      LettersSplit(text[..n], "\n");
      NewlineHasNoLetters();
    } else {
      assert text[..n] == text;
    }
  }

  lemma LettersDropped(text: string)
    requires FirstNewline(text) > LIMIT
    ensures Letters(text) == LIMIT + 1 + Letters(text[LIMIT + 1..])
  {
    hide Letters, FirstNewline;
    LettersOnly(text[..LIMIT + 1]);
    LettersSplit(text[..LIMIT + 1], text[LIMIT + 1..]);
    assert text[..LIMIT + 1] + text[LIMIT + 1..] == text;
  }

  /** Where the lines fit but not with their newlines fgets delivers more of them. */
  lemma {:induction false} FgetsCount(text: string)
    requires LinesFit(text)
    ensures |FgetsLines(text, MAX_LINE)| >= |Lines(text)|
    ensures |FgetsLines(text, MAX_LINE)| == |Lines(text)| <==> KeptFit(text)
    decreases |text|
  {
    hide TakeFrom, FirstNewline, AfterLine, Kept;
    if text != "" {
      TakeIs(text, 0);
      AfterLineIs(text);
      FgetsCount(AfterLine(text));
      var n := TakeFrom(text, MAX_LINE, 0);
      if |Kept(text)| <= LIMIT {
        assert text[n..] == AfterLine(text);
      } else {
        OnlyNewlineLeft(text);
      }
    }
  }

  lemma OnlyNewlineLeft(text: string)
    requires FirstNewline(text) <= LIMIT < |Kept(text)|
    ensures |FgetsLines(text, MAX_LINE)| == 2 + |FgetsLines(AfterLine(text), MAX_LINE)|
  {
    hide TakeFrom, FirstNewline;
    TakeIs(text, 0);
    var rest := text[LIMIT..];
    assert rest[0] == '\n' && rest[1..] == AfterLine(text);
    NewlineFirst(rest);
    TakeIs(rest, 0);
    assert FgetsLines(rest, MAX_LINE) == [rest[..1]] + FgetsLines(rest[1..], MAX_LINE);
    assert FgetsLines(text, MAX_LINE) == [text[..LIMIT]] + FgetsLines(rest, MAX_LINE);
  }

  lemma NewlineFirst(text: string)
    requires text != "" && text[0] == '\n'
    ensures FirstNewline(text) == 0 && Kept(text) == text[..1]
  {
  }

  /** On text without carriage returns the two readers deliver the same lines, but for newlines,
      if and only if no line, with its newline, is longer than 199 characters. */
  lemma ReadersDeliverSameExactly(text: string)
    requires NoReturn(text)
    ensures SameButNewlines(BufferLines(text, MAX_LINE), FgetsLines(text, MAX_LINE)) <==> KeptFit(text)
  {
    hide BufferLines, FgetsLines, Lines, KeptLines, LinesFit, KeptFit, Total, Letters;
    var b, f := BufferLines(text, MAX_LINE), FgetsLines(text, MAX_LINE);
    if KeptFit(text) {
      KeptFitsFit(text);
      BufferLinesExactly(text);
      FgetsLinesExactly(text);
      LinesAndKept(text);
    } else if SameButNewlines(b, f) {
      SameTotal(b, f);
      FgetsTotal(text);
      BufferTotal(text);
      BufferLinesExactly(text);
      FgetsCount(text);
    }
  }

  // ----- what the parser makes of it -----

  /** A line as the C string it is in the buffer: up to its first NUL. */
  function CString(s: string): (t: string)
    ensures t <= s && '\0' !in t && (|t| < |s| ==> s[|t|] == '\0')
  {
    if s == "" || s[0] == '\0' then "" else [s[0]] + CString(s[1..])
  }

  function AsStrings(ls: seq<string>): (r: seq<string>)
    ensures |r| == |ls|
  {
    seq(|ls|, k requires 0 <= k < |ls| => CString(ls[k]))
  }

  lemma {:induction false} CStringNewline(s: string)
    ensures CString(s + "\n") == CString(s) || CString(s + "\n") == CString(s) + "\n"
  {
    if s == "" {
      assert CString("\n"[1..]) == "";
    } else {
      assert (s + "\n")[1..] == s[1..] + "\n";
      CStringNewline(s[1..]);
    }
  }

  lemma {:induction false} NoNulIsWhole(s: string)
    requires '\0' !in s
    ensures CString(s) == s
  {
    if s != "" {
      assert forall c :: c in s[1..] ==> c in s;
      NoNulIsWhole(s[1..]);
    }
  }

  lemma {:induction false} SameParse(h: Handler, b: seq<string>, f: seq<string>)
    requires SameButNewlines(b, f)
    ensures FeedAll(h, b) == FeedAll(h, f)
    decreases |b|
  {
    hide Feed;
    if b != [] {
      var n := |b| - 1;
      SameParse(h, b[..n], f[..n]);
      NewlineIsStripped(h, FeedAll(h, b[..n]), b[n], n + 1);
    }
  }

  /** Which reader the parser has been given. */
  datatype ReaderKind = Buffer | File

  /** The lines a reader delivers, each as the C string it leaves. */
  function LinesOf(kind: ReaderKind, text: string): seq<string> {
    AsStrings(if kind == Buffer then BufferLines(text, MAX_LINE) else FgetsLines(text, MAX_LINE))
  }

  /** Then the parser makes the same calls and returns the same result through either reader. */
  lemma ReadersAgree(h: Handler, text: string)
    requires NoReturn(text) && KeptFit(text)
    ensures FeedAll(h, LinesOf(Buffer, text)) == FeedAll(h, LinesOf(File, text))
  {
    hide FeedAll, BufferLines, FgetsLines, CString;
    ReadersDeliverSameExactly(text);
    var b, f := BufferLines(text, MAX_LINE), FgetsLines(text, MAX_LINE);
    forall k | 0 <= k < |b|
      ensures CString(f[k]) == CString(b[k]) || CString(f[k]) == CString(b[k]) + "\n"
    {
      CStringNewline(b[k]);
    }
    SameParse(h, AsStrings(b), AsStrings(f));
  }

  /** A line that fills the buffer: the character behind its first 199 is dropped, whatever it
      is. */
  lemma LongLineDropsCharacter(a: string, c: char, rest: string)
    requires |a| == LIMIT && (forall k :: 0 <= k < |a| ==> !LineEnd(a[k])) && rest != ""
    ensures BufferLines(a + [c] + rest, MAX_LINE) == [a] + BufferLines(rest, MAX_LINE)
  {
    var text := a + [c] + rest;
    StopAtLimit(text, 0);
    assert text[..LIMIT] == a && text[LIMIT + 1..] == rest;
  }

  lemma {:induction false} StopAtLimit(text: string, i: nat)
    requires i < MAX_LINE && MAX_LINE <= |text| && forall k :: 0 <= k < LIMIT ==> !LineEnd(text[k])
    ensures StopFrom(text, MAX_LINE, i) == LIMIT
    decreases MAX_LINE - i
  {
    if i < LIMIT {
      StopAtLimit(text, i + 1);
    }
  }

  /** A comment of 199 characters with its newline, in front of a line that cannot be read: to
      fgets the newline is a line of its own, and the bad line the third. */
  lemma FullLineParts(h: Handler, a: string)
    requires |a| == LIMIT && a[0] == ';' && forall k :: 0 <= k < |a| ==> a[k] != '\n' && a[k] != '\r' && a[k] != '\0'
    ensures FeedAll(h, LinesOf(Buffer, a + "\nx")).error == 2 && FeedAll(h, LinesOf(File, a + "\nx")).error == 3
  {
    hide Feed, FeedAll, BufferLines, FgetsLines, CString;
    var text := a + "\nx";
    assert text == a + ['\n'] + "x";
    LongLineDropsCharacter(a, '\n', "x");
    OneLetterLine();
    FullLineTaken(a);
    NoNulIsWhole(a);
    NoNulIsWhole("x");
    NoNulIsWhole("\n");
    CommentBlankBad(h, a);
    assert BufferLines(text, MAX_LINE) == [a, "x"] && FgetsLines(text, MAX_LINE) == [a, "\n", "x"];
    assert AsStrings([a, "x"]) == [a, "x"] && AsStrings([a, "\n", "x"]) == [a, "\n", "x"];
  }

  lemma OneLetterLine()
    ensures BufferLines("x", MAX_LINE) == ["x"] && FgetsLines("x", MAX_LINE) == ["x"]
  {
    assert StopFrom("x", MAX_LINE, 1) == 1 && TakeFrom("x", MAX_LINE, 1) == 1;
    assert StopFrom("x", MAX_LINE, 0) == 1 && TakeFrom("x", MAX_LINE, 0) == 1;
    assert "x"[..1] == "x" && "x"[1..] == "";
  }

  lemma FullLineTaken(a: string)
    requires |a| == LIMIT && forall k :: 0 <= k < |a| ==> a[k] != '\n'
    ensures FgetsLines(a + "\nx", MAX_LINE) == [a, "\n", "x"]
  {
    hide TakeFrom, FirstNewline;
    var text := a + "\nx";
    FirstNewlineIs(text, LIMIT);
    TakeIs(text, 0);
    assert text[..LIMIT] == a && text[LIMIT..] == "\nx";
    NewlineFirst("\nx");
    TakeIs("\nx", 0);
    assert "\nx"[..1] == "\n" && "\nx"[1..] == "x";
    OneLetterLine();
    assert FgetsLines("\nx", MAX_LINE) == ["\n"] + FgetsLines("x", MAX_LINE);
  }

  lemma CommentBlankBad(h: Handler, a: string)
    requires a != "" && a[0] == ';'
    ensures FeedAll(h, [a, "x"]).error == 2 && FeedAll(h, [a, "\n", "x"]).error == 3
  {
    hide Feed, FeedAll;
    CommentIsNothing(h, a);
    BadIsBad(h, 2);
    BadIsBad(h, 3);
    BlankIsNothing(h);
    NothingFed(h);
    assert [] + [a] == [a] && [a] + ["x"] == [a, "x"];
    assert [a] + ["\n"] == [a, "\n"] && [a, "\n"] + ["x"] == [a, "\n", "x"];
    FeedAllAppend(h, [], a);
    FeedAllAppend(h, [a], "x");
    FeedAllAppend(h, [a], "\n");
    FeedAllAppend(h, [a, "\n"], "x");
  }

  lemma CommentIsNothing(h: Handler, a: string)
    requires a != "" && a[0] == ';'
    ensures Feed(h, INITIAL, a, 1) == INITIAL
  {
    assert !Space(a[0]);
    assert RStrip(a) != "" && RStrip(a)[0] == ';';
    assert Leading(RStrip(a)) == 0;
  }

  lemma BlankIsNothing(h: Handler)
    ensures Feed(h, INITIAL, "\n", 2) == INITIAL
  {
    assert "\n"[..0] == "";
    assert RStrip("\n") == "";
  }

  lemma BadIsBad(h: Handler, lineno: nat)
    requires lineno > 1
    ensures Feed(h, INITIAL, "x", lineno).error == lineno
  {
    assert RStrip("x") == "x" && Leading("x") == 0 && "x"[0..] == "x";
    assert !IsStop("x", "=:", 0);
    assert Find("x", "=:") == 1;
  }

  /** And a carriage return parts them: it ends a line for the one reader only. */
  lemma ReturnParts(h: Handler)
    ensures FeedAll(h, LinesOf(Buffer, ";\rx")).error == 2 && FeedAll(h, LinesOf(File, ";\rx")).error == 0
  {
    hide Feed, FeedAll, BufferLines, FgetsLines, CString;
    var text := ";\rx";
    ReturnLines();
    NoNulIsWhole(text);
    NoNulIsWhole(";");
    NoNulIsWhole("x");
    CommentBlankBad(h, ";");
    CommentIsNothing(h, text);
    assert AsStrings([";", "x"]) == [";", "x"] && AsStrings([text]) == [text];
    NothingFed(h);
    FeedAllAppend(h, [], text);
    assert [] + [text] == [text];
  }

  lemma ReturnLines()
    ensures BufferLines(";\rx", MAX_LINE) == [";", "x"] && FgetsLines(";\rx", MAX_LINE) == [";\rx"]
  {
    var text := ";\rx";
    assert StopFrom(text, MAX_LINE, 1) == 1;
    assert StopFrom(text, MAX_LINE, 0) == 1;
    assert text[..1] == ";" && text[2..] == "x" && BufferRest(text, MAX_LINE) == "x";
    OneLetterLine();
    assert BufferLines(text, MAX_LINE) == [";"] + BufferLines("x", MAX_LINE);
    assert TakeFrom(text, MAX_LINE, 3) == 3;
    assert TakeFrom(text, MAX_LINE, 2) == 3;
    assert TakeFrom(text, MAX_LINE, 1) == 3;
    assert TakeFrom(text, MAX_LINE, 0) == 3;
    assert text[..3] == text && text[3..] == "";
    assert FgetsLines(text, MAX_LINE) == [text] + FgetsLines("", MAX_LINE);
  }

  // ----- the printed text comes back as the printed lines -----

  predicate Printable(line: string) {
    OneLine(line) && |line| <= MAX_LINE - 2
  }

  lemma FirstNewlineIs(text: string, n: nat)
    requires n <= |text| && (forall k :: 0 <= k < n ==> text[k] != '\n') && (n < |text| ==> text[n] == '\n')
    ensures FirstNewline(text) == n
  {
  }

  lemma {:induction false} JoinedIsRead(lines: seq<string>)
    requires forall k :: 0 <= k < |lines| ==> Printable(lines[k])
    ensures var text := Joined(lines);
      NoReturn(text) && '\0' !in text && KeptFit(text) && BufferLines(text, MAX_LINE) == lines
    decreases |lines|
  {
    hide FirstNewline, StopFrom;
    if lines != [] {
      var l, rest := lines[0], lines[1..];
      JoinedIsRead(rest);
      assert lines == [l] + rest;
      JoinedAppend([l], rest);
      JoinedOne(l);
      var text := l + "\n" + Joined(rest);
      assert Joined(lines) == text;
      FirstNewlineIs(text, |l|);
      assert AfterLine(text) == Joined(rest) && Kept(text) == l + "\n";
      PlainParts(l, Joined(rest));
      StopIs(text, 0);
      BufferGoesOn(text);
      assert text[..|l|] == l;
    }
  }

  lemma PlainParts(l: string, rest: string)
    requires OneLine(l) && NoReturn(rest) && '\0' !in rest
    ensures NoReturn(l + "\n" + rest) && '\0' !in l + "\n" + rest
  {
    var text := l + "\n" + rest;
    forall c | c in text
      ensures c in l || c == '\n' || c in rest
    {
    }
  }

  lemma {:induction false} DumpIsPrintable(es: seq<Entry>, k: nat)
    requires forall j :: 0 <= j < |es| ==> GoodEntry(es[j])
    requires k < |DumpLines(es)|
    ensures Printable(DumpLines(es)[k])
    decreases |es|
  {
    if es != [] {
      var front, e := es[..|es| - 1], es[|es| - 1];
      var prev := PrevAfterAll(front);
      if k < |DumpLines(front)| {
        DumpIsPrintable(front, k);
      } else {
        EntryIsPrintable(prev, e, k - |DumpLines(front)|);
      }
    }
  }

  lemma EntryIsPrintable(prev: string, e: Entry, k: nat)
    requires GoodEntry(e) && k < |EntryLines(prev, e)|
    ensures Printable(EntryLines(prev, e)[k])
  {
  }

  /** Parsing what was printed gives back every entry, through either reader, with result 0. */
  lemma DumpRoundTrip(h: Handler, es: seq<Entry>)
    requires forall k :: 0 <= k < |es| ==> GoodEntry(es[k])
    requires Accepts(h, es)
    ensures var text := Joined(DumpLines(es));
      var p := FeedAll(h, LinesOf(Buffer, text));
      p.calls == es && p.error == 0 && FeedAll(h, LinesOf(File, text)) == p
  {
    hide FeedAll, BufferLines, FgetsLines, DumpLines, Joined, GoodEntry, CString;
    var lines := DumpLines(es);
    forall k | 0 <= k < |lines|
      ensures Printable(lines[k]) && CString(lines[k]) == lines[k]
    {
      DumpIsPrintable(es, k);
      NoNulIsWhole(lines[k]);
    }
    JoinedIsRead(lines);
    assert AsStrings(lines) == lines;
    ParseOfDump(h, es);
    ReadersAgree(h, Joined(lines));
  }
}
