/** What the lines of an INI file mean, told by how their text is made up: the reference that the
    parser of ini.dfy is measured against. */
module IniLines {
  import opened Ini
  import opened IniDump

  /** isspace: a blank, or one of the five control characters from tab to carriage return. */
  lemma SpaceExactly(c: char)
    ensures Space(c) <==> c as int in {32, 9, 10, 11, 12, 13}
  {
  }

  ghost predicate Blank(s: string) {
    forall k :: 0 <= k < |s| ==> Space(s[k])
  }

  /** t with whitespace around it, and none of its own at either end. */
  ghost predicate Around(s: string, lead: string, t: string, trail: string) {
    s == lead + t + trail && Blank(lead) && Blank(trail) && Trimmed(t)
  }

  /** None of chars in s, and no ';' behind whitespace. */
  ghost predicate Clear(s: string, chars: string) {
    forall k :: 0 <= k < |s| ==> s[k] !in chars && (s[k] == ';' && k > 0 ==> !Space(s[k - 1]))
  }

  /** A comment of its own behind shown: nothing, or from a ';' behind whitespace on. */
  ghost predicate Commented(shown: string, comment: string) {
    && Clear(shown, "")
    && (comment == "" || (comment[0] == ';' && shown != "" && Space(shown[|shown| - 1])))
  }

  /** What is behind the separator gives value: whitespace around it and perhaps a comment. */
  ghost predicate GivesValue(rest: string, value: string) {
    exists lead, trail, comment :: ValueParts(rest, lead, value, trail, comment)
  }

  ghost predicate ValueParts(rest: string, lead: string, value: string, trail: string, comment: string) {
    rest == lead + value + trail + comment && Around(lead + value + trail, lead, value, trail)
    && Commented(lead + value + trail, comment)
  }

  /** name, whitespace and a separator in front of rest. */
  ghost predicate NameParts(t: string, name: string, trail: string, separator: string, rest: string) {
    && t == name + trail + separator + rest && (separator == "=" || separator == ":")
    && Clear(name + trail, "=:") && Blank(trail) && (name == "" || !Space(name[|name| - 1]))
  }

  ghost predicate TitleParts(t: string, title: string, rest: string) {
    t == "[" + title + "]" + rest && Clear(title, "]")
  }

  /** A stripped text that is neither a comment nor a continuation, read as a line. */
  ghost predicate Shape(t: string, l: Line) {
    if t != "" && t[0] == '[' then l.Section? && exists rest :: TitleParts(t, l.title, rest)
    else
      l.Pair? && exists trail, separator, rest ::
        NameParts(t, l.name, trail, separator, rest) && GivesValue(rest, l.value)
  }

  ghost predicate Comment(t: string) {
    t == "" || t[0] == ';' || t[0] == '#'
  }

  /** A stripped text read as a line; indented tells that something stood before it. */
  ghost predicate TextReads(t: string, indented: bool, prevName: string, l: Line) {
    if Comment(t) then l == Nothing
    else if prevName != "" && indented then l == Continuation(t)
    else Shape(t, l) || (l == Malformed && forall l' :: !Shape(t, l'))
  }

  // ----- the parser reads text that way -----

  lemma Stripped(s: string, lead: string, t: string, trail: string)
    requires Around(s, lead, t, trail)
    ensures LSkip(RStrip(s)) == t == RStrip(LSkip(s))
    ensures t != "" ==> Leading(RStrip(s)) == |lead|
  {
    hide RStrip, Leading;
    if t == "" {
      RStripIs(s, "");
      LeadingIs("", 0);
      LeadingIs(s, |s|);
    } else {
      RStripIs(s, lead + t);
      LeadingIs(lead + t, |lead|);
      LeadingIs(s, |lead|);
      assert s[|lead|..] == t + trail && (lead + t)[|lead|..] == t;
      RStripIs(t + trail, t);
    }
  }

  lemma StrippedParts(s: string)
    ensures Around(s, RStrip(s)[..Leading(RStrip(s))], LSkip(RStrip(s)), s[|RStrip(s)|..])
  {
    hide RStrip, Leading, Blank, Trimmed, LSkip;
    var r := RStrip(s);
    TrimmedParts(s);
    BlankParts(r, Leading(r), s);
    assert r[..Leading(r)] + LSkip(r) + s[|r|..] == s by {
      PrefixAndRest(s, r);
      LSkipSplits(r);
    }
  }

  lemma BlankParts(r: string, n: nat, s: string)
    requires r <= s && n <= |r|
    requires (forall k :: 0 <= k < n ==> Space(r[k])) && forall k :: |r| <= k < |s| ==> Space(s[k])
    ensures Blank(r[..n]) && Blank(s[|r|..])
  {
  }

  lemma PrefixAndRest(s: string, r: string)
    requires r <= s
    ensures r + s[|r|..] == s
  {
  }

  lemma LSkipSplits(r: string)
    ensures r[..Leading(r)] + LSkip(r) == r
  {
    hide Leading;
  }

  lemma ClearUntil(s: string, chars: string, shown: string, rest: string)
    requires s == shown + rest && Clear(shown, chars) && (rest != "" ==> IsStop(s, chars, |shown|))
    ensures Find(s, chars) == |shown|
  {
    hide Find;
    FindIs(s, chars, |shown|);
  }

  lemma ClearBefore(s: string, chars: string)
    ensures Clear(s[..Find(s, chars)], chars)
  {
    hide Find;
    var n := Find(s, chars);
    forall k | 0 <= k < n
      ensures s[..n][k] !in chars && (s[..n][k] == ';' && k > 0 ==> !Space(s[..n][k - 1]))
    {
      assert !IsStop(s, chars, k);
    }
  }

  lemma ValueIs(rest: string, lead: string, value: string, trail: string, comment: string)
    requires ValueParts(rest, lead, value, trail, comment)
    ensures ValueOf(rest) == value
  {
    hide RStrip, Leading, Find;
    var shown := lead + value + trail;
    ClearUntil(rest, "", shown, comment);
    assert rest[..|shown|] == shown;
    Stripped(shown, lead, value, trail);
  }

  lemma CommentHas(rest: string)
    ensures Commented(rest[..Find(rest, "")], rest[Find(rest, "")..])
  {
    hide Find, Clear;
    ClearBefore(rest, "");
  }

  lemma ValueHas(rest: string)
    ensures GivesValue(rest, ValueOf(rest))
  {
    hide RStrip, Leading, Find, LSkip, Blank, Trimmed, Commented;
    var n := Find(rest, "");
    var shown, comment := rest[..n], rest[n..];
    CommentHas(rest);
    var lead, trail := RStrip(shown)[..Leading(RStrip(shown))], shown[|RStrip(shown)|..];
    StrippedParts(shown);
    Stripped(shown, lead, LSkip(RStrip(shown)), trail);
    assert shown + comment == rest;
    assert ValueParts(rest, lead, ValueOf(rest), trail, comment);
  }

  lemma SectionIs(t: string, title: string, rest: string)
    requires TitleParts(t, title, rest)
    ensures Classify(t, false, "") == Section(title)
  {
    hide Find;
    assert t[1..] == title + ("]" + rest);
    ClearUntil(t[1..], "]", title, "]" + rest);
    assert t[1..1 + |title|] == title;
  }

  lemma PairIs(t: string, name: string, trail: string, separator: string, rest: string, value: string)
    requires NameParts(t, name, trail, separator, rest) && GivesValue(rest, value)
    requires t != "" && t[0] != '['
    ensures !Comment(t) ==> Classify(t, false, "") == Pair(name, value)
  {
    hide RStrip, Find, ValueOf;
    var before := name + trail;
    assert t == before + (separator + rest);
    ClearUntil(t, "=:", before, separator + rest);
    assert t[..|before|] == before && t[|before| + 1..] == rest;
    RStripIs(before, name);
    var lead, behind, comment :| ValueParts(rest, lead, value, behind, comment);
    ValueIs(rest, lead, value, behind, comment);
  }

  lemma ShapeIs(t: string, l: Line)
    requires !Comment(t) && Shape(t, l)
    ensures Classify(t, false, "") == l
  {
    hide Classify, TitleParts, NameParts, GivesValue;
    if t[0] == '[' {
      var rest :| TitleParts(t, l.title, rest);
      SectionIs(t, l.title, rest);
    } else {
      var trail, separator, rest :| NameParts(t, l.name, trail, separator, rest) && GivesValue(rest, l.value);
      PairIs(t, l.name, trail, separator, rest, l.value);
    }
  }

  lemma SectionHas(t: string)
    requires t != "" && t[0] == '[' && Classify(t, false, "").Section?
    ensures Shape(t, Classify(t, false, ""))
  {
    hide Find;
    var e := Find(t[1..], "]");
    ClearBefore(t[1..], "]");
    assert t[1..][..e] == t[1..1 + e];
    assert TitleParts(t, t[1..1 + e], t[e + 2..]);
  }

  lemma NameHas(t: string, e: nat)
    requires e < |t| && e == Find(t, "=:") && (t[e] == '=' || t[e] == ':')
    ensures NameParts(t, RStrip(t[..e]), t[|RStrip(t[..e])|..e], t[e..e + 1], t[e + 1..])
  {
    hide RStrip, Find, Clear;
    ClearBefore(t, "=:");
    var name := RStrip(t[..e]);
    assert name + t[|name|..e] == t[..e];
  }

  lemma PairHas(t: string)
    requires !Comment(t) && t[0] != '[' && Classify(t, false, "").Pair?
    ensures Shape(t, Classify(t, false, ""))
  {
    hide RStrip, Find, ValueOf, NameParts, GivesValue;
    var e := Find(t, "=:");
    NameHas(t, e);
    ValueHas(t[e + 1..]);
  }

  /** The parser takes a stripped text for what it reads as, and for nothing else. */
  lemma TextReadsExactly(t: string, indented: bool, prevName: string, l: Line)
    ensures TextReads(t, indented, prevName, l) <==> l == Classify(t, indented, prevName)
  {
    if Comment(t) || (prevName != "" && indented) {
    } else {
      var c := Classify(t, false, "");
      assert Classify(t, indented, prevName) == c;
      forall l' | Shape(t, l')
        ensures l' == c
      {
        ShapeIs(t, l');
      }
      if c != Malformed {
        if t[0] == '[' {
          SectionHas(t);
        } else {
          PairHas(t);
        }
      } else {
        NoShapeIsMalformed(t);
      }
    }
  }

  lemma NoShapeIsMalformed(t: string)
    ensures !Shape(t, Malformed)
  {
  }

  // ----- whole lines, and what they do -----

  const BOM := "\U{EF}\U{BB}\U{BF}"

  /** A byte order mark, where the first line has one, whitespace, a text, whitespace. */
  ghost predicate LineParts(line: string, lineno: nat, mark: string, lead: string, t: string, trail: string) {
    && line == mark + (lead + t + trail) && Around(lead + t + trail, lead, t, trail)
    && mark == if lineno == 1 && BOM <= line then BOM else ""
  }

  ghost predicate LineReads(line: string, lineno: nat, prevName: string, l: Line) {
    exists mark, lead, t, trail ::
      LineParts(line, lineno, mark, lead, t, trail) && TextReads(t, mark + lead != "", prevName, l)
  }

  /** As much of s as a buffer of 50 characters holds. */
  ghost predicate Cut(s: string, cut: string) {
    cut <= s && |cut| == if |s| < 50 then |s| else 49
  }

  /** The handler is called with e, and the line is flagged, unless one was before, exactly if the
      handler refuses. */
  ghost predicate Calls(h: Handler, p: State, e: Entry, lineno: nat, q: State) {
    && q.calls == p.calls + [e]
    && q.error == if p.error == 0 && !h(p.calls, e) then lineno else p.error
  }

  /** What a line makes of the parser's state. */
  ghost predicate Does(h: Handler, p: State, l: Line, lineno: nat, q: State) {
    match l
    case Nothing => q == p
    case Continuation(value) =>
      q.section == p.section && q.prevName == p.prevName
      && Calls(h, p, Entry(p.section, p.prevName, value), lineno, q)
    case Section(title) => Cut(title, q.section) && q.prevName == "" && q.calls == p.calls && q.error == p.error
    case Pair(name, value) =>
      q.section == p.section && Cut(name, q.prevName) && Calls(h, p, Entry(p.section, name, value), lineno, q)
    case Malformed => q == p.(error := if p.error == 0 then lineno else p.error)
  }

  lemma BomIs(line: string)
    ensures HasBom(line) <==> BOM <= line
    ensures BOM <= line ==> line == BOM + line[3..]
  {
  }

  lemma PartsRead(line: string, lineno: nat, mark: string, lead: string, t: string, trail: string)
    requires LineParts(line, lineno, mark, lead, t, trail)
    ensures var s := RStrip(line[Skip(line, lineno)..]);
      |mark| == Skip(line, lineno) && LSkip(s) == t && (t != "" ==> Leading(s) == |lead|)
  {
    hide RStrip, Leading;
    BomIs(line);
    assert line[|mark|..] == lead + t + trail;
    Stripped(lead + t + trail, lead, t, trail);
  }

  lemma LineHasParts(line: string, lineno: nat)
    ensures var rest := line[Skip(line, lineno)..];
      LineParts(line, lineno, line[..Skip(line, lineno)], RStrip(rest)[..Leading(RStrip(rest))], LSkip(RStrip(rest)),
                rest[|RStrip(rest)|..])
  {
    hide RStrip, Leading, Around;
    BomIs(line);
    var rest := line[Skip(line, lineno)..];
    StrippedParts(rest);
    assert Around(rest, RStrip(rest)[..Leading(RStrip(rest))], LSkip(RStrip(rest)), rest[|RStrip(rest)|..]);
    AroundIs(rest, RStrip(rest)[..Leading(RStrip(rest))], LSkip(RStrip(rest)), rest[|RStrip(rest)|..]);
    assert line == line[..Skip(line, lineno)] + rest;
  }

  lemma AroundIs(s: string, lead: string, t: string, trail: string)
    requires Around(s, lead, t, trail)
    ensures s == lead + t + trail
  {
  }

  /** What the parser takes a line for. */
  function Taken(line: string, lineno: nat, prevName: string): Line {
    var skip := Skip(line, lineno);
    var s := RStrip(line[skip..]);
    Classify(LSkip(s), skip + Leading(s) > 0, prevName)
  }

  lemma LineReadsExactly(line: string, lineno: nat, prevName: string, l: Line)
    ensures LineReads(line, lineno, prevName, l) <==> l == Taken(line, lineno, prevName)
  {
    hide RStrip, Leading, Classify, TextReads, LineParts, Skip, LSkip;
    var rest := line[Skip(line, lineno)..];
    var t := LSkip(RStrip(rest));
    forall mark, lead, t', trail | LineParts(line, lineno, mark, lead, t', trail)
      ensures TextReads(t', mark + lead != "", prevName, l) <==> l == Taken(line, lineno, prevName)
    {
      PartsRead(line, lineno, mark, lead, t', trail);
      TextReadsExactly(t', mark + lead != "", prevName, l);
      EmptyIsNothing(prevName);
    }
    LineHasParts(line, lineno);
  }

  lemma EmptyIsNothing(prevName: string)
    ensures forall indented :: Classify("", indented, prevName) == Nothing
  {
  }

  /** Doing is what Act does, and nothing else is. */
  lemma DoesExactly(h: Handler, p: State, l: Line, lineno: nat, q: State)
    ensures Does(h, p, l, lineno, q) <==> q == Act(h, p, l, lineno)
  {
    match l
    case Section(title) => CutExactly(title, q.section, MAX_SECTION);
    case Pair(name, value) => CutExactly(name, q.prevName, MAX_NAME);
    case _ =>
  }

  lemma CutExactly(s: string, cut: string, size: nat)
    requires size == 50
    ensures Cut(s, cut) <==> cut == Truncated(s, size)
  {
  }

  /** One line: the parser's next state is the one that the line, by what it reads as, makes of the
      state before. */
  lemma FeedExactly(h: Handler, p: State, line: string, lineno: nat, q: State)
    ensures q == Feed(h, p, line, lineno)
       <==> exists l :: LineReads(line, lineno, p.prevName, l) && Does(h, p, l, lineno, q)
  {
    hide RStrip, LSkip, Leading, Classify, LineReads, Does, Act, Skip;
    forall l
      ensures LineReads(line, lineno, p.prevName, l) <==> l == Taken(line, lineno, p.prevName)
      ensures Does(h, p, l, lineno, q) <==> q == Act(h, p, l, lineno)
    {
      LineReadsExactly(line, lineno, p.prevName, l);
      DoesExactly(h, p, l, lineno, q);
    }
  }

  /** States before and after each line, from the empty one on. */
  ghost predicate Parses(h: Handler, lines: seq<string>, ps: seq<State>) {
    && |ps| == |lines| + 1 && ps[0] == State("", "", [], 0)
    && forall k :: 0 <= k < |lines| ==> LineDoes(h, ps[k], lines[k], k + 1, ps[k + 1])
  }

  ghost predicate LineDoes(h: Handler, p: State, line: string, lineno: nat, q: State) {
    exists l :: LineReads(line, lineno, p.prevName, l) && Does(h, p, l, lineno, q)
  }

  /** All lines: the parse is the one run of lines through what they mean. */
  lemma {:induction false} ParsesExactly(h: Handler, lines: seq<string>, ps: seq<State>)
    ensures Parses(h, lines, ps) <==>
      |ps| == |lines| + 1 && forall k :: 0 <= k <= |lines| ==> ps[k] == FeedAll(h, lines[..k])
  {
    hide Feed, LineDoes;
    if |ps| == |lines| + 1 {
      forall k | 0 <= k < |lines|
        ensures LineDoes(h, ps[k], lines[k], k + 1, ps[k + 1]) <==> ps[k + 1] == Feed(h, ps[k], lines[k], k + 1)
        ensures FeedAll(h, lines[..k + 1]) == Feed(h, FeedAll(h, lines[..k]), lines[k], k + 1)
      {
        LineDoesFeed(h, ps[k], lines[k], k + 1, ps[k + 1]);
        assert lines[..k + 1][..k] == lines[..k];
      }
      if Parses(h, lines, ps) {
        AllParsed(h, lines, ps, |lines|);
      }
    }
  }

  lemma LineDoesFeed(h: Handler, p: State, line: string, lineno: nat, q: State)
    ensures LineDoes(h, p, line, lineno, q) <==> q == Feed(h, p, line, lineno)
  {
    hide Feed, LineReads, Does;
    FeedExactly(h, p, line, lineno, q);
  }

  lemma {:induction false} AllParsed(h: Handler, lines: seq<string>, ps: seq<State>, n: nat)
    requires Parses(h, lines, ps) && n <= |lines|
    ensures forall k :: 0 <= k <= n ==> ps[k] == FeedAll(h, lines[..k])
  {
    hide Feed, LineDoes;
    if n > 0 {
      AllParsed(h, lines, ps, n - 1);
      LineDoesFeed(h, ps[n - 1], lines[n - 1], n, ps[n]);
      assert lines[..n][..n - 1] == lines[..n - 1];
    }
  }

  // ----- two kinds of lines written out -----

  /** A line behind the first that starts with whitespace, and is no comment, gives the name before
      it one value more, its own stripped text. */
  lemma ContinuationLine(h: Handler, p: State, lead: string, t: string, trail: string, lineno: nat)
    requires lineno > 1 && p.prevName != "" && lead != "" && Blank(lead) && Blank(trail) && Trimmed(t) && !Comment(t)
    ensures var q := Feed(h, p, lead + t + trail, lineno);
      q.section == p.section && q.prevName == p.prevName && Calls(h, p, Entry(p.section, p.prevName, t), lineno, q)
  {
    hide RStrip, Leading, Classify, Act;
    LineIs(h, p, lead, t, trail, lineno, Continuation(t));
  }

  /** "name = value ; comment", with "=" or ":" and with whitespace or none around the parts, makes
      the one call, without the comment. */
  lemma PairLine(h: Handler, p: State, name: string, gap: string, separator: string, rest: string, value: string,
                 lineno: nat)
    requires lineno > 1 && var t := name + gap + separator + rest;
      NameParts(t, name, gap, separator, rest) && GivesValue(rest, value) && Trimmed(t) && !Comment(t) && t[0] != '['
    ensures var q := Feed(h, p, name + gap + separator + rest, lineno);
      q.section == p.section && Cut(name, q.prevName) && Calls(h, p, Entry(p.section, name, value), lineno, q)
  {
    hide RStrip, Leading, Classify, Act, NameParts, GivesValue, Trimmed;
    var t := name + gap + separator + rest;
    assert Shape(t, Pair(name, value));
    assert "" + t + "" == t;
    LineIs(h, p, "", t, "", lineno, Pair(name, value));
  }

  lemma LineIs(h: Handler, p: State, lead: string, t: string, trail: string, lineno: nat, l: Line)
    requires lineno > 1 && Blank(lead) && Blank(trail) && Trimmed(t) && TextReads(t, lead != "", p.prevName, l)
    ensures Does(h, p, l, lineno, Feed(h, p, lead + t + trail, lineno))
  {
    hide RStrip, Leading, Classify, Act, Does, TextReads, Trimmed, Blank;
    var line, q := lead + t + trail, Feed(h, p, lead + t + trail, lineno);
    assert "" + lead == lead && "" + line == line;
    assert LineParts(line, lineno, "", lead, t, trail);
    assert LineReads(line, lineno, p.prevName, l);
    LineReadsExactly(line, lineno, p.prevName, l);
    DoesExactly(h, p, l, lineno, q);
  }

  // ----- within a file -----

  /** What the handler has been called with stays. */
  lemma {:induction false} CallsGrow(h: Handler, lines: seq<string>, k: nat)
    requires k <= |lines|
    ensures FeedAll(h, lines[..k]).calls <= FeedAll(h, lines).calls
    decreases |lines|
  {
    hide Feed;
    var n := |lines|;
    if k == n {
      assert lines[..k] == lines;
    } else {
      assert lines[..n - 1][..k] == lines[..k];
      CallsGrow(h, lines[..n - 1], k);
      FeedCalls(h, FeedAll(h, lines[..n - 1]), lines[n - 1], n);
    }
  }

  /** A continuation line anywhere behind a pair makes its call right after those before it. */
  lemma ContinuationInFile(h: Handler, lines: seq<string>, k: nat, lead: string, t: string, trail: string)
    requires 0 < k < |lines| && lines[k] == lead + t + trail && FeedAll(h, lines[..k]).prevName != ""
    requires lead != "" && Blank(lead) && Blank(trail) && Trimmed(t) && !Comment(t)
    ensures var p := FeedAll(h, lines[..k]);
      p.calls + [Entry(p.section, p.prevName, t)] <= FeedAll(h, lines).calls
  {
    hide Feed, Blank, Trimmed, Comment;
    assert lines[..k + 1][..k] == lines[..k];
    ContinuationLine(h, FeedAll(h, lines[..k]), lead, t, trail, k + 1);
    CallsGrow(h, lines, k + 1);
  }
}
