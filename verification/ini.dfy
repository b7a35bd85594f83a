/** The INI line parser of wafel_core/source/externals/inih/ini.c, on text. */
module Ini {

  const MAX_SECTION := 50
  const MAX_NAME := 50
  const MAX_LINE := 200

  // ----- characters and strings -----

  /** isspace in the C locale. */
  predicate Space(c: char) {
    c == ' ' || '\t' <= c <= '\r'
  }

  function RStrip(s: string): (r: string)
    ensures r <= s
    ensures r != "" ==> !Space(r[|r| - 1])
    ensures forall k :: |r| <= k < |s| ==> Space(s[k])
  {
    if s != "" && Space(s[|s| - 1]) then RStrip(s[..|s| - 1]) else s
  }

  /** How many leading characters lskip passes over. */
  function Leading(s: string): (n: nat)
    ensures n <= |s|
    ensures forall k :: 0 <= k < n ==> Space(s[k])
    ensures n < |s| ==> !Space(s[n])
  {
    if s != "" && Space(s[0]) then 1 + Leading(s[1..]) else 0
  }

  function LSkip(s: string): string {
    s[Leading(s)..]
  }

  /** Position i ends the search for one of chars, or starts an inline comment. */
  predicate IsStop(s: string, chars: string, i: nat)
    requires i < |s|
  {
    s[i] in chars || (i > 0 && Space(s[i - 1]) && s[i] == ';')
  }

  function FindFrom(s: string, chars: string, i: nat): (r: nat)
    requires i <= |s|
    ensures i <= r <= |s|
    ensures forall k :: i <= k < r ==> !IsStop(s, chars, k)
    ensures r < |s| ==> IsStop(s, chars, r)
    decreases |s| - i
  {
    if i == |s| || IsStop(s, chars, i) then i else FindFrom(s, chars, i + 1)
  }

  /** find_chars_or_comment. */
  function Find(s: string, chars: string): (r: nat)
    ensures r <= |s|
    ensures forall k :: 0 <= k < r ==> !IsStop(s, chars, k)
    ensures r < |s| ==> IsStop(s, chars, r)
  {
    FindFrom(s, chars, 0)
  }

  /** strncpy0 into a buffer of the given size. */
  function Truncated(s: string, size: nat): (r: string)
    requires size > 0
    ensures |r| < size && r <= s
  {
    if |s| < size then s else s[..size - 1]
  }

  /** The copy itself, and the NUL put at the buffer's end. */
  method Strncpy0(src: string, size: nat) returns (dest: string)
    requires size > 0
    ensures dest == Truncated(src, size)
  {
    dest := "";
    for i := 0 to size - 1
      invariant dest == if i <= |src| then src[..i] else src
    {
      if i < |src| {
        dest := dest + [src[i]];
      }
    }
  }

  /** No whitespace at either end. */
  predicate Trimmed(s: string) {
    s == "" || (!Space(s[0]) && !Space(s[|s| - 1]))
  }

  // ----- one line -----

  datatype Entry = Entry(section: string, name: string, value: string)

  datatype Line =
    | Nothing
    | Continuation(value: string)
    | Section(title: string)
    | Pair(name: string, value: string)
    | Malformed

  /** The value part behind the separator: inline comment off, then whitespace. */
  function ValueOf(s: string): string {
    RStrip(LSkip(s[..Find(s, "")]))
  }

  /** What a line says, once stripped; indented tells that something was skipped before it. */
  function Classify(t: string, indented: bool, prevName: string): Line {
    if t == "" || t[0] == ';' || t[0] == '#' then Nothing
    else if prevName != "" && indented then Continuation(t)
    else if t[0] == '[' then
      var e := Find(t[1..], "]");
      if 1 + e < |t| && t[1 + e] == ']' then Section(t[1..1 + e]) else Malformed
    else
      var e := Find(t, "=:");
      if e < |t| && (t[e] == '=' || t[e] == ':') then Pair(RStrip(t[..e]), ValueOf(t[e + 1..])) else Malformed
  }

  /** A UTF-8 byte order mark. */
  predicate HasBom(s: string) {
    |s| >= 3 && s[0] == '\U{EF}' && s[1] == '\U{BB}' && s[2] == '\U{BF}'
  }

  // ----- the parser's state -----

  /** The handler may remember what it has been called with. */
  type Handler = (seq<Entry>, Entry) -> bool

  datatype State = State(section: string, prevName: string, calls: seq<Entry>, error: nat)

  const INITIAL := State("", "", [], 0)

  function Flag(p: State, bad: bool, lineno: nat): State {
    if bad && p.error == 0 then p.(error := lineno) else p
  }

  function Report(h: Handler, p: State, e: Entry, lineno: nat): State {
    Flag(p.(calls := p.calls + [e]), !h(p.calls, e), lineno)
  }

  function Act(h: Handler, p: State, l: Line, lineno: nat): State {
    match l
    case Nothing => p
    case Continuation(v) => Report(h, p, Entry(p.section, p.prevName, v), lineno)
    case Section(t) => p.(section := Truncated(t, MAX_SECTION), prevName := "")
    case Pair(n, v) => Report(h, p.(prevName := Truncated(n, MAX_NAME)), Entry(p.section, n, v), lineno)
    case Malformed => Flag(p, true, lineno)
  }

  /** How much of a line is passed over before anything else. */
  function Skip(line: string, lineno: nat): (skip: nat)
    ensures skip <= |line|
  {
    if lineno == 1 && HasBom(line) then 3 else 0
  }

  /** One line of input, as the reader left it in the buffer. */
  function Feed(h: Handler, p: State, line: string, lineno: nat): State {
    var skip := Skip(line, lineno);
    var s := RStrip(line[skip..]);
    Act(h, p, Classify(LSkip(s), skip + Leading(s) > 0, p.prevName), lineno)
  }

  function FeedAll(h: Handler, lines: seq<string>): State {
    if lines == [] then INITIAL
    else Feed(h, FeedAll(h, lines[..|lines| - 1]), lines[|lines| - 1], |lines|)
  }

  // ----- what the parser promises -----

  lemma TrimmedParts(s: string)
    ensures Trimmed(LSkip(RStrip(s))) && Trimmed(RStrip(LSkip(s)))
  {
  }

  lemma ClassifiedTrimmed(t: string, indented: bool, prevName: string)
    requires Trimmed(t)
    ensures var l := Classify(t, indented, prevName);
      && (l.Continuation? ==> Trimmed(l.value))
      && (l.Pair? ==> Trimmed(l.value) && (l.name == "" || !Space(l.name[|l.name| - 1])))
  {
    hide Find, RStrip, LSkip;
    var l := Classify(t, indented, prevName);
    if l.Pair? {
      var rest := t[Find(t, "=:") + 1..];
      TrimmedParts(rest[..Find(rest, "")]);
    }
  }

  /** A line adds one call at most, with a trimmed value. */
  lemma FeedCalls(h: Handler, p: State, line: string, lineno: nat)
    ensures var q := Feed(h, p, line, lineno);
      q.calls == p.calls || exists e :: q.calls == p.calls + [e] && Trimmed(e.value)
  {
    hide Act, Classify, RStrip, Leading, LSkip, Trimmed, Skip;
    var skip := Skip(line, lineno);
    var s := RStrip(line[skip..]);
    TrimmedParts(line[skip..]);
    ClassifiedTrimmed(LSkip(s), skip + Leading(s) > 0, p.prevName);
    ActCalls(h, p, Classify(LSkip(s), skip + Leading(s) > 0, p.prevName), lineno);
  }

  lemma ActCalls(h: Handler, p: State, l: Line, lineno: nat)
    requires (l.Continuation? ==> Trimmed(l.value)) && (l.Pair? ==> Trimmed(l.value))
    ensures var q := Act(h, p, l, lineno);
      q.calls == p.calls || exists e :: q.calls == p.calls + [e] && Trimmed(e.value)
  {
    hide Trimmed, Truncated;
    match l
    case Continuation(v) =>
      assert Act(h, p, l, lineno).calls == p.calls + [Entry(p.section, p.prevName, v)];
    case Pair(n, v) =>
      assert Act(h, p, l, lineno).calls == p.calls + [Entry(p.section, n, v)];
    case _ =>
  }

  /** Every value that reaches the handler is without whitespace at its ends. */
  lemma {:induction false} ValuesAreTrimmed(h: Handler, lines: seq<string>, k: nat)
    requires k < |FeedAll(h, lines).calls|
    ensures Trimmed(FeedAll(h, lines).calls[k].value)
    decreases |lines|
  {
    hide Feed, Trimmed;
    if lines != [] {
      var front := lines[..|lines| - 1];
      FeedCalls(h, FeedAll(h, front), lines[|lines| - 1], |lines|);
      if k < |FeedAll(h, front).calls| {
        ValuesAreTrimmed(h, front, k);
      }
    }
  }

  /** A line is bad if it cannot be read or the handler refuses what it says. */
  ghost predicate BadLine(h: Handler, lines: seq<string>, k: nat)
    requires 1 <= k <= |lines|
  {
    var p := FeedAll(h, lines[..k - 1]).(error := 0);
    Feed(h, p, lines[k - 1], k).error != 0
  }

  /** The result is 0 if no line is bad, and otherwise the number of the first bad one. */
  lemma {:induction false} ErrorIsFirstBadLine(h: Handler, lines: seq<string>)
    ensures var r := FeedAll(h, lines).error;
      && (r == 0 <==> forall k :: 1 <= k <= |lines| ==> !BadLine(h, lines, k))
      && (r != 0 ==> 1 <= r <= |lines| && BadLine(h, lines, r) && forall k :: 1 <= k < r ==> !BadLine(h, lines, k))
    decreases |lines|
  {
    hide Feed;
    if lines != [] {
      var n := |lines|;
      var front := lines[..n - 1];
      ErrorIsFirstBadLine(h, front);
      forall k | 1 <= k < n
        ensures BadLine(h, lines, k) == BadLine(h, front, k)
      {
        assert lines[..k - 1] == front[..k - 1];
      }
      ErrorIndependent(h, FeedAll(h, front), lines[n - 1], n);
      assert BadLine(h, lines, n) <==> Feed(h, FeedAll(h, front).(error := 0), lines[n - 1], n).error != 0;
    }
  }

  /** An error already noted changes nothing about how a line is taken. */
  lemma ErrorIndependent(h: Handler, p: State, line: string, lineno: nat)
    ensures var q := Feed(h, p.(error := 0), line, lineno);
      Feed(h, p, line, lineno) == if p.error == 0 then q else q.(error := p.error)
    ensures Feed(h, p.(error := 0), line, lineno).error == 0 || Feed(h, p.(error := 0), line, lineno).error == lineno
  {
    hide Act, Classify, RStrip, LSkip, Leading, Skip;
    var skip := Skip(line, lineno);
    var s := RStrip(line[skip..]);
    ActErrorIndependent(h, p, Classify(LSkip(s), skip + Leading(s) > 0, p.prevName), lineno);
  }

  lemma ActErrorIndependent(h: Handler, p: State, l: Line, lineno: nat)
    ensures var q := Act(h, p.(error := 0), l, lineno);
      Act(h, p, l, lineno) == (if p.error == 0 then q else q.(error := p.error)) && (q.error == 0 || q.error == lineno)
  {
    hide Truncated;
  }

  /** A newline left at the end of the line makes no difference. */
  lemma NewlineIsStripped(h: Handler, p: State, line: string, lineno: nat)
    ensures Feed(h, p, line + "\n", lineno) == Feed(h, p, line, lineno)
  {
    hide Act, Classify, RStrip, LSkip, Leading;
    var skip := Skip(line, lineno);
    var longer := line + "\n";
    assert Skip(longer, lineno) == skip;
    hide Skip;
    assert longer[skip..] == line[skip..] + "\n";
    RStripNewline(line[skip..]);
  }

  lemma RStripNewline(s: string)
    ensures RStrip(s + "\n") == RStrip(s)
  {
    assert (s + "\n")[..|s|] == s;
  }
}
