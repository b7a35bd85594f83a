/** The INI printer of wafel_core/source/externals/inih/examples/ini_dump.c and what the parser
    makes of its output. */
module IniDump {
  import opened Ini

  // ----- what the search and strip functions give, told by their results -----

  lemma {:induction false} RStripIs(s: string, r: string)
    requires r <= s && (r == "" || !Space(r[|r| - 1])) && forall k :: |r| <= k < |s| ==> Space(s[k])
    ensures RStrip(s) == r
    decreases |s|
  {
    if |r| < |s| {
      RStripIs(s[..|s| - 1], r);
    }
  }

  lemma LeadingIs(s: string, n: nat)
    requires n <= |s| && (forall k :: 0 <= k < n ==> Space(s[k])) && (n < |s| ==> !Space(s[n]))
    ensures Leading(s) == n
  {
  }

  lemma FindIs(s: string, chars: string, n: nat)
    requires n <= |s| && (forall k :: 0 <= k < n ==> !IsStop(s, chars, k)) && (n < |s| ==> IsStop(s, chars, n))
    ensures Find(s, chars) == n
  {
  }

  // ----- the printer -----

  /** The lines printed for one entry when prev is the section printed last. */
  function EntryLines(prev: string, e: Entry): seq<string> {
    (if e.section != prev then (if prev != "" then [""] else []) + ["[" + e.section + "]"] else [])
    + [e.name + " = " + e.value]
  }

  /** The static prev_section buffer after an entry. */
  function PrevAfter(prev: string, e: Entry): string {
    if e.section != prev then Truncated(e.section, 50) else prev
  }

  function PrevAfterAll(es: seq<Entry>): string {
    if es == [] then "" else PrevAfter(PrevAfterAll(es[..|es| - 1]), es[|es| - 1])
  }

  function DumpLines(es: seq<Entry>): seq<string> {
    if es == [] then []
    else DumpLines(es[..|es| - 1]) + EntryLines(PrevAfterAll(es[..|es| - 1]), es[|es| - 1])
  }

  /** Lines, each closed by a newline. */
  function Joined(lines: seq<string>): string {
    if lines == [] then "" else Joined(lines[..|lines| - 1]) + lines[|lines| - 1] + "\n"
  }

  lemma {:induction false} JoinedAppend(a: seq<string>, b: seq<string>)
    ensures Joined(a + b) == Joined(a) + Joined(b)
    decreases |b|
  {
    if b == [] {
      assert a + b == a;
    } else {
      assert (a + b)[..|a + b| - 1] == a + b[..|b| - 1];
      JoinedAppend(a, b[..|b| - 1]);
    }
  }

  class Dumper {
    var prevSection: string
    var out: string
    ghost var entries: seq<Entry>

    ghost predicate Valid()
      reads this
    {
      prevSection == PrevAfterAll(entries) && out == Joined(DumpLines(entries))
    }

    constructor ()
      ensures Valid() && entries == []
    {
      prevSection, out, entries := "", "", [];
    }

    method Dump(section: string, name: string, value: string) returns (ok: bool)
      requires Valid()
      modifies this
      ensures Valid() && entries == old(entries) + [Entry(section, name, value)] && ok
    {
      hide Joined, DumpLines, PrevAfterAll;
      ghost var e := Entry(section, name, value);
      DumpGrows(entries, e);
      if section != prevSection {
        out := out + ((if prevSection != "" then "\n" else "") + "[" + section + "]\n");
        prevSection := Strncpy0(section, 50);
      }
      out := out + (name + " = " + value + "\n");
      entries := entries + [e];
      return true;
    }
  }

  lemma DumpGrows(es: seq<Entry>, e: Entry)
    ensures PrevAfterAll(es + [e]) == PrevAfter(PrevAfterAll(es), e)
    ensures DumpLines(es + [e]) == DumpLines(es) + EntryLines(PrevAfterAll(es), e)
    ensures Joined(DumpLines(es + [e])) == Joined(DumpLines(es)) + Heading(PrevAfterAll(es),
      e) + (e.name + " = " + e.value + "\n")
  {
    assert (es + [e])[..|es|] == es;
    hide Joined;
    JoinedEntry(PrevAfterAll(es), e);
    JoinedAppend(DumpLines(es), EntryLines(PrevAfterAll(es), e));
  }

  /** What is printed in front of an entry when the section changes. */
  function Heading(prev: string, e: Entry): string {
    if e.section != prev then (if prev != "" then "\n" else "") + "[" + e.section + "]\n" else ""
  }

  lemma JoinedEntry(prev: string, e: Entry)
    ensures Joined(EntryLines(prev, e)) == Heading(prev, e) + (e.name + " = " + e.value + "\n")
  {
    hide Joined;
    var pair, title := [e.name + " = " + e.value], ["[" + e.section + "]"];
    JoinedOne(pair[0]);
    JoinedOne("");
    JoinedOne(title[0]);
    JoinedAppend([""], title);
    if e.section == prev {
      assert EntryLines(prev, e) == pair;
    } else if prev == "" {
      assert EntryLines(prev, e) == title + pair;
      JoinedAppend(title, pair);
    } else {
      assert EntryLines(prev, e) == [""] + title + pair;
      JoinedAppend([""] + title, pair);
    }
  }

  lemma JoinedOne(line: string)
    ensures Joined([line]) == line + "\n"
  {
    assert [line][..0] == [];
  }

  // ----- which entries survive -----

  /** Nothing in s would be taken for an inline comment. */
  predicate NoComment(s: string) {
    forall k :: 1 <= k < |s| ==> !(Space(s[k - 1]) && s[k] == ';')
  }

  predicate OneLine(s: string) {
    '\n' !in s && '\r' !in s && '\0' !in s
  }

  predicate GoodSection(s: string) {
    |s| < 50 && OneLine(s) && ']' !in s && NoComment(s)
  }

  predicate GoodName(s: string) {
    && s != "" && OneLine(s) && Trimmed(s) && '=' !in s && ':' !in s && NoComment(s) && !HasBom(s)
    && s[0] != ';' && s[0] != '#' && s[0] != '['
  }

  predicate GoodValue(s: string) {
    OneLine(s) && Trimmed(s) && NoComment(s) && (s != "" ==> s[0] != ';')
  }

  predicate GoodEntry(e: Entry) {
    GoodSection(e.section) && GoodName(e.name) && GoodValue(e.value) && |e.name| + |e.value| + 3 < 199
  }

  // ----- what the parser makes of each printed line -----

  lemma FeedBlank(h: Handler, p: State, lineno: nat)
    ensures Feed(h, p, "", lineno) == p
  {
  }

  lemma FeedSection(h: Handler, p: State, s: string, lineno: nat)
    requires GoodSection(s)
    ensures Feed(h, p, "[" + s + "]", lineno) == p.(section := s, prevName := "")
  {
    hide Classify, RStrip, Leading, GoodSection, Act, Skip;
    var line := "[" + s + "]";
    assert line[0] == '[' && line[|line| - 1] == ']' && line[0..] == line;
    NoBom(line, lineno);
    RStripIs(line, line);
    LeadingIs(line, 0);
    SectionText(s);
    ShortTitle(h, p, s, lineno);
  }

  lemma ShortTitle(h: Handler, p: State, s: string, lineno: nat)
    requires GoodSection(s)
    ensures Act(h, p, Section(s), lineno) == p.(section := s, prevName := "")
  {
  }

  lemma NoBom(line: string, lineno: nat)
    requires line == "" || line[0] != '\U{EF}'
    ensures Skip(line, lineno) == 0
  {
  }

  lemma SectionText(s: string)
    requires GoodSection(s)
    ensures forall prev :: Classify("[" + s + "]", false, prev) == Section(s)
  {
    hide Find;
    var line := "[" + s + "]";
    assert line[0] == '[' && line[1..] == s + "]";
    SectionEnd(s);
    assert line[1..1 + |s|] == s && line[1 + |s|] == ']';
  }

  lemma SectionEnd(s: string)
    requires GoodSection(s)
    ensures Find(s + "]", "]") == |s|
  {
    var t := s + "]";
    forall k | 0 <= k < |s|
      ensures !IsStop(t, "]", k)
    {
      assert t[k] == s[k] && (k > 0 ==> t[k - 1] == s[k - 1]);
    }
    FindIs(t, "]", |s|);
  }

  lemma FeedPair(h: Handler, p: State, name: string, value: string, lineno: nat)
    requires GoodName(name) && GoodValue(value) && h(p.calls, Entry(p.section, name, value))
    ensures Feed(h, p, name + " = " + value, lineno) ==
      p.(prevName := Truncated(name, MAX_NAME), calls := p.calls + [Entry(p.section, name, value)])
  {
    hide Classify, RStrip, Leading, GoodValue;
    var line := name + " = " + value;
    var t := if value == "" then name + " =" else line;
    PairText(name, value);
    PairSplit(name, value, t);
    assert t[0..] == t;
    assert line[0..] == line;
    assert forall k :: 0 <= k < |name| ==> line[k] == name[k];
    assert line[|name|] == ' ';
  }

  lemma PairText(name: string, value: string)
    requires GoodName(name) && GoodValue(value)
    ensures var line := name + " = " + value;
      && RStrip(line) == (if value == "" then name + " =" else line)
      && Leading(RStrip(line)) == 0
  {
    var line := name + " = " + value;
    var t := if value == "" then name + " =" else line;
    RStripIs(line, t);
    LeadingIs(t, 0);
  }

  /** The separator is found right behind the name. */
  lemma NamePart(name: string, rest: string)
    requires GoodName(name)
    ensures var t := name + " =" + rest;
      Find(t, "=:") == |name| + 1 && RStrip(t[..|name| + 1]) == name && t[|name| + 2..] == rest
  {
    var t := name + " =" + rest;
    forall k | 0 <= k < |name|
      ensures t[k] == name[k] && !IsStop(t, "=:", k)
    {
      assert name[k] in name;
    }
    FindIs(t, "=:", |name| + 1);
    assert t[..|name| + 1] == name + " ";
    RStripIs(name + " ", name);
  }

  /** What is behind it is the value. */
  lemma ValuePart(value: string)
    requires GoodValue(value)
    ensures ValueOf("") == "" && ValueOf(" " + value) == value
  {
    var rest := " " + value;
    assert ""[..Find("", "")] == "";
    forall k | 0 <= k < |rest|
      ensures !IsStop(rest, "", k)
    {
      assert k > 1 ==> rest[k - 1] == value[k - 2];
    }
    FindIs(rest, "", |rest|);
    assert rest[..|rest|] == rest;
    LeadingIs(rest, 1);
    assert rest[1..] == value;
    RStripIs(value, value);
  }

  lemma PairSplit(name: string, value: string, t: string)
    requires GoodName(name) && GoodValue(value)
    requires t == if value == "" then name + " =" else name + " = " + value
    ensures forall prev :: Classify(t, false, prev) == Pair(name, value)
  {
    hide Find, RStrip, ValueOf, GoodValue;
    var rest := if value == "" then "" else " " + value;
    assert t == name + " =" + rest;
    assert t[0] == name[0];
    NamePart(name, rest);
    ValuePart(value);
  }

  // ----- the round trip, line by line -----

  lemma FeedAllAppend(h: Handler, lines: seq<string>, line: string)
    ensures FeedAll(h, lines + [line]) == Feed(h, FeedAll(h, lines), line, |lines| + 1)
  {
    hide Feed;
    var all := lines + [line];
    assert all[..|all| - 1] == lines && all[|all| - 1] == line;
  }

  /** The handler takes every entry of the list when it comes. */
  predicate Accepts(h: Handler, es: seq<Entry>) {
    forall k :: 0 <= k < |es| ==> h(es[..k], es[k])
  }

  /** Parsing the printed lines calls the handler with exactly the printed entries, in order,
      and finds no error; the parser's section is the printer's. */
  lemma {:induction false} ParseOfDump(h: Handler, es: seq<Entry>)
    requires forall k :: 0 <= k < |es| ==> GoodEntry(es[k])
    requires Accepts(h, es)
    ensures var p := FeedAll(h, DumpLines(es));
      p.calls == es && p.error == 0 && p.section == PrevAfterAll(es)
    decreases |es|
  {
    hide Feed, FeedAll, GoodEntry, EntryLines, PrevAfter;
    if es == [] {
      NothingFed(h);
    } else {
      var front, e := es[..|es| - 1], es[|es| - 1];
      assert forall k :: 0 <= k < |front| ==> front[..k] == es[..k];
      ParseOfDump(h, front);
      FeedEntry(h, DumpLines(front), PrevAfterAll(front), e);
    }
  }

  lemma NothingFed(h: Handler)
    ensures FeedAll(h, []) == INITIAL
  {
  }

  lemma FeedEntry(h: Handler, lines: seq<string>, prev: string, e: Entry)
    requires GoodEntry(e)
    requires var p := FeedAll(h, lines); p.section == prev && h(p.calls, e)
    ensures var p, q := FeedAll(h, lines), FeedAll(h, lines + EntryLines(prev, e));
      q.calls == p.calls + [e] && q.error == p.error && q.section == PrevAfter(prev, e)
  {
    hide Feed, FeedAll;
    var pair := e.name + " = " + e.value;
    if e.section == prev {
      assert lines + EntryLines(prev, e) == lines + [pair];
      FeedAllAppend(h, lines, pair);
      FeedPair(h, FeedAll(h, lines), e.name, e.value, |lines| + 1);
    } else {
      var lead := if prev != "" then lines + [""] else lines;
      if prev != "" {
        FeedAllAppend(h, lines, "");
        FeedBlank(h, FeedAll(h, lines), |lines| + 1);
      }
      var title := "[" + e.section + "]";
      FeedAllAppend(h, lead, title);
      FeedSection(h, FeedAll(h, lead), e.section, |lead| + 1);
      FeedAllAppend(h, lead + [title], pair);
      FeedPair(h, FeedAll(h, lead + [title]), e.name, e.value, |lead| + 2);
      assert lines + EntryLines(prev, e) == lead + [title] + [pair];
    }
  }
}
