/** The metadata block at the head of a page. */
module Frontmatter {
  import opened Text

  datatype Entry = Entry(key: string, value: string)

  const FENCE := "---"
  const PROTO := "__proto__"

  /** The text between the fences and the rest of the page; None when the page has no such block. */
  function Cut(content: string): Option<(string, string)> {
    if FENCE <= content then
      match IndexOf(content, FENCE, 3)
      case Some(end) => Some((content[3..end], content[end + 3..]))
      case None => None
    else None
  }

  function Body(content: string): string {
    match Cut(content)
    case Some((_, body)) => body
    case None => content
  }

  predicate IsQuoteMark(c: char) {
    c == '"' || c == '\''
  }

  /** `replace(/^["']|["']$/g, "")` */
  function StripQuotes(s: string): string {
    var t := if s != "" && IsQuoteMark(s[0]) then s[1..] else s;
    if t != "" && IsQuoteMark(t[|t| - 1]) then t[..|t| - 1] else t
  }

  /** One `key: value` line; None when there is no colon. */
  function ParseLine(line: string): Option<Entry> {
    var parts := Split(line, ':');
    if |parts| >= 2 then Some(Entry(Trim(parts[0]), StripQuotes(Trim(Join(parts[1..], ":"))))) else None
  }

  /** Assigning a string to `__proto__` of an object literal has no effect. */
  function Put(m: map<string, string>, key: string, value: string): map<string, string> {
    if key == PROTO then m else m[key := value]
  }

  function PutLine(m: map<string, string>, line: string): map<string, string> {
    match ParseLine(line)
    case Some(Entry(key, value)) => Put(m, key, value)
    case None => m
  }

  function PutLines(m: map<string, string>, lines: seq<string>): map<string, string>
    decreases |lines|
  {
    if lines == [] then m else PutLines(PutLine(m, lines[0]), lines[1..])
  }

  function Metadata(content: string): map<string, string> {
    match Cut(content)
    case Some((text, _)) => PutLines(map[], Split(text, '\n'))
    case None => map[]
  }

  lemma {:induction false} PutLinesSnoc(m: map<string, string>, lines: seq<string>, line: string)
    ensures PutLines(m, lines + [line]) == PutLine(PutLines(m, lines), line)
    decreases |lines|
  {
    if lines == [] {
      assert [] + [line] == [line];
      assert PutLines(PutLine(m, line), []) == PutLine(m, line);
    } else {
      PutLinesSnoc(PutLine(m, lines[0]), lines[1..], line);
      assert (lines + [line])[1..] == lines[1..] + [line];
    }
  }

  method ParseFrontmatter(content: string) returns (metadata: map<string, string>, body: string)
    ensures metadata == Metadata(content)
    ensures body == Body(content)
  {
    metadata, body := map[], content;
    if FENCE <= content {
      var end := IndexOf(content, FENCE, 3);
      if end.Some? {
        var lines := Split(content[3..end.value], '\n');
        body := content[end.value + 3..];
        for i := 0 to |lines|
          invariant metadata == PutLines(map[], lines[..i])
        {
          PutLinesSnoc(map[], lines[..i], lines[i]);
          assert lines[..i + 1] == lines[..i] + [lines[i]];
          metadata := PutLine(metadata, lines[i]);
        }
        assert lines[..|lines|] == lines;
      }
    }
  }

  // ---------------------------------------------------------------- the first colon decides

  /** `v` is `s` without a quote mark in front, if there is one, and without one at the end of what is then left. */
  ghost predicate Unquoted(s: string, v: string) {
    exists a, b :: s == a + v + b && IsMark(s, a) && IsMark(s[|a|..], b) && (a == "" ==> !StartsQuoted(s))
                   && (b == "" ==> !EndsQuoted(s[|a|..]))
  }

  predicate IsMark(s: string, a: string) {
    a in {"", "\"", "'"} && |a| <= |s|
  }

  predicate StartsQuoted(s: string) {
    s != "" && s[0] in {'"', '\''}
  }

  predicate EndsQuoted(s: string) {
    s != "" && s[|s| - 1] in {'"', '\''}
  }

  lemma StripMeaning(s: string, v: string)
    ensures StripQuotes(s) == v <==> Unquoted(s, v)
  {
    StripUnquotes(s);
    if Unquoted(s, v) {
      UnquotedIsStrip(s, v);
    }
  }

  lemma StripUnquotes(s: string)
    ensures Unquoted(s, StripQuotes(s))
  {
    var a := if StartsQuoted(s) then s[..1] else "";
    var t := s[|a|..];
    var b := if EndsQuoted(t) then t[|t| - 1..] else "";
    OneMark(s);
    assert s == a + StripQuotes(s) + b;
  }

  lemma OneMark(s: string)
    ensures StartsQuoted(s) ==> s[..1] in {"\"", "'"}
    ensures StartsQuoted(s) && EndsQuoted(s[1..]) ==> s[1..][|s| - 2..] in {"\"", "'"}
    ensures EndsQuoted(s) ==> s[|s| - 1..] in {"\"", "'"}
  {
    if s != "" {
      assert s[..1] == [s[0]] && s[|s| - 1..] == [s[|s| - 1]];
      if |s| > 1 {
        assert s[1..][|s| - 2..] == [s[|s| - 1]];
      }
    }
  }

  lemma UnquotedIsStrip(s: string, v: string)
    requires Unquoted(s, v)
    ensures StripQuotes(s) == v
  {
    hide StripQuotes;
    var a, b :| s == a + v + b && IsMark(s, a) && IsMark(s[|a|..], b) && (a == "" ==> !StartsQuoted(s))
                && (b == "" ==> !EndsQuoted(s[|a|..]));
    assert s == a + (v + b) && s[|a|..] == v + b;
    assert a != "" ==> s[0] == a[0];
    StripFront(a, v + b);
    StripBack(v, b);
  }

  /** The replacement at the end. */
  function WithoutBack(t: string): string {
    if t != "" && IsQuoteMark(t[|t| - 1]) then t[..|t| - 1] else t
  }

  lemma StripFront(a: string, t: string)
    requires a in {"", "\"", "'"} && (a == "" ==> !StartsQuoted(t))
    ensures StripQuotes(a + t) == WithoutBack(t)
  {
    if a != "" {
      assert (a + t)[1..] == t;
    } else {
      assert a + t == t;
    }
  }

  lemma StripBack(v: string, b: string)
    requires b in {"", "\"", "'"} && (b == "" ==> !EndsQuoted(v))
    ensures WithoutBack(v + b) == v
  {
    if b != "" {
      assert (v + b)[..|v|] == v;
    } else {
      assert v + b == v;
    }
  }

  /** A value without quote marks at its ends is kept whole; a mark in front or at the end goes, and nothing else. */
  lemma QuoteMarksGo(v: string, mark: string)
    requires !StartsQuoted(v) && !EndsQuoted(v) && mark in {"\"", "'"}
    ensures StripQuotes(v) == v
    ensures StripQuotes(mark + v) == v && StripQuotes(v + mark) == v && StripQuotes(mark + v + mark) == v
  {
    hide StripQuotes;
    StripFront("", v);
    StripBack(v, "");
    assert "" + v == v && v + "" == v;
    StripFront(mark, v);
    StripBack(v, mark);
    StripFront(mark, v + mark);
    assert mark + v + mark == mark + (v + mark);
    if v == "" {
      assert v + mark == mark + v;
    } else {
      StripFront("", v + mark);
      assert "" + (v + mark) == v + mark;
    }
  }

  /** Whatever colons the value holds, it is all the text after the first one, trimmed and without its quote marks. */
  lemma {:induction false} ParseLineAtFirstColon(key: string, value: string)
    requires ':' !in key
    ensures var entry := ParseLine(key + ":" + value);
            entry.Some? && entry.value.key == Trim(key) && Unquoted(Trim(value), entry.value.value)
    ensures ParseLine(key + ":" + value) == Some(Entry(Trim(key), StripQuotes(Trim(value))))
  {
    hide Trim, StripQuotes, Unquoted;
    SplitAtSep(key, value, ':');
    JoinSplit(value, ':');
    assert ([key] + Split(value, ':'))[1..] == Split(value, ':');
    StripMeaning(Trim(value), StripQuotes(Trim(value)));
  }

  lemma ParseLineWithoutColon(line: string)
    ensures ParseLine(line).None? <==> ':' !in line
  {
    if ':' in line {
      var i :| 0 <= i < |line| && line[i] == ':';
      SplitLong(line, i);
    } else {
      SplitPlain(line, ':');
    }
  }

  lemma {:induction false} SplitLong(line: string, i: nat)
    requires i < |line| && line[i] == ':'
    ensures |Split(line, ':')| >= 2
  {
    if i > 0 {
      SplitLong(line[1..], i - 1);
    }
  }

  // ---------------------------------------------------------------- round trip

  /** How a value is printed. */
  datatype Quoting = Bare | Single | Double

  /** A key that survives trimming, splitting and the fence; any value without a line break or a fence, and printed bare
      only if trimming and unquoting leave it alone. */
  predicate Printable(entry: Entry, quoting: Quoting) {
    && Trim(entry.key) == entry.key && entry.key != "__proto__"
    && ':' !in entry.key && '\n' !in entry.key && '\n' !in entry.value
    && NoFence(entry.key) && NoFence(entry.value)
    && (quoting == Bare ==> Trim(entry.value) == entry.value && !StartsQuoted(entry.value) && !EndsQuoted(entry.value))
  }

  predicate NoFence(s: string) {
    forall i | 0 <= i <= |s| :: !OccursAt(s, FENCE, i)
  }

  function PrintValue(value: string, quoting: Quoting): string {
    match quoting
    case Bare => value
    case Single => "'" + value + "'"
    case Double => "\"" + value + "\""
  }

  function PrintEntry(entry: Entry, quoting: Quoting): string {
    entry.key + ":" + (" " + PrintValue(entry.value, quoting))
  }

  function PrintEntries(entries: seq<(Entry, Quoting)>): string {
    if entries == [] then "" else PrintEntry(entries[0].0, entries[0].1) + "\n" + PrintEntries(entries[1..])
  }

  /** A page with the entries as its metadata block. */
  function Print(entries: seq<(Entry, Quoting)>, body: string): string {
    "---\n" + PrintEntries(entries) + "---" + body
  }

  ghost predicate AllPrintable(entries: seq<(Entry, Quoting)>) {
    forall i :: 0 <= i < |entries| ==> Printable(entries[i].0, entries[i].1)
  }

  function FromEntries(m: map<string, string>, entries: seq<(Entry, Quoting)>): map<string, string>
    decreases |entries|
  {
    if entries == [] then m else FromEntries(m[entries[0].0.key := entries[0].0.value], entries[1..])
  }

  lemma TrimPrinted(entry: Entry, quoting: Quoting)
    requires Printable(entry, quoting)
    ensures Trim(" " + PrintValue(entry.value, quoting)) == PrintValue(entry.value, quoting)
  {
    hide Trim;
    var printed := PrintValue(entry.value, quoting);
    SpaceIsSpace();
    assert " " + printed == " " + printed + "";
    TrimBetween(" ", printed, "");
    if quoting != Bare {
      MarksAreInk(printed);
      InkIsFixed(printed);
    }
  }

  lemma SpaceIsSpace()
    ensures AllSpace(" ") && AllSpace("")
  {
  }

  lemma MarksAreInk(s: string)
    requires StartsQuoted(s) && EndsQuoted(s)
    ensures IsInk(s)
  {
  }

  lemma StripPrinted(entry: Entry, quoting: Quoting)
    requires Printable(entry, quoting)
    ensures StripQuotes(PrintValue(entry.value, quoting)) == entry.value
  {
    hide Trim, NoFence;
    var v, printed := entry.value, PrintValue(entry.value, quoting);
    if quoting != Bare {
      assert printed[1..][..|v|] == v;
    }
  }

  lemma EntryRoundTrip(entry: Entry, quoting: Quoting)
    requires Printable(entry, quoting)
    ensures ParseLine(PrintEntry(entry, quoting)) == Some(entry)
  {
    hide PrintValue, StripQuotes, Unquoted;
    ParseLineAtFirstColon(entry.key, " " + PrintValue(entry.value, quoting));
    TrimPrinted(entry, quoting);
    StripPrinted(entry, quoting);
  }

  lemma {:induction false} EntriesRoundTrip(m: map<string, string>, entries: seq<(Entry, Quoting)>)
    requires AllPrintable(entries)
    ensures PutLines(m, Split(PrintEntries(entries), '\n')) == FromEntries(m, entries)
    decreases |entries|
  {
    hide PrintEntry, Printable, ParseLine, Split;
    if entries == [] {
      NoEntry(m);
    } else {
      var e, q := entries[0].0, entries[0].1;
      var line, rest := PrintEntry(e, q), PrintEntries(entries[1..]);
      assert Printable(e, q);
      EntryIsLine(e, q);
      SplitAtSep(line, rest, '\n');
      assert line + ['\n'] + rest == PrintEntries(entries);
      EntryRoundTrip(e, q);
      PrintableKey(e, q);
      EntriesRoundTrip(m[e.key := e.value], entries[1..]);
      assert ([line] + Split(rest, '\n'))[1..] == Split(rest, '\n');
    }
  }

  lemma NoEntry(m: map<string, string>)
    ensures PutLines(m, Split("", '\n')) == m
  {
    assert ParseLine("").None?;
    assert PutLines(m, [""]) == PutLines(PutLine(m, ""), [""][1..]);
  }

  lemma PrintableKey(entry: Entry, quoting: Quoting)
    requires Printable(entry, quoting)
    ensures entry.key != PROTO
  {
  }

  lemma EntryIsLine(entry: Entry, quoting: Quoting)
    requires Printable(entry, quoting)
    ensures '\n' !in PrintEntry(entry, quoting)
  {
    hide Trim, NoFence;
  }

  lemma DashesAround(s: string, i: nat, k: nat)
    requires i <= k < k + 1 < i + 3 <= |s|
    ensures OccursAt(s, FENCE, i) ==> s[k] == '-' && s[k + 1] == '-'
  {
    assert s[i..i + 3][k - i] == s[k] && s[i..i + 3][k + 1 - i] == s[k + 1];
  }

  /** Text without a fence stays so when joined at a place that no dash touches. */
  lemma NoFenceAppend(a: string, b: string)
    requires NoFence(a) && NoFence(b)
    requires a == "" || b == "" || a[|a| - 1] != '-' || b[0] != '-'
    ensures NoFence(a + b)
  {
    var s := a + b;
    forall i | 0 <= i <= |s|
      ensures !OccursAt(s, FENCE, i)
    {
      if i + 3 <= |a| {
        assert s[i..i + 3] == a[i..i + 3];
        assert !OccursAt(a, FENCE, i);
      } else if i >= |a| {
        if i + 3 <= |s| {
          assert s[i..i + 3] == b[i - |a|..i - |a| + 3];
        }
        assert !OccursAt(b, FENCE, i - |a|);
      } else if b != "" && i + 3 <= |s| {
        assert s[|a| - 1] == a[|a| - 1] && s[|a|] == b[0];
        DashesAround(s, i, |a| - 1);
      }
    }
  }

  lemma {:induction false} PrintedHasNoFence(entries: seq<(Entry, Quoting)>)
    requires AllPrintable(entries)
    ensures NoFence(PrintEntries(entries))
  {
    hide Printable, NoFence, PrintEntry;
    if entries == [] {
      NothingHasNoFence();
    } else {
      var line := PrintEntry(entries[0].0, entries[0].1);
      EntryHasNoFence(entries[0].0, entries[0].1);
      BreakHasNoFence();
      PrintedHasNoFence(entries[1..]);
      NoFenceAppend(line, "\n");
      NoFenceAppend(line + "\n", PrintEntries(entries[1..]));
    }
  }

  lemma NothingHasNoFence()
    ensures NoFence("")
  {
  }

  lemma EntryHasNoFence(e: Entry, q: Quoting)
    requires Printable(e, q)
    ensures NoFence(PrintEntry(e, q))
  {
    hide NoFence, Trim;
    ValueHasNoFence(e.value, q);
    ColonHasNoFence();
    NoFenceAppend(" ", PrintValue(e.value, q));
    NoFenceAppend(e.key, ":");
    NoFenceAppend(e.key + ":", " " + PrintValue(e.value, q));
  }

  lemma ColonHasNoFence()
    ensures NoFence(":") && NoFence(" ") && NoFence("'") && NoFence("\"")
  {
  }

  lemma ValueHasNoFence(value: string, q: Quoting)
    requires NoFence(value)
    ensures NoFence(PrintValue(value, q))
  {
    hide NoFence;
    ColonHasNoFence();
    match q
    case Bare =>
    case Single =>
      NoFenceAppend("'", value);
      NoFenceAppend("'" + value, "'");
    case Double =>
      NoFenceAppend("\"", value);
      NoFenceAppend("\"" + value, "\"");
  }

  /** The block ends at the first fence after the opening one. */
  lemma CutAtFirstFence(text: string, body: string)
    requires NoFence(text) && (text == "" || text[|text| - 1] != '-')
    ensures Cut(FENCE + text + FENCE + body) == Some((text, body))
  {
    var content := FENCE + text + FENCE + body;
    var end := 3 + |text|;
    assert content[end..end + 3] == FENCE;
    assert OccursAt(content, FENCE, end);
    forall j | 3 <= j < end
      ensures !OccursAt(content, FENCE, j)
    {
      if j + 3 <= end {
        assert content[j..j + 3] == text[j - 3..j];
        assert !OccursAt(text, FENCE, j - 3);
      } else if j + 3 <= |content| {
        assert content[end - 1] == text[|text| - 1];
        assert content[j..j + 3][end - 1 - j] == content[end - 1];
      }
    }
    assert IndexOf(content, FENCE, 3) == Some(end);
    assert content[3..end] == text && content[end + 3..] == body;
  }

  /** Printing a list of entries as a metadata block, each value bare or in quotes of either kind, and parsing the page
      gives the entries back, later keys winning, and leaves the body alone. */
  lemma FrontmatterRoundTrip(entries: seq<(Entry, Quoting)>, body: string)
    requires AllPrintable(entries)
    ensures Metadata(Print(entries, body)) == FromEntries(map[], entries)
    ensures Body(Print(entries, body)) == body
  {
    hide Cut, PrintEntries, AllPrintable, NoFence, PutLines;
    PrintedHasNoFence(entries);
    var printed := PrintEntries(entries);
    var text := "\n" + printed;
    assert NoFence("\n") by { BreakHasNoFence(); }
    NoFenceAppend("\n", printed);
    PrintEndsInBreak(entries);
    CutAtFirstFence(text, body);
    assert Print(entries, body) == FENCE + text + FENCE + body;
    BlockLines(printed);
    EntriesRoundTrip(map[], entries);
  }

  lemma BreakHasNoFence()
    ensures NoFence("\n")
  {
  }

  /** The line break behind the opening fence makes one empty line, which sets nothing. */
  lemma BlockLines(printed: string)
    ensures PutLines(map[], Split("\n" + printed, '\n')) == PutLines(map[], Split(printed, '\n'))
  {
    hide Split, Trim, StripQuotes, Join;
    SplitAtSep("", printed, '\n');
    assert "" + ['\n'] + printed == "\n" + printed;
    assert ([""] + Split(printed, '\n'))[1..] == Split(printed, '\n');
    ParseLineWithoutColon("");
  }

  lemma {:induction false} PrintEndsInBreak(entries: seq<(Entry, Quoting)>)
    ensures var text := "\n" + PrintEntries(entries); text[|text| - 1] == '\n'
  {
    if entries != [] {
      PrintEndsInBreak(entries[1..]);
    }
  }

  // ---------------------------------------------------------------- what the metadata are

  /** The line is `key: value`, up to white space and quote marks. */
  ghost predicate Sets(line: string, key: string, value: string) {
    && key != "__proto__"
    && exists k, v :: line == k + ":" + v && ':' !in k && Trim(k) == key && Unquoted(Trim(v), value)
  }

  lemma SetsMeans(line: string, key: string, value: string)
    ensures Sets(line, key, value) <==> key != PROTO && ParseLine(line) == Some(Entry(key, value))
  {
    hide Trim, Unquoted, StripQuotes, ParseLine;
    if Sets(line, key, value) {
      var k, v :| line == k + ":" + v && ':' !in k && Trim(k) == key && Unquoted(Trim(v), value);
      ParseLineAtFirstColon(k, v);
      StripMeaning(Trim(v), value);
    }
    if key != PROTO && ParseLine(line) == Some(Entry(key, value)) {
      var k, v := AtColon(line);
      ParseLineAtFirstColon(k, v);
    }
  }

  lemma AtColon(line: string) returns (k: string, v: string)
    requires ParseLine(line).Some?
    ensures line == k + ":" + v && ':' !in k
  {
    hide Split, Trim, StripQuotes;
    var parts := Split(line, ':');
    JoinSplit(line, ':');
    k, v := parts[0], Join(parts[1..], ":");
    assert Join(parts, ":") == k + ":" + v;
  }

  /** The last line that sets a key decides. */
  ghost predicate LastSets(lines: seq<string>, key: string, value: string) {
    exists i :: 0 <= i < |lines| && Sets(lines[i], key, value) &&
                forall j, v :: i < j < |lines| ==> !Sets(lines[j], key, v)
  }

  lemma {:induction false} PutLinesMeans(lines: seq<string>, key: string, value: string)
    ensures var m := PutLines(map[], lines); key in m && m[key] == value <==> LastSets(lines, key, value)
    decreases |lines|
  {
    hide Sets, ParseLine, PutLines, PutLine;
    if lines == [] {
      NothingPut();
    } else {
      var front, line := lines[..|lines| - 1], lines[|lines| - 1];
      assert lines == front + [line];
      PutLinesSnoc(map[], front, line);
      PutLinesMeans(front, key, value);
      PutLineSets(PutLines(map[], front), line, key, value);
      LastSetsSnoc(front, line, key, value);
    }
  }

  lemma NothingPut()
    ensures PutLines(map[], []) == map[]
  {
  }

  lemma PutLineSets(m: map<string, string>, line: string, key: string, value: string)
    ensures var m' := PutLine(m, line);
            key in m' && m'[key] == value <==>
              Sets(line, key, value) || (key in m && m[key] == value && forall v :: !Sets(line, key, v))
  {
    hide Sets, ParseLine;
    SetsMeans(line, key, value);
    forall v
      ensures Sets(line, key, v) <==> key != PROTO && ParseLine(line) == Some(Entry(key, v))
    {
      SetsMeans(line, key, v);
    }
    if ParseLine(line).Some? && ParseLine(line).value.key == key && key != PROTO {
      assert Sets(line, key, ParseLine(line).value.value);
    }
  }

  lemma LastSetsSnoc(front: seq<string>, line: string, key: string, value: string)
    ensures LastSets(front + [line], key, value) <==>
            Sets(line, key, value) || (LastSets(front, key, value) && forall v :: !Sets(line, key, v))
  {
    hide Sets;
    var lines, n := front + [line], |front|;
    assert lines[n] == line;
    if LastSets(front, key, value) && forall v :: !Sets(line, key, v) {
      var i :| 0 <= i < |front| && Sets(front[i], key, value) &&
               forall j, v :: i < j < |front| ==> !Sets(front[j], key, v);
      assert lines[i] == front[i];
      assert forall j :: 0 <= j < n ==> lines[j] == front[j];
    }
    if LastSets(lines, key, value) && !Sets(line, key, value) {
      var i :| 0 <= i < |lines| && Sets(lines[i], key, value) &&
               forall j, v :: i < j < |lines| ==> !Sets(lines[j], key, v);
      assert front[i] == lines[i];
      assert forall j :: 0 <= j < n ==> lines[j] == front[j];
    }
  }

  /** The metadata of a page: of each key the value set last between the fences, and nothing without a block. */
  lemma MetadataMeans(content: string, key: string, value: string)
    ensures key in Metadata(content) && Metadata(content)[key] == value <==>
            Cut(content).Some? && LastSets(Split(Cut(content).value.0, '\n'), key, value)
  {
    hide Cut, PutLines, LastSets, Split;
    if Cut(content).Some? {
      PutLinesMeans(Split(Cut(content).value.0, '\n'), key, value);
    }
  }
}
