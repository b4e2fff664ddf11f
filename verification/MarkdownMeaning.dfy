/** What the tests and the scanners for one line mean, on the characters of the line. */
module MarkdownMeaning {
  import opened Text
  import opened MarkdownLines

  // ---------------------------------------------------------------- the simple tests

  lemma InkMark(mark: string)
    requires mark in {":::tabs", ":::", "::tab", "```", ">", "---", "***", "___", "#"}
    ensures IsInk(mark)
  {
  }

  /** The tests that compare the trimmed line with a fixed text. */
  lemma ExactTests(line: string)
    ensures IsTabsOpen(line) <==> IsAround(line, ":::tabs")
    ensures IsTabsEnd(line) <==> IsAround(line, ":::")
    ensures IsRule(line) <==> IsAround(line, "---") || IsAround(line, "***") || IsAround(line, "___")
    ensures Trim(line) == "" <==> AllSpace(line)
  {
    hide Trim, IsAround, IsInk;
    InkMark(":::tabs");
    InkMark(":::");
    InkMark("---");
    InkMark("***");
    InkMark("___");
    TrimMeans(line, ":::tabs");
    TrimMeans(line, ":::");
    TrimMeans(line, "---");
    TrimMeans(line, "***");
    TrimMeans(line, "___");
    BlankMeans(line);
  }

  lemma BlankMeans(line: string)
    ensures Trim(line) == "" <==> AllSpace(line)
  {
    hide Trim, IsSpace;
    TrimMeans(line, "");
    if AllSpace(line) {
      assert line == line + "" + "";
    }
    if IsAround(line, "") {
      var a, b :| line == a + "" + b && AllSpace(a) && AllSpace(b);
      SpacesJoin(a, b);
      assert line == a + b;
    }
  }

  /** The line begins with `mark` but for white space. */
  ghost predicate Begins(line: string, mark: string) {
    exists a, rest :: line == a + mark + rest && AllSpace(a)
  }

  /** The tests for what the trimmed line starts with. */
  lemma PrefixTests(line: string)
    ensures IsFence(line) <==> Begins(line, "```")
    ensures IsTabStart(line) <==> Begins(line, "::tab")
    ensures IsQuote(line) <==> Begins(line, ">")
  {
    hide Trim, IsInk, IsSpace;
    InkMark("```");
    InkMark("::tab");
    InkMark(">");
    TrimStartsWith(line, "```");
    TrimStartsWith(line, "::tab");
    TrimStartsWith(line, ">");
  }

  /** A row begins and ends with a bar; one bar may be both. */
  lemma RowTest(line: string)
    ensures IsRow(line) <==> exists core :: IsAround(line, core) && IsBarred(core)
  {
    hide Trim, IsAround, IsBarred, EndsWith, IsInk;
    BarEdges(Trim(line));
    if IsRow(line) {
      TrimMeans(line, Trim(line));
      assert IsAround(line, Trim(line));
    }
    if core :| IsAround(line, core) && IsBarred(core) {
      BarIsInk(core);
      TrimMeans(line, core);
    }
  }

  predicate IsBarred(core: string) {
    core != "" && core[0] == '|' && core[|core| - 1] == '|'
  }

  lemma BarEdges(t: string)
    ensures "|" <= t && EndsWith(t, "|") <==> IsBarred(t)
  {
    if t != "" {
      assert t[..1] == [t[0]] && t[|t| - 1..] == [t[|t| - 1]];
    }
  }

  lemma BarIsInk(core: string)
    requires IsBarred(core)
    ensures IsInk(core)
  {
  }

  // ---------------------------------------------------------------- alerts

  /** `>`, white space, `[!`. */
  ghost predicate BeginsAlert(line: string) {
    exists w :: w != "" && AllSpace(w) && Begins(line, ">" + w + "[!")
  }

  /** `>`, white space, `[!name]` with the name in any case. */
  ghost predicate BeginsAlertOf(line: string, name: string) {
    exists w, given :: w != "" && AllSpace(w) && Upper(given) == name && Begins(line, ">" + w + "[!" + given + "]")
  }

  /** How the trimmed line divides when it starts an alert. */
  lemma AlertParts(t: string, w: string, rest: string)
    requires t == ">" + w + ("[!" + rest) && w != "" && AllSpace(w)
    ensures Span(t[1..], IsSpace) == |w| && "[!" <= t[1 + |w|..] && t[|w| + 3..] == rest
  {
    assert t[1..] == w + ("[!" + rest);
    assert forall i :: 0 <= i < |w| ==> t[1..][i] == w[i];
    assert t[1..][|w|] == '[';
    SpanIs(t[1..], IsSpace, |w|);
    assert t[1 + |w|..] == "[!" + rest;
  }

  lemma AlertRest(line: string, w: string, rest: string)
    requires Trim(line) == ">" + w + ("[!" + rest) && w != "" && AllSpace(w)
    ensures MatchAlertStart(line) == Some(rest)
  {
    hide Trim, Span, IsSpace;
    AlertParts(Trim(line), w, rest);
  }

  lemma AlertOfRest(line: string) returns (w: string)
    requires MatchAlertStart(line).Some?
    ensures w != "" && AllSpace(w) && Trim(line) == ">" + w + ("[!" + MatchAlertStart(line).value)
  {
    hide Trim, IsSpace;
    var t := Trim(line);
    var n := Span(t[1..], IsSpace);
    w := t[1..][..n];
    assert forall i :: 0 <= i < n ==> w[i] == t[1..][i];
    assert t[1 + n..][..2] == "[!" && t[1 + n..][2..] == t[n + 3..];
    assert t == [t[0]] + w + t[1 + n..];
  }

  lemma AlertStartMeaning(line: string)
    ensures MatchAlertStart(line).Some? <==> BeginsAlert(line)
  {
    hide Trim, IsSpace, MatchAlertStart, Begins, IsInk;
    if MatchAlertStart(line).Some? {
      var w := AlertOfRest(line);
      var mark := AlertMark(w, "");
      assert ">" + w + ("[!" + MatchAlertStart(line).value) == mark + MatchAlertStart(line).value;
      BeginsInk(line, mark, MatchAlertStart(line).value);
    }
    if BeginsAlert(line) {
      var w :| w != "" && AllSpace(w) && Begins(line, ">" + w + "[!");
      var mark := AlertMark(w, "");
      var rest := MarkedBegins(line, mark);
      assert mark + rest == ">" + w + ("[!" + rest);
      AlertRest(line, w, rest);
    }
  }

  lemma AlertMark(w: string, tail: string) returns (mark: string)
    requires tail != "" ==> tail[|tail| - 1] == ']'
    ensures mark == ">" + w + "[!" + tail && IsInk(mark)
    ensures tail == "" ==> mark == ">" + w + "[!"
  {
    mark := ">" + w + "[!" + tail;
  }

  lemma NamesMeaning(s: string, name: string)
    ensures NamesAlert(s, name) <==> exists given, rest :: s == given + "]" + rest && Upper(given) == name
  {
    hide Upper;
    if NamesAlert(s, name) {
      assert s == s[..|name|] + "]" + s[|name| + 1..];
    }
    if given, rest :| s == given + "]" + rest && Upper(given) == name {
      UpperEach(given);
      assert s[..|name|] == given && s[|name|] == ']';
    }
  }

  /** No text names two alerts. */
  lemma NameIsOne(s: string, a: string, b: string)
    requires NamesAlert(s, a) && NamesAlert(s, b) && |a| <= |b| && ']' !in b
    ensures a == b
  {
    hide Upper;
    UpperEach(s[..|b|]);
    UpperEach(s[..|a|]);
  }

  lemma {:induction false} FirstNameMeans(s: string, names: seq<string>, name: string)
    requires forall n :: n in names ==> ']' !in n
    ensures FirstName(s, names) == Some(name) <==> name in names && NamesAlert(s, name)
  {
    hide NamesAlert;
    if names != [] {
      FirstNameMeans(s, names[1..], name);
      assert names == [names[0]] + names[1..];
      if NamesAlert(s, names[0]) && NamesAlert(s, name) && name in names {
        if |name| <= |names[0]| {
          NameIsOne(s, name, names[0]);
        } else {
          NameIsOne(s, names[0], name);
        }
      }
    }
  }

  lemma AlertNames()
    ensures forall n :: n in ALERT_TYPES <==> n in {"NOTE", "TIP", "IMPORTANT", "WARNING", "CAUTION"}
    ensures forall n :: n in ALERT_TYPES ==> ']' !in n
  {
  }

  /** An alert is `>`, white space, `[!`, one of the five names in any case, and `]`. */
  lemma AlertMeaning(line: string, name: string)
    ensures MatchAlert(line) == Some(name) <==>
            name in {"NOTE", "TIP", "IMPORTANT", "WARNING", "CAUTION"} && BeginsAlertOf(line, name)
  {
    hide Trim, IsSpace, MatchAlertStart, Begins, IsInk, FirstName, NamesAlert, Upper;
    AlertNames();
    if MatchAlert(line).Some? {
      var s := MatchAlertStart(line).value;
      FirstNameMeans(s, ALERT_TYPES, MatchAlert(line).value);
      AlertGiven(line, MatchAlert(line).value);
    }
    if name in ALERT_TYPES && BeginsAlertOf(line, name) {
      GivenAlert(line, name);
      FirstNameMeans(MatchAlertStart(line).value, ALERT_TYPES, name);
    }
  }

  lemma AlertGiven(line: string, name: string)
    requires MatchAlertStart(line).Some? && NamesAlert(MatchAlertStart(line).value, name)
    ensures BeginsAlertOf(line, name)
  {
    hide Trim, IsSpace, MatchAlertStart, Begins, IsInk, NamesAlert, Upper;
    var s := MatchAlertStart(line).value;
    var w := AlertOfRest(line);
    NamesMeaning(s, name);
    var given, rest :| s == given + "]" + rest && Upper(given) == name;
    var mark := AlertMark(w, given + "]");
    assert ">" + w + ("[!" + s) == mark + rest;
    BeginsInk(line, mark, rest);
    assert mark == ">" + w + "[!" + given + "]";
  }

  lemma BeginsInk(line: string, mark: string, rest: string)
    requires IsInk(mark) && Trim(line) == mark + rest
    ensures Begins(line, mark)
  {
    hide Trim, IsSpace, Begins;
    BeginsMarked(line, mark, rest);
  }

  lemma GivenAlert(line: string, name: string)
    requires BeginsAlertOf(line, name)
    ensures MatchAlertStart(line).Some? && NamesAlert(MatchAlertStart(line).value, name)
  {
    hide Trim, IsSpace, MatchAlertStart, Begins, IsInk, NamesAlert, Upper;
    var w, given :| w != "" && AllSpace(w) && Upper(given) == name && Begins(line, ">" + w + "[!" + given + "]");
    var mark := AlertMark(w, given + "]");
    assert mark == ">" + w + "[!" + given + "]";
    var rest := MarkedBegins(line, mark);
    assert mark + rest == ">" + w + ("[!" + (given + "]" + rest));
    AlertRest(line, w, given + "]" + rest);
    NamesMeaning(given + "]" + rest, name);
  }

  /** A line that starts with a mark, as its trim does. */
  lemma BeginsMarked(line: string, mark: string, rest: string)
    requires mark != "" && !IsSpace(mark[0]) && Trim(line) == mark + rest
    ensures Begins(line, mark)
  {
    hide Trim, IsSpace;
    var a, b := TrimParts(line);
    assert line == a + mark + (rest + b);
  }

  lemma MarkedBegins(line: string, mark: string) returns (rest: string)
    requires IsInk(mark) && Begins(line, mark)
    ensures Trim(line) == mark + rest
  {
    hide Trim, TrimEnd, IsSpace, IsInk;
    var a, tail :| line == a + mark + tail && AllSpace(a);
    TrimOfMarked(a, mark, tail);
    rest := TrimEnd(tail);
  }

  // ---------------------------------------------------------------- what each line is

  lemma BulletHead(line: string)
    requires MatchBullet(line).Some?
    ensures Trim(line) != "" && IsBulletMark(Trim(line)[0]) && (|Trim(line)| > 1 ==> IsSpace(Trim(line)[1]))
  {
    hide IsSpace, TrimStart, TrimEnd;
    var w := Span(line, IsSpace);
    TrimStartIsSpan(line);
    MarkIsInk(line[w]);
    HeadStays(line, w);
    assert IsSpace(line[w + 1..][0]);
  }

  lemma NumberHead(line: string)
    requires MatchNumber(line).Some?
    ensures Trim(line) != "" && IsDigit(Trim(line)[0])
  {
    hide IsSpace, TrimStart, TrimEnd;
    var w := Span(line, IsSpace);
    TrimStartIsSpan(line);
    assert IsDigit(line[w..][0]);
    DigitIsInk(line[w]);
    HeadStays(line, w);
  }

  lemma MarkIsInk(c: char)
    requires IsBulletMark(c)
    ensures !IsSpace(c)
  {
  }

  lemma DigitIsInk(c: char)
    requires IsDigit(c)
    ensures !IsSpace(c)
  {
  }

  /** The first character that is no white space heads the trimmed line, and what follows it follows there. */
  lemma HeadStays(line: string, w: nat)
    requires w < |line| && TrimStart(line) == line[w..] && !IsSpace(line[w])
    ensures Trim(line) != "" && Trim(line)[0] == line[w]
    ensures forall i :: 0 <= i < |Trim(line)| ==> w + i < |line| && Trim(line)[i] == line[w + i]
  {
    hide IsSpace, TrimStart, TrimEnd;
    TrimEndDrops(line[w..]);
    TrimEndStops([line[w]], line[w + 1..]);
    assert line[w..] == [line[w]] + line[w + 1..];
  }

  lemma HeadingHead(line: string)
    requires MatchHeading(line).Some?
    ensures "#" <= Trim(line)
  {
    hide TrimEnd;
    assert line[0] == '#' && TrimStart(line) == line;
    HeadStays(line, 0);
  }

  lemma QuoteHead(line: string)
    requires MatchAlert(line).Some?
    ensures IsQuote(line)
  {
    hide Trim, FirstName;
    assert Trim(line)[0] == '>';
  }

  /** No two tests hold of one line, but that an alert is also a quote: the order of the tests decides nothing else. */
  lemma ClassifyExactly(line: string)
    ensures Classify(line) == TabsOpenLine <==> IsTabsOpen(line)
    ensures Classify(line) == TabsEndLine <==> IsTabsEnd(line)
    ensures Classify(line) == FenceLine <==> IsFence(line)
    ensures Classify(line) == RowLine <==> IsRow(line)
    ensures forall level: nat, text ::
              Classify(line) == HeadingLine(level, text) <==> MatchHeading(line) == Some((level, text))
    ensures forall text :: Classify(line) == ItemLine(Ul, text) <==> MatchBullet(line) == Some(text)
    ensures forall text :: Classify(line) == ItemLine(Ol, text) <==> MatchNumber(line) == Some(text)
    ensures forall name :: Classify(line) == AlertLine(name) <==> MatchAlert(line) == Some(name)
    ensures Classify(line) == QuoteLine <==> IsQuote(line) && MatchAlert(line).None?
    ensures Classify(line) == RuleLine <==> IsRule(line)
    ensures Classify(line) == BlankLine <==> Trim(line) == ""
  {
    hide Trim, MatchHeading, MatchBullet, MatchNumber, MatchAlert;
    if MatchHeading(line).Some? {
      HeadingHead(line);
    }
    if MatchBullet(line).Some? {
      BulletHead(line);
    }
    if MatchNumber(line).Some? {
      NumberHead(line);
    }
    if MatchAlert(line).Some? {
      QuoteHead(line);
    }
  }

  // ---------------------------------------------------------------- the texts taken out of a line

  /** `text` is what stands behind the line's `>`, up to white space. */
  ghost predicate IsQuoted(line: string, text: string) {
    (text == "" || IsInk(text)) && IsBehind(line, ">", text)
  }

  lemma QuoteMeaning(line: string, text: string)
    requires IsQuote(line)
    ensures QuoteText(line) == text <==> IsQuoted(line, text)
  {
    hide Trim, IsInk;
    InkMark(">");
    TrimBehind(line, ">", text);
  }

  /** `lang` is what stands behind the fence's three ticks, up to white space. */
  ghost predicate IsLanguage(line: string, lang: string) {
    (lang == "" || IsInk(lang)) && IsBehind(line, "```", lang)
  }

  lemma LanguageMeaning(line: string, lang: string)
    requires IsFence(line)
    ensures FenceLang(line) == lang <==> IsLanguage(line, lang)
  {
    hide Trim, IsInk;
    InkMark("```");
    TrimBehind(line, "```", lang);
  }

  /** The cells are what stands between the bars; a single bar has none. */
  ghost predicate IsCells(line: string, cells: seq<string>) {
    if cells == [] then IsAround(line, "|")
    else IsAround(line, "|" + Join(cells, "|") + "|") && forall i :: 0 <= i < |cells| ==> '|' !in cells[i]
  }

  lemma CellsMeaning(line: string, cells: seq<string>)
    requires IsRow(line)
    ensures RowCells(line) == cells <==> IsCells(line, cells)
  {
    hide Trim, Split, Join, IsAround;
    RowHasCells(line);
    if IsCells(line, cells) {
      StandingCells(line, cells);
    }
  }

  lemma JoinBars(cells: seq<string>)
    requires cells != []
    ensures Join([""] + cells + [""], "|") == "|" + Join(cells, "|") + "|"
  {
    var all := [""] + cells + [""];
    assert all[1..] == cells + [""];
    JoinLast(cells);
  }

  lemma {:induction false} JoinLast(cells: seq<string>)
    requires cells != []
    ensures Join(cells + [""], "|") == Join(cells, "|") + "|"
  {
    if |cells| == 1 {
      assert cells + [""] == [cells[0], ""] && [cells[0], ""][1..] == [""];
    } else {
      assert (cells + [""])[1..] == cells[1..] + [""];
      JoinLast(cells[1..]);
    }
  }

  lemma RowHasCells(line: string)
    requires IsRow(line)
    ensures IsCells(line, RowCells(line))
  {
    hide Trim, Split, Join, IsAround;
    var t := Trim(line);
    TrimMeans(line, t);
    JoinSplit(t, '|');
    BarEnds(t);
    BarsBetween(Split(t, '|'));
  }

  lemma BarsBetween(parts: seq<string>)
    requires |parts| >= 2 && parts[0] == "" && parts[|parts| - 1] == ""
    requires forall i :: 0 <= i < |parts| ==> '|' !in parts[i]
    ensures var cells := parts[1..|parts| - 1];
            if cells == [] then Join(parts, "|") == "|"
            else Join(parts, "|") == "|" + Join(cells, "|") + "|" && forall i :: 0 <= i < |cells| ==> '|' !in cells[i]
  {
    hide Join;
    var cells := parts[1..|parts| - 1];
    assert parts == [""] + cells + [""];
    if cells == [] {
      JoinTwo();
      assert parts == ["", ""];
    } else {
      JoinBars(cells);
    }
  }

  lemma JoinTwo()
    ensures Join(["", ""], "|") == "|"
  {
    assert ["", ""][1..] == [""];
  }

  /** Split at its bars, a text that begins and ends with one begins and ends with nothing. */
  lemma BarEnds(t: string)
    requires "|" <= t && EndsWith(t, "|")
    ensures var parts := Split(t, '|'); |parts| >= 2 && parts[0] == "" && parts[|parts| - 1] == ""
  {
    assert t[0] == '|' && t[|t| - 1..][0] == '|';
    LastPart(t, '|');
  }

  lemma {:induction false} LastPart(t: string, sep: char)
    requires t != "" && t[|t| - 1] == sep
    ensures var parts := Split(t, sep); |parts| >= 2 && parts[|parts| - 1] == ""
  {
    if |t| == 1 {
      assert t[1..] == "" && Split("", sep) == [""];
    } else {
      LastPart(t[1..], sep);
      var rest := Split(t[1..], sep);
      assert Split(t, sep) == if t[0] == sep then [""] + rest else [[t[0]] + rest[0]] + rest[1..];
    }
  }

  lemma StandingCells(line: string, cells: seq<string>)
    requires IsCells(line, cells)
    ensures RowCells(line) == cells
  {
    hide Trim, Split, Join, IsAround;
    if cells == [] {
      OneBar(line);
    } else {
      var core, parts := "|" + Join(cells, "|") + "|", [""] + cells + [""];
      BarIsInk(core);
      TrimMeans(line, core);
      JoinBars(cells);
      forall i | 0 <= i < |parts|
        ensures '|' !in parts[i]
      {
        assert 0 < i <= |cells| ==> parts[i] == cells[i - 1];
      }
      SplitJoin(parts, '|');
      assert parts[1..|parts| - 1] == cells;
    }
  }

  lemma OneBar(line: string)
    requires IsAround(line, "|")
    ensures RowCells(line) == []
  {
    hide Trim, IsAround;
    BarIsInk("|");
    TrimMeans(line, "|");
    assert Split("|"[1..], '|') == [""];
  }

  // ---------------------------------------------------------------- tab titles

  /** `title="title"` stands at `i`. */
  ghost predicate TitleStands(line: string, i: nat, title: string) {
    && i + 8 + |title| <= |line| && line[i..i + 8 + |title|] == "title=\"" + title + "\""
    && title != "" && '"' !in title
  }

  /** The first title that stands on the line, looking from `from` on. */
  ghost predicate FirstTitle(line: string, from: nat, title: string) {
    exists i: nat ::
      from <= i && TitleStands(line, i, title) && forall j: nat, other :: from <= j < i ==> !TitleStands(line, j, other)
  }

  ghost predicate NoTitle(line: string, from: nat) {
    forall j: nat, other :: from <= j ==> !TitleStands(line, j, other)
  }

  lemma TitleOccurs(line: string, i: nat, title: string)
    requires TitleStands(line, i, title)
    ensures OccursAt(line, "title=\"", i) && Span(line[i + 7..], NotQuoteMark) == |title|
    ensures i + 7 + |title| < |line| && line[i + 7..i + 7 + |title|] == title
  {
    var whole, tail := line[i..i + 8 + |title|], line[i + 7..];
    assert line[i..i + 7] == whole[..7];
    assert forall k :: 0 <= k < |title| ==> tail[k] == whole[7 + k] == title[k];
    assert tail[|title|] == whole[7 + |title|] == '"';
    SpanIs(tail, NotQuoteMark, |title|);
    assert line[i + 7..i + 7 + |title|] == whole[7..7 + |title|];
  }

  lemma TitleRoom(line: string, i: nat)
    requires OccursAt(line, "title=\"", i)
    ensures i + 7 <= |line|
  {
  }

  lemma OccursTitle(line: string, i: nat)
    requires OccursAt(line, "title=\"", i)
    ensures var n := Span(line[i + 7..], NotQuoteMark);
            n >= 1 && i + 7 + n < |line| ==> TitleStands(line, i, line[i + 7..i + 7 + n])
  {
    var tail := line[i + 7..];
    var n := Span(tail, NotQuoteMark);
    if n >= 1 && i + 7 + n < |line| {
      var title := line[i + 7..i + 7 + n];
      assert forall k :: 0 <= k < n ==> title[k] == tail[k];
      assert tail[n] == line[i + 7 + n];
      assert line[i..i + 8 + n] == line[i..i + 7] + title + [line[i + 7 + n]];
    }
  }

  lemma {:induction false} MatchTitleMeans(line: string, from: nat)
    ensures match MatchTitle(line, from)
            case Some(title) => FirstTitle(line, from, title)
            case None => NoTitle(line, from)
    decreases |line| - from
  {
    hide TitleStands, IndexOf, OccursAt, MatchTitle;
    TitlesFrom(line, from);
    MatchTitleSteps(line, from);
    var at := IndexOf(line, "title=\"", from);
    if at.Some? {
      var i := at.value;
      TitleRoom(line, i);
      var n := Span(line[i + 7..], NotQuoteMark);
      if n >= 1 && i + 7 + n < |line| {
        OccursTitle(line, i);
      } else {
        UnclosedTitle(line, i);
        MatchTitleMeans(line, i + 1);
      }
    }
  }

  lemma MatchTitleSteps(line: string, from: nat)
    ensures match IndexOf(line, "title=\"", from)
            case None => MatchTitle(line, from) == None
            case Some(i) =>
              && i + 7 <= |line|
              && var n := Span(line[i + 7..], NotQuoteMark);
                 MatchTitle(line, from) ==
                 if n >= 1 && i + 7 + n < |line| then Some(line[i + 7..i + 7 + n]) else MatchTitle(line, i + 1)
  {
    hide IndexOf, Span;
  }

  /** No title stands before the next `title=`. */
  lemma TitlesFrom(line: string, from: nat)
    ensures match IndexOf(line, "title=\"", from)
            case None => NoTitle(line, from)
            case Some(i) => forall j: nat, other :: from <= j < i ==> !TitleStands(line, j, other)
  {
    hide TitleStands, IndexOf, OccursAt;
    forall j: nat, other | from <= j && TitleStands(line, j, other)
      ensures OccursAt(line, "title=\"", j)
    {
      TitleOccurs(line, j, other);
    }
  }

  lemma UnclosedTitle(line: string, i: nat)
    requires i + 7 <= |line|
    requires var n := Span(line[i + 7..], NotQuoteMark); !(n >= 1 && i + 7 + n < |line|)
    ensures forall other :: !TitleStands(line, i, other)
  {
    hide TitleStands, Span;
    forall other
      ensures !TitleStands(line, i, other)
    {
      if TitleStands(line, i, other) {
        TitleOccurs(line, i, other);
        TitleNotEmpty(line, i, other);
      }
    }
  }

  lemma TitleNotEmpty(line: string, i: nat, title: string)
    requires TitleStands(line, i, title)
    ensures |title| >= 1
  {
  }

  /** The first non-empty text between quote marks behind `title=`, or `Tab`. */
  ghost predicate IsTitle(line: string, title: string) {
    FirstTitle(line, 0, title) || (NoTitle(line, 0) && title == "Tab")
  }

  lemma TitleMeaning(line: string, title: string)
    ensures TabTitle(line) == title <==> IsTitle(line, title)
  {
    hide TitleStands, MatchTitle;
    MatchTitleMeans(line, 0);
    if MatchTitle(line, 0).Some? && FirstTitle(line, 0, title) {
      FirstIsOne(line, title, MatchTitle(line, 0).value);
    }
  }

  lemma FirstIsOne(line: string, a: string, b: string)
    requires FirstTitle(line, 0, a) && FirstTitle(line, 0, b)
    ensures a == b
  {
    hide TitleStands;
    var i: nat :| TitleStands(line, i, a) && forall j: nat, other :: 0 <= j < i ==> !TitleStands(line, j, other);
    var k: nat :| TitleStands(line, k, b) && forall j: nat, other :: 0 <= j < k ==> !TitleStands(line, j, other);
    assert i == k;
    TitleOccurs(line, i, a);
    TitleOccurs(line, i, b);
  }

  // ---------------------------------------------------------------- contents entries

  /** The text of a contents entry has none of the four marks, is the text itself when that has none, and does not
      depend on a mark, wherever that stands. */
  lemma TocTextMeans(text: string)
    ensures forall c :: c in Filter(text, IsTocMark) ==> c in text && c !in "`*_\\"
    ensures (forall c :: c in text ==> c !in "`*_\\") ==> Filter(text, IsTocMark) == text
    ensures forall a, c, b :: text == a + [c] + b && c in "`*_\\" ==>
              Filter(text, IsTocMark) == Filter(a + b, IsTocMark)
  {
    if forall c :: c in text ==> c !in "`*_\\" {
      FilterKeeps(text, IsTocMark);
    }
    forall a, c, b | text == a + [c] + b && c in "`*_\\"
      ensures Filter(text, IsTocMark) == Filter(a + b, IsTocMark)
    {
      FilterDrops(a, c, b, IsTocMark);
    }
  }
}
