/** `parseMarkdown` of build-blog.js as it runs: one loop over the lines, flags, buffers and look-ahead. */
module MarkdownParser {
  import opened Text
  import opened MarkdownLines
  import opened MarkdownGrammar
  import opened MarkdownPage
  import opened MarkdownRest
  import CodeEscape
  import Frontmatter
  import Slug

  datatype Result = Result(metadata: map<string, string>, html: seq<Token>, pageHeaders: seq<TocEntry>)

  method ParseMarkdown(content: string) returns (r: Result)
    ensures r.html == Page(content)
    ensures r.pageHeaders == TocOf(r.html)
    ensures r.metadata == Frontmatter.Metadata(content)
    decreases |content|, 4
  {
    var metadata, body := Frontmatter.ParseFrontmatter(content);
    var lines := Split(Trim(body), '\n');
    LinesSize(content);
    var p := new Parser();
    p.ParseLines(lines, |content|);
    PageUnfolds(content);
    r := Result(metadata, p.output, p.pageHeaders);
  }

  lemma PanelsStep(tabs: seq<Tab>, idx: nat)
    requires idx < |tabs|
    ensures RenderPanels(tabs[idx..], Page) ==
            [Panel(tabs[idx].title, Page(Join(tabs[idx].lines, "\n")))] + RenderPanels(tabs[idx + 1..], Page)
  {
    hide Page, Join;
    assert tabs[idx..][1..] == tabs[idx + 1..];
  }

  lemma CellsStep(isHeader: bool, row: seq<string>, c: nat)
    requires c < |row|
    ensures RenderCells(isHeader, row[c..]) == [Cell(isHeader, Trim(row[c]))] + RenderCells(isHeader, row[c + 1..])
  {
    hide Trim;
    assert row[c..][1..] == row[c + 1..];
  }

  lemma CellsEnd(isHeader: bool, row: seq<string>)
    ensures RenderCells(isHeader, row[|row|..]) == []
  {
  }

  lemma NoPanels()
    ensures RenderPanels([], Page) == []
  {
  }

  lemma PanelsSnoc(panels: seq<Panel>, panel: Panel, rest: seq<Panel>)
    ensures panels + ([panel] + rest) == (panels + [panel]) + rest
  {
  }

  class Parser {
    var output: seq<Token>
    var pageHeaders: seq<TocEntry>
    var inCode: bool
    var codeLang: string
    var codeLines: seq<string>
    var inList: bool
    var listType: ListKind
    var inTable: bool
    var tableRows: seq<seq<string>>
    var inTabs: bool
    var tabCollection: seq<Tab>
    var currentTab: Option<Tab>
    /** The lines of the open tabs region so far. */
    ghost var tabLines: seq<string>

    constructor ()
      ensures Valid() && output == [] && !inTabs && !inCode && !inList && !inTable
    {
      output, pageHeaders := [], [];
      inCode, codeLang, codeLines := false, "", [];
      inList, listType := false, Ul;
      inTable, tableRows := false, [];
      inTabs, tabCollection, currentTab := false, [], None;
    }

    /** The flags exclude each other, the buffers belong to their flags, and the table of contents is that of the
        output. */
    ghost predicate Valid()
      reads this
    {
      && !(inList && inTable)
      && (inCode || inTabs ==> !inList && !inTable)
      && (!inCode ==> codeLines == [])
      && (!inTable ==> tableRows == [])
      && (if inTabs then CollectedTabs() == TabsOf(tabLines) else currentTab == None)
      && (currentTab.None? ==> tabCollection == [])
      && pageHeaders == TocOf(output)
    }

    ghost function CollectedTabs(): seq<Tab>
      reads this
    {
      tabCollection + (if currentTab.Some? then [currentTab.value] else [])
    }

    ghost function Enclosing(): Outer
      reads this
    {
      if inCode then InFence(codeLang, codeLines) else InPage
    }

    /** What the grammar says the lines to come will still add. */
    ghost function Pending(lines: seq<string>): seq<Token>
      reads this
    {
      if inTabs then TabsRest(Enclosing(), tabLines, lines, Page)
      else if inCode then FenceRest(codeLang, codeLines, lines, Page)
      else if inList then ListRest(listType, lines, Page)
      else if inTable then TableRest(tableRows, lines, Page)
      else RenderLines(lines, Page)
    }

    method Push(token: Token)
      requires pageHeaders == TocOf(output) && !token.Heading?
      modifies this`output
      ensures pageHeaders == TocOf(output) && output == old(output) + [token]
    {
      TocAppend(output, [token]);
      output := output + [token];
    }

    method CloseList(ghost lines: seq<string>)
      requires Valid()
      modifies this`output, this`inList
      ensures Valid() && !inList
      ensures output == old(output) + (if old(inList) then [ListClose(listType)] else [])
      ensures (lines != [] ==> !InList(listType, lines[0])) ==> output + Pending(lines) == old(output + Pending(lines))
    {
      hide InList, TabsOf, TocOf, ListRest, TableRest, FenceRest, TabsRest, RenderLines, RenderTabs, RenderTable;
      if inList {
        if lines != [] ==> !InList(listType, lines[0]) {
          ListStops(listType, lines, Page);
          Associates(output, [ListClose(listType)], RenderLines(lines, Page));
        }
        Push(ListClose(listType));
        inList := false;
      } else {
        assert output + [] == output;
      }
    }

    method CloseTable(ghost lines: seq<string>)
      requires Valid()
      modifies this`output, this`inTable, this`tableRows
      ensures Valid() && !inTable
      ensures output == old(output) + (if old(inTable) then RenderTable(old(tableRows)) else [])
      ensures (lines != [] ==> !InTable(lines[0])) ==> output + Pending(lines) == old(output + Pending(lines))
    {
      hide InTable, TabsOf, TocOf, ListRest, TableRest, FenceRest, TabsRest, RenderLines, RenderTabs, RenderTable;
      if inTable {
        PushTable();
        if lines != [] ==> !InTable(lines[0]) {
          TableStops(tableRows, lines, Page);
          Associates(old(output), RenderTable(tableRows), RenderLines(lines, Page));
        }
        inTable, tableRows := false, [];
      } else {
        assert output + [] == output;
      }
    }

    method PushTable()
      requires Valid()
      modifies this`output
      ensures Valid() && output == old(output) + RenderTable(tableRows)
    {
      hide TabsOf, TocOf, RenderRow;
      ghost var before := output;
      Push(TableOpen);
      for rIdx := 0 to |tableRows|
        invariant Valid()
        invariant output + RenderRows(tableRows, rIdx) == before + [TableOpen] + RenderRows(tableRows, 0)
      {
        ghost var soFar := output;
        PushRow(tableRows[rIdx], rIdx);
        Associates(soFar, RenderRow(tableRows[rIdx], rIdx), RenderRows(tableRows, rIdx + 1));
      }
      assert output + [] == output;
      ghost var rows := RenderRows(tableRows, 0);
      Push(TableClose);
      assert before + [TableOpen] + rows + [TableClose] == before + ([TableOpen] + rows + [TableClose]);
    }

    method PushRow(row: seq<string>, rIdx: nat)
      requires Valid()
      modifies this`output
      ensures Valid() && output == old(output) + RenderRow(row, rIdx)
    {
      hide TabsOf, TocOf, Trim, IsSeparator, RenderCells;
      if rIdx == 1 && IsSeparator(row) {
        assert output + [] == output;
        return;
      }
      ghost var before := output;
      Push(RowOpen);
      assert row[0..] == row;
      for c := 0 to |row|
        invariant Valid()
        invariant output + RenderCells(rIdx == 0, row[c..]) == before + [RowOpen] + RenderCells(rIdx == 0, row)
      {
        CellsStep(rIdx == 0, row, c);
        ghost var soFar, cell := output, Cell(rIdx == 0, Trim(row[c]));
        Push(Cell(rIdx == 0, Trim(row[c])));
        Associates(soFar, [cell], RenderCells(rIdx == 0, row[c + 1..]));
      }
      CellsEnd(rIdx == 0, row);
      assert output + [] == output;
      ghost var cells := RenderCells(rIdx == 0, row);
      Push(RowClose);
      assert before + [RowOpen] + cells + [RowClose] == before + ([RowOpen] + cells + [RowClose]);
    }

    method CloseTabContent()
      modifies this`tabCollection, this`currentTab
      ensures currentTab == None && tabCollection == old(CollectedTabs())
    {
      if currentTab.Some? {
        tabCollection := tabCollection + [currentTab.value];
        currentTab := None;
      }
    }

    method CompileTabsHtml(ghost bound: nat) returns (token: Token)
      requires forall t :: t in tabCollection ==> |Join(t.lines, "\n")| < bound
      ensures token == RenderTabs(tabCollection, Page) && !token.Heading?
      decreases bound, 0
    {
      hide Page, Join, TocOf, RenderPanels, TabsOf;
      if |tabCollection| == 0 {
        return Empty;
      }
      var panels := [];
      assert tabCollection[0..] == tabCollection;
      for idx := 0 to |tabCollection|
        invariant panels + RenderPanels(tabCollection[idx..], Page) == RenderPanels(tabCollection, Page)
      {
        var tab := tabCollection[idx];
        assert tab in tabCollection;
        var parsed := ParseMarkdown(Join(tab.lines, "\n"));
        PanelsStep(tabCollection, idx);
        PanelsSnoc(panels, Panel(tab.title, parsed.html), RenderPanels(tabCollection[idx + 1..], Page));
        panels := panels + [Panel(tab.title, parsed.html)];
      }
      assert tabCollection[|tabCollection|..] == [];
      NoPanels();
      assert panels + [] == panels;
      return TabSet(panels);
    }

    /** `:::tabs`, wherever it stands. */
    method OpenTabs(line: string, ghost rest: seq<string>)
      requires Valid() && IsTabsOpen(line)
      modifies this
      ensures Valid() && inTabs && inCode == old(inCode)
      ensures tabLines == if old(inTabs) then old(tabLines) + [line] else []
      ensures output + Pending(rest) == old(output + Pending([line] + rest))
    {
      hide Classify, IsTabsOpen, IsTabsEnd, InList, InTable, TabsOf, TocOf, ListRest, TableRest, FenceRest, TabsRest,
           RenderLines, RenderTabs, RenderTable;
      TabsOpenIsNoEnd(line);
      TabsOfNothing();
      EndsRuns(listType, line);
      ghost var lines := [line] + rest;
      CloseList(lines);
      CloseTable(lines);
      if inTabs {
        TabsOfReset(tabLines, line);
        TabsStep(Enclosing(), tabLines, line, rest, Page);
      } else if inCode {
        FenceTabs(codeLang, codeLines, line, rest, Page);
      } else {
        PageTabs(line, rest, Page);
      }
      tabLines := if inTabs then tabLines + [line] else [];
      inTabs, tabCollection, currentTab := true, [], None;
    }

    /** `:::`, wherever it stands. */
    method EndTabs(line: string, ghost rest: seq<string>, ghost bound: nat)
      requires Valid() && IsTabsEnd(line) && !IsTabsOpen(line)
      requires inTabs ==> Size(tabLines) < bound
      modifies this
      ensures Valid() && !inTabs
      ensures output + Pending(rest) == old(output + Pending([line] + rest))
      decreases bound, 1
    {
      hide IsTabsOpen, IsTabsEnd, TabsOf, TocOf, ListRest, TableRest, FenceRest, TabsRest, RenderLines, RenderTabs,
           RenderTable;
      if inTabs {
        TabsClose(Enclosing(), tabLines, line, rest, Page);
        CloseTabContent();
        assert tabCollection == TabsOf(tabLines);
        forall t | t in tabCollection
          ensures |Join(t.lines, "\n")| < bound
        {
          PanelShrinks(tabLines, t);
        }
        var tabsHtml := CompileTabsHtml(bound);
        ghost var before := output;
        Push(tabsHtml);
        inTabs, tabCollection := false, [];
        Associates(before, [tabsHtml], OuterRest(Enclosing(), rest, Page));
      } else {
        SkipStray(line, rest);
      }
    }

    /** Outside a region a `:::` line changes nothing, not even an open list or table. */
    lemma SkipStray(line: string, rest: seq<string>)
      requires Valid() && !inTabs && IsTabsEnd(line) && !IsTabsOpen(line)
      ensures Pending([line] + rest) == Pending(rest)
    {
      assert Classify(line) == TabsEndLine;
      if inCode {
        FenceStray(codeLang, codeLines, line, rest, Page);
      } else if inList {
        ListStep(listType, line, rest, Page);
      } else if inTable {
        TableStep(tableRows, line, rest, Page);
      } else {
        PageQuiet(line, rest, Page);
      }
    }

    /** A line inside a tabs region that is no delimiter of it. */
    method TabsLine(line: string, ghost rest: seq<string>)
      requires Valid() && inTabs && !IsTabsOpen(line) && !IsTabsEnd(line)
      modifies this`tabCollection, this`currentTab, this`tabLines
      ensures Valid() && tabLines == old(tabLines) + [line]
      ensures output + Pending(rest) == old(output + Pending([line] + rest))
    {
      hide IsTabsOpen, IsTabsEnd, SnocTab, TabsOf, TocOf, ListRest, TableRest, FenceRest, TabsRest, RenderLines,
           RenderTabs, RenderTable;
      TabsStep(Enclosing(), tabLines, line, rest, Page);
      TabsOfSnoc(tabLines, line);
      tabLines := tabLines + [line];
      CollectTab(line);
    }

    method CollectTab(line: string)
      requires currentTab.None? ==> tabCollection == []
      modifies this`tabCollection, this`currentTab
      ensures currentTab.None? ==> tabCollection == []
      ensures CollectedTabs() == SnocTab(old(CollectedTabs()), line)
    {
      hide IsTabStart, TabTitle;
      if IsTabStart(line) {
        CloseTabContent();
        currentTab := Some(Tab(TabTitle(line), []));
      } else if currentTab.Some? {
        ghost var tabs := CollectedTabs();
        assert tabs[..|tabs| - 1] == tabCollection;
        currentTab := Some(currentTab.value.(lines := currentTab.value.lines + [line]));
      }
    }

    /** A code fence, opening or closing. */
    method Fence(line: string, ghost rest: seq<string>)
      requires Valid() && !inTabs && IsFence(line) && !IsTabsOpen(line) && !IsTabsEnd(line)
      modifies this
      ensures Valid() && !inTabs
      ensures output + Pending(rest) == old(output + Pending([line] + rest))
    {
      hide IsFence, IsTabsOpen, IsTabsEnd, Classify, InList, InTable, CodeEscape.Escape, FenceLang, TabsOf, TocOf,
           ListRest, TableRest, FenceRest, TabsRest, RenderLines, RenderTabs, RenderTable;
      if inCode {
        FenceCloses(codeLang, codeLines, line, rest, Page);
        Associates(output, [RenderCode(codeLang, codeLines)], RenderLines(rest, Page));
        var escapedCode := CodeEscape.Escape(Join(codeLines, "\n"));
        if codeLang == "mermaid" {
          Push(Mermaid(Join(codeLines, "\n")));
        } else {
          Push(Code(if codeLang != "" then codeLang else "plaintext", escapedCode));
        }
        inCode := false;
        codeLines := [];
      } else {
        ClassifyFence(line);
        EndsRuns(listType, line);
        ghost var lines := [line] + rest;
        CloseList(lines);
        CloseTable(lines);
        PageFence(line, rest, Page);
        inCode := true;
        codeLang := FenceLang(line);
      }
    }

    method FencedLine(line: string, ghost rest: seq<string>)
      requires Valid() && !inTabs && inCode && !IsFence(line) && !IsTabsOpen(line) && !IsTabsEnd(line)
      modifies this`codeLines
      ensures Valid()
      ensures output + Pending(rest) == old(output + Pending([line] + rest))
    {
      hide IsFence, IsTabsOpen, IsTabsEnd, TabsOf, TocOf, ListRest, TableRest, FenceRest, TabsRest, RenderLines,
           RenderTabs, RenderTable;
      FenceCode(codeLang, codeLines, line, rest, Page);
      codeLines := codeLines + [line];
    }

    method Row(line: string, ghost rest: seq<string>)
      requires Valid() && !inTabs && !inCode && Classify(line).RowLine?
      modifies this
      ensures Valid() && !inTabs
      ensures output + Pending(rest) == old(output + Pending([line] + rest))
    {
      hide Classify, InList, InTable, RowCells, TabsOf, TocOf, ListRest, TableRest, FenceRest, TabsRest, RenderLines,
           RenderTabs, RenderTable;
      ghost var lines := [line] + rest;
      EndsRuns(listType, line);
      CloseList(lines);
      RowContinues(line, rest);
      inTable := true;
      var cells := RowCells(line);
      tableRows := tableRows + [cells];
    }

    lemma RowContinues(line: string, rest: seq<string>)
      requires Valid() && !inTabs && !inCode && !inList && Classify(line).RowLine?
      ensures Pending([line] + rest) == TableRest(tableRows + [RowCells(line)], rest, Page)
    {
      hide Classify, RowCells, TableRest, RenderLines;
      if inTable {
        TableStep(tableRows, line, rest, Page);
      } else {
        PageRow(line, rest, Page);
        assert [] + [RowCells(line)] == [RowCells(line)];
      }
    }

    /** A bullet or a numbered item. */
    method ListItem(kind: ListKind, text: string, ghost line: string, ghost rest: seq<string>)
      requires Valid() && !inTabs && !inCode && !inTable && Classify(line) == ItemLine(kind, text)
      modifies this
      ensures Valid() && !inTabs
      ensures output + Pending(rest) == old(output + Pending([line] + rest))
    {
      hide Classify, InList, InTable, TabsOf, TocOf, ListRest, TableRest, FenceRest, TabsRest, RenderLines,
           RenderTabs, RenderTable;
      ghost var lines := [line] + rest;
      if !inList || listType != kind {
        EndsRuns(listType, line);
        CloseList(lines);
        PageItem(line, rest, Page);
        OpenThenItem(output, ListOpen(kind), Item(kind, text), ListRest(kind, rest, Page));
        Push(ListOpen(kind));
        inList := true;
        listType := kind;
      } else {
        ItemContinues(kind, line);
        ListStep(kind, line, rest, Page);
        Associates(output, [Item(kind, text)], ListRest(kind, rest, Page));
      }
      Push(Item(kind, text));
    }

    lemma OpenThenItem(a: seq<Token>, open: Token, item: Token, rest: seq<Token>)
      ensures a + ([open] + [item] + rest) == a + [open] + [item] + rest
    {
    }

    /** The branches that only close an open list and push at most one token. */
    method Simple(token: Option<Token>, line: string, ghost rest: seq<string>)
      requires Valid() && !inTabs && !inCode && !inTable
      requires !Classify(line).TabsEndLine? && !Classify(line).ItemLine?
      requires token.Some? ==> !token.value.Heading?
      modifies this
      ensures Valid() && !inTabs
      ensures RenderLines([line] + rest, Page) ==
              (if token.Some? then [token.value] else []) + RenderLines(rest, Page) ==>
                output + Pending(rest) == old(output + Pending([line] + rest))
    {
      hide Classify, InList, InTable, TabsOf, TocOf, ListRest, TableRest, FenceRest, TabsRest, RenderLines,
           RenderTabs, RenderTable;
      EndsRuns(listType, line);
      CloseList([line] + rest);
      assert [] + RenderLines(rest, Page) == RenderLines(rest, Page);
      if token.Some? {
        Associates(output, [token.value], RenderLines(rest, Page));
        Push(token.value);
      }
    }

    method PushHeading(level: nat, rawText: string, ghost line: string, ghost rest: seq<string>)
      requires Valid() && !inTabs && !inCode && !inTable && !inList
      requires Classify(line) == HeadingLine(level, rawText)
      modifies this`output, this`pageHeaders
      ensures Valid()
      ensures output + Pending(rest) == old(output + Pending([line] + rest))
    {
      hide Classify, Slug.Anchor, IsTocMark, TabsOf, TocOf, ListRest, TableRest, FenceRest, TabsRest, RenderLines,
           RenderTabs, RenderTable;
      var id := Slug.Anchor(rawText);
      HeadingToc(output, level, id, rawText);
      PageHeading(line, rest, Page);
      Associates(output, [Heading(level, id, rawText)], RenderLines(rest, Page));
      if level == 2 || level == 3 {
        pageHeaders := pageHeaders + [TocEntry(id, Filter(rawText, IsTocMark), level)];
      }
      output := output + [Heading(level, id, rawText)];
    }

    lemma HeadingToc(tokens: seq<Token>, level: nat, id: string, rawText: string)
      ensures TocOf(tokens + [Heading(level, id, rawText)]) ==
              TocOf(tokens) + if level == 2 || level == 3 then [TocEntry(id, Filter(rawText, IsTocMark), level)] else []
    {
      TocAppend(tokens, [Heading(level, id, rawText)]);
    }

    /** A github-style alert: every quoted line that follows is its text, another alert's marker included. */
    method AlertAt(lines: seq<string>, i: nat, alertType: string) returns (last: nat)
      requires i < |lines| && Valid() && !inTabs && !inCode && !inTable
      requires Classify(lines[i]) == AlertLine(alertType)
      modifies this
      ensures i <= last < |lines| && Valid() && !inTabs
      ensures output + Pending(lines[last + 1..]) == old(output + Pending(lines[i..]))
    {
      hide Classify, InList, InTable, IsQuote, QuoteText, QuoteTexts, Span, TabsOf, TocOf, ListRest, TableRest,
           FenceRest, TabsRest, RenderLines, RenderTabs, RenderTable;
      ghost var line, rest := lines[i], lines[i + 1..];
      assert lines[i..] == [line] + rest;
      EndsRuns(listType, line);
      CloseList(lines[i..]);
      last := i;
      var alertContent := [];
      QuoteTextsNothing();
      while last + 1 < |lines| && IsQuote(lines[last + 1])
        invariant i <= last < |lines|
        invariant alertContent == QuoteTexts(rest[..last - i])
        invariant forall k :: 0 <= k < last - i ==> IsQuote(rest[k])
        modifies {}
      {
        last := last + 1;
        QuoteTextsSnoc(rest[..last - i - 1], lines[last]);
        assert rest[..last - i] == rest[..last - i - 1] + [lines[last]];
        alertContent := alertContent + [QuoteText(lines[last])];
      }
      ghost var n := last - i;
      SpanIs(rest, IsQuote, n);
      PageAlert(line, rest, n, Page);
      assert rest[n..] == lines[last + 1..];
      var token := Alert(alertType, Join(alertContent, " "));
      Associates(output, [token], RenderLines(rest[n..], Page));
      Push(token);
    }

    /** A plain quote: the quoted lines up to the next one that starts an alert. */
    method QuoteAt(lines: seq<string>, i: nat) returns (last: nat)
      requires i < |lines| && Valid() && !inTabs && !inCode && !inTable
      requires Classify(lines[i]) == QuoteLine
      modifies this
      ensures i <= last < |lines| && Valid() && !inTabs
      ensures output + Pending(lines[last + 1..]) == old(output + Pending(lines[i..]))
    {
      hide Classify, InList, InTable, IsQuote, MatchAlertStart, QuoteText, QuoteTexts, Span, TabsOf, TocOf, ListRest,
           TableRest, FenceRest, TabsRest, RenderLines, RenderTabs, RenderTable;
      ghost var line, rest := lines[i], lines[i + 1..];
      assert lines[i..] == [line] + rest;
      EndsRuns(listType, line);
      CloseList(lines[i..]);
      last := i;
      var blockContent := [QuoteText(lines[i])];
      QuoteTextsNothing();
      QuoteTextsSnoc([], line);
      assert [] + [line] == [line] + rest[..0];
      while last + 1 < |lines| && IsQuote(lines[last + 1]) && MatchAlertStart(lines[last + 1]).None?
        invariant i <= last < |lines|
        invariant blockContent == QuoteTexts([line] + rest[..last - i])
        invariant forall k :: 0 <= k < last - i ==> ContinuesQuote(rest[k])
        modifies {}
      {
        last := last + 1;
        QuoteTextsSnoc([line] + rest[..last - i - 1], lines[last]);
        assert [line] + rest[..last - i] == [line] + rest[..last - i - 1] + [lines[last]];
        blockContent := blockContent + [QuoteText(lines[last])];
      }
      ghost var n := last - i;
      SpanIs(rest, ContinuesQuote, n);
      PageQuote(line, rest, n, Page);
      assert rest[n..] == lines[last + 1..];
      var token := Quote(Join(blockContent, " "));
      Associates(output, [token], RenderLines(rest[n..], Page));
      Push(token);
    }

    /** One turn of the loop: the tests in the order the code makes them. Returns the last line it used. */
    method Turn(lines: seq<string>, i: nat, ghost bound: nat) returns (last: nat)
      requires i < |lines| && Valid()
      requires inTabs ==> Size(tabLines) < bound
      modifies this
      ensures i <= last < |lines| && Valid()
      ensures inTabs && old(inTabs) ==> tabLines == old(tabLines) + [lines[i]] && last == i
      ensures inTabs && !old(inTabs) ==> tabLines == [] && last == i && |lines[i]| >= 7
      ensures output + Pending(lines[last + 1..]) == old(output + Pending(lines[i..]))
      decreases bound, 2
    {
      hide InList, InTable, IsTabsOpen, IsTabsEnd, IsTabStart, IsFence, IsRow, IsQuote, IsRule, Trim,
           MatchHeading, MatchBullet, MatchNumber, MatchAlert, RenderHeading, TabsOf, TocOf, ListRest, TableRest,
           FenceRest, TabsRest, RenderLines, RenderTabs, RenderTable;
      var line := lines[i];
      ghost var rest := lines[i + 1..];
      assert lines[i..] == [line] + rest;
      last := i;
      if IsTabsOpen(line) {
        TabsOpenIsNoEnd(line);
        OpenTabs(line, rest);
        return;
      }
      if IsTabsEnd(line) {
        EndTabs(line, rest, bound);
        return;
      }
      if inTabs {
        TabsLine(line, rest);
        return;
      }
      if IsFence(line) {
        Fence(line, rest);
        return;
      }
      if inCode {
        FencedLine(line, rest);
        return;
      }
      if IsRow(line) {
        Row(line, rest);
        return;
      }
      EndsRuns(listType, line);
      if inTable {
        CloseTable(lines[i..]);
      }
      if "#" <= Trim(line) {
        HashIsNoItem(line);
        CloseList(lines[i..]);
        var m := MatchHeading(line);
        if m.Some? {
          PushHeading(m.value.0, m.value.1, line, rest);
          return;
        }
      }
      var bullet := MatchBullet(line);
      if bullet.Some? {
        ListItem(Ul, bullet.value, line, rest);
        return;
      }
      var number := MatchNumber(line);
      if number.Some? {
        ListItem(Ol, number.value, line, rest);
        return;
      }
      var alert := MatchAlert(line);
      if alert.Some? {
        last := AlertAt(lines, i, alert.value);
        return;
      }
      if IsQuote(line) {
        last := QuoteAt(lines, i);
        return;
      }
      if IsRule(line) {
        PageRule(line, rest, Page);
        Simple(Some(Rule), line, rest);
        return;
      }
      if Trim(line) == "" {
        PageQuiet(line, rest, Page);
        assert [] + RenderLines(rest, Page) == RenderLines(rest, Page);
        Simple(None, line, rest);
        return;
      }
      PageParagraph(line, rest, Page);
      Simple(Some(Paragraph(line)), line, rest);
    }

    method ParseLines(lines: seq<string>, ghost bound: nat)
      requires Valid() && output == [] && !inTabs && !inCode && !inList && !inTable
      requires Size(lines) <= bound + 1
      modifies this
      ensures output == RenderLines(lines, Page)
      ensures pageHeaders == TocOf(output)
      decreases bound, 3
    {
      hide TabsOf, TocOf, ListRest, TableRest, FenceRest, TabsRest, RenderLines, RenderTabs, RenderTable, InList,
           InTable;
      var i := 0;
      assert lines[0..] == lines;
      assert [] + RenderLines(lines, Page) == RenderLines(lines, Page);
      while i < |lines|
        invariant 0 <= i <= |lines| && Valid()
        invariant output + Pending(lines[i..]) == RenderLines(lines, Page)
        invariant inTabs ==> Size(tabLines) + Size(lines[i..]) + 2 <= Size(lines)
      {
        TabsBudget(lines, i, tabLines);
        ghost var before := tabLines;
        var last := Turn(lines, i, bound);
        i := last + 1;
      }
      assert lines[|lines|..] == [];
      PendingAtEnd();
      CloseList([]);
      CloseTable([]);
      NoLines(Page);
      if inTabs || inCode {
        assert output + [] == output;
      }
    }

    /** Read to the end, an open fence or tabs region adds nothing. */
    lemma PendingAtEnd()
      requires Valid()
      ensures inTabs || inCode ==> Pending([]) == []
      ensures !inTabs && !inCode && !inList && !inTable ==> Pending([]) == []
    {
      NoLines(Page);
    }

    lemma TabsBudget(lines: seq<string>, i: nat, tabs: seq<string>)
      requires i < |lines|
      ensures Size(lines[i..]) == |lines[i]| + 1 + Size(lines[i + 1..])
      ensures Size(lines[i..]) <= Size(lines)
      ensures Size(tabs + [lines[i]]) == Size(tabs) + |lines[i]| + 1
    {
      hide Size;
      SizeCut(lines, i);
      SizeCons(lines[i..]);
      assert lines[i..][1..] == lines[i + 1..];
      SizeAppend(tabs, [lines[i]]);
      SizeCons([lines[i]]);
      assert [lines[i]][1..] == [];
      SizeNothing();
    }
  }
}
