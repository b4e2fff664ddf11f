/** Tab panels are pages, yet the recursion never goes deeper than one panel. */
module MarkdownDepth {
  import opened Text
  import opened MarkdownLines
  import opened MarkdownGrammar
  import opened MarkdownCut
  import opened MarkdownEdges
  import opened MarkdownPage
  import opened MarkdownRest
  import Frontmatter

  /** Only the first line of `s`, if any, trims to `:::`. */
  ghost predicate EndOnlyFirst(s: string) {
    forall i :: 1 <= i < |Split(s, '\n')| ==> NotTabsEnd(Split(s, '\n')[i])
  }

  /** The frontmatter cut and the trim can bring at most one `:::` to light: as the first line of the body. */
  lemma LinesEndOnlyFirst(content: string)
    requires EndOnlyFirst(content)
    ensures forall i :: 1 <= i < |LinesOf(content)| ==> NotTabsEnd(LinesOf(content)[i])
  {
    hide Split, Frontmatter.Body, Frontmatter.Cut, CutAway, MetaLines, FrontBlanks, LinesOf, Trim;
    BodyLinesStay(content);
    BodyLinesAre(content);
    var body, page := Split(Frontmatter.Body(content), '\n'), LinesOf(content);
    var n := FrontBlanks(body);
    forall i | 1 <= i < |page|
      ensures NotTabsEnd(page[i])
    {
      assert Trimmed(body[n + i], page[i]);
      var at := n + i;
      assert body[at] == Split(content, '\n')[MetaLines(content) + at];
    }
  }

  /** No line of a panel's text is a region end. */
  lemma PanelHasNoEnd(inner: seq<string>, t: Tab)
    requires IsRegion(inner) && t in TabsOf(inner)
    ensures forall i :: 0 <= i < |Split(Join(t.lines, "\n"), '\n')| ==> NotTabsEnd(Split(Join(t.lines, "\n"), '\n')[i])
  {
    hide NotTabsEnd, Split, Join, TabsOf;
    TabsOfParts(inner);
    forall i | 0 <= i < |t.lines|
      ensures NotTabsEnd(t.lines[i]) && '\n' !in t.lines[i]
    {
      assert t.lines[i] in inner;
    }
    if t.lines == [] {
      EmptySplit();
    } else {
      SplitJoin(t.lines, '\n');
    }
  }

  lemma EmptySplit()
    ensures Split(Join([], "\n"), '\n') == [""] && NotTabsEnd("")
  {
    assert Trim("") == "";
  }

  /** Exactly when the page of a panel begins with a region end: the panel has a metadata block, and the rest of the
      line that closes it is one. */
  lemma RevealsEndExactly(inner: seq<string>, t: Tab)
    requires IsRegion(inner) && t in TabsOf(inner)
    ensures var c := Join(t.lines, "\n");
            IsTabsEnd(LinesOf(c)[0]) <==> Frontmatter.Cut(c).Some? && IsTabsEnd(Split(Frontmatter.Body(c), '\n')[0])
  {
    hide Split, Frontmatter.Body, Frontmatter.Cut, CutAway, MetaLines, FrontBlanks, LinesOf, Trim, Join, TabsOf,
         IsRegion;
    var c := Join(t.lines, "\n");
    PanelHasNoEnd(inner, t);
    BodyLinesStay(c);
    BodyLinesAre(c);
    var all, body := Split(c, '\n'), Split(Frontmatter.Body(c), '\n');
    var n := FrontBlanks(body);
    assert Trimmed(body[n + 0], LinesOf(c)[0]);
    if n > 0 {
      assert body[n] == all[MetaLines(c) + n];
      assert NotTabsEnd(all[MetaLines(c) + n]);
    }
    if Frontmatter.Cut(c).None? {
      assert NotTabsEnd(all[0]);
    }
  }

  predicate IsTabs(t: Token) {
    t.TabSet? || t.Empty?
  }

  ghost predicate NoTabs(tokens: seq<Token>) {
    forall t :: t in tokens ==> !IsTabs(t)
  }

  lemma NoTabsAppend(a: seq<Token>, b: seq<Token>)
    requires NoTabs(a) && NoTabs(b)
    ensures NoTabs(a + b)
  {
  }

  lemma {:induction false} ScanHasNoTabs(lines: seq<string>)
    requires NoTabsEnd(lines)
    ensures forall p :: p in ScanFence(lines).pieces ==> !p.TabsPiece?
    decreases |lines|
  {
    hide IsTabsOpen, IsTabsEnd, IsFence;
    if lines != [] {
      assert forall i :: 0 <= i < |lines[1..]| ==> NotTabsEnd(lines[1..][i]);
      if !IsTabsOpen(lines[0]) {
        ScanHasNoTabs(lines[1..]);
      }
    }
  }

  lemma {:induction false} PiecesWithoutTabs(ps: seq<Piece>, html: Html)
    requires forall p :: p in ps ==> !p.TabsPiece?
    ensures RenderPieces(ps, html) == []
  {
    if ps != [] {
      assert ps[0] in ps;
      PiecesWithoutTabs(ps[1..], html);
    }
  }

  lemma {:induction false} RowsNoTabs(rows: seq<seq<string>>, idx: nat)
    requires idx <= |rows|
    ensures NoTabs(RenderRows(rows, idx))
    decreases |rows| - idx
  {
    hide RenderRow, NoTabs;
    if idx == |rows| {
      NoTabsInNothing();
    } else {
      RowNoTabs(rows[idx], idx);
      RowsNoTabs(rows, idx + 1);
      NoTabsAppend(RenderRow(rows[idx], idx), RenderRows(rows, idx + 1));
    }
  }

  lemma RowNoTabs(cells: seq<string>, idx: nat)
    ensures NoTabs(RenderRow(cells, idx))
  {
    hide IsSeparator, RenderCells;
    CellsNoTabs(idx == 0, cells);
  }

  lemma {:induction false} CellsNoTabs(isHeader: bool, cells: seq<string>)
    ensures NoTabs(RenderCells(isHeader, cells))
  {
    hide Trim;
    if cells != [] {
      CellsNoTabs(isHeader, cells[1..]);
    }
  }

  lemma {:induction false} ItemsNoTabs(lines: seq<string>)
    ensures NoTabs(RenderItems(lines))
  {
    hide Classify;
    if lines != [] {
      ItemsNoTabs(lines[1..]);
    }
  }

  /** A block with no region close behind its first line renders no tabs, whatever would render the panels. */
  lemma FirstWithoutTabs(lines: seq<string>, f: Html, g: Html)
    requires lines != [] && forall i :: 1 <= i < |lines| ==> NotTabsEnd(lines[i])
    ensures Render(First(lines), f) == Render(First(lines), g)
    ensures NoTabs(Render(First(lines), f))
  {
    hide Classify, NotTabsEnd, Span, ScanFence, RenderRows, RenderItems, RenderPieces, RowsOf, QuoteTexts, CodeOf,
         FenceLang, ListExtent;
    var rest := lines[1..];
    assert NoTabsEnd(rest);
    match Classify(lines[0])
    case TabsOpenLine =>
      assert Span(rest, NotTabsEnd) == |rest|;
    case FenceLine =>
      ScanHasNoTabs(rest);
      PiecesWithoutTabs(ScanFence(rest).pieces, f);
      PiecesWithoutTabs(ScanFence(rest).pieces, g);
    case RowLine => RowsNoTabs(RowsOf([lines[0]] + rest[..Span(rest, InTable)]), 0);
    case ItemLine(kind, _) =>
      ListExtentBound(kind, rest);
      ItemsNoTabs([lines[0]] + rest[..ListExtent(kind, rest)]);
    case _ =>
  }

  lemma {:induction false} LinesWithoutTabs(lines: seq<string>, f: Html, g: Html)
    requires forall i :: 1 <= i < |lines| ==> NotTabsEnd(lines[i])
    ensures RenderLines(lines, f) == RenderLines(lines, g)
    ensures NoTabs(RenderLines(lines, f))
    decreases |lines|
  {
    hide NotTabsEnd, First, Source, Render, RenderLines, NoTabs;
    if lines == [] {
      NoLines(f);
      NoLines(g);
      NoTabsInNothing();
    } else {
      RenderFirst(lines, f);
      RenderFirst(lines, g);
      FirstIsPrefix(lines);
      var n := |Source(First(lines))|;
      FirstWithoutTabs(lines, f, g);
      assert forall i :: 0 <= i < |lines[n..]| ==> lines[n..][i] == lines[n + i];
      LinesWithoutTabs(lines[n..], f, g);
      NoTabsAppend(Render(First(lines), f), RenderLines(lines[n..], f));
    }
  }

  lemma NoTabsInNothing()
    ensures NoTabs([])
  {
  }

  /** A nested parse never compiles tabs: it renders the same with any panel renderer, and emits no tab set. */
  lemma PanelsNeverNest(inner: seq<string>, t: Tab, f: Html, g: Html)
    requires IsRegion(inner) && t in TabsOf(inner)
    ensures var lines := LinesOf(Join(t.lines, "\n"));
            RenderLines(lines, f) == RenderLines(lines, g) && NoTabs(RenderLines(lines, f))
  {
    hide NotTabsEnd, TabsOf, RenderLines, NoTabs, LinesOf, Split;
    PanelHasNoEnd(inner, t);
    LinesEndOnlyFirst(Join(t.lines, "\n"));
    LinesWithoutTabs(LinesOf(Join(t.lines, "\n")), f, g);
  }

  /** A panel, rendered with nothing to render panels of its own. */
  function FlatPage(content: string): seq<Token> {
    RenderLines(LinesOf(content), panel => [])
  }

  /** `parseMarkdown` calls itself on panels, but never from within a panel. */
  lemma PageDepthIsTwo(content: string)
    ensures Page(content) == RenderLines(LinesOf(content), FlatPage)
  {
    hide TabsOf, IsRegion, RenderLines, LinesOf, NoTabs, Page;
    LinesSize(content);
    PageUnfolds(content);
    forall inner, t | IsRegion(inner) && Size(inner) < |content| && t in TabsOf(inner)
      ensures Page(Join(t.lines, "\n")) == FlatPage(Join(t.lines, "\n"))
    {
      PanelsNeverNest(inner, t, Page, panel => []);
      PageUnfolds(Join(t.lines, "\n"));
    }
    RenderLinesAgree(LinesOf(content), Page, FlatPage, |content|);
  }

  const CUT_REGION := ["::tab", "---", "x---:::"]
  const CUT_PANEL := "---\nx---:::"

  /** The frontmatter fence of a panel may end inside a line, and the rest of that line may be `:::`:
      so a nested page can begin with a region end although no line of the panel is one. */
  lemma CutCanRevealEnd()
    ensures IsRegion(CUT_REGION) && TabsOf(CUT_REGION) == [Tab("Tab", CUT_REGION[1..])]
    ensures Join(CUT_REGION[1..], "\n") == CUT_PANEL
    ensures LinesOf(CUT_PANEL) == [":::"] && IsTabsEnd(":::")
  {
    CutStarts();
    CutTabs();
    CutLines();
  }

  const CUT_LINES := [":::tabs"] + CUT_REGION + [":::"]
  const CUT_PAGE := Join(CUT_LINES, "\n")

  /** The same as a page: its one panel is parsed from a single `:::` line and comes out empty. */
  lemma CutPage()
    ensures LinesOf(CUT_PAGE) == CUT_LINES
    ensures Page(CUT_PAGE) == [TabSet([Panel("Tab", [])])]
  {
    hide TabsOf, IsRegion, LinesOf, RenderLines, Page, Frontmatter.Body, Trim, Split, Join;
    CutPageLines();
    PageUnfolds(CUT_PAGE);
    CutCanRevealEnd();
    CutPanelIsEmpty();
    CutBlock();
    PageSteps(":::tabs", CUT_REGION + [":::"], Page);
    assert [":::tabs"] + (CUT_REGION + [":::"]) == CUT_LINES;
    NoLines(Page);
    CutPanels();
  }

  lemma CutPanels()
    requires Page(CUT_PANEL) == []
    ensures RenderTabs([Tab("Tab", CUT_REGION[1..])], Page) == TabSet([Panel("Tab", [])])
  {
    hide Page, Join, RenderTabs, LinesOf, IsTabsEnd;
    CutLines();
    OnePanel(Tab("Tab", CUT_REGION[1..]), Page);
  }

  lemma OnePanel(tab: Tab, html: Html)
    ensures RenderTabs([tab], html) == TabSet([Panel(tab.title, html(Join(tab.lines, "\n")))])
  {
    hide Join;
    assert [tab][1..] == [] && RenderPanels([], html) == [];
    var panel := Panel(tab.title, html(Join(tab.lines, "\n")));
    assert RenderPanels([tab], html) == [panel] + RenderPanels([], html);
  }

  lemma CutPanelIsEmpty()
    ensures Page(CUT_PANEL) == []
  {
    hide LinesOf, RenderLines, Page, Classify;
    CutLines();
    PageUnfolds(CUT_PANEL);
    PlainKinds();
    PageQuiet(":::", [], Page);
    assert [":::"] + [] == [":::"];
    NoLines(Page);
  }

  lemma PlainKinds()
    ensures Classify(":::") == TabsEndLine && Classify(":::tabs") == TabsOpenLine
  {
    hide Trim;
    TrimFixed(":::");
    TrimFixed(":::tabs");
  }

  lemma CutBlock()
    ensures FirstFrom(":::tabs", CUT_REGION + [":::"]) == TabsBlock(":::tabs", CUT_REGION, ":::")
    ensures RestAfter(":::tabs", CUT_REGION + [":::"]) == []
  {
    hide Classify, IsTabsEnd, Span;
    PlainKinds();
    CutStarts();
    CutLines();
    var rest := CUT_REGION + [":::"];
    assert forall i :: 0 <= i < 3 ==> rest[i] == CUT_REGION[i];
    SpanIs(rest, NotTabsEnd, 3);
    assert rest[..3] == CUT_REGION && rest[4..] == [];
  }

  lemma CutPageLines()
    ensures LinesOf(CUT_PAGE) == CUT_LINES
  {
    hide Split, Trim, Join, IsSpace;
    CutPageText();
    assert !IsSpace(':') by { ColonIsInk(); }
    TrimFixed(CUT_PAGE);
    SplitJoin(CUT_LINES, '\n');
  }

  lemma ColonIsInk()
    ensures !IsSpace(':')
  {
  }

  lemma CutPageText()
    ensures CUT_PAGE != "" && CUT_PAGE[0] == ':' && CUT_PAGE[|CUT_PAGE| - 1] == ':'
    ensures Frontmatter.Body(CUT_PAGE) == CUT_PAGE
  {
    hide Join;
    JoinEdge(CUT_LINES);
  }

  lemma {:induction false} JoinEdge(lines: seq<string>)
    requires lines != [] && lines[0] != "" && lines[|lines| - 1] != ""
    ensures var s, last := Join(lines, "\n"), lines[|lines| - 1];
            s != "" && s[0] == lines[0][0] && s[|s| - 1] == last[|last| - 1]
  {
    if |lines| > 1 {
      JoinEnds(lines[1..]);
    }
  }

  lemma {:induction false} JoinEnds(lines: seq<string>)
    requires lines != [] && lines[|lines| - 1] != ""
    ensures var s, last := Join(lines, "\n"), lines[|lines| - 1]; s != "" && s[|s| - 1] == last[|last| - 1]
  {
    if |lines| > 1 {
      JoinEnds(lines[1..]);
    }
  }

  lemma CutStarts()
    ensures IsRegion(CUT_REGION)
    ensures forall i :: 0 <= i < 3 ==> !IsTabsOpen(CUT_REGION[i])
    ensures IsTabStart(CUT_REGION[0]) && !IsTabStart(CUT_REGION[1]) && !IsTabStart(CUT_REGION[2])
  {
    hide Trim;
    TrimFixed("::tab");
    TrimFixed("---");
    TrimFixed("x---:::");
  }

  lemma CutTabs()
    ensures TabsOf(CUT_REGION) == [Tab("Tab", CUT_REGION[1..])]
  {
    hide IsTabsOpen, IsTabStart, TabTitle, Span;
    var inner := CUT_REGION;
    CutStarts();
    AfterLastOpenSnoc([], inner[0]);
    AfterLastOpenSnoc([inner[0]], inner[1]);
    AfterLastOpenSnoc([inner[0], inner[1]], inner[2]);
    assert [] + [inner[0]] + [inner[1]] + [inner[2]] == inner;
    assert AfterLastOpen(inner) == inner;
    SpanIs(inner[1..], NotTabStart, 2);
    SplitTabsHead(inner, 2);
    SplitNothing();
    assert inner[3..] == [] && inner[1..3] == inner[1..];
    CutTitle();
  }

  lemma CutTitle()
    ensures TabTitle("::tab") == "Tab"
  {
    assert IndexOf("::tab", "title=\"", 0) == None;
  }

  lemma CutLines()
    ensures Join(CUT_REGION[1..], "\n") == CUT_PANEL
    ensures LinesOf(CUT_PANEL) == [":::"] && IsTabsEnd(":::")
  {
    hide Trim, Frontmatter.Body;
    CutBody();
    TrimFixed(":::");
    SplitPlain(":::", '\n');
  }

  lemma CutBody()
    ensures Frontmatter.Body(CUT_PANEL) == ":::"
  {
    hide Frontmatter.Cut;
    Frontmatter.CutAtFirstFence("\nx", ":::");
    assert Frontmatter.FENCE + "\nx" + Frontmatter.FENCE + ":::" == CUT_PANEL;
  }
}
