/** For whole texts: what is lost leaves no trace. */
module MarkdownNoTrace {
  import opened Text
  import opened MarkdownCut
  import MarkdownDepth
  import opened MarkdownEdges
  import opened MarkdownFate
  import opened MarkdownGrammar
  import opened MarkdownLedger
  import opened MarkdownLines
  import opened MarkdownOpenEnd
  import opened MarkdownPage
  import opened MarkdownReplace
  import opened MarkdownRest
  import opened MarkdownTrace
  import Frontmatter

  // ---------------------------------------------------------------- white space around a lost line

  lemma BlankKind(x: string)
    ensures Classify(x) == BlankLine <==> Trim(x) == ""
  {
    hide Trim, MatchHeading, MatchBullet, MatchNumber, MatchAlert;
    if Trim(x) == "" {
      BlankMatchesNothing(x);
    }
  }

  lemma BlankMatchesNothing(x: string)
    requires Trim(x) == ""
    ensures MatchBullet(x).None? && MatchNumber(x).None? && MatchAlert(x).None?
  {
    hide Trim, TrimStart, MatchRest, IsSpace;
    BlankForms(x);
    TrimStartIsSpan(x);
  }

  /** Whether a line may be lost for a reason does not depend on the white space around it. */
  lemma StandsTrimmed(why: Loss, x: string, y: string)
    requires Trim(x) == Trim(y)
    ensures MayStand(why, x) == MayStand(why, y)
  {
    hide Trim, Classify;
    BlankKind(x);
    BlankKind(y);
    KindOf(x);
    KindOf(y);
    RowKind(x);
    RowKind(y);
  }

  lemma RowKind(x: string)
    ensures Classify(x) == RowLine <==> !IsTabsOpen(x) && !IsTabsEnd(x) && !IsFence(x) && IsRow(x)
  {
    hide IsTabsOpen, IsTabsEnd, IsFence, IsRow, MatchHeading, MatchBullet, MatchNumber, MatchAlert, IsQuote, IsRule,
         Trim;
  }

  // ---------------------------------------------------------------- a page that ends open

  lemma BlankIsOpen(why: Loss, x: string)
    requires LeadsOpen(Lost(why)) && MayStand(why, x) && Trim(x) == ""
    ensures IsOpen(Lost(why))
  {
    hide Trim, Classify;
    KindOf(x);
  }

  /** Inside an open fence or region, white space at the end of the page leaves no trace. */
  lemma {:induction false} OpenTail(lines: seq<string>, html: Html)
    requires lines != [] && Plain(lines) && LeadsOpen(FateOf(lines, |lines| - 1, html))
    ensures RenderLines(DropBack(lines), html) == RenderLines(lines, html)
    decreases |lines|
  {
    hide FateOf, RenderLines, MayStand, Trim, TrimEnd, IsOpen, DropBack;
    var last := |lines| - 1;
    var why := LostWhy(FateOf(lines, last, html));
    LossFits(lines, last, html);
    DropBackSteps(lines);
    BlankForms(lines[last]);
    if |lines| > 1 && TrimEnd(lines[last]) == "" {
      BlankIsOpen(why, lines[last]);
      ShorterPage(lines, html);
      OpenTail(lines[..last], html);
    } else {
      TrimOfTrimEnd(lines[last]);
      StandsTrimmed(why, lines[last], TrimEnd(lines[last]));
      NoTrace(lines, last, TrimEnd(lines[last]), html);
    }
  }

  lemma LostWhy(fate: Fate) returns (why: Loss)
    requires LeadsOpen(fate)
    ensures fate == Lost(why)
  {
    why := fate.why;
  }

  lemma DropBackSteps(lines: seq<string>)
    requires lines != []
    ensures var last := |lines| - 1;
            DropBack(lines) == if |lines| > 1 && TrimEnd(lines[last]) == "" then DropBack(lines[..last])
                               else lines[last := TrimEnd(lines[last])]
  {
    hide TrimEnd;
  }

  // ---------------------------------------------------------------- a line of the page

  /** Only inside an open fence or region can a line at the edge of a page be replaced by a blank one. */
  lemma BlankAtEdge(page: seq<string>, j: nat, html: Html)
    requires j < |page| && Plain(page) && (j == 0 || j + 1 == |page|) && Trim(page[j]) != ""
    requires Replaces(FateOf(page, j, html), page[j], "", html)
    ensures j > 0 && IsOpen(FateOf(page, j, html))
  {
    hide FateOf, Trim, Classify, Join;
    var fate := FateOf(page, j, html);
    EdgeFate(page, j, html);
    TrimNothing();
    KindOf("");
    BlankKind("");
    BlankKind(page[j]);
    if fate.Lost? {
      LossFits(page, j, html);
    }
  }

  lemma EdgeFate(page: seq<string>, j: nat, html: Html)
    requires j < |page| && (j == 0 || j + 1 == |page|)
    ensures var fate := FateOf(page, j, html);
            if fate.Lost? then fate.why != Wiped && fate.why != BeforeFirstTab && (j == 0 ==> !IsOpen(fate))
            else !fate.place.Title? && !fate.place.PanelLine?
  {
    hide FateOf;
    if j == 0 {
      FirstFate(page, html);
    } else {
      LastFate(page, html);
    }
  }

  lemma PageLineNoTrace(page: seq<string>, j: nat, tail: string, page': seq<string>, html: Html)
    requires j < |page| && Plain(page) && Follows(page, At(j), tail, page')
    requires page == [""] || (Trim(page[0]) != "" && Trim(page[|page| - 1]) != "")
    requires Replaces(FateOf(page, j, html), page[j], Edged(tail, j, |page|), html)
    ensures RenderLines(page', html) == RenderLines(page, html)
  {
    hide FateOf, Trim, Replaces, Edged, RenderLines, DropBack, IsOpen, LeadsOpen;
    if Trim(tail) != "" || 0 < j < |page| - 1 || page == [""] {
      NoTrace(page, j, Edged(tail, j, |page|), html);
    } else {
      TrimOfEdged(tail, j, |page|);
      BlankAtEdge(page, j, html);
      assert j + 1 == |page|;
      ShorterPage(page, html);
      OpenTail(page[..j], html);
    }
  }

  // ---------------------------------------------------------------- a line of a text

  /** What the fate of a line of a text says of its spot. */
  lemma TextFateIs(a: string, k: nat)
    requires k < |Split(a, '\n')|
    ensures var spot, fate := SpotOf(a, k), TextFateOf(a, k);
            if spot.Metadata? then fate == InMetadata
            else if spot.Edge? then fate == BlankEdge
            else
              && spot.j < |LinesOf(a)|
              && var f := FateOf(LinesOf(a), spot.j, Page);
                 if f.Kept? && f.place.PanelLine? then
                   && fate.InPanel? && fate.n == f.place.n && fate.text == PanelText(f.place.tab) && |fate.text| < |a|
                   && Split(fate.text, '\n') == f.place.tab.lines && fate.n < |f.place.tab.lines|
                   && fate.inner == TextFateOf(fate.text, fate.n)
                 else fate == OnPage(f)
  {
    hide FateOf, LinesOf, Page, Split, Join, SpotOf;
    SpotMeans(a, k);
    if SpotOf(a, k).At? {
      PanelIsText(a, SpotOf(a, k).j);
    }
  }

  /** `x` may take the place of line `k`, whatever its fate is. The metadata block has to end in the line where it ends,
      or stay away. Then any line may stand for a line of the block, and a blank one for a blank one at an edge. A line
      of the page may be replaced as `Replaces` allows, the part of `x` that reaches the page being trimmed at the edge
      of the page. A line of a panel may be replaced as the panel's own text allows, unless the new line would end the
      region, open or start a tab. */
  ghost predicate MayReplace(a: string, k: nat, x: string)
    requires k < |Split(a, '\n')|
    decreases |a|
  {
    KeepsCut(Split(a, '\n'), k, x) &&
    var tail := Tail(Split(a, '\n'), k, x);
    TextFateIs(a, k);
    match TextFateOf(a, k)
    case InMetadata => true
    case BlankEdge => Trim(tail) == ""
    case OnPage(fate) =>
      var page, j := LinesOf(a), SpotOf(a, k).j;
      Replaces(fate, page[j], Edged(tail, j, |page|), Page)
    case InPanel(_, _, text, n, _) =>
      !IsTabsOpen(x) && !IsTabsEnd(x) && !IsTabStart(x) && MayReplace(text, n, x)
  }

  /** What is lost leaves no trace: with another line in its place the whole text gives the same page. */
  lemma {:induction false} LostLeavesNoTrace(a: string, k: nat, x: string)
    requires k < |Split(a, '\n')| && '\n' !in x && MayReplace(a, k, x)
    ensures Page(WithLine(a, k, x)) == Page(a)
    decreases |a|
  {
    hide FateOf, LinesOf, Page, Split, Join, SpotOf, KeepsCut, Tail, WithLine, Replaces, RenderLines, Edged, Trim,
         Follows;
    var b, tail := WithLine(a, k, x), Tail(Split(a, '\n'), k, x);
    TextFateIs(a, k);
    LinesFollow(a, k, x);
    if SpotOf(a, k).At? {
      var page, j := LinesOf(a), SpotOf(a, k).j;
      if TextFateOf(a, k).InPanel? {
        LostLeavesNoTrace(TextFateOf(a, k).text, TextFateOf(a, k).n, x);
        PanelLineReplaces(a, k, x);
      }
      LinesSize(a);
      PageEdges(a);
      PageLineNoTrace(page, j, tail, LinesOf(b), Page);
      PageUnfolds(a);
      PageUnfolds(b);
    } else {
      SpotKeepsLines(LinesOf(a), SpotOf(a, k), tail, LinesOf(b));
      LinesDecidePage(b, a);
    }
  }

  lemma SpotKeepsLines(page: seq<string>, spot: Spot, tail: string, page': seq<string>)
    requires Follows(page, spot, tail, page') && !spot.At? && (spot.Edge? ==> Trim(tail) == "")
    ensures page' == page
  {
  }

  /** A panel line lies inside the page, and behind the metadata block. */
  lemma PanelLineReplaces(a: string, k: nat, x: string)
    requires k < |Split(a, '\n')| && TextFateOf(a, k).InPanel? && KeepsCut(Split(a, '\n'), k, x)
    requires !IsTabsOpen(x) && !IsTabsEnd(x) && !IsTabStart(x)
    requires TextFateOf(a, k).n < |Split(TextFateOf(a, k).text, '\n')|
    requires Page(WithLine(TextFateOf(a, k).text, TextFateOf(a, k).n, x)) == Page(TextFateOf(a, k).text)
    ensures SpotOf(a, k).At? && SpotOf(a, k).j < |LinesOf(a)|
    ensures var page, j := LinesOf(a), SpotOf(a, k).j;
            Replaces(FateOf(page, j, Page), page[j], Edged(Tail(Split(a, '\n'), k, x), j, |page|), Page)
  {
    hide FateOf, LinesOf, Page, Split, Join, KeepsCut, Trim, IsTabsOpen, IsTabsEnd, IsTabStart, MetaLines, TextFateOf,
         BlockLines, HasBlock, FrontBlanks, Frontmatter.Body;
    TextFateIs(a, k);
    var page, j := LinesOf(a), SpotOf(a, k).j;
    if j == 0 || j + 1 == |page| {
      EdgeFate(page, j, Page);
    }
    MetaIsBlock(a);
  }

  // ---------------------------------------------------------------- every lost line is covered

  predicate IsLost(fate: TextFate) {
    match fate
    case InMetadata => true
    case BlankEdge => true
    case OnPage(f) => f.Lost?
    case InPanel(_, _, _, _, inner) => IsLost(inner)
  }

  lemma SameText(a: string, k: nat)
    requires k < |Split(a, '\n')|
    ensures WithLine(a, k, Split(a, '\n')[k]) == a && '\n' !in Split(a, '\n')[k]
    ensures KeepsCut(Split(a, '\n'), k, Split(a, '\n')[k])
  {
    hide Split, Join, KeepsCut;
    JoinSplit(a, '\n');
    var lines := Split(a, '\n');
    assert lines[k := lines[k]] == lines;
    KeepsCutExactly(lines, k, lines[k]);
  }

  /** What of a line goes to the body, and from there to the page. */
  lemma OwnTail(a: string, k: nat)
    requires k < |Split(a, '\n')| && !SpotOf(a, k).Metadata?
    ensures KeepsCut(Split(a, '\n'), k, Split(a, '\n')[k])
    ensures var tail, page := Tail(Split(a, '\n'), k, Split(a, '\n')[k]), LinesOf(a);
            match SpotOf(a, k)
            case Edge => Trim(tail) == ""
            case At(j) => j < |page| && Edged(tail, j, |page|) == page[j]
            case _ => true
  {
    hide Split, Frontmatter.Body, KeepsCut, Tail, WithLine, LinesOf, Trim, Trimmed, Edged, MetaLines, FrontBlanks,
         DropBack;
    SameText(a, k);
    var line := Split(a, '\n')[k];
    BodyOfReplaced(a, k, line);
    LinesFollow(a, k, line);
    var m, body, page := MetaLines(a), Split(Frontmatter.Body(a), '\n'), LinesOf(a);
    var tail := Tail(Split(a, '\n'), k, line);
    assert body[k - m := tail][k - m] == tail;
    BodyPartStays(a, k - m);
    if SpotOf(a, k).At? {
      PageEdges(a);
      TailReaches(page, SpotOf(a, k).j, tail);
    }
  }

  lemma TailReaches(page: seq<string>, j: nat, tail: string)
    requires Follows(page, At(j), tail, page) && Trimmed(tail, page[j])
    requires page == [""] || (Trim(page[0]) != "" && Trim(page[|page| - 1]) != "")
    ensures Edged(tail, j, |page|) == page[j]
  {
    hide Trim, Edged, DropBack;
    assert page[j := Edged(tail, j, |page|)][j] == Edged(tail, j, |page|);
  }

  lemma {:induction false} TabLinesStay(lines: seq<string>)
    ensures forall t :: t in SplitTabs(lines) ==> forall l :: l in t.lines ==> NotTabStart(l)
    decreases |lines|
  {
    hide IsTabStart, TabTitle, Span;
    if lines != [] {
      var n := if IsTabStart(lines[0]) then Span(lines[1..], NotTabStart) else 0;
      TabLinesStay(lines[n + 1..]);
      var first := lines[1..n + 1];
      forall i | 0 <= i < n
        ensures NotTabStart(first[i])
      {
        assert first[i] == lines[1..][i];
      }
    }
  }

  lemma PanelLineIsPlain(inner: seq<string>, tab: Tab, line: string)
    requires IsRegion(inner) && tab in TabsOf(inner) && line in tab.lines
    ensures !IsTabsOpen(line) && !IsTabsEnd(line) && !IsTabStart(line)
  {
    hide IsTabsOpen, IsTabsEnd, IsTabStart, SplitTabs, AfterLastOpen, Size;
    TabLinesStay(AfterLastOpen(inner));
    SplitTabsParts(AfterLastOpen(inner));
    AfterLastOpenIsSuffix(inner);
    TabsOfParts(inner);
    var i :| 0 <= i < |inner| && inner[i] == line;
    assert NotTabsEnd(inner[i]);
  }

  /** A line of a panel reaches the page as it is. */
  lemma PanelLineIsWhole(a: string, k: nat)
    requires k < |Split(a, '\n')| && TextFateOf(a, k).InPanel?
    ensures var fate, line := TextFateOf(a, k), Split(a, '\n')[k];
            && fate.n < |Split(fate.text, '\n')| && Split(fate.text, '\n')[fate.n] == line
            && !IsTabsOpen(line) && !IsTabsEnd(line) && !IsTabStart(line)
  {
    hide FateOf, LinesOf, Page, Split, Join, KeepsCut, Trim, IsTabsOpen, IsTabsEnd, IsTabStart, MetaLines, TextFateOf,
         BlockLines, HasBlock, FrontBlanks, Frontmatter.Body, IsRegion, TabsOf, Holds;
    TextFateIs(a, k);
    OwnTail(a, k);
    var page, j := LinesOf(a), SpotOf(a, k).j;
    var place := FateOf(page, j, Page).place;
    PageLineHappens(a, j);
    PanelStands(Page(a), place, page[j]);
    if j == 0 || j + 1 == |page| {
      EdgeFate(page, j, Page);
    }
    MetaIsBlock(a);
    PanelIsText(a, j);
    var inner :| IsRegion(inner) && place.tab in TabsOf(inner);
    PanelLineIsPlain(inner, place.tab, page[j]);
  }

  /** Every lost line of every text is among those that may stand in its place. */
  lemma {:induction false} LostMayStay(a: string, k: nat)
    requires k < |Split(a, '\n')| && IsLost(TextFateOf(a, k))
    ensures MayReplace(a, k, Split(a, '\n')[k])
    decreases |a|
  {
    hide FateOf, LinesOf, Page, Split, Join, SpotOf, KeepsCut, Tail, Edged, Trim, TextFateOf, MayStand, IsTabsOpen,
         IsTabsEnd, IsTabStart;
    TextFateIs(a, k);
    SameText(a, k);
    if !SpotOf(a, k).Metadata? {
      OwnTail(a, k);
    }
    var fate := TextFateOf(a, k);
    if fate.OnPage? {
      LinesSize(a);
      LossFits(LinesOf(a), SpotOf(a, k).j, Page);
    } else if fate.InPanel? {
      PanelLineIsWhole(a, k);
      LostMayStay(fate.text, fate.n);
    }
  }

  // ---------------------------------------------------------------- the condition on the cut is needed

  const RULE_LINES := ["---", ":::tabs", "lost", ":::"]
  const RULE_PAGE := Join(RULE_LINES, "\n")
  const CLOSING_LINE := "x---y"
  const CLOSED_LINES := RULE_LINES[2 := CLOSING_LINE]

  /** A line lost before the first tab, replaced by another one that is lost there: but the new line closes a metadata
      block that the page's first line then opens, and the page is another one. */
  lemma CutIsNeeded()
    ensures Split(RULE_PAGE, '\n') == RULE_LINES && TextFateOf(RULE_PAGE, 2) == OnPage(Lost(BeforeFirstTab))
    ensures MayStand(BeforeFirstTab, CLOSING_LINE) && !KeepsCut(RULE_LINES, 2, CLOSING_LINE)
    ensures Page(WithLine(RULE_PAGE, 2, CLOSING_LINE)) != Page(RULE_PAGE)
  {
    hide LinesOf, Page, Split, Join, MayStand, HasBlock, FateOf, TextFateOf, WithLine;
    RuleLines();
    RuleFate();
    ClosingStands();
    RuleCut();
    RuleFirst();
    ClosedFirst();
  }

  lemma RuleLines()
    ensures Split(RULE_PAGE, '\n') == RULE_LINES
  {
    hide Split, Join;
    SplitJoin(RULE_LINES, '\n');
  }

  lemma ClosingStands()
    ensures MayStand(BeforeFirstTab, CLOSING_LINE)
  {
    hide Trim;
    TrimFixed(CLOSING_LINE);
  }

  lemma FenceHasDash(s: string)
    requires HasFence(s)
    ensures '-' in s
  {
    hide IndexOf;
    var i := IndexOf(s, Frontmatter.FENCE, 0).value;
    assert s[i] == s[i..i + 3][0];
  }

  lemma NoDash(s: string)
    requires '-' !in s
    ensures !HasFence(s)
  {
    hide HasFence;
    if HasFence(s) {
      FenceHasDash(s);
    }
  }

  lemma ClosingFence()
    ensures HasFence(CLOSING_LINE) && BehindFence(CLOSING_LINE) == "y"
  {
    hide IndexOf;
    assert CLOSING_LINE[0..3][0] == 'x' && CLOSING_LINE[1..4] == Frontmatter.FENCE;
    IndexIs(CLOSING_LINE, Frontmatter.FENCE, 0, 1);
  }

  lemma BehindSkips(line: string, rest: seq<string>)
    requires !HasFence(line)
    ensures Behind([line] + rest) == Behind(rest)
  {
    hide HasFence;
    assert ([line] + rest)[1..] == rest;
  }

  /** The page has no metadata block; with the new line it has, and the body begins behind the fence in it. */
  lemma RuleCut()
    ensures !HasBlock(RULE_LINES) && HasBlock(CLOSED_LINES) && BodyLines(CLOSED_LINES) == ["y", ":::"]
  {
    hide HasFence, BehindFence, Behind;
    NoDash("");
    NoDash(":::tabs");
    NoDash("lost");
    NoDash(":::");
    ClosingFence();
    assert Opened(RULE_LINES) == [""] + ([":::tabs"] + (["lost"] + ([":::"] + [])));
    BehindSkips("", [":::tabs"] + (["lost"] + ([":::"] + [])));
    BehindSkips(":::tabs", ["lost"] + ([":::"] + []));
    BehindSkips("lost", [":::"] + []);
    BehindSkips(":::", []);
    NothingBehind();
    assert Opened(CLOSED_LINES) == [""] + ([":::tabs"] + [CLOSING_LINE, ":::"]);
    BehindSkips("", [":::tabs"] + [CLOSING_LINE, ":::"]);
    BehindSkips(":::tabs", [CLOSING_LINE, ":::"]);
    ClosedBehind();
  }

  lemma NothingBehind()
    ensures Behind([]) == None
  {
  }

  lemma ClosedBehind()
    ensures Behind([CLOSING_LINE, ":::"]) == Some(["y", ":::"])
  {
    hide HasFence, BehindFence;
    ClosingFence();
    assert [CLOSING_LINE, ":::"][1..] == [":::"] && ["y"] + [":::"] == ["y", ":::"];
  }

  /** A page without blank edges keeps its lines. */
  lemma CleanPage(content: string, body: seq<string>)
    requires BodyLines(Split(content, '\n')) == body && |body| > 1
    requires body[0] != "" && Trim(body[0]) == body[0] && body[|body| - 1] != ""
             && Trim(body[|body| - 1]) == body[|body| - 1]
    ensures LinesOf(content) == body && FrontBlanks(body) == 0
  {
    hide Trim, TrimStart, TrimEnd, Split, Frontmatter.Body, FrontBlanks, Trimmings, BodyLines, LinesOf;
    CutByLines(content);
    LinesOfBody(content);
    TrimmingsAre(body);
    CoreIs(body, 0, |body|);
    CleanEdges(body[0]);
    CleanEdges(body[|body| - 1]);
    forall i | 0 <= i < |body|
      ensures Trimmings(body)[i] == body[i]
    {
      assert body[0 + i] == body[i];
    }
  }

  lemma CleanEdges(s: string)
    requires Trim(s) == s && s != ""
    ensures TrimStart(s) == s && TrimEnd(s) == s
  {
    hide IsSpace;
    TrimEdges(s);
  }

  lemma RulePageLines()
    ensures LinesOf(RULE_PAGE) == RULE_LINES && SpotOf(RULE_PAGE, 2) == At(2)
  {
    hide Trim, Split, Join, BodyLines, LinesOf, FrontBlanks, Frontmatter.Body, HasBlock, MetaLines;
    RuleLines();
    RuleCut();
    TrimFixed("---");
    TrimFixed(":::");
    assert BodyLines(RULE_LINES) == RULE_LINES by { NoBlockNoCut(RULE_LINES); }
    CleanPage(RULE_PAGE, RULE_LINES);
    MetaIsBlock(RULE_PAGE);
    CutByLines(RULE_PAGE);
  }

  lemma NoBlockNoCut(lines: seq<string>)
    requires lines != [] && !HasBlock(lines)
    ensures BodyLines(lines) == lines
  {
  }

  lemma RuleKinds()
    ensures Classify("---") == RuleLine && Classify("y") == ParagraphLine
  {
    hide Classify;
    RuleIsRule();
    LetterIsText();
  }

  lemma RuleIsRule()
    ensures Classify("---") == RuleLine
  {
    hide Trim, MatchHeading, MatchBullet, MatchNumber, MatchAlert;
    TrimFixed("---");
    NoItems();
    NoAlert("---");
  }

  lemma LetterIsText()
    ensures Classify("y") == ParagraphLine
  {
    hide Trim, Classify, MatchBullet, MatchNumber, MatchAlert;
    TrimFixed("y");
    NoItems();
    NoAlert("y");
    TextByStart("y");
  }

  lemma TextByStart(line: string)
    requires Trim(line) != "" && Trim(line)[0] == 'y'
    requires MatchBullet(line) == None && MatchNumber(line) == None && MatchAlert(line) == None
    ensures Classify(line) == ParagraphLine
  {
    hide Trim, MatchHeading, MatchBullet, MatchNumber, MatchAlert;
  }

  lemma NoItems()
    ensures MatchBullet("---") == None && MatchNumber("---") == None
    ensures MatchBullet("y") == None && MatchNumber("y") == None
  {
    assert "---"[1..] == "--" && Span("--", IsSpace) == 0 && Span("---", IsSpace) == 0 && Span("y", IsSpace) == 0;
    assert "---"[0..] == "---" && "y"[0..] == "y";
  }

  lemma NoAlert(line: string)
    requires Trim(line) != "" && Trim(line)[0] != '>'
    ensures MatchAlert(line) == None
  {
    hide Trim;
  }

  lemma RuleFirst()
    ensures Page(RULE_PAGE) != [] && Page(RULE_PAGE)[0] == Rule
  {
    hide Page, LinesOf, RenderLines, Classify;
    RulePageLines();
    RuleKinds();
    PageUnfolds(RULE_PAGE);
    assert RULE_LINES == ["---"] + RULE_LINES[1..];
    PageRule("---", RULE_LINES[1..], Page);
  }

  lemma ClosedFirst()
    ensures 2 < |Split(RULE_PAGE, '\n')|
    ensures var content := WithLine(RULE_PAGE, 2, CLOSING_LINE);
            Page(content) != [] && Page(content)[0] == Paragraph("y")
  {
    hide Page, LinesOf, RenderLines, Classify, Split, WithLine, BodyLines, HasBlock, Trim;
    RuleLines();
    WithLineSplits(RULE_PAGE, 2, CLOSING_LINE);
    RuleCut();
    TrimFixed("y");
    TrimFixed(":::");
    var content := WithLine(RULE_PAGE, 2, CLOSING_LINE);
    CleanPage(content, ["y", ":::"]);
    RuleKinds();
    PageUnfolds(content);
    assert ["y", ":::"] == ["y"] + [":::"];
    PageParagraph("y", [":::"], Page);
  }

  lemma RuleFate()
    ensures 2 < |Split(RULE_PAGE, '\n')| && TextFateOf(RULE_PAGE, 2) == OnPage(Lost(BeforeFirstTab))
  {
    hide Page, LinesOf, Split, FateOf, TextFateOf, SpotOf;
    RuleLines();
    RulePageLines();
    TextFateIs(RULE_PAGE, 2);
    RuleLineFate(Page);
  }

  lemma RuleLineFate(html: Html)
    ensures |RULE_LINES| == 4 && FateOf(RULE_LINES, 2, html) == Lost(BeforeFirstTab)
  {
    hide FateOf, Classify, FirstFrom, RegionFate, Render;
    RuleKinds();
    RuleBlocks();
    FateSteps(RULE_LINES, 2, html);
    assert RULE_LINES[1..] == [":::tabs", "lost", ":::"];
    FateSteps([":::tabs", "lost", ":::"], 1, html);
    LostRegion();
  }

  lemma RuleBlocks()
    ensures First(RULE_LINES) == RuleBlock("---")
    ensures First([":::tabs", "lost", ":::"]) == TabsBlock(":::tabs", ["lost"], ":::")
  {
    hide Classify, Span, IsTabsEnd;
    RuleKinds();
    MarkdownDepth.PlainKinds();
    LostKind();
    var rest := ["lost", ":::"];
    assert [":::tabs", "lost", ":::"][1..] == rest && rest[..1] == ["lost"];
    SpanIs(rest, NotTabsEnd, 1);
  }

  lemma LostKind()
    ensures !IsTabsEnd("lost") && IsTabsEnd(":::") && !IsTabsOpen("lost") && !IsTabStart("lost")
  {
    hide Trim;
    TrimFixed("lost");
    TrimFixed(":::");
  }

  lemma LostRegion()
    ensures |["lost"]| == 1 && RegionFate(["lost"], 0, 0) == Lost(BeforeFirstTab)
  {
    hide IsTabsOpen, IsTabStart;
    LostKind();
    AfterLastOpenSnoc([], "lost");
    assert [] + ["lost"] == ["lost"] && AfterLastOpen([]) == [];
  }
}
