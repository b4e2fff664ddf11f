/** The fate of every line of a text: metadata, page and panels. */
module MarkdownLedger {
  import opened Text
  import opened MarkdownLines
  import opened MarkdownGrammar
  import opened MarkdownPage
  import opened MarkdownRest
  import opened MarkdownCut
  import opened MarkdownEdges
  import opened MarkdownFate
  import opened MarkdownPlaces
  import opened MarkdownTrace
  import Frontmatter
  import MarkdownDepth

  // ---------------------------------------------------------------- a lost line is one of its kind

  lemma {:induction false} TabLost(lines: seq<string>, i: nat, token: nat, panel: nat)
    requires i < |lines| && TabFate(lines, i, token, panel).Lost?
    ensures !IsTabStart(lines[i])
    decreases |lines|
  {
    hide IsTabStart, TabTitle, Span, SplitTabs, TabHolds;
    TabFateHolds(lines, i, token, panel);
    if i > 0 {
      TabLost(lines[1..], i - 1, token, panel);
    }
  }

  lemma RegionLost(inner: seq<string>, i: nat, token: nat)
    requires i < |inner| && NoTabsEnd(inner) && RegionFate(inner, i, token).Lost?
    ensures MayStand(RegionFate(inner, i, token).why, inner[i])
  {
    hide IsTabsOpen, IsTabsEnd, IsTabStart, TabFate, AfterLastOpen, TabHolds, SplitTabs;
    var n := WipedLines(inner);
    assert NotTabsEnd(inner[i]);
    LastOpenStands(inner);
    if i >= n {
      var tail := inner[n..];
      TabFateHolds(tail, i - n, token, 0);
      TabLost(tail, i - n, token, 0);
      AfterLastOpenIsSuffix(inner);
      assert tail[i - n] == inner[i];
    }
  }

  lemma {:induction false} PieceLost(ps: seq<Piece>, i: nat, token: nat, n: nat, codeAt: Option<nat>)
    requires i < |PiecesSource(ps)| && GoodPieces(ps) && PieceFate(ps, i, token, n, codeAt).Lost?
    ensures MayStand(PieceFate(ps, i, token, n, codeAt).why, PiecesSource(ps)[i])
  {
    hide PieceFate, PiecesSource, RegionFate, IsTabsOpen, IsTabsEnd, IsFence, Classify, RowCells, IsTabStart;
    PiecesAt(ps, i);
    PieceFateSteps(ps, i, token, n, codeAt);
    var own, p := |PieceSource(ps[0])|, ps[0];
    assert GoodPiece(p);
    if i >= own {
      PieceLost(ps[1..], i - own, if p.TabsPiece? then token + 1 else token, if p.CodePiece? then n + 1 else n, codeAt);
    } else if p.TabsPiece? && 1 <= i <= |p.inner| {
      RegionLost(p.inner, i - 1, token);
    }
  }

  lemma BlockLost(b: Block, i: nat)
    requires GoodBlock(b) && i < |Source(b)| && FateIn(b, i).Lost?
    ensures MayStand(FateIn(b, i).why, Source(b)[i])
  {
    hide PieceFate, PiecesSource, RegionFate, RowFate, IsTabsOpen, IsTabsEnd, IsFence, Classify, RowCells, IsTabStart,
         GoodPieces, RenderItems, QuoteTexts, Size, Regions, IsSeparator, IsRegion, NoTabsEnd, InList;
    match b
    case TabsBlock(open, inner, close) => TabsLost(open, inner, close, i);
    case OpenTabsBlock(open, inner) => OpenTabsLost(open, inner, i);
    case FenceBlock(open, pieces, close) => FenceLost(open, pieces, close, i);
    case OpenFenceBlock(open, pieces, dangling) => OpenFenceLost(open, pieces, dangling, i);
    case TableBlock(lines) => RowLost(lines, i);
    case ListBlock(kind, lines) => StrayItem(kind, lines[i]);
    case StrayBlock(line) => KindOf(line);
    case _ =>
  }

  lemma TabsLost(open: string, inner: seq<string>, close: string, i: nat)
    requires Classify(open) == TabsOpenLine && IsRegion(inner) && IsTabsEnd(close) && i < |inner| + 2
    requires FateIn(TabsBlock(open, inner, close), i).Lost?
    ensures MayStand(FateIn(TabsBlock(open, inner, close), i).why, Source(TabsBlock(open, inner, close))[i])
  {
    hide RegionFate, IsTabsOpen, IsTabsEnd, IsFence, Classify, RowCells, IsTabStart, IsSeparator;
    KindOf(open);
    if 1 <= i <= |inner| {
      RegionLost(inner, i - 1, 0);
    }
  }

  lemma OpenTabsLost(open: string, inner: seq<string>, i: nat)
    requires Classify(open) == TabsOpenLine && NoTabsEnd(inner) && i < |inner| + 1
    ensures FateIn(OpenTabsBlock(open, inner), i).Lost?
    ensures MayStand(FateIn(OpenTabsBlock(open, inner), i).why, Source(OpenTabsBlock(open, inner))[i])
  {
    hide IsTabsOpen, IsTabsEnd, IsFence, Classify, RowCells, IsTabStart, IsSeparator;
    KindOf(open);
    if i > 0 {
      assert NotTabsEnd(inner[i - 1]);
    }
  }

  lemma FenceLost(open: string, pieces: seq<Piece>, close: string, i: nat)
    requires GoodPieces(pieces) && IsFence(close) && !IsTabsOpen(close) && !IsTabsEnd(close)
    requires i < |Source(FenceBlock(open, pieces, close))| && FateIn(FenceBlock(open, pieces, close), i).Lost?
    ensures MayStand(FateIn(FenceBlock(open, pieces, close), i).why, Source(FenceBlock(open, pieces, close))[i])
  {
    hide PieceFate, PiecesSource, IsTabsOpen, IsTabsEnd, IsFence, Classify, RowCells, IsTabStart, GoodPieces, Regions,
         IsSeparator;
    KindOf(close);
    if 1 <= i <= |PiecesSource(pieces)| {
      PieceLost(pieces, i - 1, 0, 0, Some(Regions(pieces)));
    }
  }

  lemma StrayItem(kind: ListKind, line: string)
    requires InList(kind, line) && !Classify(line).ItemLine?
    ensures MayStand(Stray, line)
  {
    hide Classify, IsTabsEnd;
    KindOf(line);
  }

  lemma OpenFenceLost(open: string, pieces: seq<Piece>, dangling: seq<string>, i: nat)
    requires Classify(open) == FenceLine && GoodPieces(pieces) && GoodDangling(dangling)
    requires i < |Source(OpenFenceBlock(open, pieces, dangling))|
             && FateIn(OpenFenceBlock(open, pieces, dangling), i).Lost?
    ensures var b := OpenFenceBlock(open, pieces, dangling); MayStand(FateIn(b, i).why, Source(b)[i])
  {
    hide PieceFate, PiecesSource, IsTabsOpen, IsTabsEnd, IsFence, Classify, RowCells, IsTabStart, GoodPieces;
    var n := |PiecesSource(pieces)|;
    if 1 <= i <= n {
      PieceLost(pieces, i - 1, 0, 0, None);
    } else if i > n {
      var j := i - n - 1;
      assert Source(OpenFenceBlock(open, pieces, dangling))[i] == dangling[j];
      if j > 0 {
        assert NotTabsEnd(dangling[1..][j - 1]);
      }
    }
  }

  lemma RowLost(lines: seq<string>, i: nat)
    requires i < |lines| && InTable(lines[i]) && RowFate(lines, i).Lost?
    ensures MayStand(RowFate(lines, i).why, lines[i])
  {
    hide Classify, RowCells, IsSeparator, IsTabsEnd;
    KindOf(lines[i]);
  }

  /** A lost line is one of the lines that are lost for its reason. */
  lemma {:induction false} LossFits(lines: seq<string>, k: nat, html: Html)
    requires k < |lines| && Plain(lines) && FateOf(lines, k, html).Lost?
    ensures MayStand(FateOf(lines, k, html).why, lines[k])
    decreases |lines|
  {
    hide First, FateIn, Source, Render, GoodBlock, MayStand;
    FirstIsPrefix(lines);
    FirstIsGood(lines);
    var n := |Source(First(lines))|;
    assert Source(First(lines)) == lines[..n];
    if k < n {
      BlockLost(First(lines), k);
    } else {
      LossFits(lines[n..], k - n, html);
    }
  }

  // ---------------------------------------------------------------- a panel line's tab

  /** The tab comes from a closed region that fits, with its delimiters, into `size`. */
  ghost predicate FromRegion(tab: Tab, size: nat) {
    exists inner :: IsRegion(inner) && tab in TabsOf(inner) && Size(inner) + 2 <= size
  }

  ghost predicate PanelFits(fate: Fate, size: nat) {
    fate.Kept? && fate.place.PanelLine? ==> FromRegion(fate.place.tab, size) && fate.place.n < |fate.place.tab.lines|
  }

  lemma RegionTab(inner: seq<string>, i: nat, token: nat, size: nat)
    requires i < |inner| && IsRegion(inner) && Size(inner) + 2 <= size
    ensures PanelFits(RegionFate(inner, i, token), size)
  {
    hide RegionFate, TabsOf, RenderTabs, IsRegion;
    if RegionFate(inner, i, token).Kept? {
      RegionFateHolds(inner, i, token, panel => []);
    }
  }

  lemma {:induction false} PieceTab(ps: seq<Piece>, i: nat, token: nat, n: nat, codeAt: Option<nat>, size: nat)
    requires i < |PiecesSource(ps)| && GoodPieces(ps) && Size(PiecesSource(ps)) <= size
    ensures PanelFits(PieceFate(ps, i, token, n, codeAt), size)
  {
    hide PieceFate, RegionFate, FromRegion, IsRegion, IsTabsOpen, IsTabsEnd, IsFence, Size;
    PiecesAt(ps, i);
    PieceFateSteps(ps, i, token, n, codeAt);
    var own, p := |PieceSource(ps[0])|, ps[0];
    assert GoodPiece(p);
    SizeAppend(PieceSource(p), PiecesSource(ps[1..]));
    if i >= own {
      PieceTab(ps[1..], i - own, if p.TabsPiece? then token + 1 else token, if p.CodePiece? then n + 1 else n, codeAt,
          size);
    } else if p.TabsPiece? && 1 <= i <= |p.inner| {
      RegionSize(p.open, p.inner, p.close);
      RegionTab(p.inner, i - 1, token, size);
    }
  }

  lemma BlockTab(b: Block, i: nat)
    requires GoodBlock(b) && i < |Source(b)|
    ensures PanelFits(FateIn(b, i), Size(Source(b)))
  {
    hide PieceFate, RegionFate, RowFate, PiecesSource, FromRegion, IsRegion, Classify, GoodPieces, Regions, Size,
         RenderItems, QuoteTexts;
    match b
    case TabsBlock(open, inner, close) =>
      RegionSize(open, inner, close);
      if 1 <= i <= |inner| {
        RegionTab(inner, i - 1, 0, Size(Source(b)));
      }
    case FenceBlock(open, pieces, close) =>
      RegionSize(open, PiecesSource(pieces), close);
      if 1 <= i <= |PiecesSource(pieces)| {
        PieceTab(pieces, i - 1, 0, 0, Some(Regions(pieces)), Size(Source(b)));
      }
    case OpenFenceBlock(open, pieces, dangling) =>
      SizeAppend([open] + PiecesSource(pieces), dangling);
      SizeAppend([open], PiecesSource(pieces));
      if 1 <= i <= |PiecesSource(pieces)| {
        PieceTab(pieces, i - 1, 0, 0, None, Size(Source(b)));
      }
    case TableBlock(lines) => RowIsNoPanel(lines, i);
    case _ =>
  }

  lemma RowIsNoPanel(lines: seq<string>, i: nat)
    requires i < |lines|
    ensures RowFate(lines, i).Kept? ==> !RowFate(lines, i).place.PanelLine?
  {
    hide Classify, RowCells, IsSeparator, RowsOf, RowStart;
  }

  lemma {:induction false} PageTab(lines: seq<string>, k: nat, html: Html)
    requires k < |lines| && Plain(lines)
    ensures PanelFits(FateOf(lines, k, html), Size(lines))
    decreases |lines|
  {
    hide First, FateIn, Source, Render, GoodBlock, FromRegion, Size;
    FirstIsPrefix(lines);
    FirstIsGood(lines);
    var n := |Source(First(lines))|;
    assert Source(First(lines)) == lines[..n];
    SizeCut(lines, n);
    if k < n {
      BlockTab(First(lines), k);
      FitsMore(FateIn(First(lines), k), Size(lines[..n]), Size(lines));
    } else {
      PageTab(lines[n..], k - n, html);
      FitsMore(FateOf(lines[n..], k - n, html), Size(lines[n..]), Size(lines));
    }
  }

  lemma FitsMore(fate: Fate, size: nat, more: nat)
    requires PanelFits(fate, size) && size <= more
    ensures PanelFits(fate, more)
  {
    hide IsRegion, TabsOf, Size;
  }

  // ---------------------------------------------------------------- the fate of a line of a text

  /** `InPanel`: the line is line `n` of the panel's own text, and goes on there. */
  datatype TextFate =
    | InMetadata
    | BlankEdge
    | OnPage(fate: Fate)
    | InPanel(token: nat, panel: nat, text: string, n: nat, inner: TextFate)

  function PanelText(tab: Tab): string {
    Join(tab.lines, "\n")
  }

  /** The text of a panel is shorter than the text of its page, and has the panel's lines. */
  lemma PanelIsText(content: string, k: nat)
    requires k < |LinesOf(content)|
    ensures var fate := FateOf(LinesOf(content), k, Page);
            fate.Kept? && fate.place.PanelLine? ==>
              var place := fate.place;
              && |PanelText(place.tab)| < |content|
              && Split(PanelText(place.tab), '\n') == place.tab.lines && place.n < |place.tab.lines|
              && exists inner :: IsRegion(inner) && place.tab in TabsOf(inner)
  {
    hide FateOf, LinesOf, Page, IsRegion, TabsOf, Size, Split, Join;
    LinesSize(content);
    PageTab(LinesOf(content), k, Page);
    var fate := FateOf(LinesOf(content), k, Page);
    if fate.Kept? && fate.place.PanelLine? {
      var tab := fate.place.tab;
      var inner :| IsRegion(inner) && tab in TabsOf(inner) && Size(inner) + 2 <= Size(LinesOf(content));
      PanelShrinks(inner, tab);
      PanelIsPlain(inner, tab);
      SplitJoin(tab.lines, '\n');
    }
  }

  lemma PanelIsPlain(inner: seq<string>, tab: Tab)
    requires IsRegion(inner) && tab in TabsOf(inner)
    ensures Plain(tab.lines)
  {
    hide TabsOf, NoTabsEnd;
    TabsOfParts(inner);
    forall i | 0 <= i < |tab.lines|
      ensures '\n' !in tab.lines[i]
    {
      assert tab.lines[i] in inner;
    }
  }

  function TextFateOf(content: string, k: nat): TextFate
    requires k < |Split(content, '\n')|
    decreases |content|
  {
    match SpotOf(content, k)
    case Metadata => InMetadata
    case Edge => BlankEdge
    case At(j) =>
      SpotMeans(content, k);
      PanelIsText(content, j);
      var fate := FateOf(LinesOf(content), j, Page);
      if fate.Kept? && fate.place.PanelLine? then
        var place := fate.place;
        var text := PanelText(place.tab);
        InPanel(place.token, place.panel, text, place.n, TextFateOf(text, place.n))
      else OnPage(fate)
  }

  /** The fate is true of the output `tokens` of `content`. */
  ghost predicate Happens(tokens: seq<Token>, fate: TextFate, content: string, k: nat)
    decreases fate
  {
    match fate
    case InMetadata => SpotOf(content, k) == Metadata
    case BlankEdge => SpotOf(content, k) == Edge
    case OnPage(f) =>
      var spot := SpotOf(content, k);
      && spot.At? && spot.j < |LinesOf(content)|
      && if f.Lost? then MayStand(f.why, LinesOf(content)[spot.j])
         else !f.place.PanelLine? && Holds(tokens, f.place, LinesOf(content)[spot.j], Page)
    case InPanel(t, p, text, n, inner) =>
      var spot := SpotOf(content, k);
      && spot.At? && spot.j < |LinesOf(content)| && n < |Split(text, '\n')|
      && Split(text, '\n')[n] == LinesOf(content)[spot.j]
      && t < |tokens| && tokens[t].TabSet? && p < |tokens[t].panels| && tokens[t].panels[p].html == Page(text)
      && Happens(tokens[t].panels[p].html, inner, text, n)
  }

  /**
    * Every line of every text: it belongs to the metadata block, is blank at an edge, stands at its own place in the
    * output, is a line of a panel and there meets its fate in the panel's own page, or is lost for the reason given.
    */
  lemma {:induction false} EveryLineHasItsFate(content: string, k: nat)
    requires k < |Split(content, '\n')|
    ensures Happens(Page(content), TextFateOf(content, k), content, k)
    decreases |content|
  {
    hide FateOf, LinesOf, Page, Split, Join, MayStand, Holds, SpotOf, Happens;
    SpotMeans(content, k);
    match SpotOf(content, k)
    case Metadata => NotOnPage(Page(content), content, k);
    case Edge => NotOnPage(Page(content), content, k);
    case At(j) =>
      PageLineHappens(content, j);
      PanelIsText(content, j);
      var fate := FateOf(LinesOf(content), j, Page);
      if fate.Kept? && fate.place.PanelLine? {
        EveryLineHasItsFate(PanelText(fate.place.tab), fate.place.n);
        PanelHappens(Page(content), content, k, j, fate.place, TextFateOf(PanelText(fate.place.tab), fate.place.n));
      } else {
        OnPageHappens(Page(content), content, k, j, fate);
      }
  }

  lemma NotOnPage(tokens: seq<Token>, content: string, k: nat)
    ensures SpotOf(content, k).Metadata? ==> Happens(tokens, InMetadata, content, k)
    ensures SpotOf(content, k).Edge? ==> Happens(tokens, BlankEdge, content, k)
  {
    hide SpotOf, LinesOf;
  }

  lemma OnPageHappens(tokens: seq<Token>, content: string, k: nat, j: nat, fate: Fate)
    requires SpotOf(content, k) == At(j) && j < |LinesOf(content)|
    requires if fate.Lost? then MayStand(fate.why, LinesOf(content)[j])
             else !fate.place.PanelLine? && Holds(tokens, fate.place, LinesOf(content)[j], Page)
    ensures Happens(tokens, OnPage(fate), content, k)
  {
    hide SpotOf, LinesOf, MayStand, Holds;
  }

  lemma PanelHappens(tokens: seq<Token>, content: string, k: nat, j: nat, place: Place, inner: TextFate)
    requires SpotOf(content, k) == At(j) && j < |LinesOf(content)|
    requires place.PanelLine? && Holds(tokens, place, LinesOf(content)[j], Page)
    requires place.n < |place.tab.lines| && Split(PanelText(place.tab), '\n') == place.tab.lines
    requires Happens(Page(PanelText(place.tab)), inner, PanelText(place.tab), place.n)
    ensures Happens(tokens, InPanel(place.token, place.panel, PanelText(place.tab), place.n, inner), content, k)
  {
    hide SpotOf, LinesOf, Holds, Split, Join, Page;
    PanelStands(tokens, place, LinesOf(content)[j]);
  }

  /** The fate of a line of the page itself. */
  lemma PageLineHappens(content: string, j: nat)
    requires j < |LinesOf(content)|
    ensures var fate := FateOf(LinesOf(content), j, Page);
            if fate.Lost? then MayStand(fate.why, LinesOf(content)[j])
            else Holds(Page(content), fate.place, LinesOf(content)[j], Page)
  {
    hide FateOf, LinesOf, Page, MayStand, Holds;
    LinesSize(content);
    PageUnfolds(content);
    if FateOf(LinesOf(content), j, Page).Lost? {
      LossFits(LinesOf(content), j, Page);
    } else {
      FateHolds(LinesOf(content), j, Page);
    }
  }

  /** No two lines of a text meet in one place: their tokens differ, or what they are in the token does, or where. */
  lemma TextPlacesDiffer(content: string, i: nat, j: nat)
    requires i < j < |Split(content, '\n')|
    ensures var a, b := TextFateOf(content, i), TextFateOf(content, j);
            && (a.OnPage? && b.OnPage? ==> Differ(a.fate, b.fate))
            && (a.InPanel? && b.InPanel? ==> a.token != b.token || a.panel != b.panel || a.n != b.n)
  {
    hide FateOf, LinesOf, Page, Split, Join, MetaLines, FrontBlanks, Frontmatter.Body;
    SpotMeans(content, i);
    SpotMeans(content, j);
    var a, b := SpotOf(content, i), SpotOf(content, j);
    if a.At? && b.At? {
      LinesSize(content);
      PlacesDiffer(LinesOf(content), a.j, b.j, Page);
      PanelIsText(content, a.j);
      PanelIsText(content, b.j);
    }
  }

  lemma PanelStands(tokens: seq<Token>, place: Place, line: string)
    requires place.PanelLine? && Holds(tokens, place, line, Page)
    ensures var t, p := place.token, place.panel;
            && t < |tokens| && tokens[t].TabSet? && p < |tokens[t].panels|
            && tokens[t].panels[p].html == Page(PanelText(place.tab))
            && place.n < |place.tab.lines| && place.tab.lines[place.n] == line
  {
    hide Page, Join;
  }

  /** Inside a panel there are no panels: the ledger never goes deeper than two texts. */
  lemma PanelIsFlat(content: string, k: nat)
    requires k < |Split(content, '\n')| && TextFateOf(content, k).InPanel?
    ensures !TextFateOf(content, k).inner.InPanel?
  {
    hide FateOf, LinesOf, Page, Split, Join, MayStand, Holds, TabsOf, IsRegion, MarkdownDepth.NoTabs;
    SpotMeans(content, k);
    var j := SpotOf(content, k).j;
    PanelIsText(content, j);
    var place := FateOf(LinesOf(content), j, Page).place;
    var text := PanelText(place.tab);
    var inner :| IsRegion(inner) && place.tab in TabsOf(inner);
    MarkdownDepth.PanelsNeverNest(inner, place.tab, Page, Page);
    PageUnfolds(text);
    EveryLineHasItsFate(text, place.n);
    NoTabSet(Page(text), TextFateOf(text, place.n), text, place.n);
  }

  lemma NoTabSet(tokens: seq<Token>, fate: TextFate, content: string, k: nat)
    requires MarkdownDepth.NoTabs(tokens) && Happens(tokens, fate, content, k)
    ensures !fate.InPanel?
  {
    hide Page, LinesOf, Split, Holds, MayStand;
    forall t | 0 <= t < |tokens|
      ensures !tokens[t].TabSet?
    {
      assert tokens[t] in tokens;
    }
  }
}
