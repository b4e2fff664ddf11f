/** What becomes of each line of a page: the place in the output where its text stands, or why it is lost. */
module MarkdownFate {
  import opened Text
  import opened MarkdownLines
  import opened MarkdownGrammar
  import opened MarkdownMeaning
  import opened MarkdownPage
  import opened MarkdownRest
  import CodeEscape
  import MarkdownCoverage
  import Slug

  /** Why a line leaves nothing in the output. */
  datatype Loss =
    | Stray | Blank | Separator
    | FenceOpen | FenceClose | UnclosedCode
    | RegionOpen | RegionEnd | UnclosedRegion | Wiped | BeforeFirstTab

  /** Where a line stands: in a token of the output, counted from 0, and there at a place that only this line has.
      A title says what of its line is shown. A panel line names the panel, its own number in the panel, and the tab the
      panel was rendered from. */
  datatype Place =
    | Whole(token: nat)
    | Cells(token: nat, isHeader: bool)
    | Language(token: nat)
    | CodeLine(token: nat, n: nat)
    | Marker(token: nat)
    | QuotePart(token: nat, offset: nat)
    | Title(token: nat, panel: nat, title: string)
    | PanelLine(token: nat, panel: nat, n: nat, tab: Tab)

  datatype Fate = Lost(why: Loss) | Kept(place: Place)

  // ---------------------------------------------------------------- the fate of a line in its block

  /** In what follows the last `:::tabs` of a region; `panel` counts the tabs so far. */
  function TabFate(lines: seq<string>, i: nat, token: nat, panel: nat): Fate
    requires i < |lines|
    decreases |lines|
  {
    if IsTabStart(lines[0]) then
      var n := Span(lines[1..], NotTabStart);
      if i == 0 then Kept(Title(token, panel, TabTitle(lines[0])))
      else if i <= n then Kept(PanelLine(token, panel, i - 1, Tab(TabTitle(lines[0]), lines[1..n + 1])))
      else TabFate(lines[n + 1..], i - n - 1, token, panel + 1)
    else if i == 0 then Lost(BeforeFirstTab)
    else TabFate(lines[1..], i - 1, token, panel)
  }

  /** How many lines of a region its last `:::tabs` wipes, itself included. */
  function WipedLines(inner: seq<string>): (n: nat)
    ensures n <= |inner| && AfterLastOpen(inner) == inner[n..]
  {
    AfterLastOpenIsSuffix(inner);
    |inner| - |AfterLastOpen(inner)|
  }

  function RegionFate(inner: seq<string>, i: nat, token: nat): Fate
    requires i < |inner|
  {
    var n := WipedLines(inner);
    if i + 1 == n then Lost(RegionOpen)
    else if i < n then Lost(Wiped)
    else TabFate(inner[n..], i - n, token, 0)
  }

  function Regions(ps: seq<Piece>): nat {
    if ps == [] then 0 else (if ps[0].TabsPiece? then 1 else 0) + Regions(ps[1..])
  }

  /** `codeAt` is the token of the fence's code, None when the fence is never closed; `token` counts the regions and `n`
      the code lines so far. */
  function PieceFate(ps: seq<Piece>, i: nat, token: nat, n: nat, codeAt: Option<nat>): Fate
    requires i < |PiecesSource(ps)|
  {
    var own := |PieceSource(ps[0])|;
    match ps[0]
    case CodePiece(_) =>
      if i == 0 then (if codeAt.Some? then Kept(CodeLine(codeAt.value, n)) else Lost(UnclosedCode))
      else PieceFate(ps[1..], i - own, token, n + 1, codeAt)
    case StrayPiece(_) =>
      if i == 0 then Lost(Stray) else PieceFate(ps[1..], i - own, token, n, codeAt)
    case TabsPiece(_, inner, _) =>
      if i == 0 then Lost(RegionOpen)
      else if i <= |inner| then RegionFate(inner, i - 1, token)
      else if i < own then Lost(RegionEnd)
      else PieceFate(ps[1..], i - own, token + 1, n, codeAt)
  }

  /** Where row `r` starts among the rendered rows. */
  function RowStart(rows: seq<seq<string>>, r: nat): nat
    requires r <= |rows|
  {
    if r == 0 then 0 else RowStart(rows, r - 1) + |RenderRow(rows[r - 1], r - 1)|
  }

  lemma {:induction false} RowsAt(lines: seq<string>, i: nat)
    requires i < |lines|
    ensures var r := |RowsOf(lines[..i])|;
            && r <= |RowsOf(lines)|
            && (Classify(lines[i]).RowLine? ==> r < |RowsOf(lines)| && RowsOf(lines)[r] == RowCells(lines[i]))
  {
    hide Classify, RowCells;
    if i == 0 {
      assert lines[..0] == [];
    } else {
      RowsAt(lines[1..], i - 1);
      assert lines[..i][1..] == lines[1..][..i - 1];
    }
  }

  function RowFate(lines: seq<string>, i: nat): Fate
    requires i < |lines|
  {
    var rows, r := RowsOf(lines), |RowsOf(lines[..i])|;
    RowsAt(lines, i);
    if !Classify(lines[i]).RowLine? then Lost(Stray)
    else if r == 1 && IsSeparator(RowCells(lines[i])) then Lost(Separator)
    else Kept(Cells(1 + RowStart(rows, r), r == 0))
  }

  /** What becomes of line `i` of a block, in the block's own output. */
  function FateIn(b: Block, i: nat): Fate
    requires i < |Source(b)|
  {
    match b
    case StrayBlock(_) => Lost(Stray)
    case BlankBlock(_) => Lost(Blank)
    case OpenTabsBlock(_, _) => Lost(if i == 0 then RegionOpen else UnclosedRegion)
    case TabsBlock(_, inner, _) =>
      if i == 0 then Lost(RegionOpen) else if i <= |inner| then RegionFate(inner, i - 1, 0) else Lost(RegionEnd)
    case FenceBlock(_, pieces, _) =>
      if i == 0 then Kept(Language(Regions(pieces)))
      else if i <= |PiecesSource(pieces)| then PieceFate(pieces, i - 1, 0, 0, Some(Regions(pieces)))
      else Lost(FenceClose)
    case OpenFenceBlock(_, pieces, _) =>
      if i == 0 then Lost(FenceOpen)
      else if i <= |PiecesSource(pieces)| then PieceFate(pieces, i - 1, 0, 0, None)
      else Lost(if i == |PiecesSource(pieces)| + 1 then RegionOpen else UnclosedRegion)
    case TableBlock(lines) => RowFate(lines, i)
    case ListBlock(_, lines) =>
      if Classify(lines[i]).ItemLine? then Kept(Whole(1 + |RenderItems(lines[..i])|)) else Lost(Stray)
    case HeadingBlock(_) => Kept(Whole(0))
    case AlertBlock(_, quoted) =>
      if i == 0 then Kept(Marker(0)) else Kept(QuotePart(0, Size(QuoteTexts(quoted[..i - 1]))))
    case QuoteBlock(lines) => Kept(QuotePart(0, Size(QuoteTexts(lines[..i]))))
    case RuleBlock(_) => Kept(Whole(0))
    case ParagraphBlock(_) => Kept(Whole(0))
  }

  /** The same place in another token. */
  function Moved(place: Place, token: nat): (r: Place)
    ensures r.token == token
  {
    match place
    case Whole(_) => Whole(token)
    case Cells(_, isHeader) => Cells(token, isHeader)
    case Language(_) => Language(token)
    case CodeLine(_, n) => CodeLine(token, n)
    case Marker(_) => Marker(token)
    case QuotePart(_, offset) => QuotePart(token, offset)
    case Title(_, panel, title) => Title(token, panel, title)
    case PanelLine(_, panel, n, tab) => PanelLine(token, panel, n, tab)
  }

  function Later(fate: Fate, tokens: nat): Fate {
    match fate
    case Lost(_) => fate
    case Kept(place) => Kept(Moved(place, place.token + tokens))
  }

  /** What becomes of line `k` of a page: its fate in the block it lies in, behind the output of the blocks before. */
  function FateOf(lines: seq<string>, k: nat, html: Html): Fate
    requires k < |lines|
    decreases |lines|
  {
    FirstIsPrefix(lines);
    var n := |Source(First(lines))|;
    if k < n then FateIn(First(lines), k) else Later(FateOf(lines[n..], k - n, html), |Render(First(lines), html)|)
  }

  // ---------------------------------------------------------------- what a place means

  /** The text of `line` stands at `place` of the output. */
  ghost predicate Holds(tokens: seq<Token>, place: Place, line: string, html: Html) {
    place.token < |tokens| &&
    if place.Cells? then exists cells :: IsCells(line, cells) && CellsStand(tokens, place.token, place.isHeader, cells)
    else Stands(tokens[place.token], place, line, html)
  }

  /** The text of `line` stands in `token`. */
  ghost predicate Stands(token: Token, place: Place, line: string, html: Html) {
    match place
    case Whole(_) => IsWhole(token, line)
    case Cells(_, _) => false
    case Language(_) => exists lang :: IsLanguage(line, lang) && HasLanguage(token, lang)
    case CodeLine(_, n) => (token.Code? || token.Mermaid?) && n < |CodeLines(token)| && CodeLines(token)[n] == line
    case Marker(_) => token.Alert? && Classify(line) == AlertLine(token.alertType)
    case QuotePart(_, offset) => (token.Quote? || token.Alert?) && QuoteStandsAt(token.text, offset, line)
    case Title(_, p, title) =>
      token.TabSet? && p < |token.panels| && IsTabStart(line) && token.panels[p].title == title && IsTitle(line, title)
    case PanelLine(_, p, n, tab) =>
      && token.TabSet? && p < |token.panels| && token.panels[p] == Panel(tab.title, html(Join(tab.lines, "\n")))
      && n < |tab.lines| && tab.lines[n] == line
  }

  ghost predicate IsWhole(token: Token, line: string) {
    match token
    case Item(kind, text) => Classify(line) == ItemLine(kind, text)
    case Heading(level, id, text) => Classify(line) == HeadingLine(level, text) && id == Slug.Anchor(text)
    case Rule => Classify(line) == RuleLine
    case Paragraph(text) => text == line
    case _ => false
  }

  ghost predicate CellsStand(tokens: seq<Token>, t: nat, isHeader: bool, cells: seq<string>) {
    && t + |cells| + 1 < |tokens|
    && tokens[t] == RowOpen && tokens[t + |cells| + 1] == RowClose
    && forall c :: 0 <= c < |cells| ==> tokens[t + 1 + c] == Cell(isHeader, Trim(cells[c]))
  }

  ghost predicate HasLanguage(token: Token, lang: string) {
    match token
    case Mermaid(_) => lang == "mermaid"
    case Code(l, _) => lang != "mermaid" && l == (if lang == "" then "plaintext" else lang)
    case _ => false
  }

  /** The code lines, read back from the token. */
  function CodeLines(token: Token): seq<string>
    requires token.Code? || token.Mermaid?
  {
    Split(if token.Code? then CodeEscape.Unescape(token.escaped) else token.code, '\n')
  }

  ghost predicate StandsAt(text: string, offset: nat, part: string) {
    offset + |part| <= |text| && text[offset..offset + |part|] == part
  }

  /** At the offset stands what is left of the line behind its `>`, up to white space. */
  ghost predicate QuoteStandsAt(text: string, offset: nat, line: string) {
    exists part :: IsQuoted(line, part) && StandsAt(text, offset, part)
  }

  lemma HoldsLater(tokens: seq<Token>, before: seq<Token>, after: seq<Token>, place: Place, line: string, html: Html)
    requires Holds(tokens, place, line, html)
    ensures Holds(before + tokens + after, Moved(place, place.token + |before|), line, html)
  {
    hide Stands, CellsStand, IsCells;
    var all, t := before + tokens + after, place.token;
    assert forall i :: 0 <= i < |tokens| ==> all[|before| + i] == tokens[i];
    if place.Cells? {
      var cells :| IsCells(line, cells) && CellsStand(tokens, place.token, place.isHeader, cells);
      CellsLater(tokens, all, |before|, t, place.isHeader, cells);
    } else {
      StandsMoved(tokens[t], place, t + |before|, line, html);
    }
  }

  lemma StandsMoved(token: Token, place: Place, t: nat, line: string, html: Html)
    ensures Stands(token, Moved(place, t), line, html) <==> Stands(token, place, line, html)
  {
    hide IsWhole, HasLanguage, IsLanguage, CodeLines, Classify, QuoteStandsAt, IsTabStart, IsTitle, Join;
  }

  lemma CellsLater(tokens: seq<Token>, all: seq<Token>, d: nat, t: nat, isHeader: bool, cells: seq<string>)
    requires CellsStand(tokens, t, isHeader, cells)
    requires d + |tokens| <= |all| && forall i :: 0 <= i < |tokens| ==> all[d + i] == tokens[i]
    ensures CellsStand(all, t + d, isHeader, cells)
  {
    hide Trim;
    assert all[d + t] == tokens[t] && all[d + (t + |cells| + 1)] == tokens[t + |cells| + 1];
    forall c | 0 <= c < |cells|
      ensures all[t + d + 1 + c] == Cell(isHeader, Trim(cells[c]))
    {
      var i := t + 1 + c;
      assert all[d + i] == tokens[i];
    }
  }

  // ---------------------------------------------------------------- tabs

  /** `place` is the title or a line of a tab of the region. */
  ghost predicate TabHolds(tabs: seq<Tab>, place: Place, token: nat, panel: nat, line: string) {
    && (place.Title? || place.PanelLine?) && place.token == token && panel <= place.panel < panel + |tabs|
    && var tab := tabs[place.panel - panel];
       if place.Title? then IsTabStart(line) && tab.title == place.title == TabTitle(line)
       else place.tab == tab && place.n < |tab.lines| && tab.lines[place.n] == line
  }

  lemma {:induction false} TabFateHolds(lines: seq<string>, i: nat, token: nat, panel: nat)
    requires i < |lines|
    ensures match TabFate(lines, i, token, panel)
            case Lost(why) => why == BeforeFirstTab && !IsTabStart(lines[0])
            case Kept(place) => TabHolds(SplitTabs(lines), place, token, panel, lines[i])
    decreases |lines|
  {
    hide IsTabStart, TabTitle, Span, SplitTabs, TabHolds;
    if IsTabStart(lines[0]) {
      var n := Span(lines[1..], NotTabStart);
      SplitTabsHead(lines, n);
      if i > n {
        var rest := lines[n + 1..];
        TabFateHolds(rest, i - n - 1, token, panel + 1);
        TabStartsThere(lines, n);
        TabHoldsMore(Tab(TabTitle(lines[0]), lines[1..n + 1]), SplitTabs(rest),
                     TabFate(rest, i - n - 1, token, panel + 1).place, token, panel, lines[i]);
      } else {
        FirstTabHolds(lines, n, i, token, panel, SplitTabs(lines[n + 1..]));
      }
    } else if i > 0 {
      SplitTabsNext(lines);
      TabFateHolds(lines[1..], i - 1, token, panel);
    }
  }

  lemma FirstTabHolds(lines: seq<string>, n: nat, i: nat, token: nat, panel: nat, tabs: seq<Tab>)
    requires i <= n < |lines| && IsTabStart(lines[0])
    ensures var tab := Tab(TabTitle(lines[0]), lines[1..n + 1]);
            TabHolds([tab] + tabs,
                     if i == 0 then Title(token, panel, tab.title) else PanelLine(token, panel, i - 1, tab),
                     token, panel, lines[i])
  {
    hide IsTabStart, TabTitle;
  }

  lemma TabHoldsMore(tab: Tab, tabs: seq<Tab>, place: Place, token: nat, panel: nat, line: string)
    requires TabHolds(tabs, place, token, panel + 1, line)
    ensures TabHolds([tab] + tabs, place, token, panel, line)
  {
    hide IsTabStart, TabTitle;
  }

  /** One step of the search for the tab a line lies in. */
  lemma TabFateSteps(lines: seq<string>, i: nat, token: nat, panel: nat)
    requires i < |lines|
    ensures var fate := TabFate(lines, i, token, panel);
            if IsTabStart(lines[0]) then
              var n := Span(lines[1..], NotTabStart);
              if i == 0 then fate == Kept(Title(token, panel, TabTitle(lines[0])))
              else if i <= n then fate == Kept(PanelLine(token, panel, i - 1, Tab(TabTitle(lines[0]), lines[1..n + 1])))
              else fate == TabFate(lines[n + 1..], i - n - 1, token, panel + 1)
            else if i == 0 then fate == Lost(BeforeFirstTab)
            else fate == TabFate(lines[1..], i - 1, token, panel)
  {
    hide IsTabStart, TabTitle, Span;
  }

  lemma SplitTabsNext(lines: seq<string>)
    requires lines != [] && !IsTabStart(lines[0])
    ensures SplitTabs(lines) == SplitTabs(lines[1..])
  {
    hide IsTabStart;
  }

  lemma TabStartsThere(lines: seq<string>, n: nat)
    requires lines != [] && n == Span(lines[1..], NotTabStart) && n + 1 < |lines|
    ensures IsTabStart(lines[n + 1..][0])
  {
    hide IsTabStart, Span;
    assert lines[n + 1..][0] == lines[1..][n];
  }

  lemma {:induction false} PanelAt(tabs: seq<Tab>, p: nat, html: Html)
    requires p < |tabs|
    ensures |RenderPanels(tabs, html)| == |tabs|
    ensures RenderPanels(tabs, html)[p] == Panel(tabs[p].title, html(Join(tabs[p].lines, "\n")))
  {
    hide Join;
    if p > 0 {
      PanelAt(tabs[1..], p - 1, html);
    } else {
      PanelCount(tabs, html);
    }
  }

  lemma {:induction false} PanelCount(tabs: seq<Tab>, html: Html)
    ensures |RenderPanels(tabs, html)| == |tabs|
  {
    if tabs != [] {
      PanelCount(tabs[1..], html);
    }
  }

  lemma RegionFateHolds(inner: seq<string>, i: nat, token: nat, html: Html)
    requires i < |inner| && RegionFate(inner, i, token).Kept?
    ensures var place := RegionFate(inner, i, token).place;
            && (place.Title? || place.PanelLine?) && place.token == token
            && Stands(RenderTabs(TabsOf(inner), html), place, inner[i], html)
            && (place.PanelLine? ==> place.panel < |TabsOf(inner)| && place.tab == TabsOf(inner)[place.panel])
  {
    hide IsTabStart, TabTitle, TabFate, AfterLastOpen, SplitTabs, RenderPanels, Join, IsTitle;
    var n := WipedLines(inner);
    TabFateHolds(inner[n..], i - n, token, 0);
    var place, tabs := RegionFate(inner, i, token).place, TabsOf(inner);
    assert inner[n..][i - n] == inner[i];
    PanelAt(tabs, place.panel, html);
    TitleMeaning(inner[i], TabTitle(inner[i]));
  }

  // ---------------------------------------------------------------- fences

  lemma {:induction false} RegionsRender(ps: seq<Piece>, html: Html)
    ensures |RenderPieces(ps, html)| == Regions(ps)
  {
    hide RenderTabs, TabsOf;
    if ps != [] {
      RegionsRender(ps[1..], html);
    }
  }

  /** `place` is one of the code lines, or stands in one of the regions of a fence. */
  ghost predicate PieceHolds(code: seq<string>, regions: seq<Token>, place: Place, token: nat, n: nat,
                             codeAt: Option<nat>, line: string, html: Html) {
    if place.CodeLine? then codeAt == Some(place.token) && n <= place.n < n + |code| && code[place.n - n] == line
    else
      && (place.Title? || place.PanelLine?) && token <= place.token < token + |regions|
      && Stands(regions[place.token - token], place, line, html)
  }

  lemma {:induction false} PieceFateHolds(ps: seq<Piece>, i: nat, token: nat, n: nat, codeAt: Option<nat>, html: Html)
    requires i < |PiecesSource(ps)| && PieceFate(ps, i, token, n, codeAt).Kept?
    ensures PieceHolds(CodeOf(ps), RenderPieces(ps, html), PieceFate(ps, i, token, n, codeAt).place, token, n, codeAt,
                       PiecesSource(ps)[i], html)
  {
    hide PieceHolds, PieceFate, RegionFate, RenderTabs, TabsOf, PiecesSource, CodeOf, RenderPieces;
    PiecesAt(ps, i);
    var own, rest, line := |PieceSource(ps[0])|, ps[1..], PiecesSource(ps)[i];
    var place, code, regions := PieceFate(ps, i, token, n, codeAt).place, CodeOf(rest), RenderPieces(rest, html);
    PieceOutput(ps, html);
    PieceFateSteps(ps, i, token, n, codeAt);
    match ps[0]
    case CodePiece(first) =>
      if i > 0 {
        PieceFateHolds(rest, i - own, token, n + 1, codeAt, html);
        BehindCode(first, code, regions, place, token, n, codeAt, line, html);
      } else {
        FirstCodeHolds(first, code, regions, token, n, codeAt.value, html);
      }
    case StrayPiece(_) => PieceFateHolds(rest, i - own, token, n, codeAt, html);
    case TabsPiece(_, inner, _) =>
      if i <= |inner| {
        RegionPieceHolds(inner, i - 1, code, regions, token, n, codeAt, html);
      } else {
        PieceFateHolds(rest, i - own, token + 1, n, codeAt, html);
        BehindRegion(RenderTabs(TabsOf(inner), html), code, regions, place, token, n, codeAt, line, html);
      }
  }

  lemma PiecesAt(ps: seq<Piece>, i: nat)
    requires i < |PiecesSource(ps)|
    ensures ps != []
    ensures var first := PieceSource(ps[0]);
            && |PiecesSource(ps)| == |first| + |PiecesSource(ps[1..])|
            && PiecesSource(ps)[i] == if i < |first| then first[i] else PiecesSource(ps[1..])[i - |first|]
    ensures ps[0].TabsPiece? && 1 <= i <= |ps[0].inner| ==> PieceSource(ps[0])[i] == ps[0].inner[i - 1]
  {
  }

  /** One step of the search for the piece a line lies in. */
  lemma PieceFateSteps(ps: seq<Piece>, i: nat, token: nat, n: nat, codeAt: Option<nat>)
    requires i < |PiecesSource(ps)|
    ensures ps != []
    ensures var own, fate := |PieceSource(ps[0])|, PieceFate(ps, i, token, n, codeAt);
            if i >= own then
              i - own < |PiecesSource(ps[1..])| &&
              fate == PieceFate(ps[1..], i - own, if ps[0].TabsPiece? then token + 1 else token,
                                if ps[0].CodePiece? then n + 1 else n, codeAt)
            else match ps[0]
              case CodePiece(_) => fate == if codeAt.Some? then Kept(CodeLine(codeAt.value, n)) else Lost(UnclosedCode)
              case StrayPiece(_) => fate == Lost(Stray)
              case TabsPiece(_, inner, _) =>
                if i == 0 then fate == Lost(RegionOpen)
                else if i <= |inner| then fate == RegionFate(inner, i - 1, token)
                else fate == Lost(RegionEnd)
  {
    hide RegionFate, PiecesSource;
    PiecesAt(ps, i);
  }

  lemma PieceOutput(ps: seq<Piece>, html: Html)
    requires ps != []
    ensures CodeOf(ps) == if ps[0].CodePiece? then [ps[0].line] + CodeOf(ps[1..]) else CodeOf(ps[1..])
    ensures RenderPieces(ps, html) ==
            if ps[0].TabsPiece? then [RenderTabs(TabsOf(ps[0].inner), html)] + RenderPieces(ps[1..], html)
            else RenderPieces(ps[1..], html)
  {
    hide RenderTabs, TabsOf;
    assert [] + CodeOf(ps[1..]) == CodeOf(ps[1..]) && [] + RenderPieces(ps[1..], html) == RenderPieces(ps[1..], html);
  }

  lemma BehindCode(first: string, code: seq<string>, regions: seq<Token>, place: Place, token: nat, n: nat,
                   codeAt: Option<nat>, line: string, html: Html)
    requires PieceHolds(code, regions, place, token, n + 1, codeAt, line, html)
    ensures PieceHolds([first] + code, regions, place, token, n, codeAt, line, html)
  {
    hide Stands;
  }

  lemma FirstCodeHolds(first: string, code: seq<string>, regions: seq<Token>, token: nat, n: nat, codeAt: nat,
                       html: Html)
    ensures PieceHolds([first] + code, regions, CodeLine(codeAt, n), token, n, Some(codeAt), first, html)
  {
    hide Stands;
  }

  lemma BehindRegion(region: Token, code: seq<string>, regions: seq<Token>, place: Place, token: nat, n: nat,
                     codeAt: Option<nat>, line: string, html: Html)
    requires PieceHolds(code, regions, place, token + 1, n, codeAt, line, html)
    ensures PieceHolds(code, [region] + regions, place, token, n, codeAt, line, html)
  {
    hide Stands;
  }

  lemma RegionPieceHolds(inner: seq<string>, i: nat, code: seq<string>, regions: seq<Token>, token: nat, n: nat,
                         codeAt: Option<nat>, html: Html)
    requires i < |inner| && RegionFate(inner, i, token).Kept?
    ensures PieceHolds(code, [RenderTabs(TabsOf(inner), html)] + regions, RegionFate(inner, i, token).place, token, n,
                       codeAt, inner[i], html)
  {
    hide Stands, RenderTabs, TabsOf, RegionFate;
    RegionFateHolds(inner, i, token, html);
  }

  /** The lines of a closed fence. */
  lemma FenceHolds(open: string, pieces: seq<Piece>, close: string, i: nat, html: Html)
    requires i < |Source(FenceBlock(open, pieces, close))| && Plain(PiecesSource(pieces)) && Classify(open) == FenceLine
    requires FateIn(FenceBlock(open, pieces, close), i).Kept?
    ensures var b := FenceBlock(open, pieces, close);
            Holds(Render(b, html), FateIn(b, i).place, Source(b)[i], html)
  {
    hide PieceFate, RenderPieces, FenceLang, CodeOf, PiecesSource, RenderCode, Regions, HasLanguage, CodeLines, Split,
         IsLanguage, Classify;
    var regions, token := RenderPieces(pieces, html), RenderCode(FenceLang(open), CodeOf(pieces));
    RegionsRender(pieces, html);
    if i == 0 {
      FenceHasLanguage(open);
      LanguageStands(FenceLang(open), CodeOf(pieces));
      assert Holds([token], Language(0), open, html);
      HoldsLater([token], regions, [], Language(0), open, html);
      assert regions + [token] + [] == regions + [token];
    } else {
      PieceFateHolds(pieces, i - 1, 0, 0, Some(Regions(pieces)), html);
      FencePieceHolds(pieces, i - 1, FenceLang(open), html);
    }
  }

  lemma FenceHasLanguage(line: string)
    requires Classify(line) == FenceLine
    ensures IsLanguage(line, FenceLang(line))
  {
    hide IsLanguage, FenceLang, Trim;
    LanguageMeaning(line, FenceLang(line));
  }

  lemma LanguageStands(lang: string, code: seq<string>)
    ensures HasLanguage(RenderCode(lang, code), lang)
  {
    hide CodeEscape.Escape, Join;
  }

  lemma FencePieceHolds(pieces: seq<Piece>, i: nat, lang: string, html: Html)
    requires i < |PiecesSource(pieces)| && Plain(PiecesSource(pieces))
    requires PieceFate(pieces, i, 0, 0, Some(Regions(pieces))).Kept?
    ensures Holds(RenderPieces(pieces, html) + [RenderCode(lang, CodeOf(pieces))],
                  PieceFate(pieces, i, 0, 0, Some(Regions(pieces))).place, PiecesSource(pieces)[i], html)
  {
    hide PieceFate, RenderPieces, CodeOf, PiecesSource, RenderCode, Regions, Stands;
    var regions, token := RenderPieces(pieces, html), RenderCode(lang, CodeOf(pieces));
    var place, line := PieceFate(pieces, i, 0, 0, Some(Regions(pieces))).place, PiecesSource(pieces)[i];
    RegionsRender(pieces, html);
    PieceFateHolds(pieces, i, 0, 0, Some(Regions(pieces)), html);
    if place.CodeLine? {
      MarkdownCoverage.CodeOfPlain(pieces);
      CodeLineStands(lang, CodeOf(pieces), place.n, line, html);
      HoldsLater([token], regions, [], CodeLine(0, place.n), line, html);
      assert regions + [token] + [] == regions + [token];
    } else {
      RegionStands(regions, place, [token], line, html);
    }
  }

  lemma CodeLineStands(lang: string, code: seq<string>, n: nat, line: string, html: Html)
    requires Plain(code) && n < |code| && code[n] == line
    ensures Holds([RenderCode(lang, code)], CodeLine(0, n), line, html)
  {
    hide RenderCode, Split, CodeEscape.Unescape;
    MarkdownCoverage.CodeSurvives(lang, code);
  }

  lemma RegionStands(regions: seq<Token>, place: Place, after: seq<Token>, line: string, html: Html)
    requires place.token < |regions| && !place.Cells? && Stands(regions[place.token], place, line, html)
    ensures Holds(regions + after, place, line, html)
  {
    hide Stands;
  }

  // ---------------------------------------------------------------- lists, tables, quotes

  lemma {:induction false} ItemAt(lines: seq<string>, i: nat)
    requires i < |lines| && Classify(lines[i]).ItemLine?
    ensures var t := |RenderItems(lines[..i])|;
            && t < |RenderItems(lines)|
            && RenderItems(lines)[t] == Item(Classify(lines[i]).kind, Classify(lines[i]).text)
  {
    hide Classify;
    if i == 0 {
      assert lines[..0] == [];
    } else {
      ItemAt(lines[1..], i - 1);
      assert lines[..i][1..] == lines[1..][..i - 1];
    }
  }

  lemma ListHolds(kind: ListKind, lines: seq<string>, i: nat, html: Html)
    requires i < |lines| && Classify(lines[i]).ItemLine?
    ensures Holds(Render(ListBlock(kind, lines), html), Whole(1 + |RenderItems(lines[..i])|), lines[i], html)
  {
    hide Classify, RenderItems;
    ItemAt(lines, i);
  }

  lemma {:induction false} RowPlace(rows: seq<seq<string>>, idx: nat, r: nat)
    requires idx <= r < |rows|
    ensures RowStart(rows, idx) <= RowStart(rows, r)
    ensures var o, row, all := RowStart(rows, r) - RowStart(rows, idx), RenderRow(rows[r], r), RenderRows(rows, idx);
            o + |row| <= |all| && all[o..o + |row|] == row
    decreases r - idx
  {
    hide RenderRow;
    if idx < r {
      RowPlace(rows, idx + 1, r);
      var o, row := RowStart(rows, r) - RowStart(rows, idx + 1), RenderRow(rows[r], r);
      var first, rest := RenderRow(rows[idx], idx), RenderRows(rows, idx + 1);
      assert (first + rest)[|first| + o..|first| + o + |row|] == rest[o..o + |row|];
    } else {
      var row := RenderRow(rows[r], r);
      assert (row + RenderRows(rows, r + 1))[..|row|] == row;
    }
  }

  lemma {:induction false} CellsRender(isHeader: bool, cells: seq<string>)
    ensures |RenderCells(isHeader, cells)| == |cells|
    ensures forall c :: 0 <= c < |cells| ==> RenderCells(isHeader, cells)[c] == Cell(isHeader, Trim(cells[c]))
  {
    hide Trim;
    if cells != [] {
      CellsRender(isHeader, cells[1..]);
    }
  }

  lemma RowStands(cells: seq<string>, r: nat)
    requires !(r == 1 && IsSeparator(cells))
    ensures CellsStand(RenderRow(cells, r), 0, r == 0, cells)
  {
    hide IsSeparator, Trim, RenderCells;
    CellsRender(r == 0, cells);
  }

  /** A row that is shown stands in the table behind the rows before it. */
  lemma RowInTable(rows: seq<seq<string>>, r: nat)
    requires r < |rows| && !(r == 1 && IsSeparator(rows[r]))
    ensures CellsStand([TableOpen] + RenderRows(rows, 0) + [TableClose], 1 + RowStart(rows, r), r == 0, rows[r])
  {
    hide IsSeparator, RenderRow, RenderRows, RowStart, CellsStand;
    var row, all, o := RenderRow(rows[r], r), RenderRows(rows, 0), RowStart(rows, r);
    RowPlace(rows, 0, r);
    RowStands(rows[r], r);
    RowZero(rows);
    var tokens := [TableOpen] + all + [TableClose];
    assert row == all[o..o + |row|];
    forall j | 0 <= j < |row|
      ensures tokens[1 + o + j] == row[j]
    {
      assert row[j] == all[o + j];
    }
    CellsLater(row, tokens, 1 + o, 0, r == 0, rows[r]);
  }

  lemma TableHolds(lines: seq<string>, i: nat, html: Html)
    requires i < |lines| && RowFate(lines, i).Kept?
    ensures Holds(Render(TableBlock(lines), html), RowFate(lines, i).place, lines[i], html)
  {
    hide Classify, RowCells, IsSeparator, RowsOf, RenderRow, RenderRows, RowStart, CellsStand, IsCells;
    RowsAt(lines, i);
    var rows, r := RowsOf(lines), |RowsOf(lines[..i])|;
    RowInTable(rows, r);
    RowLineCells(lines[i]);
    CellsFit([TableOpen] + RenderRows(rows, 0) + [TableClose], 1 + RowStart(rows, r), r == 0, rows[r]);
  }

  lemma RowLineCells(line: string)
    requires Classify(line).RowLine?
    ensures IsCells(line, RowCells(line))
  {
    hide RowCells, IsCells, Trim, MatchHeading, MatchBullet, MatchNumber, MatchAlert;
    RowHasCells(line);
  }

  lemma RowZero(rows: seq<seq<string>>)
    ensures RowStart(rows, 0) == 0
  {
  }

  lemma CellsFit(tokens: seq<Token>, t: nat, isHeader: bool, cells: seq<string>)
    requires CellsStand(tokens, t, isHeader, cells)
    ensures t < |tokens|
  {
  }

  lemma {:induction false} JoinAt(parts: seq<string>, i: nat)
    requires i < |parts|
    ensures StandsAt(Join(parts, " "), Size(parts[..i]), parts[i])
  {
    if i == 0 {
      assert parts[..0] == [];
    } else {
      JoinAt(parts[1..], i - 1);
      assert parts[..i][1..] == parts[1..][..i - 1];
      var rest, n := Join(parts[1..], " "), Size(parts[1..][..i - 1]);
      var whole := parts[0] + " " + rest;
      assert whole[|parts[0]| + 1 + n..|parts[0]| + 1 + n + |parts[i]|] == rest[n..n + |parts[i]|];
    }
  }

  lemma {:induction false} QuoteTextsEach(lines: seq<string>, i: nat)
    requires i < |lines|
    ensures |QuoteTexts(lines)| == |lines| && QuoteTexts(lines)[i] == QuoteText(lines[i])
    ensures QuoteTexts(lines)[..i] == QuoteTexts(lines[..i])
  {
    hide QuoteText;
    if i == 0 {
      assert lines[..0] == [];
      QuoteTextsCount(lines);
    } else {
      QuoteTextsEach(lines[1..], i - 1);
      assert lines[..i][1..] == lines[1..][..i - 1];
    }
  }

  lemma {:induction false} QuoteTextsCount(lines: seq<string>)
    ensures |QuoteTexts(lines)| == |lines|
  {
    hide QuoteText;
    if lines != [] {
      QuoteTextsCount(lines[1..]);
    }
  }

  lemma QuoteStands(lines: seq<string>, i: nat)
    requires i < |lines|
    ensures StandsAt(Join(QuoteTexts(lines), " "), Size(QuoteTexts(lines[..i])), QuoteText(lines[i]))
  {
    hide QuoteText, QuoteTexts, Join, Size, StandsAt;
    QuoteTextsEach(lines, i);
    JoinAt(QuoteTexts(lines), i);
  }

  // ---------------------------------------------------------------- every line of a page

  /** In its own block, a line that is kept stands where its fate says. */
  lemma FateInHolds(b: Block, i: nat, html: Html)
    requires GoodBlock(b) && Plain(Source(b)) && i < |Source(b)| && FateIn(b, i).Kept?
    ensures Holds(Render(b, html), FateIn(b, i).place, Source(b)[i], html)
  {
    hide Classify, RegionFate, PieceFate, RowFate, Render, RenderItems, QuoteTexts, Size, PiecesSource, Regions, Holds,
         GoodPieces;
    match b
    case TabsBlock(open, inner, close) =>
      assert Source(b)[i] == inner[i - 1];
      TabsHold(open, inner, close, i - 1, html);
    case FenceBlock(open, pieces, close) =>
      FencePlain(open, pieces, close);
      FenceHolds(open, pieces, close, i, html);
    case OpenFenceBlock(open, pieces, dangling) => OpenFenceHolds(open, pieces, dangling, i, html);
    case TableBlock(lines) => TableHolds(lines, i, html);
    case ListBlock(kind, lines) => ListHolds(kind, lines, i, html);
    case AlertBlock(line, quoted) =>
      if i > 0 {
        assert Source(b)[i] == quoted[i - 1];
        AlertHolds(line, quoted, i - 1, html);
      } else {
        LineHolds(b, html);
      }
    case QuoteBlock(lines) =>
      QuoteLineQuotes(lines[0]);
      QuoteHolds(lines, i, html);
    case HeadingBlock(_) => LineHolds(b, html);
    case RuleBlock(_) => LineHolds(b, html);
    case ParagraphBlock(_) => LineHolds(b, html);
    case _ =>
  }

  lemma QuoteLineQuotes(line: string)
    requires Classify(line) == QuoteLine
    ensures IsQuote(line)
  {
    hide Trim, MatchHeading, MatchBullet, MatchNumber, MatchAlert;
  }

  lemma TabsHold(open: string, inner: seq<string>, close: string, i: nat, html: Html)
    requires i < |inner| && RegionFate(inner, i, 0).Kept?
    ensures Holds(Render(TabsBlock(open, inner, close), html), RegionFate(inner, i, 0).place, inner[i], html)
  {
    hide RegionFate, RenderTabs, TabsOf, Stands;
    RegionFateHolds(inner, i, 0, html);
  }

  lemma LineHolds(b: Block, html: Html)
    requires GoodBlock(b) && (b.HeadingBlock? || b.RuleBlock? || b.ParagraphBlock? || b.AlertBlock?)
    ensures Holds(Render(b, html), FateIn(b, 0).place, Source(b)[0], html)
  {
    hide Classify, Slug.Anchor, QuoteTexts, Join;
  }

  lemma AlertHolds(line: string, quoted: seq<string>, i: nat, html: Html)
    requires i < |quoted| && Classify(line).AlertLine? && IsQuote(quoted[i])
    ensures Holds(Render(AlertBlock(line, quoted), html), QuotePart(0, Size(QuoteTexts(quoted[..i]))), quoted[i], html)
  {
    hide Classify, QuoteText, QuoteTexts, Join, Size, StandsAt, IsQuote, IsQuoted;
    QuoteStands(quoted, i);
    QuoteMeaning(quoted[i], QuoteText(quoted[i]));
  }

  lemma QuoteHolds(lines: seq<string>, i: nat, html: Html)
    requires i < |lines| && IsQuote(lines[i])
    ensures Holds(Render(QuoteBlock(lines), html), QuotePart(0, Size(QuoteTexts(lines[..i]))), lines[i], html)
  {
    hide QuoteText, QuoteTexts, Join, Size, StandsAt, IsQuote, IsQuoted;
    QuoteStands(lines, i);
    QuoteMeaning(lines[i], QuoteText(lines[i]));
  }

  lemma FencePlain(open: string, pieces: seq<Piece>, close: string)
    requires Plain([open] + PiecesSource(pieces) + [close])
    ensures Plain(PiecesSource(pieces))
  {
    hide PiecesSource;
    var all := [open] + PiecesSource(pieces) + [close];
    forall i | 0 <= i < |PiecesSource(pieces)|
      ensures '\n' !in PiecesSource(pieces)[i]
    {
      assert all[i + 1] == PiecesSource(pieces)[i];
    }
  }

  lemma OpenFenceHolds(open: string, pieces: seq<Piece>, dangling: seq<string>, i: nat, html: Html)
    requires i < |Source(OpenFenceBlock(open, pieces, dangling))|
             && FateIn(OpenFenceBlock(open, pieces, dangling), i).Kept?
    ensures var b := OpenFenceBlock(open, pieces, dangling);
            Holds(Render(b, html), FateIn(b, i).place, Source(b)[i], html)
  {
    hide PieceFate, RenderPieces, PiecesSource, Regions, Stands;
    PieceFateHolds(pieces, i - 1, 0, 0, None, html);
    var place := PieceFate(pieces, i - 1, 0, 0, None).place;
    RegionStands(RenderPieces(pieces, html), place, [], PiecesSource(pieces)[i - 1], html);
    assert RenderPieces(pieces, html) + [] == RenderPieces(pieces, html);
  }

  /** Every line of a page that is not lost stands in the output, at the place its fate names. */
  lemma {:induction false} FateHolds(lines: seq<string>, k: nat, html: Html)
    requires k < |lines| && Plain(lines) && FateOf(lines, k, html).Kept?
    ensures Holds(RenderLines(lines, html), FateOf(lines, k, html).place, lines[k], html)
    decreases |lines|
  {
    hide First, FateIn, Source, Render, RenderLines, GoodBlock, Holds;
    FirstIsPrefix(lines);
    FirstIsGood(lines);
    RenderFirst(lines, html);
    var b := First(lines);
    var n, own := |Source(b)|, Render(b, html);
    var rest := RenderLines(lines[n..], html);
    assert Source(b) == lines[..n];
    if k < n {
      FateInHolds(b, k, html);
      HoldsLater(own, [], rest, FateIn(b, k).place, lines[k], html);
      assert [] + own + rest == own + rest;
    } else {
      FateHolds(lines[n..], k - n, html);
      HoldsLater(rest, own, [], FateOf(lines[n..], k - n, html).place, lines[k], html);
      assert own + rest + [] == own + rest;
    }
  }

  /** A separator row is one whose every cell begins with a dash but for white space; a row without cells is one too. */
  lemma SeparatorMeans(cells: seq<string>)
    ensures IsSeparator(cells) <==> forall i :: 0 <= i < |cells| ==> Begins(cells[i], "-")
  {
    hide Trim, Begins;
    forall i | 0 <= i < |cells|
      ensures "-" <= Trim(cells[i]) <==> Begins(cells[i], "-")
    {
      DashMeans(cells[i]);
    }
  }

  lemma DashMeans(cell: string)
    ensures "-" <= Trim(cell) <==> Begins(cell, "-")
  {
    hide Trim;
    TrimStartsWith(cell, "-");
  }
}
