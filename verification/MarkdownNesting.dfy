/** The emitted tokens are well nested, whatever the page. */
module MarkdownNesting {
  import opened Text
  import opened MarkdownLines
  import opened MarkdownGrammar
  import opened MarkdownPage
  import Slug

  datatype Open = OpenList(kind: ListKind) | OpenTable | OpenRow

  /** The open elements after a token; None when the token may not stand there. Lists and tables open only
      at the top, an item needs a list of its own kind, and a cell needs a row. */
  function Next(token: Token, st: seq<Open>): Option<seq<Open>> {
    match token
    case ListOpen(kind) => if st == [] then Some([OpenList(kind)]) else None
    case Item(kind, _) => if st == [OpenList(kind)] then Some(st) else None
    case ListClose(kind) => if st == [OpenList(kind)] then Some([]) else None
    case TableOpen => if st == [] then Some([OpenTable]) else None
    case RowOpen => if st == [OpenTable] then Some([OpenTable, OpenRow]) else None
    case Cell(_, _) => if st == [OpenTable, OpenRow] then Some(st) else None
    case RowClose => if st == [OpenTable, OpenRow] then Some([OpenTable]) else None
    case TableClose => if st == [OpenTable] then Some([]) else None
    case _ => if st == [] then Some([]) else None
  }

  function Run(tokens: seq<Token>, st: seq<Open>): Option<seq<Open>> {
    if tokens == [] then Some(st)
    else
      match Next(tokens[0], st)
      case None => None
      case Some(st') => Run(tokens[1..], st')
  }

  /** Everything opened is closed in order, inside every panel as well. */
  ghost predicate WellNested(tokens: seq<Token>) {
    Run(tokens, []) == Some([]) &&
    forall t :: t in tokens && t.TabSet? ==> forall p :: p in t.panels ==> WellNested(p.html)
  }

  lemma {:induction false} RunAppend(a: seq<Token>, b: seq<Token>, st: seq<Open>)
    ensures Run(a + b, st) == match Run(a, st) { case None => None case Some(st') => Run(b, st') }
  {
    hide Next;
    if a == [] {
      assert a + b == b;
    } else {
      assert (a + b)[1..] == a[1..] + b;
      match Next(a[0], st)
      case None =>
      case Some(st') => RunAppend(a[1..], b, st');
    }
  }

  lemma RunOne(token: Token, st: seq<Open>)
    ensures Run([token], st) == Next(token, st)
  {
    assert [token][1..] == [];
  }

  lemma NestedAppend(a: seq<Token>, b: seq<Token>)
    requires WellNested(a) && WellNested(b)
    ensures WellNested(a + b)
  {
    hide Run;
    RunAppend(a, b, []);
  }

  lemma NestedNothing()
    ensures WellNested([])
  {
  }

  lemma {:induction false} ItemsRun(kind: ListKind, lines: seq<string>)
    requires forall i :: 0 <= i < |lines| ==> InList(kind, lines[i])
    ensures Run(RenderItems(lines), [OpenList(kind)]) == Some([OpenList(kind)])
    ensures forall t :: t in RenderItems(lines) ==> t.Item?
  {
    hide Classify;
    if lines != [] {
      ItemsRun(kind, lines[1..]);
      assert InList(kind, lines[0]);
      var head := if Classify(lines[0]).ItemLine? then [Item(Classify(lines[0]).kind, Classify(lines[0]).text)] else [];
      RunAppend(head, RenderItems(lines[1..]), [OpenList(kind)]);
      if head != [] {
        RunOne(head[0], [OpenList(kind)]);
      }
    }
  }

  lemma {:induction false} CellsRun(isHeader: bool, cells: seq<string>)
    ensures Run(RenderCells(isHeader, cells), [OpenTable, OpenRow]) == Some([OpenTable, OpenRow])
    ensures forall t :: t in RenderCells(isHeader, cells) ==> t.Cell?
  {
    hide Trim;
    if cells != [] {
      CellsRun(isHeader, cells[1..]);
      assert RenderCells(isHeader, cells)[1..] == RenderCells(isHeader, cells[1..]);
    }
  }

  lemma RowRun(cells: seq<string>, idx: nat)
    ensures Run(RenderRow(cells, idx), [OpenTable]) == Some([OpenTable])
    ensures forall t :: t in RenderRow(cells, idx) ==> !t.TabSet?
  {
    hide IsSeparator, RenderCells;
    if !(idx == 1 && IsSeparator(cells)) {
      var body := RenderCells(idx == 0, cells);
      CellsRun(idx == 0, cells);
      RunOne(RowOpen, [OpenTable]);
      RunAppend([RowOpen], body, [OpenTable]);
      RunAppend([RowOpen] + body, [RowClose], [OpenTable]);
      RunOne(RowClose, [OpenTable, OpenRow]);
    }
  }

  lemma {:induction false} RowsRun(rows: seq<seq<string>>, idx: nat)
    requires idx <= |rows|
    ensures Run(RenderRows(rows, idx), [OpenTable]) == Some([OpenTable])
    ensures forall t :: t in RenderRows(rows, idx) ==> !t.TabSet?
    decreases |rows| - idx
  {
    hide RenderRow;
    if idx < |rows| {
      RowRun(rows[idx], idx);
      RowsRun(rows, idx + 1);
      RunAppend(RenderRow(rows[idx], idx), RenderRows(rows, idx + 1), [OpenTable]);
    }
  }

  /** Something opened at the top, a body that keeps it open, and its closing. */
  lemma Wrapped(open: Token, body: seq<Token>, close: Token, st: seq<Open>)
    requires Next(open, []) == Some(st) && Run(body, st) == Some(st) && Next(close, st) == Some([])
    requires !open.TabSet? && !close.TabSet? && forall t :: t in body ==> !t.TabSet?
    ensures WellNested([open] + body + [close])
  {
    hide Next;
    RunOne(open, []);
    RunAppend([open], body, []);
    RunAppend([open] + body, [close], []);
    RunOne(close, st);
  }

  /** `html` gives well nested panels to any page of at most `bound` characters. */
  ghost predicate NestsPanels(html: string -> seq<Token>, bound: nat) {
    forall inner, t :: IsRegion(inner) && Size(inner) < bound && t in TabsOf(inner) ==>
        WellNested(html(Join(t.lines, "\n")))
  }

  lemma {:induction false} PanelsNest(tabs: seq<Tab>, html: string -> seq<Token>)
    requires forall t :: t in tabs ==> WellNested(html(Join(t.lines, "\n")))
    ensures forall p :: p in RenderPanels(tabs, html) ==> WellNested(p.html)
  {
    hide WellNested;
    if tabs != [] {
      assert tabs[0] in tabs;
      PanelsNest(tabs[1..], html);
    }
  }

  lemma SingleNests(token: Token)
    requires Next(token, []) == Some([])
    requires token.TabSet? ==> forall p :: p in token.panels ==> WellNested(p.html)
    ensures WellNested([token])
  {
    hide Next;
    RunOne(token, []);
  }

  lemma TabsNest(inner: seq<string>, html: string -> seq<Token>, bound: nat)
    requires NestsPanels(html, bound) && IsRegion(inner) && Size(inner) < bound
    ensures WellNested([RenderTabs(TabsOf(inner), html)])
  {
    hide TabsOf, IsRegion, WellNested;
    PanelsNest(TabsOf(inner), html);
    SingleNests(RenderTabs(TabsOf(inner), html));
  }

  lemma {:induction false} PiecesNest(ps: seq<Piece>, html: string -> seq<Token>, bound: nat)
    requires NestsPanels(html, bound) && GoodPieces(ps) && Size(PiecesSource(ps)) <= bound + 1
    ensures WellNested(RenderPieces(ps, html))
  {
    hide NestsPanels, IsRegion, TabsOf, RenderTabs, WellNested;
    if ps == [] {
      NestedNothing();
    } else {
      SizeAppend(PieceSource(ps[0]), PiecesSource(ps[1..]));
      PiecesNest(ps[1..], html, bound);
      NestedNothing();
      if ps[0].TabsPiece? {
        RegionSize(ps[0].open, ps[0].inner, ps[0].close);
        TabsNest(ps[0].inner, html, bound);
      }
      NestedAppend(if ps[0].TabsPiece? then [RenderTabs(TabsOf(ps[0].inner), html)] else [],
          RenderPieces(ps[1..], html));
    }
  }

  lemma FenceNests(open: string, pieces: seq<Piece>, code: Token, tail: seq<string>, html: string -> seq<Token>,
                   bound: nat)
    requires NestsPanels(html, bound) && GoodPieces(pieces) && Size([open] + PiecesSource(pieces) + tail) <= bound + 1
    requires Next(code, []) == Some([]) && !code.TabSet?
    ensures WellNested(RenderPieces(pieces, html)) && WellNested(RenderPieces(pieces, html) + [code])
  {
    hide NestsPanels, GoodPieces, RenderPieces, WellNested, Next;
    SizeAppend([open] + PiecesSource(pieces), tail);
    SizeAppend([open], PiecesSource(pieces));
    PiecesNest(pieces, html, bound);
    SingleNests(code);
    NestedAppend(RenderPieces(pieces, html), [code]);
  }

  lemma TableNests(rows: seq<seq<string>>)
    ensures WellNested(RenderTable(rows))
  {
    hide RenderRows, WellNested;
    RowsRun(rows, 0);
    Wrapped(TableOpen, RenderRows(rows, 0), TableClose, [OpenTable]);
  }

  lemma ListNests(kind: ListKind, lines: seq<string>)
    requires forall i :: 0 <= i < |lines| ==> InList(kind, lines[i])
    ensures WellNested([ListOpen(kind)] + RenderItems(lines) + [ListClose(kind)])
  {
    hide RenderItems, WellNested, InList;
    ItemsRun(kind, lines);
    Wrapped(ListOpen(kind), RenderItems(lines), ListClose(kind), [OpenList(kind)]);
  }

  lemma BlockNests(b: Block, html: string -> seq<Token>, bound: nat)
    requires NestsPanels(html, bound) && GoodBlock(b) && Size(Source(b)) <= bound + 1
    ensures WellNested(Render(b, html))
  {
    hide NestsPanels, IsRegion, TabsOf, RenderTabs, WellNested, GoodPieces, Classify, InList, RenderPieces,
         RenderTable, RenderItems, RowsOf, CodeOf, QuoteTexts, FenceLang, Run, PiecesSource, Size, Slug.Anchor, Join;
    NestedNothing();
    match b
    case TabsBlock(open, inner, close) =>
      RegionSize(open, inner, close);
      TabsNest(inner, html, bound);
    case FenceBlock(open, pieces, close) =>
      FenceNests(open, pieces, RenderCode(FenceLang(open), CodeOf(pieces)), [close], html, bound);
    case OpenFenceBlock(open, pieces, dangling) =>
      FenceNests(open, pieces, Rule, dangling, html, bound);
    case TableBlock(lines) => TableNests(RowsOf(lines));
    case ListBlock(kind, lines) => ListNests(kind, lines);
    case HeadingBlock(line) => SingleNests(RenderHeading(line)[0]);
    case AlertBlock(line, quoted) => SingleNests(RenderAlert(line, quoted)[0]);
    case QuoteBlock(lines) => SingleNests(Quote(Join(QuoteTexts(lines), " ")));
    case RuleBlock(_) => SingleNests(Rule);
    case ParagraphBlock(line) => SingleNests(Paragraph(line));
    case _ =>
  }

  lemma {:induction false} BlocksNest(bs: seq<Block>, html: string -> seq<Token>, bound: nat)
    requires NestsPanels(html, bound) && Size(SourceOf(bs)) <= bound + 1
    requires forall i :: 0 <= i < |bs| ==> GoodBlock(bs[i])
    ensures WellNested(RenderAll(bs, html))
  {
    hide NestsPanels, GoodBlock, Render, WellNested;
    if bs == [] {
      NestedNothing();
    } else {
      SizeAppend(Source(bs[0]), SourceOf(bs[1..]));
      BlockNests(bs[0], html, bound);
      BlocksNest(bs[1..], html, bound);
      NestedAppend(Render(bs[0], html), RenderAll(bs[1..], html));
    }
  }

  /** Every page: lists never nest, each item sits in a list of its own kind, and all that opens closes. */
  lemma {:induction false} PageIsWellNested(content: string)
    ensures WellNested(Page(content))
    decreases |content|
  {
    hide TabsOf, IsRegion, Blocks, LinesOf, GoodBlock, WellNested, RenderAll, Page;
    var lines := LinesOf(content);
    LinesSize(content);
    forall inner, t | IsRegion(inner) && Size(inner) < |content| && t in TabsOf(inner)
      ensures WellNested(Page(Join(t.lines, "\n")))
    {
      PanelShrinks(inner, t);
      PageIsWellNested(Join(t.lines, "\n"));
    }
    BlocksPartition(lines);
    BlocksAreGood(lines);
    BlocksNest(Blocks(lines), Page, |content|);
    PageUnfolds(content);
  }
}
