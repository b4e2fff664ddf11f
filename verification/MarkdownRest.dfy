/** What the lines still to come will add to the output, from inside a list, a table, a fence or a tabs region. */
module MarkdownRest {
  import opened Text
  import opened MarkdownLines
  import opened MarkdownGrammar

  type Html = string -> seq<Token>

  function ListRest(kind: ListKind, lines: seq<string>, html: Html): seq<Token> {
    var n := ListExtent(kind, lines);
    RenderItems(lines[..n]) + ([ListClose(kind)] + RenderLines(lines[n..], html))
  }

  function TableRest(rows: seq<seq<string>>, lines: seq<string>, html: Html): seq<Token> {
    var n := Span(lines, InTable);
    RenderTable(rows + RowsOf(lines[..n])) + RenderLines(lines[n..], html)
  }

  function FenceEndRest(lang: string, code: seq<string>, end: FenceEnd, html: Html): seq<Token> {
    match end
    case FenceClosed(_, rest) => [RenderCode(lang, code)] + RenderLines(rest, html)
    case FenceDangling(_) => []
  }

  function FenceRest(lang: string, code: seq<string>, lines: seq<string>, html: Html): seq<Token> {
    var scan := ScanFence(lines);
    RenderPieces(scan.pieces, html) + FenceEndRest(lang, code + CodeOf(scan.pieces), scan.end, html)
  }

  /** What encloses a tabs region: the page itself, or a fence with the code read so far. */
  datatype Outer = InPage | InFence(lang: string, code: seq<string>)

  function OuterRest(outer: Outer, lines: seq<string>, html: Html): seq<Token> {
    match outer
    case InPage => RenderLines(lines, html)
    case InFence(lang, code) => FenceRest(lang, code, lines, html)
  }

  /** `inner`: the lines of the region read so far. */
  function TabsRest(outer: Outer, inner: seq<string>, lines: seq<string>, html: Html): seq<Token> {
    var n := Span(lines, NotTabsEnd);
    if n == |lines| then []
    else [RenderTabs(TabsOf(inner + lines[..n]), html)] + OuterRest(outer, lines[n + 1..], html)
  }

  lemma RenderFirst(lines: seq<string>, html: Html)
    requires lines != []
    ensures |Source(First(lines))| <= |lines|
    ensures RenderLines(lines, html) == Render(First(lines), html) + RenderLines(lines[|Source(First(lines))|..], html)
  {
    FirstIsPrefix(lines);
    hide First;
    var rest := lines[|Source(First(lines))|..];
    assert Blocks(lines)[1..] == Blocks(rest);
  }

  lemma NoLines(html: Html)
    ensures RenderLines([], html) == []
  {
  }

  // ---------------------------------------------------------------- from the page

  /** A page renders as its first block and then what is left. */
  lemma PageSteps(line: string, rest: seq<string>, html: Html)
    ensures RenderLines([line] + rest, html) ==
            Render(FirstFrom(line, rest), html) + RenderLines(RestAfter(line, rest), html)
  {
    hide FirstFrom, RestAfter, Source, Render, RenderLines;
    var lines := [line] + rest;
    RenderFirst(lines, html);
    FirstSplits(line, rest);
    assert lines[1..] == rest;
    assert First(lines) == FirstFrom(line, rest);
    assert lines[|Source(First(lines))|..] == RestAfter(line, rest);
  }

  lemma PageQuiet(line: string, rest: seq<string>, html: Html)
    requires Classify(line).TabsEndLine? || Classify(line).BlankLine?
    ensures RenderLines([line] + rest, html) == RenderLines(rest, html)
  {
    hide Classify, RenderLines;
    PageSteps(line, rest, html);
  }

  lemma PageHeading(line: string, rest: seq<string>, html: Html)
    requires Classify(line).HeadingLine?
    ensures RenderLines([line] + rest, html) == RenderHeading(line) + RenderLines(rest, html)
  {
    hide Classify, RenderLines, RenderHeading;
    PageSteps(line, rest, html);
  }

  lemma PageRule(line: string, rest: seq<string>, html: Html)
    requires Classify(line).RuleLine?
    ensures RenderLines([line] + rest, html) == [Rule] + RenderLines(rest, html)
  {
    hide Classify, RenderLines;
    PageSteps(line, rest, html);
  }

  lemma PageParagraph(line: string, rest: seq<string>, html: Html)
    requires Classify(line).ParagraphLine?
    ensures RenderLines([line] + rest, html) == [Paragraph(line)] + RenderLines(rest, html)
  {
    hide Classify, RenderLines;
    PageSteps(line, rest, html);
  }

  lemma PageAlert(line: string, rest: seq<string>, n: nat, html: Html)
    requires Classify(line).AlertLine? && n == Span(rest, IsQuote)
    ensures RenderLines([line] + rest, html) == RenderAlert(line, rest[..n]) + RenderLines(rest[n..], html)
  {
    hide Classify, Span, RenderLines, RenderAlert;
    PageSteps(line, rest, html);
  }

  lemma PageQuote(line: string, rest: seq<string>, n: nat, html: Html)
    requires Classify(line).QuoteLine? && n == Span(rest, ContinuesQuote)
    ensures RenderLines([line] + rest, html) ==
            [Quote(Join(QuoteTexts([line] + rest[..n]), " "))] + RenderLines(rest[n..], html)
  {
    hide Classify, Span, RenderLines, QuoteTexts, Join;
    PageSteps(line, rest, html);
  }

  lemma RenderItemsCons(line: string, rest: seq<string>)
    ensures RenderItems([line] + rest) ==
            (if Classify(line).ItemLine? then [Item(Classify(line).kind, Classify(line).text)] else []) +
                RenderItems(rest)
  {
    hide Classify;
    assert ([line] + rest)[1..] == rest;
  }

  lemma Regroup(a: Token, b: seq<Token>, xs: seq<Token>, c: Token, ys: seq<Token>)
    ensures ([a] + (b + xs) + [c]) + ys == [a] + b + (xs + ([c] + ys))
    ensures (b + xs) + ([c] + ys) == b + (xs + ([c] + ys))
  {
  }

  lemma PageItem(line: string, rest: seq<string>, html: Html)
    requires Classify(line).ItemLine?
    ensures var kind := Classify(line).kind;
            RenderLines([line] + rest, html) ==
                [ListOpen(kind)] + [Item(kind, Classify(line).text)] + ListRest(kind, rest, html)
  {
    hide Classify, ListExtent, RenderLines, RenderItems;
    var kind := Classify(line).kind;
    var n := ListExtent(kind, rest);
    ListExtentBound(kind, rest);
    PageSteps(line, rest, html);
    RenderItemsCons(line, rest[..n]);
    var item := [Item(kind, Classify(line).text)];
    Regroup(ListOpen(kind), item, RenderItems(rest[..n]), ListClose(kind), RenderLines(rest[n..], html));
  }

  lemma PageRow(line: string, rest: seq<string>, html: Html)
    requires Classify(line).RowLine?
    ensures RenderLines([line] + rest, html) == TableRest([RowCells(line)], rest, html)
  {
    hide Classify, Span, RenderTable, RowCells, RenderLines;
    PageSteps(line, rest, html);
    RowsCons(line, rest[..Span(rest, InTable)]);
  }

  lemma RowsCons(line: string, rest: seq<string>)
    ensures RowsOf([line] + rest) == (if Classify(line).RowLine? then [RowCells(line)] else []) + RowsOf(rest)
  {
    hide Classify, RowCells;
    assert ([line] + rest)[1..] == rest;
  }

  lemma PageFence(line: string, rest: seq<string>, html: Html)
    requires Classify(line).FenceLine?
    ensures RenderLines([line] + rest, html) == FenceRest(FenceLang(line), [], rest, html)
  {
    hide Classify, ScanFence, RenderLines, RenderCode, RenderPieces, FenceLang, CodeOf;
    PageSteps(line, rest, html);
    var scan := ScanFence(rest);
    assert [] + CodeOf(scan.pieces) == CodeOf(scan.pieces);
    if scan.end.FenceDangling? {
      NoLines(html);
    } else {
      Associates(RenderPieces(scan.pieces, html), [RenderCode(FenceLang(line), CodeOf(scan.pieces))],
          RenderLines(scan.end.rest, html));
    }
  }

  lemma PageTabs(line: string, rest: seq<string>, html: Html)
    requires Classify(line).TabsOpenLine?
    ensures RenderLines([line] + rest, html) == TabsRest(InPage, [], rest, html)
  {
    hide Classify, Span, RenderLines, RenderTabs, TabsOf;
    PageSteps(line, rest, html);
    var n := Span(rest, NotTabsEnd);
    assert [] + rest[..n] == rest[..n];
    if n == |rest| {
      NoLines(html);
    }
  }

  // ---------------------------------------------------------------- from inside a list

  /** Everything but list items, table rows and stray `:::` ends an open list or table. */
  lemma EndsRuns(kind: ListKind, line: string)
    requires !Classify(line).TabsEndLine?
    ensures !Classify(line).ItemLine? || Classify(line).kind != kind ==> !InList(kind, line)
    ensures !Classify(line).RowLine? ==> !InTable(line)
  {
    hide Classify;
  }

  lemma ItemContinues(kind: ListKind, line: string)
    requires Classify(line).ItemLine? && Classify(line).kind == kind
    ensures InList(kind, line)
  {
    hide Classify;
  }

  lemma QuoteTextsNothing()
    ensures QuoteTexts([]) == []
  {
  }

  lemma {:induction false} QuoteTextsSnoc(lines: seq<string>, line: string)
    ensures QuoteTexts(lines + [line]) == QuoteTexts(lines) + [QuoteText(line)]
  {
    hide QuoteText;
    if lines == [] {
      assert [] + [line] == [line];
      assert [line][1..] == [];
    } else {
      assert (lines + [line])[1..] == lines[1..] + [line];
      QuoteTextsSnoc(lines[1..], line);
    }
  }

  lemma ListExtentCons(kind: ListKind, line: string, rest: seq<string>)
    ensures ListExtent(kind, [line] + rest) == if InList(kind, line) then 1 + ListExtent(kind, rest) else 0
  {
    hide InUl, InOl;
    assert ([line] + rest)[1..] == rest;
  }

  lemma ListStep(kind: ListKind, line: string, rest: seq<string>, html: Html)
    requires InList(kind, line)
    ensures ListRest(kind, [line] + rest, html) ==
            (if Classify(line).ItemLine? then [Item(kind, Classify(line).text)] else []) + ListRest(kind, rest, html)
  {
    hide Classify, ListExtent, RenderLines, RenderItems;
    ListExtentCons(kind, line, rest);
    ListExtentBound(kind, rest);
    var n := ListExtent(kind, rest);
    TakeCons(line, rest, n);
    RenderItemsCons(line, rest[..n]);
    var item := if Classify(line).ItemLine? then [Item(kind, Classify(line).text)] else [];
    Regroup(ListOpen(kind), item, RenderItems(rest[..n]), ListClose(kind), RenderLines(rest[n..], html));
  }

  lemma TakeCons(line: string, rest: seq<string>, n: nat)
    requires n <= |rest|
    ensures ([line] + rest)[..n + 1] == [line] + rest[..n] && ([line] + rest)[n + 1..] == rest[n..]
  {
  }

  lemma SpanCons(line: string, rest: seq<string>, p: string -> bool)
    ensures Span([line] + rest, p) == if p(line) then 1 + Span(rest, p) else 0
  {
    assert ([line] + rest)[1..] == rest;
  }

  lemma ListStops(kind: ListKind, lines: seq<string>, html: Html)
    requires lines != [] ==> !InList(kind, lines[0])
    ensures ListRest(kind, lines, html) == [ListClose(kind)] + RenderLines(lines, html)
  {
    hide InUl, InOl;
    assert ListExtent(kind, lines) == 0;
    assert lines[..0] == [] && lines[0..] == lines;
  }

  // ---------------------------------------------------------------- from inside a table

  lemma TableStep(rows: seq<seq<string>>, line: string, rest: seq<string>, html: Html)
    requires InTable(line)
    ensures TableRest(rows, [line] + rest, html) ==
            TableRest(if Classify(line).RowLine? then rows + [RowCells(line)] else rows, rest, html)
  {
    hide Classify, Span, InTable, RowCells, RenderTable, RenderLines, RowsOf;
    var n := Span(rest, InTable);
    SpanCons(line, rest, InTable);
    TakeCons(line, rest, n);
    RowsCons(line, rest[..n]);
    var more := RowsOf(rest[..n]);
    assert rows + ([RowCells(line)] + more) == (rows + [RowCells(line)]) + more;
    assert [] + more == more;
  }

  lemma TableStops(rows: seq<seq<string>>, lines: seq<string>, html: Html)
    requires lines != [] ==> !InTable(lines[0])
    ensures TableRest(rows, lines, html) == RenderTable(rows) + RenderLines(lines, html)
  {
    hide InTable, RenderTable;
    assert Span(lines, InTable) == 0;
    assert lines[..0] == [] && lines[0..] == lines;
    assert rows + [] == rows;
  }

  // ---------------------------------------------------------------- from inside a fence

  lemma FenceCode(lang: string, code: seq<string>, line: string, rest: seq<string>, html: Html)
    requires !IsTabsOpen(line) && !IsTabsEnd(line) && !IsFence(line)
    ensures FenceRest(lang, code, [line] + rest, html) == FenceRest(lang, code + [line], rest, html)
  {
    hide IsTabsOpen, IsTabsEnd, IsFence, RenderCode, RenderTabs;
    var lines, scan := [line] + rest, ScanFence(rest);
    assert lines[1..] == rest;
    var ps := [CodePiece(line)] + scan.pieces;
    assert ps[1..] == scan.pieces;
    assert code + ([line] + CodeOf(scan.pieces)) == (code + [line]) + CodeOf(scan.pieces);
    assert [] + RenderPieces(scan.pieces, html) == RenderPieces(scan.pieces, html);
  }

  lemma FenceStray(lang: string, code: seq<string>, line: string, rest: seq<string>, html: Html)
    requires !IsTabsOpen(line) && IsTabsEnd(line)
    ensures FenceRest(lang, code, [line] + rest, html) == FenceRest(lang, code, rest, html)
  {
    hide IsTabsOpen, IsTabsEnd, IsFence, RenderCode, RenderTabs;
    var lines, scan := [line] + rest, ScanFence(rest);
    assert lines[1..] == rest;
    var ps := [StrayPiece(line)] + scan.pieces;
    assert ps[1..] == scan.pieces;
    assert [] + CodeOf(scan.pieces) == CodeOf(scan.pieces);
    assert [] + RenderPieces(scan.pieces, html) == RenderPieces(scan.pieces, html);
  }

  lemma FenceCloses(lang: string, code: seq<string>, line: string, rest: seq<string>, html: Html)
    requires !IsTabsOpen(line) && !IsTabsEnd(line) && IsFence(line)
    ensures FenceRest(lang, code, [line] + rest, html) == [RenderCode(lang, code)] + RenderLines(rest, html)
  {
    hide IsTabsOpen, IsTabsEnd, IsFence, RenderCode, RenderTabs;
    var lines := [line] + rest;
    assert lines[1..] == rest;
    assert ScanFence(lines) == FenceScan([], FenceClosed(line, rest));
    assert code + [] == code;
  }

  lemma FenceTabs(lang: string, code: seq<string>, line: string, rest: seq<string>, html: Html)
    requires IsTabsOpen(line)
    ensures FenceRest(lang, code, [line] + rest, html) == TabsRest(InFence(lang, code), [], rest, html)
  {
    hide FenceRest, ScanFence, Span, TabsOf, RenderTabs, IsTabsOpen, IsTabsEnd;
    var n := Span(rest, NotTabsEnd);
    ScanTabs(line, rest, n);
    assert [] + rest[..n] == rest[..n];
    if n < |rest| {
      FenceRestTabs(lang, code, [line] + rest, TabsPiece(line, rest[..n], rest[n]), rest[n + 1..], html);
    } else {
      DanglingRest(lang, code, [line] + rest, html);
    }
  }

  lemma Associates(a: seq<Token>, b: seq<Token>, c: seq<Token>)
    ensures (a + b) + c == a + (b + c)
  {
  }

  lemma FenceRestTabs(lang: string, code: seq<string>, lines: seq<string>, piece: Piece, after: seq<string>, html: Html)
    requires piece.TabsPiece?
    requires ScanFence(lines) == var scan := ScanFence(after); scan.(pieces := [piece] + scan.pieces)
    ensures FenceRest(lang, code, lines, html) ==
            [RenderTabs(TabsOf(piece.inner), html)] + FenceRest(lang, code, after, html)
  {
    var scan := ScanFence(after);
    TabsPieceRenders(piece, scan.pieces, html);
    hide ScanFence, RenderPieces, CodeOf, FenceEndRest, TabsOf, RenderTabs;
    var x := [RenderTabs(TabsOf(piece.inner), html)];
    var more := RenderPieces(scan.pieces, html);
    var last := FenceEndRest(lang, code + CodeOf(scan.pieces), scan.end, html);
    assert FenceRest(lang, code, after, html) == more + last;
    assert FenceRest(lang, code, lines, html) == (x + more) + last;
    hide FenceRest;
    Associates(x, more, last);
  }

  lemma DanglingRest(lang: string, code: seq<string>, lines: seq<string>, html: Html)
    requires ScanFence(lines) == FenceScan([], FenceDangling(lines))
    ensures FenceRest(lang, code, lines, html) == []
  {
    hide ScanFence;
  }

  lemma ScanTabs(line: string, rest: seq<string>, n: nat)
    requires IsTabsOpen(line) && n == Span(rest, NotTabsEnd)
    ensures n == |rest| ==> ScanFence([line] + rest) == FenceScan([], FenceDangling([line] + rest))
    ensures n < |rest| ==>
              ScanFence([line] + rest) ==
              var scan := ScanFence(rest[n + 1..]);
              scan.(pieces := [TabsPiece(line, rest[..n], rest[n])] + scan.pieces)
  {
    hide IsTabsOpen, IsTabsEnd, ScanFence, Span;
    var lines := [line] + rest;
    ScanRegion(lines);
    assert lines[1..] == rest;
    if n < |rest| {
      assert lines[n + 2..] == rest[n + 1..];
      assert lines[1..n + 1] == rest[..n];
    }
  }

  /** The scan of a fence's inside where a region opens. */
  lemma ScanRegion(lines: seq<string>)
    requires lines != [] && IsTabsOpen(lines[0])
    ensures var n := Span(lines[1..], NotTabsEnd);
            ScanFence(lines) ==
            if n == |lines| - 1 then FenceScan([], FenceDangling(lines))
            else var rest := ScanFence(lines[n + 2..]);
                 FenceScan([TabsPiece(lines[0], lines[1..n + 1], lines[n + 1])] + rest.pieces, rest.end)
  {
    hide IsTabsOpen, IsTabsEnd, IsFence, Span;
  }

  lemma TabsPieceRenders(piece: Piece, ps: seq<Piece>, html: Html)
    requires piece.TabsPiece?
    ensures RenderPieces([piece] + ps, html) == [RenderTabs(TabsOf(piece.inner), html)] + RenderPieces(ps, html)
    ensures CodeOf([piece] + ps) == CodeOf(ps)
  {
    assert ([piece] + ps)[1..] == ps;
    assert [] + CodeOf(ps) == CodeOf(ps);
  }

  // ---------------------------------------------------------------- from inside a tabs region

  lemma TabsStep(outer: Outer, inner: seq<string>, line: string, rest: seq<string>, html: Html)
    requires !IsTabsEnd(line)
    ensures TabsRest(outer, inner, [line] + rest, html) == TabsRest(outer, inner + [line], rest, html)
  {
    hide IsTabsEnd, TabsOf, RenderTabs, OuterRest, Span;
    var n := Span(rest, NotTabsEnd);
    SpanCons(line, rest, NotTabsEnd);
    TakeCons(line, rest, n);
    assert inner + ([line] + rest[..n]) == (inner + [line]) + rest[..n];
    if n < |rest| {
      TakeCons(line, rest, n + 1);
    }
  }

  lemma TabsClose(outer: Outer, inner: seq<string>, line: string, rest: seq<string>, html: Html)
    requires IsTabsEnd(line)
    ensures TabsRest(outer, inner, [line] + rest, html) ==
            [RenderTabs(TabsOf(inner), html)] + OuterRest(outer, rest, html)
  {
    var lines := [line] + rest;
    assert !NotTabsEnd(line);
    hide IsTabsEnd, NotTabsEnd, TabsOf, RenderTabs, OuterRest;
    assert Span(lines, NotTabsEnd) == 0;
    assert inner + lines[..0] == inner;
    assert lines[1..] == rest;
  }

  /** A nested `:::tabs` wipes the region. */
  lemma TabsOfReset(inner: seq<string>, line: string)
    requires IsTabsOpen(line)
    ensures TabsOf(inner + [line]) == []
  {
    hide IsTabsOpen;
    assert AfterLastOpen(inner + [line]) == [];
  }

  lemma TabsOfNothing()
    ensures TabsOf([]) == []
  {
  }

  lemma AfterLastOpenSnoc(inner: seq<string>, line: string)
    requires !IsTabsOpen(line)
    ensures AfterLastOpen(inner + [line]) == AfterLastOpen(inner) + [line]
  {
    hide IsTabsOpen;
    var longer := inner + [line];
    assert longer[|longer| - 1] == line && longer[..|longer| - 1] == inner;
  }

  /** One more line at the end of a region: a new panel, a line of the last panel, or nothing. */
  function SnocTab(tabs: seq<Tab>, line: string): seq<Tab> {
    if IsTabStart(line) then tabs + [Tab(TabTitle(line), [])]
    else if tabs == [] then []
    else
      var last := tabs[|tabs| - 1];
      tabs[..|tabs| - 1] + [last.(lines := last.lines + [line])]
  }

  lemma {:induction false} SplitTabsSnoc(lines: seq<string>, line: string)
    ensures SplitTabs(lines + [line]) == SnocTab(SplitTabs(lines), line)
    decreases |lines|
  {
    hide IsTabStart, TabTitle;
    var longer := lines + [line];
    if lines == [] {
      assert longer == [line];
      assert longer[1..] == [];
      assert SplitTabs([]) == [];
      if IsTabStart(line) {
        assert Span(longer[1..], NotTabStart) == 0;
        assert longer[1..1] == [];
      }
    } else if IsTabStart(lines[0]) {
      SplitTabsSnocInTab(lines, line);
    } else {
      assert longer[1..] == lines[1..] + [line];
      SplitTabsSnoc(lines[1..], line);
    }
  }

  lemma {:induction false} SpanSnoc(lines: seq<string>, line: string)
    ensures var n := Span(lines, NotTabStart);
            Span(lines + [line], NotTabStart) == if n < |lines| || IsTabStart(line) then n else n + 1
  {
    hide IsTabStart;
    var longer := lines + [line];
    if lines == [] {
      assert longer[1..] == [];
    } else {
      assert longer[1..] == lines[1..] + [line];
      SpanSnoc(lines[1..], line);
    }
  }

  /** A panel and what comes after it. */
  lemma SplitTabsHead(lines: seq<string>, n: nat)
    requires lines != [] && IsTabStart(lines[0]) && n == Span(lines[1..], NotTabStart)
    ensures SplitTabs(lines) == [Tab(TabTitle(lines[0]), lines[1..n + 1])] + SplitTabs(lines[n + 1..])
  {
    hide IsTabStart, TabTitle, Span, SplitTabs;
    SplitTabsOnce(lines);
  }

  lemma SplitTabsOnce(lines: seq<string>)
    requires lines != []
    ensures SplitTabs(lines) ==
            if IsTabStart(lines[0]) then
              var n := Span(lines[1..], NotTabStart);
              [Tab(TabTitle(lines[0]), lines[1..n + 1])] + SplitTabs(lines[n + 1..])
            else SplitTabs(lines[1..])
  {
  }

  lemma {:induction false} SplitTabsSnocInTab(lines: seq<string>, line: string)
    requires lines != [] && IsTabStart(lines[0])
    ensures SplitTabs(lines + [line]) == SnocTab(SplitTabs(lines), line)
    decreases |lines|, 0
  {
    hide IsTabStart, TabTitle, SplitTabs, Span;
    var longer, rest := lines + [line], lines[1..];
    var n := Span(rest, NotTabStart);
    assert longer[1..] == rest + [line];
    SpanSnoc(rest, line);
    SplitTabsHead(lines, n);
    var tail, head := lines[n + 1..], Tab(TabTitle(lines[0]), lines[1..n + 1]);
    if n < |rest| {
      SplitTabsHead(longer, n);
      SplitTabsSnoc(tail, line);
      assert longer[1..n + 1] == lines[1..n + 1];
      assert longer[n + 1..] == tail + [line];
      SplitNonempty(tail);
      SnocTabCons(head, SplitTabs(tail), line);
    } else {
      assert tail == [];
      SplitNothing();
      if IsTabStart(line) {
        SplitTabsHead(longer, n);
        assert longer[1..n + 1] == lines[1..n + 1];
        assert longer[n + 1..] == [] + [line];
        SplitTabsSnoc([], line);
      } else {
        SplitTabsHead(longer, n + 1);
        assert longer[1..n + 2] == lines[1..n + 1] + [line];
        assert longer[n + 2..] == [];
      }
    }
  }

  lemma SplitNothing()
    ensures SplitTabs([]) == []
  {
  }

  lemma SplitNonempty(lines: seq<string>)
    requires lines != [] && IsTabStart(lines[0])
    ensures SplitTabs(lines) != []
  {
  }

  lemma SnocTabCons(head: Tab, tabs: seq<Tab>, line: string)
    requires tabs != []
    ensures SnocTab([head] + tabs, line) == [head] + SnocTab(tabs, line)
  {
    hide IsTabStart, TabTitle;
  }

  lemma TabsOfSnoc(inner: seq<string>, line: string)
    requires !IsTabsOpen(line)
    ensures TabsOf(inner + [line]) == SnocTab(TabsOf(inner), line)
  {
    hide IsTabsOpen, IsTabStart, TabTitle;
    AfterLastOpenSnoc(inner, line);
    SplitTabsSnoc(AfterLastOpen(inner), line);
  }
}
