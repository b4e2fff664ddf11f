/**
 The block language of build-blog.js, without flags: a page body is a list of blocks, each block
 owns the lines it was made from, and each block renders on its own.
 */
module MarkdownGrammar {
  import opened Text
  import opened MarkdownLines
  import CodeEscape
  import Slug

  // ---------------------------------------------------------------- output tokens

  /** One pushed string. Text fields are arguments of the inline formatter, which is not part of this model. */
  datatype Token =
    | ListOpen(kind: ListKind)
    | Item(kind: ListKind, text: string)
    | ListClose(kind: ListKind)
    | TableOpen
    | RowOpen
    | Cell(isHeader: bool, text: string)
    | RowClose
    | TableClose
    | Heading(level: nat, id: string, text: string)
    | Alert(alertType: string, text: string)
    | Quote(text: string)
    | Rule
    | Paragraph(text: string)
    | Code(lang: string, escaped: string)
    | Mermaid(code: string)
    | TabSet(panels: seq<Panel>)
    | Empty

  datatype Panel = Panel(title: string, html: seq<Token>)

  /** A tab as collected from the source. */
  datatype Tab = Tab(title: string, lines: seq<string>)

  datatype TocEntry = TocEntry(id: string, text: string, level: nat)

  // ---------------------------------------------------------------- blocks

  /** What lies between two code fences. */
  datatype Piece =
    | CodePiece(line: string)
    | StrayPiece(line: string)
    | TabsPiece(open: string, inner: seq<string>, close: string)

  datatype Block =
    | StrayBlock(line: string)
    | TabsBlock(open: string, inner: seq<string>, close: string)
    | OpenTabsBlock(open: string, inner: seq<string>)
    | FenceBlock(open: string, pieces: seq<Piece>, close: string)
    | OpenFenceBlock(open: string, pieces: seq<Piece>, dangling: seq<string>)
    | TableBlock(lines: seq<string>)
    | ListBlock(kind: ListKind, lines: seq<string>)
    | HeadingBlock(line: string)
    | AlertBlock(line: string, quoted: seq<string>)
    | QuoteBlock(lines: seq<string>)
    | RuleBlock(line: string)
    | BlankBlock(line: string)
    | ParagraphBlock(line: string)

  function PieceSource(p: Piece): seq<string> {
    match p
    case CodePiece(line) => [line]
    case StrayPiece(line) => [line]
    case TabsPiece(open, inner, close) => [open] + inner + [close]
  }

  function PiecesSource(ps: seq<Piece>): seq<string> {
    if ps == [] then [] else PieceSource(ps[0]) + PiecesSource(ps[1..])
  }

  /** The lines a block was made from, in order. */
  function Source(b: Block): seq<string> {
    match b
    case StrayBlock(line) => [line]
    case TabsBlock(open, inner, close) => [open] + inner + [close]
    case OpenTabsBlock(open, inner) => [open] + inner
    case FenceBlock(open, pieces, close) => [open] + PiecesSource(pieces) + [close]
    case OpenFenceBlock(open, pieces, dangling) => [open] + PiecesSource(pieces) + dangling
    case TableBlock(lines) => lines
    case ListBlock(_, lines) => lines
    case HeadingBlock(line) => [line]
    case AlertBlock(line, quoted) => [line] + quoted
    case QuoteBlock(lines) => lines
    case RuleBlock(line) => [line]
    case BlankBlock(line) => [line]
    case ParagraphBlock(line) => [line]
  }

  // ---------------------------------------------------------------- extents

  predicate NotTabsEnd(line: string) {
    !IsTabsEnd(line)
  }

  /** A stray `:::` does not interrupt a list. */
  predicate InUl(line: string) {
    Classify(line).TabsEndLine? || (Classify(line).ItemLine? && Classify(line).kind == Ul)
  }

  predicate InOl(line: string) {
    Classify(line).TabsEndLine? || (Classify(line).ItemLine? && Classify(line).kind == Ol)
  }

  predicate InTable(line: string) {
    Classify(line).TabsEndLine? || Classify(line).RowLine?
  }

  predicate ContinuesQuote(line: string) {
    IsQuote(line) && MatchAlertStart(line).None?
  }

  function ListExtent(kind: ListKind, lines: seq<string>): nat {
    if kind == Ul then Span(lines, InUl) else Span(lines, InOl)
  }

  /** Where a fence ends. */
  datatype FenceEnd = FenceClosed(line: string, rest: seq<string>) | FenceDangling(lines: seq<string>)
  datatype FenceScan = FenceScan(pieces: seq<Piece>, end: FenceEnd)

  /** The inside of a fence: tabs regions are still honoured, and a `:::` line is no code. */
  function ScanFence(lines: seq<string>): FenceScan
    decreases |lines|
  {
    if lines == [] then FenceScan([], FenceDangling([]))
    else if IsTabsOpen(lines[0]) then
      var n := Span(lines[1..], NotTabsEnd);
      if n == |lines| - 1 then FenceScan([], FenceDangling(lines))
      else
        var rest := ScanFence(lines[n + 2..]);
        rest.(pieces := [TabsPiece(lines[0], lines[1..n + 1], lines[n + 1])] + rest.pieces)
    else if !IsTabsEnd(lines[0]) && IsFence(lines[0]) then FenceScan([], FenceClosed(lines[0], lines[1..]))
    else
      var rest := ScanFence(lines[1..]);
      rest.(pieces := [if IsTabsEnd(lines[0]) then StrayPiece(lines[0]) else CodePiece(lines[0])] + rest.pieces)
  }

  /** The block that starts at the first line. */
  function First(lines: seq<string>): Block
    requires lines != []
  {
    FirstFrom(lines[0], lines[1..])
  }

  function FirstFrom(line: string, rest: seq<string>): Block {
    match Classify(line)
    case TabsOpenLine =>
      var n := Span(rest, NotTabsEnd);
      if n == |rest| then OpenTabsBlock(line, rest) else TabsBlock(line, rest[..n], rest[n])
    case TabsEndLine => StrayBlock(line)
    case FenceLine =>
      var scan := ScanFence(rest);
      if scan.end.FenceClosed? then FenceBlock(line, scan.pieces, scan.end.line)
      else OpenFenceBlock(line, scan.pieces, scan.end.lines)
    case RowLine => TableBlock([line] + rest[..Span(rest, InTable)])
    case HeadingLine(_, _) => HeadingBlock(line)
    case ItemLine(kind, _) => ListBlock(kind, [line] + rest[..ListExtent(kind, rest)])
    case AlertLine(_) => AlertBlock(line, rest[..Span(rest, IsQuote)])
    case QuoteLine => QuoteBlock([line] + rest[..Span(rest, ContinuesQuote)])
    case RuleLine => RuleBlock(line)
    case BlankLine => BlankBlock(line)
    case ParagraphLine => ParagraphBlock(line)
  }

  function EndSource(end: FenceEnd): seq<string> {
    match end
    case FenceClosed(line, rest) => [line] + rest
    case FenceDangling(lines) => lines
  }

  /** A fence accounts for every line it scans, and stops only at a fence or at the end of the page. */
  lemma {:induction false} ScanFenceSource(lines: seq<string>)
    ensures lines == PiecesSource(ScanFence(lines).pieces) + EndSource(ScanFence(lines).end)
    decreases |lines|
  {
    hide IsTabsOpen, IsTabsEnd, IsFence, PiecesSource, PieceSource, Span;
    if lines == [] {
      NoPieces(FenceDangling([]));
    } else if IsTabsOpen(lines[0]) {
      var n := Span(lines[1..], NotTabsEnd);
      if n == |lines| - 1 {
        NoPieces(FenceDangling(lines));
      } else {
        ScanFenceSource(lines[n + 2..]);
        ConsPieces(TabsPiece(lines[0], lines[1..n + 1], lines[n + 1]), ScanFence(lines[n + 2..]));
        RegionSource(lines, n);
      }
    } else if !IsTabsEnd(lines[0]) && IsFence(lines[0]) {
      NoPieces(FenceClosed(lines[0], lines[1..]));
      assert lines == [lines[0]] + lines[1..];
    } else {
      ScanFenceSource(lines[1..]);
      var p := if IsTabsEnd(lines[0]) then StrayPiece(lines[0]) else CodePiece(lines[0]);
      ConsPieces(p, ScanFence(lines[1..]));
      LineSource(p, lines);
    }
  }

  lemma NoPieces(end: FenceEnd)
    ensures PiecesSource([]) + EndSource(end) == EndSource(end)
  {
  }

  lemma RegionSource(lines: seq<string>, n: nat)
    requires n + 1 < |lines|
    ensures lines == PieceSource(TabsPiece(lines[0], lines[1..n + 1], lines[n + 1])) + lines[n + 2..]
  {
  }

  lemma LineSource(p: Piece, lines: seq<string>)
    requires lines != [] && (p == StrayPiece(lines[0]) || p == CodePiece(lines[0]))
    ensures lines == PieceSource(p) + lines[1..]
  {
  }

  lemma ConsPieces(p: Piece, scan: FenceScan)
    ensures PiecesSource([p] + scan.pieces) + EndSource(scan.end)
         == PieceSource(p) + (PiecesSource(scan.pieces) + EndSource(scan.end))
  {
    hide PieceSource, EndSource;
    assert ([p] + scan.pieces)[1..] == scan.pieces;
  }

  /** What is left of the page behind the block that starts with `line`. */
  function RestAfter(line: string, rest: seq<string>): seq<string> {
    match Classify(line)
    case TabsOpenLine =>
      var n := Span(rest, NotTabsEnd);
      if n == |rest| then [] else rest[n + 1..]
    case FenceLine =>
      var scan := ScanFence(rest);
      if scan.end.FenceClosed? then scan.end.rest else []
    case RowLine => rest[Span(rest, InTable)..]
    case ItemLine(kind, _) => if ListExtent(kind, rest) <= |rest| then rest[ListExtent(kind, rest)..] else []
    case AlertLine(_) => rest[Span(rest, IsQuote)..]
    case QuoteLine => rest[Span(rest, ContinuesQuote)..]
    case _ => rest
  }

  lemma FenceSplits(line: string, rest: seq<string>, scan: FenceScan)
    requires rest == PiecesSource(scan.pieces) + EndSource(scan.end)
    ensures scan.end.FenceClosed? ==>
            [line] + rest == ([line] + PiecesSource(scan.pieces) + [scan.end.line]) + scan.end.rest
    ensures scan.end.FenceDangling? ==> [line] + rest == ([line] + PiecesSource(scan.pieces) + scan.end.lines) + []
  {
    hide PiecesSource;
  }

  lemma RunSplits(line: string, rest: seq<string>, n: nat)
    requires n <= |rest|
    ensures [line] + rest == ([line] + rest[..n]) + rest[n..]
    ensures n < |rest| ==> [line] + rest == ([line] + rest[..n] + [rest[n]]) + rest[n + 1..]
    ensures n == |rest| ==> [line] + rest == ([line] + rest) + []
  {
  }

  /** The first block's own lines and what is left make up the page. */
  ghost predicate Splits(line: string, rest: seq<string>, b: Block, after: seq<string>) {
    [line] + rest == Source(b) + after && 1 <= |Source(b)|
  }

  lemma RunBlockSplits(line: string, rest: seq<string>, n: nat, kind: ListKind)
    requires n <= |rest|
    ensures Splits(line, rest, TableBlock([line] + rest[..n]), rest[n..])
    ensures Splits(line, rest, ListBlock(kind, [line] + rest[..n]), rest[n..])
    ensures Splits(line, rest, AlertBlock(line, rest[..n]), rest[n..])
    ensures Splits(line, rest, QuoteBlock([line] + rest[..n]), rest[n..])
  {
    RunSplits(line, rest, n);
  }

  lemma TabsBlockSplits(line: string, rest: seq<string>, n: nat)
    requires n <= |rest|
    ensures n < |rest| ==> Splits(line, rest, TabsBlock(line, rest[..n], rest[n]), rest[n + 1..])
    ensures n == |rest| ==> Splits(line, rest, OpenTabsBlock(line, rest), [])
  {
    RunSplits(line, rest, n);
  }

  lemma FenceBlockSplits(line: string, rest: seq<string>)
    ensures var scan := ScanFence(rest);
            && (scan.end.FenceClosed? ==>
                 Splits(line, rest, FenceBlock(line, scan.pieces, scan.end.line), scan.end.rest))
            && (scan.end.FenceDangling? ==> Splits(line, rest, OpenFenceBlock(line, scan.pieces, scan.end.lines), []))
  {
    hide ScanFence, PiecesSource;
    ScanFenceSource(rest);
    FenceSplits(line, rest, ScanFence(rest));
  }

  lemma LineBlockSplits(line: string, rest: seq<string>, b: Block)
    requires b in {StrayBlock(line), HeadingBlock(line), RuleBlock(line), BlankBlock(line), ParagraphBlock(line)}
    ensures Splits(line, rest, b, rest)
  {
  }

  lemma FirstSplits(line: string, rest: seq<string>)
    ensures Splits(line, rest, FirstFrom(line, rest), RestAfter(line, rest))
  {
    hide Classify, ScanFence, Span, ListExtent, Splits;
    match Classify(line)
    case TabsOpenLine => TabsBlockSplits(line, rest, Span(rest, NotTabsEnd));
    case FenceLine => FenceBlockSplits(line, rest);
    case RowLine => RunBlockSplits(line, rest, Span(rest, InTable), Ul);
    case ItemLine(kind, _) =>
      ListExtentBound(kind, rest);
      RunBlockSplits(line, rest, ListExtent(kind, rest), kind);
    case AlertLine(_) => RunBlockSplits(line, rest, Span(rest, IsQuote), Ul);
    case QuoteLine => RunBlockSplits(line, rest, Span(rest, ContinuesQuote), Ul);
    case _ => LineBlockSplits(line, rest, FirstFrom(line, rest));
  }

  lemma ListExtentBound(kind: ListKind, lines: seq<string>)
    ensures ListExtent(kind, lines) <= |lines|
  {
  }

  /** Each block is a non-empty piece of the front of the page. */
  lemma FirstIsPrefix(lines: seq<string>)
    requires lines != []
    ensures Source(First(lines)) <= lines && 1 <= |Source(First(lines))|
  {
    hide FirstFrom, Source, RestAfter;
    assert lines == [lines[0]] + lines[1..];
    FirstSplits(lines[0], lines[1..]);
  }

  function Blocks(lines: seq<string>): seq<Block>
    decreases |lines|
  {
    if lines == [] then [] else
      FirstIsPrefix(lines);
      [First(lines)] + Blocks(lines[|Source(First(lines))|..])
  }

  function SourceOf(bs: seq<Block>): seq<string> {
    if bs == [] then [] else Source(bs[0]) + SourceOf(bs[1..])
  }

  /** Every line of the page belongs to exactly one block, in the order of the page. */
  lemma {:induction false} BlocksPartition(lines: seq<string>)
    ensures SourceOf(Blocks(lines)) == lines
    decreases |lines|
  {
    hide First, Source;
    if lines != [] {
      FirstIsPrefix(lines);
      var rest := lines[|Source(First(lines))|..];
      BlocksPartition(rest);
      assert Blocks(lines)[1..] == Blocks(rest);
    }
  }

  // ---------------------------------------------------------------- the shape of a block

  ghost predicate NoTabsEnd(lines: seq<string>) {
    forall i :: 0 <= i < |lines| ==> NotTabsEnd(lines[i])
  }

  /** Lines without line breaks, as splitting a page gives them. */
  ghost predicate Plain(lines: seq<string>) {
    forall i :: 0 <= i < |lines| ==> '\n' !in lines[i]
  }

  /** What can stand inside a closed tabs region. */
  ghost predicate IsRegion(inner: seq<string>) {
    NoTabsEnd(inner) && Plain(inner)
  }

  ghost predicate GoodPiece(p: Piece) {
    match p
    case CodePiece(line) => !IsTabsOpen(line) && !IsTabsEnd(line) && !IsFence(line)
    case StrayPiece(line) => IsTabsEnd(line)
    case TabsPiece(open, inner, close) => IsTabsOpen(open) && IsRegion(inner) && IsTabsEnd(close)
  }

  ghost predicate GoodPieces(ps: seq<Piece>) {
    forall i :: 0 <= i < |ps| ==> GoodPiece(ps[i])
  }

  /** A tabs region that the page never closes. */
  ghost predicate GoodDangling(lines: seq<string>) {
    lines != [] ==> IsTabsOpen(lines[0]) && NoTabsEnd(lines[1..])
  }

  ghost predicate GoodFenceEnd(end: FenceEnd) {
    match end
    case FenceClosed(line, _) => IsFence(line) && !IsTabsOpen(line) && !IsTabsEnd(line)
    case FenceDangling(lines) => GoodDangling(lines)
  }

  predicate InList(kind: ListKind, line: string) {
    if kind == Ul then InUl(line) else InOl(line)
  }

  ghost predicate AllQuotes(lines: seq<string>) {
    forall i :: 0 <= i < |lines| ==> IsQuote(lines[i])
  }

  /** What the grammar guarantees of the blocks it makes. */
  ghost predicate GoodBlock(b: Block) {
    match b
    case StrayBlock(line) => Classify(line) == TabsEndLine
    case TabsBlock(open, inner, close) => Classify(open) == TabsOpenLine && IsRegion(inner) && IsTabsEnd(close)
    case OpenTabsBlock(open, inner) => Classify(open) == TabsOpenLine && NoTabsEnd(inner)
    case FenceBlock(open, pieces, close) =>
      && Classify(open) == FenceLine && GoodPieces(pieces)
      && IsFence(close) && !IsTabsOpen(close) && !IsTabsEnd(close)
    case OpenFenceBlock(open, pieces, dangling) =>
      Classify(open) == FenceLine && GoodPieces(pieces) && GoodDangling(dangling)
    case TableBlock(lines) =>
      lines != [] && Classify(lines[0]) == RowLine && forall i :: 0 <= i < |lines| ==> InTable(lines[i])
    case ListBlock(kind, lines) =>
      && lines != [] && Classify(lines[0]).ItemLine?
      && forall i :: 0 <= i < |lines| ==> InList(kind, lines[i])
    case HeadingBlock(line) => Classify(line).HeadingLine?
    case AlertBlock(line, quoted) => Classify(line).AlertLine? && AllQuotes(quoted)
    case QuoteBlock(lines) =>
      && lines != [] && Classify(lines[0]) == QuoteLine
      && forall i :: 1 <= i < |lines| ==> ContinuesQuote(lines[i])
    case RuleBlock(line) => Classify(line) == RuleLine
    case BlankBlock(line) => Classify(line) == BlankLine
    case ParagraphBlock(line) => Classify(line) == ParagraphLine
  }

  lemma {:induction false} ScanFenceGood(lines: seq<string>)
    requires Plain(lines)
    ensures GoodPieces(ScanFence(lines).pieces) && GoodFenceEnd(ScanFence(lines).end)
    decreases |lines|
  {
    hide IsTabsOpen, IsTabsEnd, IsFence, Span, GoodPiece, GoodFenceEnd;
    if lines == [] {
      assert GoodFenceEnd(FenceDangling([])) by { EndIsGood(lines); }
    } else if IsTabsOpen(lines[0]) {
      var n := Span(lines[1..], NotTabsEnd);
      if n == |lines| - 1 {
        EndIsGood(lines);
      } else {
        ScanFenceGood(lines[n + 2..]);
        RegionIsGood(lines, n);
      }
    } else if !IsTabsEnd(lines[0]) && IsFence(lines[0]) {
      EndIsGood(lines);
    } else {
      ScanFenceGood(lines[1..]);
      LineIsGood(lines[0]);
    }
  }

  lemma EndIsGood(lines: seq<string>)
    ensures lines == [] || (IsTabsOpen(lines[0]) && Span(lines[1..], NotTabsEnd) == |lines| - 1) ==>
              GoodFenceEnd(FenceDangling(lines))
    ensures lines != [] && !IsTabsOpen(lines[0]) && !IsTabsEnd(lines[0]) && IsFence(lines[0]) ==>
              GoodFenceEnd(FenceClosed(lines[0], lines[1..]))
  {
    hide IsTabsOpen, IsTabsEnd, IsFence, Span;
  }

  lemma RegionIsGood(lines: seq<string>, n: nat)
    requires Plain(lines) && lines != [] && IsTabsOpen(lines[0])
    requires n == Span(lines[1..], NotTabsEnd) && n < |lines| - 1
    ensures GoodPiece(TabsPiece(lines[0], lines[1..n + 1], lines[n + 1]))
  {
    hide IsTabsOpen, IsTabsEnd, Span;
    var inner, rest := lines[1..n + 1], lines[1..];
    assert forall i :: 0 <= i < |inner| ==> inner[i] == rest[i] == lines[i + 1];
    assert rest[n] == lines[n + 1];
  }

  lemma LineIsGood(line: string)
    ensures !IsTabsOpen(line) && IsTabsEnd(line) ==> GoodPiece(StrayPiece(line))
    ensures !IsTabsOpen(line) && !IsTabsEnd(line) && !IsFence(line) ==> GoodPiece(CodePiece(line))
  {
    hide IsTabsOpen, IsTabsEnd, IsFence;
  }

  /** The lines of a run all pass the test the run was made with. */
  lemma RunIsGood(first: string, rest: seq<string>, p: string -> bool)
    ensures var run := rest[..Span(rest, p)];
            && (forall i :: 0 <= i < |run| ==> p(run[i]))
            && forall i :: 1 <= i < |[first] + run| ==> p(([first] + run)[i])
  {
    hide Span;
    var n := Span(rest, p);
    assert forall i :: 0 <= i < n ==> rest[..n][i] == rest[i];
    assert forall i :: 1 <= i < n + 1 ==> ([first] + rest[..n])[i] == rest[..n][i - 1];
  }

  lemma TabsAreGood(line: string, rest: seq<string>)
    requires Classify(line) == TabsOpenLine && Plain(rest)
    ensures GoodBlock(FirstFrom(line, rest))
  {
    hide Classify, Span, IsTabsEnd;
    var n := Span(rest, NotTabsEnd);
    RunIsGood(line, rest, NotTabsEnd);
    assert rest[..|rest|] == rest;
    assert forall i :: 0 <= i < n ==> rest[..n][i] == rest[i];
  }

  lemma FenceIsGood(line: string, rest: seq<string>)
    requires Classify(line) == FenceLine && Plain(rest)
    ensures GoodBlock(FirstFrom(line, rest))
  {
    hide Classify, ScanFence, GoodPieces, GoodDangling, IsTabsOpen, IsTabsEnd, IsFence, Plain;
    ScanFenceGood(rest);
  }

  lemma FirstIsGood(lines: seq<string>)
    requires lines != [] && Plain(lines)
    ensures GoodBlock(First(lines))
  {
    hide Classify, ScanFence, Span, GoodPieces, GoodDangling, IsTabsEnd, IsTabsOpen, IsFence, IsQuote, ContinuesQuote,
         InTable, InUl, InOl;
    var line, rest := lines[0], lines[1..];
    assert Plain(rest);
    match Classify(line)
    case TabsOpenLine => TabsAreGood(line, rest);
    case FenceLine => FenceIsGood(line, rest);
    case RowLine =>
      RunIsGood(line, rest, InTable);
      StartsRun(line);
    case ItemLine(kind, _) =>
      RunIsGood(line, rest, InUl);
      RunIsGood(line, rest, InOl);
      StartsRun(line);
    case AlertLine(_) => RunIsGood(line, rest, IsQuote);
    case QuoteLine => RunIsGood(line, rest, ContinuesQuote);
    case _ =>
  }

  lemma StartsRun(line: string)
    ensures Classify(line).RowLine? ==> InTable(line)
    ensures Classify(line).ItemLine? ==> InList(Classify(line).kind, line)
  {
    hide Classify;
  }

  lemma {:induction false} BlocksAreGood(lines: seq<string>)
    requires Plain(lines)
    ensures forall i :: 0 <= i < |Blocks(lines)| ==> GoodBlock(Blocks(lines)[i])
    decreases |lines|
  {
    hide GoodBlock, First;
    if lines != [] {
      FirstIsPrefix(lines);
      FirstIsGood(lines);
      BlocksAreGood(lines[|Source(First(lines))|..]);
    }
  }

  // ---------------------------------------------------------------- rendering

  /** Only what follows the last `:::tabs` of a region counts. */
  function AfterLastOpen(inner: seq<string>): seq<string> {
    if inner == [] then []
    else if IsTabsOpen(inner[|inner| - 1]) then []
    else AfterLastOpen(inner[..|inner| - 1]) + [inner[|inner| - 1]]
  }

  predicate NotTabStart(line: string) {
    !IsTabStart(line)
  }

  /** Each `::tab` line begins a panel that runs up to the next one; text before the first is lost. */
  function SplitTabs(lines: seq<string>): seq<Tab>
    decreases |lines|
  {
    if lines == [] then []
    else if IsTabStart(lines[0]) then
      var n := Span(lines[1..], NotTabStart);
      [Tab(TabTitle(lines[0]), lines[1..n + 1])] + SplitTabs(lines[n + 1..])
    else SplitTabs(lines[1..])
  }

  function TabsOf(inner: seq<string>): seq<Tab> {
    SplitTabs(AfterLastOpen(inner))
  }

  /** `html` renders the text of one panel. */
  function RenderPanels(tabs: seq<Tab>, html: string -> seq<Token>): seq<Panel> {
    if tabs == [] then []
    else [Panel(tabs[0].title, html(Join(tabs[0].lines, "\n")))] + RenderPanels(tabs[1..], html)
  }

  function RenderTabs(tabs: seq<Tab>, html: string -> seq<Token>): Token {
    if tabs == [] then Empty else TabSet(RenderPanels(tabs, html))
  }

  function RenderCode(lang: string, code: seq<string>): Token {
    if lang == "mermaid" then Mermaid(Join(code, "\n"))
    else Code(if lang == "" then "plaintext" else lang, CodeEscape.Escape(Join(code, "\n")))
  }

  function CodeOf(ps: seq<Piece>): seq<string> {
    if ps == [] then [] else (if ps[0].CodePiece? then [ps[0].line] else []) + CodeOf(ps[1..])
  }

  /** A tabs region inside a fence is pushed at once, ahead of the code around it. */
  function RenderPieces(ps: seq<Piece>, html: string -> seq<Token>): seq<Token> {
    if ps == [] then []
    else (if ps[0].TabsPiece? then [RenderTabs(TabsOf(ps[0].inner), html)] else []) + RenderPieces(ps[1..], html)
  }

  function RowsOf(lines: seq<string>): seq<seq<string>> {
    if lines == [] then []
    else (if Classify(lines[0]).RowLine? then [RowCells(lines[0])] else []) + RowsOf(lines[1..])
  }

  function RenderCells(isHeader: bool, cells: seq<string>): seq<Token> {
    if cells == [] then [] else [Cell(isHeader, Trim(cells[0]))] + RenderCells(isHeader, cells[1..])
  }

  predicate IsSeparator(cells: seq<string>) {
    forall i :: 0 <= i < |cells| ==> "-" <= Trim(cells[i])
  }

  function RenderRows(rows: seq<seq<string>>, idx: nat): seq<Token>
    requires idx <= |rows|
    decreases |rows| - idx
  {
    if idx == |rows| then []
    else RenderRow(rows[idx], idx) + RenderRows(rows, idx + 1)
  }

  function RenderRow(cells: seq<string>, idx: nat): seq<Token> {
    if idx == 1 && IsSeparator(cells) then []
    else [RowOpen] + RenderCells(idx == 0, cells) + [RowClose]
  }

  function RenderTable(rows: seq<seq<string>>): seq<Token> {
    [TableOpen] + RenderRows(rows, 0) + [TableClose]
  }

  function RenderItems(lines: seq<string>): seq<Token> {
    if lines == [] then []
    else (if Classify(lines[0]).ItemLine? then [Item(Classify(lines[0]).kind, Classify(lines[0]).text)] else [])
         + RenderItems(lines[1..])
  }

  function QuoteTexts(lines: seq<string>): seq<string> {
    if lines == [] then [] else [QuoteText(lines[0])] + QuoteTexts(lines[1..])
  }

  function RenderHeading(line: string): seq<Token> {
    match Classify(line)
    case HeadingLine(level, rawText) => [Heading(level, Slug.Anchor(rawText), rawText)]
    case _ => []
  }

  function RenderAlert(line: string, quoted: seq<string>): seq<Token> {
    match Classify(line)
    case AlertLine(alertType) => [Alert(alertType, Join(QuoteTexts(quoted), " "))]
    case _ => []
  }

  function Render(b: Block, html: string -> seq<Token>): seq<Token> {
    match b
    case StrayBlock(_) => []
    case TabsBlock(_, inner, _) => [RenderTabs(TabsOf(inner), html)]
    case OpenTabsBlock(_, _) => []
    case FenceBlock(open, pieces, _) => RenderPieces(pieces, html) + [RenderCode(FenceLang(open), CodeOf(pieces))]
    case OpenFenceBlock(_, pieces, _) => RenderPieces(pieces, html)
    case TableBlock(lines) => RenderTable(RowsOf(lines))
    case ListBlock(kind, lines) => [ListOpen(kind)] + RenderItems(lines) + [ListClose(kind)]
    case HeadingBlock(line) => RenderHeading(line)
    case AlertBlock(line, quoted) => RenderAlert(line, quoted)
    case QuoteBlock(lines) => [Quote(Join(QuoteTexts(lines), " "))]
    case RuleBlock(_) => [Rule]
    case BlankBlock(_) => []
    case ParagraphBlock(line) => [Paragraph(line)]
  }

  function RenderAll(bs: seq<Block>, html: string -> seq<Token>): seq<Token> {
    if bs == [] then [] else Render(bs[0], html) + RenderAll(bs[1..], html)
  }

  function RenderLines(lines: seq<string>, html: string -> seq<Token>): seq<Token> {
    RenderAll(Blocks(lines), html)
  }

  /** The table of contents a sequence of tokens calls for: its headings of level 2 and 3, in order. */
  function TocOf(tokens: seq<Token>): seq<TocEntry> {
    if tokens == [] then []
    else
      (match tokens[0]
       case Heading(level, id, text) =>
         if level == 2 || level == 3 then [TocEntry(id, Filter(text, IsTocMark), level)] else []
       case _ => [])
      + TocOf(tokens[1..])
  }

  lemma {:induction false} TocAppend(a: seq<Token>, b: seq<Token>)
    ensures TocOf(a + b) == TocOf(a) + TocOf(b)
  {
    if a == [] {
      assert a + b == b;
    } else {
      assert (a + b)[1..] == a[1..] + b;
      TocAppend(a[1..], b);
    }
  }
}
