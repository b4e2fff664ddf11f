/** The first and the last line of a page, and a page that ends inside a fence or a region that is never closed. */
module MarkdownOpenEnd {
  import opened Text
  import opened MarkdownLines
  import opened MarkdownGrammar
  import opened MarkdownPage
  import opened MarkdownRest
  import opened MarkdownFate
  import opened MarkdownTrace

  /** The line is inside a fence or a region that is never closed. */
  predicate IsOpen(fate: Fate) {
    fate == Lost(UnclosedCode) || fate == Lost(UnclosedRegion)
  }

  /** The line may stand in front of such a line. */
  predicate LeadsOpen(fate: Fate) {
    IsOpen(fate) || fate in {Lost(FenceOpen), Lost(RegionOpen), Lost(RegionEnd), Lost(Stray)}
  }

  // ---------------------------------------------------------------- the first and the last line

  lemma FirstFate(lines: seq<string>, html: Html)
    requires lines != []
    ensures var fate := FateOf(lines, 0, html);
            if fate.Lost? then fate.why in {RegionOpen, FenceOpen, Stray, Blank}
            else !fate.place.Title? && !fate.place.PanelLine?
  {
    hide FateIn, Source, Render, FirstFrom;
    FirstIsPrefix(lines);
    HeadFate(lines[0], lines[1..]);
  }

  /** A line is in no panel. */
  predicate IsOutside(fate: Fate) {
    if fate.Lost? then fate.why != Wiped && fate.why != BeforeFirstTab else !fate.place.Title? && !fate.place.PanelLine?
  }

  lemma {:induction false} LastOfPieces(ps: seq<Piece>, token: nat, n: nat, codeAt: Option<nat>)
    requires ps != []
    ensures |PiecesSource(ps)| >= 1 && IsOutside(PieceFate(ps, |PiecesSource(ps)| - 1, token, n, codeAt))
  {
    hide RegionFate, PieceFate, PiecesSource;
    PiecesCons(ps);
    var i := |PiecesSource(ps)| - 1;
    PieceFateSteps(ps, i, token, n, codeAt);
    if |ps| > 1 {
      LastOfPieces(ps[1..], if ps[0].TabsPiece? then token + 1 else token, if ps[0].CodePiece? then n + 1 else n,
          codeAt);
    } else {
      assert ps[1..] == [];
      NoSource();
    }
  }

  lemma PiecesCons(ps: seq<Piece>)
    requires ps != []
    ensures |PiecesSource(ps)| == |PieceSource(ps[0])| + |PiecesSource(ps[1..])| && |PieceSource(ps[0])| >= 1
  {
  }

  lemma NoSource()
    ensures PiecesSource([]) == []
  {
  }

  lemma LastInBlock(b: Block)
    requires |Source(b)| >= 1
    ensures IsOutside(FateIn(b, |Source(b)| - 1))
  {
    hide RegionFate, PieceFate, Regions, PiecesSource, RenderItems, QuoteTexts, Size, Classify, RowsOf, RowStart,
         RowCells, IsSeparator;
    match b
    case OpenFenceBlock(_, pieces, dangling) =>
      if dangling == [] && pieces != [] {
        LastOfPieces(pieces, 0, 0, None);
      } else if pieces == [] {
        NoSource();
      }
    case _ =>
  }

  lemma {:induction false} LastFate(lines: seq<string>, html: Html)
    requires lines != []
    ensures IsOutside(FateOf(lines, |lines| - 1, html))
    decreases |lines|
  {
    hide First, Source, Render, FateIn;
    FirstIsPrefix(lines);
    var n := |Source(First(lines))|;
    if n == |lines| {
      LastInBlock(First(lines));
    } else {
      LastFate(lines[n..], html);
    }
  }

  // ---------------------------------------------------------------- without its last line

  lemma SpanPrefix(s: seq<string>, p: string -> bool, c: nat)
    requires Span(s, p) < c <= |s|
    ensures Span(s[..c], p) == Span(s, p)
    ensures s[..c][..Span(s, p)] == s[..Span(s, p)] && s[..c][Span(s, p)..] == s[Span(s, p)..][..c - Span(s, p)]
  {
    hide Span;
    SpanIs(s[..c], p, Span(s, p));
  }

  lemma {:induction false} ScanPrefix(lines: seq<string>, c: nat)
    requires ScanFence(lines).end.FenceClosed? && |lines| - |ScanFence(lines).end.rest| <= c <= |lines|
    ensures |ScanFence(lines).end.rest| < |lines|
    ensures var scan := ScanFence(lines);
            ScanFence(lines[..c]) ==
            FenceScan(scan.pieces, FenceClosed(scan.end.line, scan.end.rest[..c - (|lines| - |scan.end.rest|)]))
    decreases |lines|
  {
    hide ScanFence, IsTabsOpen, IsTabsEnd, IsFence, Span;
    ScanShortens(lines);
    var lines' := lines[..c];
    if IsTabsOpen(lines[0]) {
      var s := Span(lines[1..], NotTabsEnd);
      ScanRegion(lines);
      ScanShortens(lines[s + 2..]);
      ScanPrefix(lines[s + 2..], c - s - 2);
      RegionPrefix(lines, s, c);
      ScanRegion(lines');
    } else if !IsTabsEnd(lines[0]) && IsFence(lines[0]) {
      ScanClosed(lines);
      assert lines'[1..] == lines[1..][..c - 1];
      ScanClosed(lines');
    } else {
      ScanStep(lines);
      ScanShortens(lines[1..]);
      ScanPrefix(lines[1..], c - 1);
      assert lines'[1..] == lines[1..][..c - 1];
      ScanStep(lines');
    }
  }

  lemma RegionPrefix(lines: seq<string>, s: nat, c: nat)
    requires lines != [] && s == Span(lines[1..], NotTabsEnd) && s + 2 <= c <= |lines|
    ensures var lines' := lines[..c];
            && Span(lines'[1..], NotTabsEnd) == s && lines'[0] == lines[0] && lines'[1..s + 1] == lines[1..s + 1]
            && lines'[s + 1] == lines[s + 1] && lines'[s + 2..] == lines[s + 2..][..c - s - 2]
  {
    hide Span, IsTabsEnd;
    SpanPrefix(lines[1..], NotTabsEnd, c - 1);
    assert lines[..c][1..] == lines[1..][..c - 1];
  }

  lemma NoScan()
    ensures ScanFence([]) == FenceScan([], FenceDangling([]))
  {
  }

  /** The two scans give the same output, both to no end, and the last line of the `size` lines of the second one is
      such that an open fence or region can follow. */
  ghost predicate IsShorter(a: FenceScan, b: FenceScan, size: nat, token: nat, n: nat, html: Html) {
    && a.end.FenceDangling? && b.end.FenceDangling? && RenderPieces(b.pieces, html) == RenderPieces(a.pieces, html)
    && (size > 0 ==> LeadsOpen(ScanFate(b, size - 1, token, n, None)))
  }

  /** A fence that is never closed, without its last line: nothing changes but that line. */
  lemma {:induction false} ShorterScan(lines: seq<string>, token: nat, n: nat, html: Html)
    requires lines != [] && ScanFence(lines).end.FenceDangling?
    requires IsOpen(ScanFate(ScanFence(lines), |lines| - 1, token, n, None))
    ensures IsShorter(ScanFence(lines), ScanFence(lines[..|lines| - 1]), |lines| - 1, token, n, html)
    decreases |lines|
  {
    hide ScanFence, IsTabsOpen, IsTabsEnd, IsFence, Span, ScanFate, RenderPieces, TabsOf, RenderTabs;
    var last := |lines| - 1;
    if IsTabsOpen(lines[0]) {
      ShorterRegionScan(lines, token, n, html);
    } else if !IsTabsEnd(lines[0]) && IsFence(lines[0]) {
      ScanClosed(lines);
    } else {
      ScanStep(lines);
      var p := if IsTabsEnd(lines[0]) then StrayPiece(lines[0]) else CodePiece(lines[0]);
      QuietPiece(p, ScanFence(lines[1..]).pieces, html);
      if last == 0 {
        assert lines[1..] == [] && lines[..0] == [];
      } else {
        BehindLine(lines, last, token, n, None);
        ShorterScan(lines[1..], token, if IsTabsEnd(lines[0]) then n else n + 1, html);
        var lines' := lines[..last];
        assert lines'[1..] == lines[1..][..last - 1];
        ScanStep(lines');
        QuietPiece(p, ScanFence(lines'[1..]).pieces, html);
        if last > 1 {
          BehindLine(lines', last - 1, token, n, None);
        } else {
          FirstPieceIsFirst(p, ScanFence(lines'[1..]), token, n);
        }
      }
    }
  }

  lemma QuietPiece(p: Piece, ps: seq<Piece>, html: Html)
    requires !p.TabsPiece?
    ensures RenderPieces([p] + ps, html) == RenderPieces(ps, html)
  {
    hide RenderTabs, TabsOf;
    assert ([p] + ps)[1..] == ps;
    PieceOutput([p] + ps, html);
  }

  lemma FirstPieceIsFirst(p: Piece, rest: FenceScan, token: nat, n: nat)
    requires !p.TabsPiece?
    ensures LeadsOpen(ScanFate(FenceScan([p] + rest.pieces, rest.end), 0, token, n, None))
  {
    hide PieceFate, PiecesSource;
    FirstPieceFate(p, rest.pieces, token, n, None);
  }

  lemma ShorterRegionScan(lines: seq<string>, token: nat, n: nat, html: Html)
    requires lines != [] && IsTabsOpen(lines[0]) && ScanFence(lines).end.FenceDangling?
    requires IsOpen(ScanFate(ScanFence(lines), |lines| - 1, token, n, None))
    ensures IsShorter(ScanFence(lines), ScanFence(lines[..|lines| - 1]), |lines| - 1, token, n, html)
    decreases |lines|, 0
  {
    hide ScanFence, IsTabsOpen, IsTabsEnd, IsFence, Span, ScanFate, RenderPieces, TabsOf, RenderTabs, IsShorter;
    var last, s := |lines| - 1, Span(lines[1..], NotTabsEnd);
    ScanRegion(lines);
    if s == last {
      ShorterDangling(lines, token, n, html);
    } else {
      var p, rest := TabsPiece(lines[0], lines[1..s + 1], lines[s + 1]), ScanFence(lines[s + 2..]);
      if last == s + 1 {
        InRegion(p, rest, last, token, n, None);
      } else {
        BehindRegionFate(p, rest, last, token, n, None);
        ShorterScan(lines[s + 2..], token + 1, n, html);
        RegionPrefix(lines, s, last);
        ScanRegion(lines[..last]);
        ShorterBehind(p, rest, ScanFence(lines[s + 2..][..last - s - 2]), last - s - 2, token, n, html);
      }
    }
  }

  lemma ShorterDangling(lines: seq<string>, token: nat, n: nat, html: Html)
    requires lines != [] && IsTabsOpen(lines[0]) && Span(lines[1..], NotTabsEnd) == |lines| - 1
    requires IsOpen(ScanFate(ScanFence(lines), |lines| - 1, token, n, None))
    ensures IsShorter(ScanFence(lines), ScanFence(lines[..|lines| - 1]), |lines| - 1, token, n, html)
  {
    hide ScanFence, IsTabsOpen, IsTabsEnd, Span, ScanFate;
    var last := |lines| - 1;
    var lines' := lines[..last];
    ScanRegion(lines);
    DanglingFates(lines, token, n);
    assert lines'[1..] == lines[1..][..last - 1];
    SpanIs(lines'[1..], NotTabsEnd, last - 1);
    ScanRegion(lines');
    DanglingFates(lines', token, n);
  }

  lemma ShorterBehind(p: Piece, rest: FenceScan, rest': FenceScan, size: nat, token: nat, n: nat, html: Html)
    requires p.TabsPiece? && IsShorter(rest, rest', size, token + 1, n, html)
    ensures IsShorter(FenceScan([p] + rest.pieces, rest.end), FenceScan([p] + rest'.pieces, rest'.end),
                      |p.inner| + 2 + size, token, n, html)
  {
    hide ScanFate, RenderPieces, TabsOf, RenderTabs;
    TabsPieceRenders(p, rest.pieces, html);
    TabsPieceRenders(p, rest'.pieces, html);
    var i := |p.inner| + 1 + size;
    if size > 0 {
      BehindRegionFate(p, rest', i, token, n, None);
    } else {
      InRegion(p, rest', i, token, n, None);
    }
  }

  lemma DanglingFates(lines: seq<string>, token: nat, n: nat)
    requires lines != []
    ensures ScanFate(FenceScan([], FenceDangling(lines)), |lines| - 1, token, n, None) ==
            Lost(if |lines| == 1 then RegionOpen else UnclosedRegion)
  {
  }

  /** What follows the first block can be cut short without a change to that block. */
  ghost predicate IsCutShort(line: string, rest: seq<string>, c: nat) {
    var m := |rest| - |RestAfter(line, rest)|;
    && 0 <= m < c <= |rest|
    && FirstFrom(line, rest[..c]) == FirstFrom(line, rest)
    && RestAfter(line, rest[..c]) == RestAfter(line, rest)[..c - m]
  }

  lemma FirstPrefix(line: string, rest: seq<string>, c: nat)
    requires var m := |rest| - |RestAfter(line, rest)|; 0 <= m < c <= |rest|
    ensures IsCutShort(line, rest, c)
  {
    hide Classify, Span, ScanFence, InUl, InOl, InTable, IsQuote, ContinuesQuote, IsTabsEnd, IsCutShort;
    match Classify(line)
    case TabsOpenLine => TabsPrefix(line, rest, c);
    case FenceLine => FencePrefix(line, rest, c);
    case RowLine => RowsPrefix(line, rest, c);
    case ItemLine(kind, _) =>
      if kind == Ul {
        UlsPrefix(line, rest, c);
      } else {
        OlsPrefix(line, rest, c);
      }
    case AlertLine(_) => AlertPrefix(line, rest, c);
    case QuoteLine => QuotePrefix(line, rest, c);
    case _ => LinePrefix(line, rest, c);
  }

  lemma TabsPrefix(line: string, rest: seq<string>, c: nat)
    requires Classify(line) == TabsOpenLine
    requires var m := |rest| - |RestAfter(line, rest)|; 0 <= m < c <= |rest|
    ensures IsCutShort(line, rest, c)
  {
    hide Classify, Span, IsTabsEnd;
    var n := Span(rest, NotTabsEnd);
    if n < |rest| {
      SpanPrefix(rest, NotTabsEnd, c);
      assert rest[..c][n + 1..] == rest[n + 1..][..c - n - 1];
    }
  }

  lemma FencePrefix(line: string, rest: seq<string>, c: nat)
    requires Classify(line) == FenceLine
    requires var m := |rest| - |RestAfter(line, rest)|; 0 <= m < c <= |rest|
    ensures IsCutShort(line, rest, c)
  {
    hide Classify, ScanFence;
    ScanPrefix(rest, c);
  }

  lemma RowsAre(line: string, rest: seq<string>)
    requires Classify(line) == RowLine
    ensures var n := Span(rest, InTable);
            FirstFrom(line, rest) == TableBlock([line] + rest[..n]) && RestAfter(line, rest) == rest[n..]
  {
    hide Classify, Span;
  }

  lemma RowsPrefix(line: string, rest: seq<string>, c: nat)
    requires Classify(line) == RowLine && Span(rest, InTable) < c <= |rest|
    ensures IsCutShort(line, rest, c)
  {
    hide Classify, Span, FirstFrom, RestAfter, InTable;
    SpanPrefix(rest, InTable, c);
    RowsAre(line, rest);
    RowsAre(line, rest[..c]);
  }

  lemma UlsAre(line: string, rest: seq<string>)
    requires Classify(line).ItemLine? && Classify(line).kind == Ul
    ensures var n := Span(rest, InUl);
            FirstFrom(line, rest) == ListBlock(Ul, [line] + rest[..n]) && RestAfter(line, rest) == rest[n..]
  {
    hide Classify, Span;
  }

  lemma UlsPrefix(line: string, rest: seq<string>, c: nat)
    requires Classify(line).ItemLine? && Classify(line).kind == Ul && Span(rest, InUl) < c <= |rest|
    ensures IsCutShort(line, rest, c)
  {
    hide Classify, Span, FirstFrom, RestAfter, InUl;
    SpanPrefix(rest, InUl, c);
    UlsAre(line, rest);
    UlsAre(line, rest[..c]);
  }

  lemma OlsAre(line: string, rest: seq<string>)
    requires Classify(line).ItemLine? && Classify(line).kind == Ol
    ensures var n := Span(rest, InOl);
            FirstFrom(line, rest) == ListBlock(Ol, [line] + rest[..n]) && RestAfter(line, rest) == rest[n..]
  {
    hide Classify, Span;
  }

  lemma OlsPrefix(line: string, rest: seq<string>, c: nat)
    requires Classify(line).ItemLine? && Classify(line).kind == Ol && Span(rest, InOl) < c <= |rest|
    ensures IsCutShort(line, rest, c)
  {
    hide Classify, Span, FirstFrom, RestAfter, InOl;
    SpanPrefix(rest, InOl, c);
    OlsAre(line, rest);
    OlsAre(line, rest[..c]);
  }

  lemma AlertIs(line: string, rest: seq<string>)
    requires Classify(line).AlertLine?
    ensures var n := Span(rest, IsQuote);
            FirstFrom(line, rest) == AlertBlock(line, rest[..n]) && RestAfter(line, rest) == rest[n..]
  {
    hide Classify, Span;
  }

  lemma AlertPrefix(line: string, rest: seq<string>, c: nat)
    requires Classify(line).AlertLine? && Span(rest, IsQuote) < c <= |rest|
    ensures IsCutShort(line, rest, c)
  {
    hide Classify, Span, FirstFrom, RestAfter, IsQuote;
    SpanPrefix(rest, IsQuote, c);
    AlertIs(line, rest);
    AlertIs(line, rest[..c]);
  }

  lemma QuoteIs(line: string, rest: seq<string>)
    requires Classify(line) == QuoteLine
    ensures var n := Span(rest, ContinuesQuote);
            FirstFrom(line, rest) == QuoteBlock([line] + rest[..n]) && RestAfter(line, rest) == rest[n..]
  {
    hide Classify, Span;
  }

  lemma QuotePrefix(line: string, rest: seq<string>, c: nat)
    requires Classify(line) == QuoteLine && Span(rest, ContinuesQuote) < c <= |rest|
    ensures IsCutShort(line, rest, c)
  {
    hide Classify, Span, FirstFrom, RestAfter, ContinuesQuote;
    SpanPrefix(rest, ContinuesQuote, c);
    QuoteIs(line, rest);
    QuoteIs(line, rest[..c]);
  }

  lemma LinePrefix(line: string, rest: seq<string>, c: nat)
    requires Classify(line) in {TabsEndLine, RuleLine, BlankLine, ParagraphLine} || Classify(line).HeadingLine?
    requires 0 < c <= |rest|
    ensures IsCutShort(line, rest, c)
  {
    hide Classify;
  }

  /** The last line of a page that ends inside an open fence or region can go, and its predecessor is lost as well. */
  lemma {:induction false} ShorterPage(lines: seq<string>, html: Html)
    requires lines != [] && IsOpen(FateOf(lines, |lines| - 1, html))
    ensures |lines| > 1
    ensures var last := |lines| - 1;
            && RenderLines(lines[..last], html) == RenderLines(lines, html)
            && LeadsOpen(FateOf(lines[..last], last - 1, html))
    decreases |lines|
  {
    hide First, FirstFrom, RestAfter, FateIn, Source, Render, RenderLines, FateOf, IsOpen, LeadsOpen;
    StartIsShut(lines, html);
    var last, line, rest := |lines| - 1, lines[0], lines[1..];
    var lines' := lines[..last];
    assert lines == [line] + rest && lines' == [line] + rest[..last - 1];
    FirstOf(line, rest);
    FirstOf(line, rest[..last - 1]);
    FirstSplits(line, rest);
    FateSteps(lines, last, html);
    FateSteps(lines', last - 1, html);
    PageSteps(line, rest, html);
    PageSteps(line, rest[..last - 1], html);
    var n := |Source(First(lines))|;
    if n < |lines| {
      var after := RestAfter(line, rest);
      assert lines[n..] == after;
      LaterIsOpen(FateOf(after, last - n, html), |Render(First(lines), html)|);
      ShorterPage(after, html);
      FirstPrefix(line, rest, last - 1);
      assert lines'[n..] == after[..last - n];
      LaterIsOpen(FateOf(after[..last - n], last - n - 1, html), |Render(First(lines), html)|);
    } else {
      ShorterBlock(line, rest, html);
    }
  }

  lemma StartIsShut(lines: seq<string>, html: Html)
    requires lines != []
    ensures !IsOpen(FateOf(lines, 0, html))
  {
    hide FateOf;
    FirstFate(lines, html);
  }

  lemma FateSteps(lines: seq<string>, k: nat, html: Html)
    requires k < |lines|
    ensures var n := |Source(First(lines))|;
            && n <= |lines|
            && FateOf(lines, k, html) == if k < n then FateIn(First(lines), k)
                                         else Later(FateOf(lines[n..], k - n, html), |Render(First(lines), html)|)
  {
    hide First, FateIn, Source, Render;
    FirstIsPrefix(lines);
  }

  lemma LaterIsOpen(fate: Fate, n: nat)
    ensures IsOpen(Later(fate, n)) == IsOpen(fate) && LeadsOpen(Later(fate, n)) == LeadsOpen(fate)
  {
  }

  /** The block has `size` lines and ends inside an open fence or region. */
  ghost predicate EndsOpen(b: Block, size: nat) {
    size >= 1 && |Source(b)| == size && IsOpen(FateIn(b, size - 1))
  }

  /** Or in a line that such a line may follow. */
  ghost predicate EndsLeading(b: Block, size: nat) {
    size >= 1 && |Source(b)| == size && LeadsOpen(FateIn(b, size - 1))
  }

  /** Without its last line the page is still one block, of the same output. */
  ghost predicate StaysOpen(line: string, rest: seq<string>, rest': seq<string>, html: Html) {
    && Render(FirstFrom(line, rest'), html) == Render(FirstFrom(line, rest), html)
    && RestAfter(line, rest') == [] == RestAfter(line, rest)
    && EndsLeading(FirstFrom(line, rest'), 1 + |rest'|)
  }

  lemma ShorterBlock(line: string, rest: seq<string>, html: Html)
    requires rest != [] && EndsOpen(FirstFrom(line, rest), 1 + |rest|)
    ensures StaysOpen(line, rest, rest[..|rest| - 1], html)
  {
    hide EndsOpen, FirstFrom, StaysOpen;
    OpenKinds(FirstFrom(line, rest), 1 + |rest|);
    OpenFirst(line, rest);
    if Classify(line) == TabsOpenLine {
      ShorterTabs(line, rest, html);
    } else {
      ShorterFence(line, rest, html);
    }
  }

  lemma OpenKinds(b: Block, size: nat)
    requires EndsOpen(b, size)
    ensures b.OpenTabsBlock? || b.OpenFenceBlock?
  {
    hide Classify, PieceFate, PiecesSource, RegionFate, RowFate, RenderItems, QuoteTexts, Size, Regions;
    match b
    case TableBlock(lines) => RowsAreShut(lines, size - 1);
    case _ =>
  }

  lemma RowsAreShut(lines: seq<string>, i: nat)
    requires i < |lines|
    ensures !IsOpen(RowFate(lines, i))
  {
    hide Classify, RowsOf, RowStart, RowCells, IsSeparator;
  }

  lemma OpenFirst(line: string, rest: seq<string>)
    ensures FirstFrom(line, rest).OpenTabsBlock? ==> Classify(line) == TabsOpenLine && Span(rest, NotTabsEnd) == |rest|
    ensures FirstFrom(line, rest).OpenFenceBlock? ==> Classify(line) == FenceLine && ScanFence(rest).end.FenceDangling?
  {
    hide Classify, Span, ScanFence, ListExtent;
  }

  lemma OpenTabsIs(line: string, rest: seq<string>, html: Html)
    requires Classify(line) == TabsOpenLine && Span(rest, NotTabsEnd) == |rest|
    ensures FirstFrom(line, rest) == OpenTabsBlock(line, rest)
    ensures RestAfter(line, rest) == [] && Render(FirstFrom(line, rest), html) == []
  {
    hide Classify, Span;
  }

  lemma OpenTabsLeads(line: string, rest: seq<string>)
    ensures EndsLeading(OpenTabsBlock(line, rest), 1 + |rest|)
  {
  }

  lemma ShorterTabs(line: string, rest: seq<string>, html: Html)
    requires rest != [] && Classify(line) == TabsOpenLine && Span(rest, NotTabsEnd) == |rest|
    ensures StaysOpen(line, rest, rest[..|rest| - 1], html)
  {
    hide Classify, Span, IsTabsEnd, FirstFrom, RestAfter, Render, EndsLeading;
    var rest' := rest[..|rest| - 1];
    SpanIs(rest', NotTabsEnd, |rest'|);
    OpenTabsIs(line, rest, html);
    OpenTabsIs(line, rest', html);
    OpenTabsLeads(line, rest');
  }

  lemma OpenFenceIs(line: string, rest: seq<string>, html: Html)
    requires Classify(line) == FenceLine && ScanFence(rest).end.FenceDangling?
    ensures var scan := ScanFence(rest);
            && FirstFrom(line, rest) == OpenFenceBlock(line, scan.pieces, scan.end.lines)
            && RestAfter(line, rest) == [] && Render(FirstFrom(line, rest), html) == RenderPieces(scan.pieces, html)
  {
    hide Classify, ScanFence, RenderPieces;
  }

  lemma OpenFenceFate(line: string, scan: FenceScan, rest: seq<string>)
    requires scan.end.FenceDangling? && rest == PiecesSource(scan.pieces) + EndSource(scan.end)
    ensures var b, last := OpenFenceBlock(line, scan.pieces, scan.end.lines), |rest|;
            && |Source(b)| == 1 + last
            && FateIn(b, last) == if last == 0 then Lost(FenceOpen) else ScanFate(scan, last - 1, 0, 0, None)
  {
    hide PieceFate, PiecesSource;
  }

  lemma ShorterFence(line: string, rest: seq<string>, html: Html)
    requires rest != [] && Classify(line) == FenceLine && ScanFence(rest).end.FenceDangling?
    requires EndsOpen(FirstFrom(line, rest), 1 + |rest|)
    ensures StaysOpen(line, rest, rest[..|rest| - 1], html)
  {
    hide Classify, ScanFence, FirstFrom, RestAfter, Render, RenderPieces, ScanFate, FateIn, Source, PiecesSource,
         EndSource;
    var rest' := rest[..|rest| - 1];
    OpenFenceIs(line, rest, html);
    ScanFenceSource(rest);
    OpenFenceFate(line, ScanFence(rest), rest);
    ShorterScan(rest, 0, 0, html);
    OpenFenceIs(line, rest', html);
    ScanFenceSource(rest');
    OpenFenceFate(line, ScanFence(rest'), rest');
  }
}
