/** A lost line leaves no trace: any other line that may stand in its place gives the same output. */
module MarkdownTrace {
  import opened Text
  import opened MarkdownLines
  import opened MarkdownGrammar
  import opened MarkdownPage
  import opened MarkdownRest
  import opened MarkdownFate

  /** The lines that are lost for the reason `why`, put where such a line stands. */
  predicate MayStand(why: Loss, x: string) {
    match why
    case Stray => IsTabsEnd(x)
    case RegionEnd => IsTabsEnd(x)
    case Blank => Classify(x) == BlankLine
    case Separator => Classify(x) == RowLine && IsSeparator(RowCells(x))
    case FenceOpen => Classify(x) == FenceLine
    case FenceClose => Classify(x) == FenceLine
    case UnclosedCode => !IsTabsOpen(x) && !IsTabsEnd(x) && !IsFence(x)
    case RegionOpen => IsTabsOpen(x)
    case UnclosedRegion => !IsTabsEnd(x)
    case Wiped => !IsTabsEnd(x)
    case BeforeFirstTab => !IsTabsEnd(x) && !IsTabsOpen(x) && !IsTabStart(x)
  }

  /** `x` may take the place of a line with this fate: a lost line for one lost for the same reason, a line that starts
      a tab for one with the same title, or a panel line whose change leaves the panel's own page as it is. */
  ghost predicate Unseen(fate: Fate, x: string, html: Html) {
    match fate
    case Lost(why) => MayStand(why, x)
    case Kept(place) =>
      if place.Title? then IsTabStart(x) && TabTitle(x) == place.title
      else
        && place.PanelLine? && !IsTabsEnd(x) && !IsTabsOpen(x) && !IsTabStart(x) && place.n < |place.tab.lines|
        && html(Join(place.tab.lines[place.n := x], "\n")) == html(Join(place.tab.lines, "\n"))
  }

  /** Or an alert's marker for a marker of the same type, whatever text follows it. */
  ghost predicate Replaces(fate: Fate, line: string, x: string, html: Html) {
    Unseen(fate, x, html) || (fate.Kept? && fate.place.Marker? && Classify(x) == Classify(line))
  }

  // ---------------------------------------------------------------- kinds of lines

  lemma KindOf(x: string)
    ensures IsTabsOpen(x) <==> Classify(x) == TabsOpenLine
    ensures IsTabsEnd(x) <==> Classify(x) == TabsEndLine
    ensures IsFence(x) && !IsTabsOpen(x) && !IsTabsEnd(x) <==> Classify(x) == FenceLine
    ensures IsTabsOpen(x) ==> !IsTabsEnd(x)
    ensures Classify(x) in {TabsOpenLine, TabsEndLine, FenceLine, BlankLine} ==> !IsQuote(x)
    ensures Classify(x).AlertLine? ==> IsQuote(x) && !ContinuesQuote(x)
    ensures IsTabStart(x) ==> !IsTabsOpen(x) && !IsTabsEnd(x)
  {
    hide Trim, MatchHeading, MatchBullet, MatchNumber, MatchAlert, IsRow, IsRule, IsQuote, MatchAlertStart;
    QuoteMarks(x);
    if IsTabStart(x) {
      assert Trim(x)[2] == "::tab"[2];
    }
  }

  lemma QuoteMarks(x: string)
    ensures IsTabsOpen(x) || IsTabsEnd(x) || IsFence(x) || Trim(x) == "" ==> !IsQuote(x)
    ensures MatchAlert(x).Some? ==> IsQuote(x) && MatchAlertStart(x).Some?
  {
    hide Trim, FirstName;
    var t := Trim(x);
    if IsQuote(x) {
      assert t[0] == '>';
    }
  }

  /** Neither line goes on with a list, a table or a quote more than the other. */
  ghost predicate Alike(x: string, y: string) {
    InUl(x) == InUl(y) && InOl(x) == InOl(y) && InTable(x) == InTable(y) && IsQuote(x) == IsQuote(y)
    && ContinuesQuote(x) == ContinuesQuote(y)
  }

  lemma AlikeByKind(x: string, y: string)
    requires Classify(x) == Classify(y)
    requires Classify(x) in {TabsOpenLine, TabsEndLine, FenceLine, BlankLine} || Classify(x).AlertLine?
    ensures Alike(x, y)
  {
    hide Classify, IsQuote, MatchAlertStart, IsTabsOpen, IsTabsEnd, IsFence;
    KindOf(x);
    KindOf(y);
  }

  // ---------------------------------------------------------------- runs

  lemma SpanKept(s: seq<string>, p: string -> bool, j: nat, x: string)
    requires j < |s|
    requires if j < Span(s, p) then p(x) else if j == Span(s, p) then !p(x) else true
    ensures Span(s[j := x], p) == Span(s, p)
  {
    hide Span;
    SpanIs(s[j := x], p, Span(s, p));
  }

  lemma TakeUpdate(s: seq<string>, n: nat, j: nat, x: string)
    requires n <= |s| && j < |s|
    ensures j < n ==> s[j := x][..n] == s[..n][j := x] && s[j := x][n..] == s[n..]
    ensures j >= n ==> s[j := x][..n] == s[..n] && s[j := x][n..] == s[n..][j - n := x]
  {
  }

  // ---------------------------------------------------------------- regions

  lemma {:induction false} TabNoTrace(lines: seq<string>, i: nat, token: nat, panel: nat, x: string, html: Html)
    requires i < |lines| && Unseen(TabFate(lines, i, token, panel), x, html)
    ensures RenderPanels(SplitTabs(lines[i := x]), html) == RenderPanels(SplitTabs(lines), html)
    decreases |lines|
  {
    hide IsTabStart, IsTabsOpen, IsTabsEnd, TabTitle, Span, SplitTabs, TabHolds, RenderPanels, Join, TabFate;
    TabFateHolds(lines, i, token, panel);
    TabFateSteps(lines, i, token, panel);
    var lines' := lines[i := x];
    if IsTabStart(lines[0]) {
      var n := Span(lines[1..], NotTabStart);
      var tab, rest := Tab(TabTitle(lines[0]), lines[1..n + 1]), lines[n + 1..];
      SplitTabsHead(lines, n);
      PanelsCons(tab, SplitTabs(rest), html);
      if i == 0 {
        assert lines'[1..] == lines[1..];
        SplitTabsHead(lines', n);
      } else if i <= n {
        InFirstTab(lines, n, i, x);
        SplitTabsHead(lines', n);
        PanelsCons(Tab(tab.title, tab.lines[i - 1 := x]), SplitTabs(rest), html);
      } else {
        TabStartsThere(lines, n);
        TabLineKept(rest, token, panel + 1, x, html);
        TabNoTrace(rest, i - n - 1, token, panel + 1, x, html);
        BehindFirstTab(lines, n, i, x);
        SplitTabsHead(lines', n);
        PanelsCons(tab, SplitTabs(rest[i - n - 1 := x]), html);
      }
    } else {
      SplitTabsNext(lines);
      if i == 0 {
        assert lines'[1..] == lines[1..];
      } else {
        assert lines'[1..] == lines[1..][i - 1 := x];
        TabNoTrace(lines[1..], i - 1, token, panel, x, html);
      }
      SplitTabsNext(lines');
    }
  }

  /** A line that starts a tab is kept as its title, and only such a line may take its place. */
  lemma TabLineKept(lines: seq<string>, token: nat, panel: nat, x: string, html: Html)
    requires lines != [] && IsTabStart(lines[0])
    ensures Unseen(TabFate(lines, 0, token, panel), x, html) ==> IsTabStart(x)
  {
    hide IsTabStart, Span;
  }

  lemma InFirstTab(lines: seq<string>, n: nat, i: nat, x: string)
    requires lines != [] && n == Span(lines[1..], NotTabStart) && 0 < i <= n && !IsTabStart(x)
    ensures var lines' := lines[i := x];
            && Span(lines'[1..], NotTabStart) == n && lines'[0] == lines[0]
            && lines'[1..n + 1] == lines[1..n + 1][i - 1 := x] && lines'[n + 1..] == lines[n + 1..]
  {
    hide IsTabStart, Span;
    SpanKept(lines[1..], NotTabStart, i - 1, x);
    assert lines[i := x][1..] == lines[1..][i - 1 := x];
  }

  lemma BehindFirstTab(lines: seq<string>, n: nat, i: nat, x: string)
    requires lines != [] && n == Span(lines[1..], NotTabStart) && n < i < |lines|
    requires i == n + 1 ==> IsTabStart(x)
    ensures var lines' := lines[i := x];
            && Span(lines'[1..], NotTabStart) == n && lines'[0] == lines[0]
            && lines'[1..n + 1] == lines[1..n + 1] && lines'[n + 1..] == lines[n + 1..][i - n - 1 := x]
  {
    hide IsTabStart, Span;
    SpanKept(lines[1..], NotTabStart, i - 1, x);
    assert lines[i := x][1..] == lines[1..][i - 1 := x];
  }

  lemma PanelsCons(tab: Tab, tabs: seq<Tab>, html: Html)
    ensures RenderPanels([tab] + tabs, html) ==
            [Panel(tab.title, html(Join(tab.lines, "\n")))] + RenderPanels(tabs, html)
  {
    hide Join;
    assert ([tab] + tabs)[1..] == tabs;
  }

  lemma {:induction false} LastOpenStands(inner: seq<string>)
    ensures var n := WipedLines(inner); n > 0 ==> IsTabsOpen(inner[n - 1])
  {
    hide IsTabsOpen;
    if inner != [] && !IsTabsOpen(inner[|inner| - 1]) {
      LastOpenStands(inner[..|inner| - 1]);
    }
  }

  lemma {:induction false} LastOpenIs(inner: seq<string>, n: nat)
    requires n <= |inner| && (n > 0 ==> IsTabsOpen(inner[n - 1]))
    requires forall i :: n <= i < |inner| ==> !IsTabsOpen(inner[i])
    ensures AfterLastOpen(inner) == inner[n..]
  {
    hide IsTabsOpen;
    if n < |inner| {
      LastOpenIs(inner[..|inner| - 1], n);
    }
  }

  lemma RegionNoTrace(inner: seq<string>, i: nat, token: nat, x: string, html: Html)
    requires i < |inner| && Unseen(RegionFate(inner, i, token), x, html)
    ensures RenderTabs(TabsOf(inner[i := x]), html) == RenderTabs(TabsOf(inner), html) && !IsTabsEnd(x)
  {
    hide IsTabsOpen, IsTabsEnd, IsTabStart, TabFate, SplitTabs, AfterLastOpen, Classify, RowCells, TabHolds,
         RenderPanels, Join;
    var n := WipedLines(inner);
    var inner' := inner[i := x];
    KindOf(x);
    LastOpenStands(inner);
    AfterLastOpenIsSuffix(inner);
    var tail := inner[n..];
    forall k | n <= k < |inner|
      ensures !IsTabsOpen(inner[k])
    {
      assert tail[k - n] == inner[k];
    }
    if i >= n {
      TabFateHolds(tail, i - n, token, 0);
      TabNoTrace(tail, i - n, token, 0, x, html);
      assert inner'[n..] == tail[i - n := x];
      SamePanels(SplitTabs(tail), SplitTabs(tail[i - n := x]), html);
    } else {
      assert inner'[n..] == tail;
    }
    LastOpenIs(inner', n);
  }

  lemma SamePanels(a: seq<Tab>, b: seq<Tab>, html: Html)
    requires RenderPanels(a, html) == RenderPanels(b, html)
    ensures RenderTabs(a, html) == RenderTabs(b, html)
  {
    hide RenderPanels;
    PanelCount(a, html);
    PanelCount(b, html);
  }

  // ---------------------------------------------------------------- fences

  /** The fate of line `i` of what follows a fence: in a piece, or in what ends the scan. */
  function ScanFate(scan: FenceScan, i: nat, token: nat, n: nat, codeAt: Option<nat>): Fate {
    if i < |PiecesSource(scan.pieces)| then PieceFate(scan.pieces, i, token, n, codeAt)
    else if scan.end.FenceClosed? then Lost(FenceClose)
    else Lost(if i == |PiecesSource(scan.pieces)| then RegionOpen else UnclosedRegion)
  }

  /** The two scans give the same output. */
  ghost predicate SameScan(a: FenceScan, b: FenceScan, html: Html) {
    && RenderPieces(a.pieces, html) == RenderPieces(b.pieces, html)
    && a.end.FenceClosed? == b.end.FenceClosed?
    && (a.end.FenceClosed? ==> CodeOf(a.pieces) == CodeOf(b.pieces) && a.end.rest == b.end.rest)
  }

  lemma SameBehind(p: Piece, q: Piece, a: FenceScan, b: FenceScan, html: Html)
    requires SameScan(a, b, html)
    requires match p
             case CodePiece(line) => q.CodePiece? && (a.end.FenceClosed? ==> q.line == line)
             case StrayPiece(_) => q.StrayPiece?
             case TabsPiece(_, inner, _) =>
               q.TabsPiece? && RenderTabs(TabsOf(q.inner), html) == RenderTabs(TabsOf(inner), html)
    ensures SameScan(FenceScan([p] + a.pieces, a.end), FenceScan([q] + b.pieces, b.end), html)
  {
    hide RenderTabs, TabsOf;
    PieceOutput([p] + a.pieces, html);
    PieceOutput([q] + b.pieces, html);
    assert ([p] + a.pieces)[1..] == a.pieces && ([q] + b.pieces)[1..] == b.pieces;
  }

  lemma ScanStep(lines: seq<string>)
    requires lines != [] && !IsTabsOpen(lines[0]) && !(!IsTabsEnd(lines[0]) && IsFence(lines[0]))
    ensures var rest := ScanFence(lines[1..]);
            ScanFence(lines) ==
            FenceScan([if IsTabsEnd(lines[0]) then StrayPiece(lines[0]) else CodePiece(lines[0])] + rest.pieces,
                      rest.end)
  {
    hide IsTabsOpen, IsTabsEnd, IsFence;
  }

  lemma ScanClosed(lines: seq<string>)
    requires lines != [] && !IsTabsOpen(lines[0]) && !IsTabsEnd(lines[0]) && IsFence(lines[0])
    ensures ScanFence(lines) == FenceScan([], FenceClosed(lines[0], lines[1..]))
  {
    hide IsTabsOpen, IsTabsEnd, IsFence;
  }

  /** How far a scan reads: up to the closing fence, or to the end. */
  function ScanLength(lines: seq<string>, scan: FenceScan): int {
    if scan.end.FenceClosed? then |lines| - |scan.end.rest| else |lines|
  }

  lemma {:induction false} ScanNoTrace(lines: seq<string>, i: nat, token: nat, n: nat, codeAt: Option<nat>, x: string,
                                       html: Html)
    requires i < |lines| && i < ScanLength(lines, ScanFence(lines))
    requires codeAt.Some? == ScanFence(lines).end.FenceClosed?
    requires Unseen(ScanFate(ScanFence(lines), i, token, n, codeAt), x, html)
    ensures SameScan(ScanFence(lines), ScanFence(lines[i := x]), html)
    decreases |lines|
  {
    hide ScanFence, IsTabsOpen, IsTabsEnd, IsFence, Span, Classify, RowCells, MayStand, SameScan, ScanFate;
    if IsTabsOpen(lines[0]) {
      RegionScanNoTrace(lines, i, token, n, codeAt, x, html);
    } else if !IsTabsEnd(lines[0]) && IsFence(lines[0]) {
      CloseNoTrace(lines, i, token, n, codeAt, x, html);
    } else {
      LineNoTrace(lines, i, token, n, codeAt, x, html);
      if i > 0 {
        ScanStep(lines);
        var own := if IsTabsEnd(lines[0]) then n else n + 1;
        BehindLine(lines, i, token, n, codeAt);
        ScanNoTrace(lines[1..], i - 1, token, own, codeAt, x, html);
        var p := if IsTabsEnd(lines[0]) then StrayPiece(lines[0]) else CodePiece(lines[0]);
        SameBehind(p, p, ScanFence(lines[1..]), ScanFence(lines[1..][i - 1 := x]), html);
        assert lines[i := x][1..] == lines[1..][i - 1 := x];
        ScanStep(lines[i := x]);
      }
    }
  }

  lemma CloseNoTrace(lines: seq<string>, i: nat, token: nat, n: nat, codeAt: Option<nat>, x: string, html: Html)
    requires i < |lines| && i < ScanLength(lines, ScanFence(lines))
    requires !IsTabsOpen(lines[0]) && !IsTabsEnd(lines[0]) && IsFence(lines[0])
    requires Unseen(ScanFate(ScanFence(lines), i, token, n, codeAt), x, html)
    ensures SameScan(ScanFence(lines), ScanFence(lines[i := x]), html)
  {
    hide ScanFence, IsTabsOpen, IsTabsEnd, IsFence, Classify, RowCells, PieceFate;
    ScanClosed(lines);
    KindOf(x);
    ScanClosed(lines[i := x]);
    assert lines[i := x][1..] == lines[1..];
  }

  /** Where the first line is code or a stray `:::`. */
  lemma LineNoTrace(lines: seq<string>, i: nat, token: nat, n: nat, codeAt: Option<nat>, x: string, html: Html)
    requires i < |lines| && !IsTabsOpen(lines[0]) && !(!IsTabsEnd(lines[0]) && IsFence(lines[0]))
    requires codeAt.Some? == ScanFence(lines).end.FenceClosed?
    requires Unseen(ScanFate(ScanFence(lines), i, token, n, codeAt), x, html)
    ensures i == 0 ==> SameScan(ScanFence(lines), ScanFence(lines[i := x]), html)
  {
    hide ScanFence, IsTabsOpen, IsTabsEnd, IsFence, Classify, RowCells, PieceFate, SameScan, PiecesSource;
    if i == 0 {
      ScanStep(lines);
      var rest := ScanFence(lines[1..]);
      var p := if IsTabsEnd(lines[0]) then StrayPiece(lines[0]) else CodePiece(lines[0]);
      FirstPieceFate(p, rest.pieces, token, n, codeAt);
      KindOf(x);
      var q := if IsTabsEnd(x) then StrayPiece(x) else CodePiece(x);
      SameSelf(rest, html);
      SameBehind(p, q, rest, rest, html);
      assert lines[0 := x][1..] == lines[1..];
      ScanStep(lines[0 := x]);
    }
  }

  lemma SameSelf(scan: FenceScan, html: Html)
    ensures SameScan(scan, scan, html)
  {
  }

  lemma FirstPieceFate(p: Piece, ps: seq<Piece>, token: nat, n: nat, codeAt: Option<nat>)
    requires !p.TabsPiece?
    ensures |PiecesSource([p] + ps)| == 1 + |PiecesSource(ps)|
    ensures PieceFate([p] + ps, 0, token, n, codeAt) ==
            if p.StrayPiece? then Lost(Stray)
            else if codeAt.Some? then Kept(CodeLine(codeAt.value, n)) else Lost(UnclosedCode)
  {
    assert ([p] + ps)[1..] == ps;
  }

  lemma BehindLine(lines: seq<string>, i: nat, token: nat, n: nat, codeAt: Option<nat>)
    requires 0 < i < |lines| && !IsTabsOpen(lines[0]) && !(!IsTabsEnd(lines[0]) && IsFence(lines[0]))
    ensures ScanFate(ScanFence(lines), i, token, n, codeAt)
         == ScanFate(ScanFence(lines[1..]), i - 1, token, if IsTabsEnd(lines[0]) then n else n + 1, codeAt)
  {
    hide ScanFence, IsTabsOpen, IsTabsEnd, IsFence, PieceFate, PiecesSource;
    ScanStep(lines);
    var rest := ScanFence(lines[1..]);
    var p := if IsTabsEnd(lines[0]) then StrayPiece(lines[0]) else CodePiece(lines[0]);
    BehindPiece(p, rest.pieces, i, token, n, codeAt);
  }

  lemma BehindPiece(p: Piece, ps: seq<Piece>, i: nat, token: nat, n: nat, codeAt: Option<nat>)
    requires i >= |PieceSource(p)|
    ensures |PiecesSource([p] + ps)| == |PieceSource(p)| + |PiecesSource(ps)|
    ensures i < |PiecesSource([p] + ps)| ==>
              PieceFate([p] + ps, i, token, n, codeAt) ==
              PieceFate(ps, i - |PieceSource(p)|, if p.TabsPiece? then token + 1 else token,
                  if p.CodePiece? then n + 1 else n, codeAt)
  {
    hide PieceFate, RegionFate;
    assert ([p] + ps)[1..] == ps;
    if i < |PiecesSource([p] + ps)| {
      PieceFateSteps([p] + ps, i, token, n, codeAt);
    }
  }

  /** Where the first line opens a region. */
  lemma {:induction false} RegionScanNoTrace(lines: seq<string>, i: nat, token: nat, n: nat, codeAt: Option<nat>,
                                             x: string, html: Html)
    requires i < |lines| && i < ScanLength(lines, ScanFence(lines)) && IsTabsOpen(lines[0])
    requires codeAt.Some? == ScanFence(lines).end.FenceClosed?
    requires Unseen(ScanFate(ScanFence(lines), i, token, n, codeAt), x, html)
    ensures SameScan(ScanFence(lines), ScanFence(lines[i := x]), html)
    decreases |lines|, 0
  {
    hide ScanFence, IsTabsOpen, IsTabsEnd, IsFence, Span, Classify, RowCells, SameScan, ScanFate, TabsOf, IsTabStart;
    var s, lines' := Span(lines[1..], NotTabsEnd), lines[i := x];
    ScanRegion(lines);
    KindOf(x);
    if s == |lines| - 1 {
      DanglingNoTrace(lines, i, token, n, codeAt, x, html);
    } else {
      var p, rest := TabsPiece(lines[0], lines[1..s + 1], lines[s + 1]), ScanFence(lines[s + 2..]);
      if i <= s + 1 {
        InRegion(p, rest, i, token, n, codeAt);
        var q := TabsPiece(lines'[0], lines'[1..s + 1], lines'[s + 1]);
        PieceNoTrace(lines, s, i, token, x, html);
        SameSelf(rest, html);
        SameBehind(p, q, rest, rest, html);
        assert lines'[s + 2..] == lines[s + 2..];
        ScanRegion(lines');
      } else {
        BehindRegionFate(p, rest, i, token, n, codeAt);
        ScanNoTrace(lines[s + 2..], i - s - 2, token + 1, n, codeAt, x, html);
        SameBehind(p, p, rest, ScanFence(lines[s + 2..][i - s - 2 := x]), html);
        RegionStays(lines, s, i, x);
        ScanRegion(lines');
      }
    }
  }

  lemma RegionStays(lines: seq<string>, s: nat, i: nat, x: string)
    requires lines != [] && s == Span(lines[1..], NotTabsEnd) && s + 1 < i < |lines|
    ensures var lines' := lines[i := x];
            && Span(lines'[1..], NotTabsEnd) == s && lines'[0] == lines[0] && lines'[1..s + 1] == lines[1..s + 1]
            && lines'[s + 1] == lines[s + 1] && lines'[s + 2..] == lines[s + 2..][i - s - 2 := x]
  {
    hide Span, IsTabsEnd;
    SpanKept(lines[1..], NotTabsEnd, i - 1, x);
    assert lines[i := x][1..] == lines[1..][i - 1 := x];
  }

  lemma InRegion(p: Piece, rest: FenceScan, i: nat, token: nat, n: nat, codeAt: Option<nat>)
    requires p.TabsPiece? && i < |p.inner| + 2
    ensures ScanFate(FenceScan([p] + rest.pieces, rest.end), i, token, n, codeAt) ==
            if i == 0 then Lost(RegionOpen)
            else if i <= |p.inner| then RegionFate(p.inner, i - 1, token) else Lost(RegionEnd)
  {
    hide RegionFate, PieceFate;
    assert ([p] + rest.pieces)[1..] == rest.pieces;
    PieceFateSteps([p] + rest.pieces, i, token, n, codeAt);
  }

  lemma BehindRegionFate(p: Piece, rest: FenceScan, i: nat, token: nat, n: nat, codeAt: Option<nat>)
    requires p.TabsPiece? && i >= |p.inner| + 2
    ensures ScanFate(FenceScan([p] + rest.pieces, rest.end), i, token, n, codeAt)
         == ScanFate(rest, i - |p.inner| - 2, token + 1, n, codeAt)
  {
    hide PieceFate, PiecesSource;
    BehindPiece(p, rest.pieces, i, token, n, codeAt);
  }

  /** Replacing a lost line of a closed region keeps its extent and its tabs. */
  lemma PieceNoTrace(lines: seq<string>, s: nat, i: nat, token: nat, x: string, html: Html)
    requires |lines| > s + 1 && s == Span(lines[1..], NotTabsEnd) && i <= s + 1
    requires var inner := lines[1..s + 1];
             var fate := if i == 0 then Lost(RegionOpen)
                         else if i <= s then RegionFate(inner, i - 1, token) else Lost(RegionEnd);
             Unseen(fate, x, html)
    ensures var lines' := lines[i := x];
            && (i == 0 ==> IsTabsOpen(x))
            && Span(lines'[1..], NotTabsEnd) == s
            && RenderTabs(TabsOf(lines'[1..s + 1]), html) == RenderTabs(TabsOf(lines[1..s + 1]), html)
  {
    hide Span, IsTabsOpen, IsTabsEnd, TabsOf, RegionFate, Classify, IsTabStart, IsFence, RowCells;
    var inner, rest, lines' := lines[1..s + 1], lines[1..], lines[i := x];
    if i == 0 {
      assert lines'[1..] == rest && lines'[1..s + 1] == inner;
    } else {
      assert lines'[1..] == rest[i - 1 := x];
      if i <= s {
        RegionNoTrace(inner, i - 1, token, x, html);
        assert lines'[1..s + 1] == inner[i - 1 := x];
      } else {
        assert lines'[1..s + 1] == inner;
      }
      SpanKept(rest, NotTabsEnd, i - 1, x);
    }
  }

  lemma DanglingNoTrace(lines: seq<string>, i: nat, token: nat, n: nat, codeAt: Option<nat>, x: string, html: Html)
    requires i < |lines| && IsTabsOpen(lines[0]) && Span(lines[1..], NotTabsEnd) == |lines| - 1
    requires Unseen(ScanFate(ScanFence(lines), i, token, n, codeAt), x, html)
    ensures SameScan(ScanFence(lines), ScanFence(lines[i := x]), html)
  {
    hide ScanFence, IsTabsOpen, IsTabsEnd, IsFence, Span, Classify, RowCells, PieceFate, IsTabStart;
    ScanRegion(lines);
    var lines' := lines[i := x];
    if i == 0 {
      assert lines'[1..] == lines[1..];
    } else {
      assert lines'[1..] == lines[1..][i - 1 := x];
      SpanKept(lines[1..], NotTabsEnd, i - 1, x);
    }
    ScanRegion(lines');
  }

  /** A scan does not look behind its closing fence. */
  lemma {:induction false} ScanBehind(lines: seq<string>, j: nat, x: string)
    requires ScanFence(lines).end.FenceClosed? && |lines| - |ScanFence(lines).end.rest| <= j < |lines|
    ensures |ScanFence(lines).end.rest| < |lines|
    ensures var scan := ScanFence(lines);
            ScanFence(lines[j := x]) ==
            FenceScan(scan.pieces, FenceClosed(scan.end.line, scan.end.rest[j - (|lines| - |scan.end.rest|) := x]))
    decreases |lines|
  {
    hide ScanFence, IsTabsOpen, IsTabsEnd, IsFence, Span;
    var lines' := lines[j := x];
    ScanShortens(lines);
    if IsTabsOpen(lines[0]) {
      var s := Span(lines[1..], NotTabsEnd);
      ScanRegion(lines);
      ScanShortens(lines[s + 2..]);
      ScanBehind(lines[s + 2..], j - s - 2, x);
      RegionStays(lines, s, j, x);
      ScanRegion(lines');
    } else if !IsTabsEnd(lines[0]) && IsFence(lines[0]) {
      ScanClosed(lines);
      assert lines'[1..] == lines[1..][j - 1 := x];
      ScanClosed(lines');
    } else {
      ScanStep(lines);
      ScanShortens(lines[1..]);
      ScanBehind(lines[1..], j - 1, x);
      assert lines'[1..] == lines[1..][j - 1 := x];
      ScanStep(lines');
    }
  }

  lemma ScanShortens(lines: seq<string>)
    ensures var scan := ScanFence(lines); scan.end.FenceClosed? ==> |scan.end.rest| < |lines|
  {
    hide ScanFence, PiecesSource;
    ScanFenceSource(lines);
  }

  // ---------------------------------------------------------------- tables and lists

  lemma {:induction false} RowsReplace(lines: seq<string>, i: nat, x: string)
    requires i < |lines| && (Classify(x) == RowLine) == (Classify(lines[i]) == RowLine)
    ensures var r := |RowsOf(lines[..i])|;
            if Classify(x) == RowLine then r < |RowsOf(lines)|
                && RowsOf(lines[i := x]) == RowsOf(lines)[r := RowCells(x)]
            else RowsOf(lines[i := x]) == RowsOf(lines)
  {
    hide Classify, RowCells;
    var lines' := lines[i := x];
    if i == 0 {
      assert lines[..0] == [] && lines'[1..] == lines[1..];
    } else {
      RowsReplace(lines[1..], i - 1, x);
      assert lines'[1..] == lines[1..][i - 1 := x];
      assert lines[..i][1..] == lines[1..][..i - 1];
    }
  }

  /** One separator is as good as another. */
  lemma {:induction false} SeparatorNoTrace(rows: seq<seq<string>>, idx: nat, cells: seq<string>)
    requires 1 < |rows| && idx <= |rows| && IsSeparator(rows[1]) && IsSeparator(cells)
    ensures RenderRows(rows[1 := cells], idx) == RenderRows(rows, idx)
    decreases |rows| - idx
  {
    hide IsSeparator, RenderRow;
    if idx < |rows| {
      SeparatorNoTrace(rows, idx + 1, cells);
      SeparatorSilent(rows[1], cells);
    }
  }

  lemma SeparatorSilent(a: seq<string>, b: seq<string>)
    requires IsSeparator(a) && IsSeparator(b)
    ensures RenderRow(a, 1) == [] == RenderRow(b, 1)
  {
    hide IsSeparator;
  }

  lemma TableNoTrace(lines: seq<string>, i: nat, x: string, html: Html)
    requires i < |lines| && InTable(lines[i]) && Unseen(RowFate(lines, i), x, html)
    ensures RenderTable(RowsOf(lines[i := x])) == RenderTable(RowsOf(lines)) && InTable(x)
  {
    hide Classify, RowCells, IsSeparator, RowsOf, RenderRows, IsTabsEnd, IsTabsOpen, IsFence, RowStart;
    KindOf(x);
    RowsAt(lines, i);
    RowsReplace(lines, i, x);
    if Classify(lines[i]) == RowLine {
      SeparatorNoTrace(RowsOf(lines), 0, RowCells(x));
    }
  }

  lemma {:induction false} ItemsNoTrace(lines: seq<string>, i: nat, x: string)
    requires i < |lines| && !Classify(lines[i]).ItemLine? && !Classify(x).ItemLine?
    ensures RenderItems(lines[i := x]) == RenderItems(lines)
  {
    hide Classify;
    var lines' := lines[i := x];
    if i == 0 {
      assert lines'[1..] == lines[1..];
    } else {
      ItemsNoTrace(lines[1..], i - 1, x);
      assert lines'[1..] == lines[1..][i - 1 := x];
    }
  }

  // ---------------------------------------------------------------- blocks

  /** The same output from the first block, and the same page left behind it. */
  ghost predicate SameOutput(line: string, rest: seq<string>, line': string, rest': seq<string>, html: Html) {
    && Render(FirstFrom(line', rest'), html) == Render(FirstFrom(line, rest), html)
    && RestAfter(line', rest') == RestAfter(line, rest)
  }

  lemma TabsNoTrace(line: string, rest: seq<string>, i: nat, x: string, html: Html)
    requires Classify(line) == TabsOpenLine && 0 < i < |Source(FirstFrom(line, rest))|
    requires Unseen(FateIn(FirstFrom(line, rest), i), x, html)
    ensures i <= |rest| && SameOutput(line, rest, line, rest[i - 1 := x], html)
  {
    hide Classify, Span, TabsOf, RenderTabs, RegionFate, IsTabsEnd, IsTabsOpen, IsFence, IsTabStart, RowCells,
         SameOutput;
    var n, j := Span(rest, NotTabsEnd), i - 1;
    KindOf(x);
    if n < |rest| {
      if j < n {
        RegionNoTrace(rest[..n], j, 0, x, html);
      } else {
        assert IsTabsEnd(x);
      }
      ClosedTabsSame(line, rest, j, x, html);
    } else {
      OpenTabsSame(line, rest, j, x, html);
    }
  }

  lemma ClosedTabsSame(line: string, rest: seq<string>, j: nat, x: string, html: Html)
    requires Classify(line) == TabsOpenLine && j <= Span(rest, NotTabsEnd) < |rest|
             && IsTabsEnd(x) == (j == Span(rest, NotTabsEnd))
    requires j < Span(rest, NotTabsEnd) ==>
               RenderTabs(TabsOf(rest[..Span(rest, NotTabsEnd)][j := x]), html) ==
                   RenderTabs(TabsOf(rest[..Span(rest, NotTabsEnd)]), html)
    ensures SameOutput(line, rest, line, rest[j := x], html)
  {
    hide Classify, Span, TabsOf, RenderTabs, IsTabsEnd, FirstFrom, RestAfter, Render;
    var n := Span(rest, NotTabsEnd);
    SpanKept(rest, NotTabsEnd, j, x);
    TakeUpdate(rest, n, j, x);
    TakeUpdate(rest, n + 1, j, x);
    TabsOutput(line, rest, html);
    TabsOutput(line, rest[j := x], html);
  }

  lemma TabsOutput(line: string, rest: seq<string>, html: Html)
    requires Classify(line) == TabsOpenLine && Span(rest, NotTabsEnd) < |rest|
    ensures var n := Span(rest, NotTabsEnd);
            && Render(FirstFrom(line, rest), html) == [RenderTabs(TabsOf(rest[..n]), html)]
            && RestAfter(line, rest) == rest[n + 1..]
  {
    hide Classify, Span, TabsOf, RenderTabs;
  }

  lemma OpenTabsSame(line: string, rest: seq<string>, j: nat, x: string, html: Html)
    requires Classify(line) == TabsOpenLine && j < Span(rest, NotTabsEnd) == |rest| && !IsTabsEnd(x)
    ensures SameOutput(line, rest, line, rest[j := x], html)
  {
    hide Classify, Span, TabsOf, RenderTabs, IsTabsEnd;
    SpanKept(rest, NotTabsEnd, j, x);
  }

  lemma FenceNoTrace(line: string, rest: seq<string>, i: nat, x: string, html: Html)
    requires Classify(line) == FenceLine && 0 < i < |Source(FirstFrom(line, rest))|
    requires Unseen(FateIn(FirstFrom(line, rest), i), x, html)
    ensures i <= |rest| && SameOutput(line, rest, line, rest[i - 1 := x], html)
  {
    hide Classify, ScanFence, PiecesSource, PieceFate, CodeOf, RenderPieces, RenderCode, FenceLang, Regions, MayStand;
    var scan := ScanFence(rest);
    ScanFenceSource(rest);
    var codeAt := if scan.end.FenceClosed? then Some(Regions(scan.pieces)) else None;
    assert ScanFate(scan, i - 1, 0, 0, codeAt) == FateIn(FirstFrom(line, rest), i);
    ScanNoTrace(rest, i - 1, 0, 0, codeAt, x, html);
  }

  lemma RowsNoTrace(line: string, rest: seq<string>, i: nat, x: string, html: Html)
    requires Classify(line) == RowLine && i < |Source(FirstFrom(line, rest))|
    requires Unseen(FateIn(FirstFrom(line, rest), i), x, html)
    ensures 0 < i <= |rest| && SameOutput(line, rest, line, rest[i - 1 := x], html)
  {
    hide Classify, Span, RowsOf, RenderTable, RowFate, InTable, MayStand;
    var n := Span(rest, InTable);
    var lines := [line] + rest[..n];
    FirstRowKept(line, rest[..n]);
    var j := i - 1;
    assert lines[i] == rest[j];
    TableNoTrace(lines, i, x, html);
    SpanKept(rest, InTable, j, x);
    TakeUpdate(rest, n, j, x);
    assert [line] + rest[..n][j := x] == lines[i := x];
  }

  lemma FirstRowKept(line: string, rest: seq<string>)
    requires Classify(line) == RowLine
    ensures RowFate([line] + rest, 0).Kept? && RowFate([line] + rest, 0).place.Cells?
  {
    hide Classify, RowCells, IsSeparator;
    assert ([line] + rest)[..0] == [];
  }

  lemma ListNoTrace(line: string, rest: seq<string>, i: nat, x: string, html: Html)
    requires Classify(line).ItemLine? && i < |Source(FirstFrom(line, rest))|
    requires Unseen(FateIn(FirstFrom(line, rest), i), x, html)
    ensures 0 < i <= |rest| && SameOutput(line, rest, line, rest[i - 1 := x], html)
  {
    hide Classify, Span, RenderItems, IsTabsEnd, IsTabsOpen, IsFence, ListExtent;
    var kind := Classify(line).kind;
    var n := ListExtent(kind, rest);
    ListExtentBound(kind, rest);
    var lines := [line] + rest[..n];
    var j := i - 1;
    assert lines[i] == rest[j];
    KindOf(x);
    InListExtent(kind, rest, j, x);
    TakeUpdate(rest, n, j, x);
    ItemsNoTrace(lines, i, x);
    assert [line] + rest[..n][j := x] == lines[i := x];
  }

  lemma InListExtent(kind: ListKind, rest: seq<string>, j: nat, x: string)
    requires j < ListExtent(kind, rest) && j < |rest| && Classify(x) == TabsEndLine
    ensures ListExtent(kind, rest[j := x]) == ListExtent(kind, rest)
  {
    hide Classify, Span;
    if kind == Ul {
      SpanKept(rest, InUl, j, x);
    } else {
      SpanKept(rest, InOl, j, x);
    }
  }

  /** Which first lines of a block may be replaced, and that only by lines of the same kind. */
  lemma HeadKind(line: string, rest: seq<string>, x: string, html: Html)
    requires 0 < |Source(FirstFrom(line, rest))| && Replaces(FateIn(FirstFrom(line, rest), 0), line, x, html)
    ensures Classify(x) == Classify(line)
    ensures Classify(line) in {TabsOpenLine, TabsEndLine, FenceLine, BlankLine} || Classify(line).AlertLine?
    ensures Classify(line) == FenceLine ==> FirstFrom(line, rest).OpenFenceBlock?
  {
    hide Classify, Span, ScanFence, IsTabsOpen, IsTabsEnd, IsFence, FateIn, Join;
    KindOf(x);
    HeadFate(line, rest);
  }

  /** The fate of a block's first line, by its kind. */
  lemma HeadFate(line: string, rest: seq<string>)
    requires 0 < |Source(FirstFrom(line, rest))|
    ensures var fate := FateIn(FirstFrom(line, rest), 0);
            match Classify(line)
            case TabsOpenLine => fate == Lost(RegionOpen)
            case TabsEndLine => fate == Lost(Stray)
            case FenceLine =>
              if FirstFrom(line, rest).OpenFenceBlock? then fate == Lost(FenceOpen)
              else fate.Kept? && fate.place.Language?
            case BlankLine => fate == Lost(Blank)
            case AlertLine(_) => fate == Kept(Marker(0))
            case _ => fate.Kept? && !fate.place.Marker? && !fate.place.Title? && !fate.place.PanelLine?
  {
    hide Classify, Span, ScanFence, RenderItems, Regions, PiecesSource, QuoteTexts, Size, RowFate, ListExtent;
    if Classify(line) == RowLine {
      FirstRowKept(line, rest[..Span(rest, InTable)]);
    }
  }

  lemma HeadNoTrace(line: string, rest: seq<string>, x: string, html: Html)
    requires 0 < |Source(FirstFrom(line, rest))| && Replaces(FateIn(FirstFrom(line, rest), 0), line, x, html)
    ensures SameOutput(line, rest, x, rest, html) && Alike(x, line)
  {
    hide Source, FateIn, Replaces, Alike, SameOutput, FirstFrom;
    HeadKind(line, rest, x, html);
    AlikeByKind(x, line);
    HeadIsSilent(line, rest, x, html);
  }

  lemma HeadIsSilent(line: string, rest: seq<string>, x: string, html: Html)
    requires Classify(x) == Classify(line)
    requires Classify(line) in {TabsOpenLine, TabsEndLine, FenceLine, BlankLine} || Classify(line).AlertLine?
    requires Classify(line) == FenceLine ==> FirstFrom(line, rest).OpenFenceBlock?
    ensures SameOutput(line, rest, x, rest, html)
  {
    hide Classify, Span, ScanFence, RenderPieces, RenderTabs, TabsOf, QuoteTexts, Join;
  }

  /** One line of the first block. */
  lemma FirstNoTrace(line: string, rest: seq<string>, i: nat, x: string, html: Html)
    requires 0 < i < |Source(FirstFrom(line, rest))|
    requires Replaces(FateIn(FirstFrom(line, rest), i), Source(FirstFrom(line, rest))[i], x, html)
    ensures i <= |rest| && SameOutput(line, rest, line, rest[i - 1 := x], html)
  {
    hide Classify, Span, ScanFence, SameOutput, MayStand, RegionFate, PieceFate, RowFate, QuoteTexts, Size,
         PiecesSource, Regions, ListExtent, RenderItems;
    match Classify(line)
    case TabsOpenLine => 
      NoMarker(FirstFrom(line, rest), i);
      TabsNoTrace(line, rest, i, x, html);
    case FenceLine =>
      NoMarker(FirstFrom(line, rest), i);
      FenceNoTrace(line, rest, i, x, html);
    case RowLine =>
      NoMarker(FirstFrom(line, rest), i);
      RowsNoTrace(line, rest, i, x, html);
    case ItemLine(_, _) => ListNoTrace(line, rest, i, x, html);
    case _ =>
  }

  /** Only the first line of a block can be an alert's marker. */
  lemma NoMarker(b: Block, i: nat)
    requires 0 < i < |Source(b)|
    ensures FateIn(b, i).Kept? ==> !FateIn(b, i).place.Marker?
  {
    hide Classify, RegionFate, PieceFate, PiecesSource, Regions, Stands, TabHolds, QuoteTexts, RenderItems;
    match b
    case TabsBlock(_, inner, _) =>
      if i <= |inner| {
        RegionIsNoMarker(inner, i - 1, 0);
      }
    case FenceBlock(_, pieces, _) =>
      if i <= |PiecesSource(pieces)| {
        PieceIsNoMarker(pieces, i - 1, 0, 0, Some(Regions(pieces)));
      }
    case OpenFenceBlock(_, pieces, _) =>
      if i <= |PiecesSource(pieces)| {
        PieceIsNoMarker(pieces, i - 1, 0, 0, None);
      }
    case _ =>
  }

  lemma RegionIsNoMarker(inner: seq<string>, i: nat, token: nat)
    requires i < |inner|
    ensures RegionFate(inner, i, token).Kept? ==> !RegionFate(inner, i, token).place.Marker?
  {
    hide RegionFate, Stands;
    if RegionFate(inner, i, token).Kept? {
      RegionFateHolds(inner, i, token, panel => []);
    }
  }

  lemma PieceIsNoMarker(ps: seq<Piece>, i: nat, token: nat, n: nat, codeAt: Option<nat>)
    requires i < |PiecesSource(ps)|
    ensures PieceFate(ps, i, token, n, codeAt).Kept? ==> !PieceFate(ps, i, token, n, codeAt).place.Marker?
  {
    hide PieceFate, Stands, PiecesSource;
    if PieceFate(ps, i, token, n, codeAt).Kept? {
      PieceFateHolds(ps, i, token, n, codeAt, panel => []);
    }
  }

  /** A line behind the first block. */
  lemma BehindFirst(line: string, rest: seq<string>, j: nat, x: string)
    requires var m := |rest| - |RestAfter(line, rest)|; 0 <= m <= j < |rest| && (j == m ==> Alike(x, rest[j]))
    ensures var m := |rest| - |RestAfter(line, rest)|;
            && FirstFrom(line, rest[j := x]) == FirstFrom(line, rest)
            && RestAfter(line, rest[j := x]) == RestAfter(line, rest)[j - m := x]
  {
    hide Classify, Span, ScanFence, ListExtent, InUl, InOl, InTable, IsQuote, ContinuesQuote, IsTabsEnd;
    match Classify(line)
    case TabsOpenLine =>
      SpanKept(rest, NotTabsEnd, j, x);
      RunBehind(rest, NotTabsEnd, j, x);
      if Span(rest, NotTabsEnd) < |rest| {
        TakeUpdate(rest, Span(rest, NotTabsEnd) + 1, j, x);
      }
    case FenceLine => ScanBehind(rest, j, x);
    case RowLine => RunBehind(rest, InTable, j, x);
    case ItemLine(kind, _) =>
      ListBehind(kind, rest, j, x);
      ListExtentBound(kind, rest);
      TakeUpdate(rest, ListExtent(kind, rest), j, x);
    case AlertLine(_) => RunBehind(rest, IsQuote, j, x);
    case QuoteLine => RunBehind(rest, ContinuesQuote, j, x);
    case _ =>
  }

  lemma RunBehind(rest: seq<string>, p: string -> bool, j: nat, x: string)
    requires Span(rest, p) <= j < |rest| && (j == Span(rest, p) ==> p(x) == p(rest[j]))
    ensures Span(rest[j := x], p) == Span(rest, p)
    ensures rest[j := x][..Span(rest, p)] == rest[..Span(rest, p)]
    ensures rest[j := x][Span(rest, p)..] == rest[Span(rest, p)..][j - Span(rest, p) := x]
  {
    hide Span;
    SpanKept(rest, p, j, x);
    TakeUpdate(rest, Span(rest, p), j, x);
  }

  lemma ListBehind(kind: ListKind, rest: seq<string>, j: nat, x: string)
    requires ListExtent(kind, rest) <= j < |rest| && (j == ListExtent(kind, rest) ==> Alike(x, rest[j]))
    ensures ListExtent(kind, rest[j := x]) == ListExtent(kind, rest)
  {
    hide Span, InUl, InOl, InTable, IsQuote, ContinuesQuote;
    if kind == Ul {
      RunBehind(rest, InUl, j, x);
    } else {
      RunBehind(rest, InOl, j, x);
    }
  }

  // ---------------------------------------------------------------- the page

  /** A lost line, whatever it says, leaves the same page as any other line lost for the same reason; so does the text
      behind an alert's marker, the text around a tab's title, and a panel line as far as the panel's page does. */
  lemma {:induction false} NoTrace(lines: seq<string>, k: nat, x: string, html: Html)
    requires k < |lines| && Replaces(FateOf(lines, k, html), lines[k], x, html)
    ensures RenderLines(lines[k := x], html) == RenderLines(lines, html)
    ensures k == 0 ==> Alike(x, lines[0])
    decreases |lines|
  {
    hide First, FirstFrom, RestAfter, FateIn, Source, Render, RenderLines, Replaces, Alike, SameOutput;
    var line, rest := lines[0], lines[1..];
    var b := FirstFrom(line, rest);
    FirstOf(line, rest);
    assert lines == [line] + rest;
    FirstSplits(line, rest);
    var n, after := |Source(b)|, RestAfter(line, rest);
    assert lines[n..] == after && Source(b) == lines[..n];
    PageSteps(line, rest, html);
    var lines' := lines[k := x];
    if k == 0 {
      HeadNoTrace(line, rest, x, html);
      assert lines' == [x] + rest;
      SamePage(line, rest, x, rest, html);
    } else if k < n {
      FirstNoTrace(line, rest, k, x, html);
      assert lines' == [line] + rest[k - 1 := x];
      SamePage(line, rest, line, rest[k - 1 := x], html);
    } else {
      NoTraceBehind(lines, k, html);
      ReplacesLater(FateOf(after, k - n, html), lines[k], x, |Render(b, html)|, html);
      NoTrace(after, k - n, x, html);
      BehindFirst(line, rest, k - 1, x);
      assert lines' == [line] + rest[k - 1 := x];
      PageSteps(line, rest[k - 1 := x], html);
    }
  }

  lemma FirstOf(line: string, rest: seq<string>)
    ensures First([line] + rest) == FirstFrom(line, rest)
  {
    hide FirstFrom;
    assert ([line] + rest)[1..] == rest;
  }

  lemma SamePage(line: string, rest: seq<string>, line': string, rest': seq<string>, html: Html)
    requires SameOutput(line, rest, line', rest', html)
    ensures RenderLines([line'] + rest', html) == RenderLines([line] + rest, html)
  {
    hide FirstFrom, RestAfter, Render, RenderLines;
    PageSteps(line, rest, html);
    PageSteps(line', rest', html);
  }

  lemma NoTraceBehind(lines: seq<string>, k: nat, html: Html)
    requires k < |lines| && k >= |Source(First(lines))|
    ensures var n := |Source(First(lines))|;
            FateOf(lines, k, html) == Later(FateOf(lines[n..], k - n, html), |Render(First(lines), html)|)
  {
    hide First, Source, Render;
  }

  lemma ReplacesLater(fate: Fate, line: string, x: string, n: nat, html: Html)
    ensures Replaces(Later(fate, n), line, x, html) == Replaces(fate, line, x, html)
  {
    hide MayStand, Classify;
  }
}
