/** What blocks, tabs regions and fences keep of their lines. */
module MarkdownCoverage {
  import opened Text
  import opened MarkdownLines
  import opened MarkdownGrammar
  import opened MarkdownPage
  import opened MarkdownRest
  import CodeEscape

  // ---------------------------------------------------------------- blocks without output

  ghost predicate Silent(b: Block) {
    match b
    case StrayBlock(_) => true
    case BlankBlock(_) => true
    case OpenTabsBlock(_, _) => true
    case OpenFenceBlock(_, pieces, _) => forall p :: p in pieces ==> !p.TabsPiece?
    case _ => false
  }

  lemma {:induction false} PiecesSilent(ps: seq<Piece>, html: Html)
    ensures RenderPieces(ps, html) == [] <==> forall p :: p in ps ==> !p.TabsPiece?
  {
    hide RenderTabs, TabsOf;
    if ps != [] {
      PiecesSilent(ps[1..], html);
      assert ps == [ps[0]] + ps[1..];
    }
  }

  /** A block adds nothing exactly when it is blank, a stray `:::`, an unclosed tabs region, or an unclosed fence
      without a closed region inside. */
  lemma SilentExactly(b: Block, html: Html)
    requires GoodBlock(b)
    ensures Render(b, html) == [] <==> Silent(b)
  {
    hide Classify, RenderPieces, RenderRows, RenderItems, RenderTabs, RenderCode, RowsOf;
    if b.OpenFenceBlock? {
      PiecesSilent(b.pieces, html);
    }
  }

  // ---------------------------------------------------------------- what a tabs region keeps

  function PanelLines(tabs: seq<Tab>): seq<string> {
    if tabs == [] then [] else tabs[0].lines + PanelLines(tabs[1..])
  }

  lemma {:induction false} FilterAppend(a: seq<string>, b: seq<string>)
    ensures Filter(a + b, NotTabStart) == Filter(a, NotTabStart) + Filter(b, NotTabStart)
  {
    hide NotTabStart;
    if a == [] {
      assert a + b == b;
    } else {
      assert (a + b)[1..] == a[1..] + b;
      FilterAppend(a[1..], b);
    }
  }

  lemma {:induction false} FilterAll(a: seq<string>)
    requires forall i :: 0 <= i < |a| ==> NotTabStart(a[i])
    ensures Filter(a, NotTabStart) == a
  {
    hide NotTabStart;
    if a != [] {
      FilterAll(a[1..]);
    }
  }

  lemma {:induction false} StartedKeepLines(lines: seq<string>)
    requires lines != [] ==> IsTabStart(lines[0])
    ensures PanelLines(SplitTabs(lines)) == Filter(lines, NotTabStart)
    decreases |lines|
  {
    hide IsTabStart, TabTitle, SplitTabs, Filter, PanelLines, Span;
    if lines == [] {
      NothingKept();
    } else {
      var n := Span(lines[1..], NotTabStart);
      var body, tail := lines[1..n + 1], lines[n + 1..];
      TabParts(lines, n);
      SplitTabsHead(lines, n);
      DropHead(Tab(TabTitle(lines[0]), body), SplitTabs(tail));
      StartedKeepLines(tail);
      KeepOneTab(lines[0], body, tail);
    }
  }

  lemma TabParts(lines: seq<string>, n: nat)
    requires lines != [] && n == Span(lines[1..], NotTabStart)
    ensures lines == [lines[0]] + (lines[1..n + 1] + lines[n + 1..])
    ensures var body := lines[1..n + 1]; forall i :: 0 <= i < |body| ==> NotTabStart(body[i])
    ensures lines[n + 1..] != [] ==> IsTabStart(lines[n + 1..][0])
  {
    hide IsTabStart, Span;
    var body, rest := lines[1..n + 1], lines[1..];
    assert forall i :: 0 <= i < |body| ==> body[i] == rest[i];
    if lines[n + 1..] != [] {
      assert lines[n + 1..][0] == lines[1..][n];
    }
  }

  lemma NothingKept()
    ensures PanelLines(SplitTabs([])) == Filter([], NotTabStart)
  {
  }

  /** Nothing is lost, doubled or reordered between the first `::tab` and the end of the region. */
  lemma PanelsKeepLines(lines: seq<string>)
    ensures PanelLines(SplitTabs(lines)) == Filter(lines[Span(lines, NotTabStart)..], NotTabStart)
  {
    hide IsTabStart, TabTitle, SplitTabs, Filter, PanelLines;
    var k := Span(lines, NotTabStart);
    SplitTabsSkip(lines, k);
    if lines[k..] != [] {
      assert lines[k..][0] == lines[k];
    }
    StartedKeepLines(lines[k..]);
  }

  lemma {:induction false} SplitTabsSkip(lines: seq<string>, k: nat)
    requires k <= |lines| && forall i :: 0 <= i < k ==> NotTabStart(lines[i])
    ensures SplitTabs(lines) == SplitTabs(lines[k..])
  {
    hide IsTabStart, TabTitle;
    if k > 0 {
      SplitTabsSkip(lines[1..], k - 1);
      assert lines[1..][k - 1..] == lines[k..];
    } else {
      assert lines[0..] == lines;
    }
  }

  lemma KeepOneTab(start: string, body: seq<string>, tail: seq<string>)
    requires IsTabStart(start) && forall i :: 0 <= i < |body| ==> NotTabStart(body[i])
    ensures Filter([start] + (body + tail), NotTabStart) == body + Filter(tail, NotTabStart)
  {
    hide IsTabStart;
    assert ([start] + (body + tail))[1..] == body + tail;
    FilterAppend(body, tail);
    FilterAll(body);
  }

  lemma DropHead(tab: Tab, tabs: seq<Tab>)
    ensures PanelLines([tab] + tabs) == tab.lines + PanelLines(tabs)
  {
    assert ([tab] + tabs)[1..] == tabs;
  }

  /** As many panels as `::tab` lines, in order and with their titles. */
  lemma {:induction false} PanelTitles(lines: seq<string>)
    ensures |SplitTabs(lines)| == |Filter(lines, IsTabStart)|
    ensures forall i :: 0 <= i < |SplitTabs(lines)| ==>
            SplitTabs(lines)[i].title == TabTitle(Filter(lines, IsTabStart)[i])
    decreases |lines|
  {
    hide IsTabStart, TabTitle, Span, SplitTabs, Filter;
    if lines == [] {
      NothingSplit();
    } else if IsTabStart(lines[0]) {
      var n := Span(lines[1..], NotTabStart);
      SplitTabsHead(lines, n);
      PanelTitles(lines[n + 1..]);
      StartTitles(lines, n);
    } else {
      PanelTitles(lines[1..]);
      NoStart(lines);
    }
  }

  lemma NothingSplit()
    ensures SplitTabs([]) == [] && Filter([], IsTabStart) == []
  {
  }

  lemma NoStart(lines: seq<string>)
    requires lines != [] && !IsTabStart(lines[0])
    ensures SplitTabs(lines) == SplitTabs(lines[1..]) && Filter(lines, IsTabStart) == Filter(lines[1..], IsTabStart)
  {
    hide IsTabStart;
    assert [] + Filter(lines[1..], IsTabStart) == Filter(lines[1..], IsTabStart);
  }

  lemma StartTitles(lines: seq<string>, n: nat)
    requires lines != [] && IsTabStart(lines[0]) && n == Span(lines[1..], NotTabStart)
    ensures Filter(lines, IsTabStart) == [lines[0]] + Filter(lines[n + 1..], IsTabStart)
  {
    hide IsTabStart, Span;
    SkipNonStarts(lines[1..], n);
    assert lines[1..][n..] == lines[n + 1..];
  }

  lemma {:induction false} SkipNonStarts(lines: seq<string>, n: nat)
    requires n <= |lines| && forall i :: 0 <= i < n ==> NotTabStart(lines[i])
    ensures Filter(lines, IsTabStart) == Filter(lines[n..], IsTabStart)
  {
    hide IsTabStart;
    if n > 0 {
      SkipNonStarts(lines[1..], n - 1);
      assert lines[1..][n - 1..] == lines[n..];
    } else {
      assert lines[0..] == lines;
    }
  }

  // ---------------------------------------------------------------- what a fence keeps

  lemma {:induction false} CodeOfPlain(ps: seq<Piece>)
    requires Plain(PiecesSource(ps))
    ensures Plain(CodeOf(ps))
  {
    hide Plain, PieceSource;
    if ps == [] {
      PlainNothing();
    } else {
      PlainParts(PieceSource(ps[0]), PiecesSource(ps[1..]));
      CodeOfPlain(ps[1..]);
      var head := if ps[0].CodePiece? then [ps[0].line] else [];
      CodeHeadPlain(ps[0]);
      PlainWhole(head, CodeOf(ps[1..]));
    }
  }

  lemma PlainNothing()
    ensures Plain([])
  {
  }

  lemma CodeHeadPlain(p: Piece)
    requires Plain(PieceSource(p))
    ensures Plain(if p.CodePiece? then [p.line] else [])
  {
  }

  lemma PlainParts(a: seq<string>, b: seq<string>)
    requires Plain(a + b)
    ensures Plain(a) && Plain(b)
  {
    forall i | 0 <= i < |b|
      ensures '\n' !in b[i]
    {
      assert (a + b)[|a| + i] == b[i];
    }
    forall i | 0 <= i < |a|
      ensures '\n' !in a[i]
    {
      assert (a + b)[i] == a[i];
    }
  }

  lemma PlainWhole(a: seq<string>, b: seq<string>)
    requires Plain(a) && Plain(b)
    ensures Plain(a + b)
  {
  }

  /** Reading a code token back gives the lines between the fences, one for one. */
  lemma CodeSurvives(lang: string, code: seq<string>)
    requires code != [] && Plain(code)
    ensures match RenderCode(lang, code)
            case Mermaid(text) => lang == "mermaid" && Split(text, '\n') == code
            case Code(l, escaped) =>
              && lang != "mermaid" && l == (if lang == "" then "plaintext" else lang)
              && Split(CodeEscape.Unescape(escaped), '\n') == code && '<' !in escaped && '>' !in escaped
            case _ => false
  {
    hide CodeEscape.Escape, CodeEscape.Unescape;
    SplitJoin(code, '\n');
    CodeEscape.UnescapeEscape(Join(code, "\n"));
    CodeEscape.EscapeHidesTags(Join(code, "\n"));
  }
}
