/** A whole page: the block grammar tied to itself through tab panels, and what remains of a page part-way. */
module MarkdownPage {
  import opened Text
  import opened MarkdownLines
  import opened MarkdownGrammar
  import Frontmatter

  function LinesOf(content: string): seq<string> {
    Split(Trim(Frontmatter.Body(content)), '\n')
  }

  /** The rendering of a page. Panels are pages; the guard never decides anything (PageUnfolds). */
  function Page(content: string): seq<Token>
    decreases |content|
  {
    RenderLines(LinesOf(content), panel => if |panel| < |content| then Page(panel) else [])
  }

  // ---------------------------------------------------------------- panels are smaller than their page

  lemma BodyShrinks(content: string)
    ensures |Frontmatter.Body(content)| <= |content|
  {
  }

  lemma LinesSize(content: string)
    ensures Plain(LinesOf(content))
    ensures Size(LinesOf(content)) <= |content| + 1
  {
    BodyShrinks(content);
    var body := Trim(Frontmatter.Body(content));
    TrimEdges(Frontmatter.Body(content));
    JoinSplit(body, '\n');
    JoinSize(Split(body, '\n'), '\n');
  }

  lemma {:induction false} AfterLastOpenIsSuffix(inner: seq<string>)
    ensures |AfterLastOpen(inner)| <= |inner| && AfterLastOpen(inner) == inner[|inner| - |AfterLastOpen(inner)|..]
    ensures forall i :: 0 <= i < |AfterLastOpen(inner)| ==> !IsTabsOpen(AfterLastOpen(inner)[i])
  {
    hide IsTabsOpen;
    if inner != [] {
      AfterLastOpenIsSuffix(inner[..|inner| - 1]);
    }
  }

  lemma SizeCut(lines: seq<string>, k: nat)
    requires k <= |lines|
    ensures Size(lines) == Size(lines[..k]) + Size(lines[k..])
  {
    hide Size;
    assert lines == lines[..k] + lines[k..];
    SizeAppend(lines[..k], lines[k..]);
  }

  lemma SizeSlice(lines: seq<string>, a: nat, b: nat)
    requires a <= b <= |lines|
    ensures Size(lines[a..b]) <= Size(lines)
  {
    hide Size;
    SizeCut(lines, b);
    SizeCut(lines[..b], a);
    assert lines[..b][a..] == lines[a..b];
  }

  ghost predicate PartOf(part: seq<string>, whole: seq<string>) {
    Size(part) <= Size(whole) && forall l :: l in part ==> l in whole
  }

  lemma SliceIsPart(lines: seq<string>, a: nat, b: nat)
    requires a <= b <= |lines|
    ensures PartOf(lines[a..b], lines)
  {
    hide Size;
    SizeSlice(lines, a, b);
  }

  lemma PartOfPart(part: seq<string>, more: seq<string>, whole: seq<string>)
    requires PartOf(part, more) && PartOf(more, whole)
    ensures PartOf(part, whole)
  {
    hide Size;
  }

  /** A panel is a contiguous part of the lines it is split from. */
  lemma {:induction false} SplitTabsParts(lines: seq<string>)
    ensures forall t :: t in SplitTabs(lines) ==> PartOf(t.lines, lines)
    decreases |lines|
  {
    hide IsTabStart, TabTitle, Span, PartOf;
    if lines != [] {
      var n := if IsTabStart(lines[0]) then Span(lines[1..], NotTabStart) else 0;
      var rest := lines[n + 1..];
      SplitTabsParts(rest);
      SliceIsPart(lines, 1, n + 1);
      SliceIsPart(lines, n + 1, |lines|);
      assert lines[n + 1..|lines|] == rest;
      forall t | t in SplitTabs(rest)
        ensures PartOf(t.lines, lines)
      {
        PartOfPart(t.lines, rest, lines);
      }
    }
  }

  lemma TabsOfParts(inner: seq<string>)
    ensures forall t :: t in TabsOf(inner) ==> Size(t.lines) <= Size(inner)
    ensures forall t :: t in TabsOf(inner) ==> forall l :: l in t.lines ==> l in inner
  {
    hide SplitTabs, AfterLastOpen, Size;
    var tail := AfterLastOpen(inner);
    SplitTabsParts(tail);
    AfterLastOpenIsSuffix(inner);
    SliceIsPart(inner, |inner| - |tail|, |inner|);
    assert inner[|inner| - |tail|..|inner|] == tail;
  }

  /** The text of a panel is shorter than any page that holds its region, delimiters included. */
  lemma PanelShrinks(inner: seq<string>, t: Tab)
    requires t in TabsOf(inner)
    ensures |Join(t.lines, "\n")| <= Size(inner)
  {
    TabsOfParts(inner);
    JoinSize(t.lines, '\n');
  }

  // ---------------------------------------------------------------- the renderer only sees panels

  /** The two renderers agree on every panel a page of at most `bound` characters can have. */
  ghost predicate AgreeOnPanels(f: string -> seq<Token>, g: string -> seq<Token>, bound: nat) {
    forall inner, t :: IsRegion(inner) && Size(inner) < bound && t in TabsOf(inner) ==>
      f(Join(t.lines, "\n")) == g(Join(t.lines, "\n"))
  }

  lemma {:induction false} RenderPanelsAgree(tabs: seq<Tab>, f: string -> seq<Token>, g: string -> seq<Token>)
    requires forall t :: t in tabs ==> f(Join(t.lines, "\n")) == g(Join(t.lines, "\n"))
    ensures RenderPanels(tabs, f) == RenderPanels(tabs, g)
  {
    if tabs != [] {
      assert tabs[0] in tabs;
      RenderPanelsAgree(tabs[1..], f, g);
    }
  }

  lemma RenderTabsAgree(inner: seq<string>, f: string -> seq<Token>, g: string -> seq<Token>, bound: nat)
    requires AgreeOnPanels(f, g, bound) && IsRegion(inner) && Size(inner) < bound
    ensures RenderTabs(TabsOf(inner), f) == RenderTabs(TabsOf(inner), g)
  {
    hide TabsOf, IsRegion;
    RenderPanelsAgree(TabsOf(inner), f, g);
  }

  lemma {:induction false} RenderPiecesAgree(ps: seq<Piece>, f: string -> seq<Token>, g: string -> seq<Token>,
                                             bound: nat)
    requires AgreeOnPanels(f, g, bound) && GoodPieces(ps) && Size(PiecesSource(ps)) <= bound + 1
    ensures RenderPieces(ps, f) == RenderPieces(ps, g)
  {
    hide AgreeOnPanels, IsRegion, RenderTabs, TabsOf;
    if ps != [] {
      SizeAppend(PieceSource(ps[0]), PiecesSource(ps[1..]));
      RenderPiecesAgree(ps[1..], f, g, bound);
      if ps[0].TabsPiece? {
        RegionSize(ps[0].open, ps[0].inner, ps[0].close);
        RenderTabsAgree(ps[0].inner, f, g, bound);
      }
    }
  }

  lemma RegionSize(open: string, inner: seq<string>, close: string)
    ensures Size([open] + inner + [close]) == |open| + 1 + Size(inner) + |close| + 1
  {
    SizeAppend([open] + inner, [close]);
    SizeAppend([open], inner);
  }

  lemma RenderAgrees(b: Block, f: string -> seq<Token>, g: string -> seq<Token>, bound: nat)
    requires AgreeOnPanels(f, g, bound) && GoodBlock(b) && Size(Source(b)) <= bound + 1
    ensures Render(b, f) == Render(b, g)
  {
    hide AgreeOnPanels, IsRegion, RenderTabs, TabsOf, GoodPieces, Classify;
    match b
    case TabsBlock(open, inner, close) =>
      RegionSize(open, inner, close);
      RenderTabsAgree(inner, f, g, bound);
    case FenceBlock(open, pieces, close) =>
      RegionSize(open, PiecesSource(pieces), close);
      RenderPiecesAgree(pieces, f, g, bound);
    case OpenFenceBlock(open, pieces, dangling) =>
      SizeAppend([open] + PiecesSource(pieces), dangling);
      SizeAppend([open], PiecesSource(pieces));
      RenderPiecesAgree(pieces, f, g, bound);
    case _ =>
  }

  lemma {:induction false} RenderAllAgrees(bs: seq<Block>, f: string -> seq<Token>, g: string -> seq<Token>, bound: nat)
    requires AgreeOnPanels(f, g, bound) && Size(SourceOf(bs)) <= bound + 1
    requires forall i :: 0 <= i < |bs| ==> GoodBlock(bs[i])
    ensures RenderAll(bs, f) == RenderAll(bs, g)
  {
    hide AgreeOnPanels, GoodBlock, Render;
    if bs != [] {
      SizeAppend(Source(bs[0]), SourceOf(bs[1..]));
      RenderAgrees(bs[0], f, g, bound);
      RenderAllAgrees(bs[1..], f, g, bound);
    }
  }

  lemma RenderLinesAgree(lines: seq<string>, f: string -> seq<Token>, g: string -> seq<Token>, bound: nat)
    requires Plain(lines)
    requires AgreeOnPanels(f, g, bound) && Size(lines) <= bound + 1
    ensures RenderLines(lines, f) == RenderLines(lines, g)
  {
    hide AgreeOnPanels, GoodBlock, Blocks;
    BlocksPartition(lines);
    BlocksAreGood(lines);
    RenderAllAgrees(Blocks(lines), f, g, bound);
  }

  /** The recursion equation of `parseMarkdown`: a page renders each of its panels as a page. */
  lemma PageUnfolds(content: string)
    ensures Page(content) == RenderLines(LinesOf(content), Page)
  {
    hide TabsOf, IsRegion, RenderLines, LinesOf;
    var guarded := panel => if |panel| < |content| then Page(panel) else [];
    LinesSize(content);
    forall inner, t | IsRegion(inner) && Size(inner) < |content| && t in TabsOf(inner)
      ensures guarded(Join(t.lines, "\n")) == Page(Join(t.lines, "\n"))
    {
      PanelShrinks(inner, t);
    }
    RenderLinesAgree(LinesOf(content), guarded, Page, |content|);
  }
}
