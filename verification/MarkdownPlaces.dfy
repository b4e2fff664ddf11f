/** No two lines of a page stand at the same place of the output. */
module MarkdownPlaces {
  import opened Text
  import opened MarkdownLines
  import opened MarkdownGrammar
  import opened MarkdownPage
  import opened MarkdownRest
  import opened MarkdownFate

  /** A place, whatever the title or the tab of its panel. */
  function Slot(place: Place): Place {
    match place
    case PanelLine(token, panel, n, _) => PanelLine(token, panel, n, Tab("", []))
    case Title(token, panel, _) => Title(token, panel, "")
    case _ => place
  }

  ghost predicate Differ(a: Fate, b: Fate) {
    a.Kept? && b.Kept? ==> Slot(a.place) != Slot(b.place)
  }

  // ---------------------------------------------------------------- regions

  lemma {:induction false} TabPlacesDiffer(lines: seq<string>, i: nat, j: nat, token: nat, panel: nat)
    requires i < j < |lines|
    ensures Differ(TabFate(lines, i, token, panel), TabFate(lines, j, token, panel))
    decreases |lines|
  {
    hide IsTabStart, TabTitle, Span, TabFate;
    TabFateSteps(lines, i, token, panel);
    TabFateSteps(lines, j, token, panel);
    if IsTabStart(lines[0]) {
      var n := Span(lines[1..], NotTabStart);
      if j > n {
        TabPanelFrom(lines[n + 1..], j - n - 1, token, panel + 1);
        if i > n {
          TabPlacesDiffer(lines[n + 1..], i - n - 1, j - n - 1, token, panel + 1);
        }
      }
    } else if i > 0 {
      TabPlacesDiffer(lines[1..], i - 1, j - 1, token, panel);
    }
  }

  lemma TabPanelFrom(lines: seq<string>, i: nat, token: nat, panel: nat)
    requires i < |lines|
    ensures var fate := TabFate(lines, i, token, panel);
            fate.Kept? ==>
              (fate.place.Title? || fate.place.PanelLine?) && fate.place.token == token && fate.place.panel >= panel
  {
    hide IsTabStart, TabTitle, Span, SplitTabs, TabFate;
    TabFateHolds(lines, i, token, panel);
  }

  lemma RegionPlacesDiffer(inner: seq<string>, i: nat, j: nat, token: nat)
    requires i < j < |inner|
    ensures Differ(RegionFate(inner, i, token), RegionFate(inner, j, token))
  {
    hide TabFate, AfterLastOpen;
    var n := WipedLines(inner);
    if i >= n {
      TabPlacesDiffer(inner[n..], i - n, j - n, token, 0);
    }
  }

  // ---------------------------------------------------------------- fences

  /** What a fate says of the pieces it was looked up in: only later regions and later code lines. */
  lemma PieceFrom(ps: seq<Piece>, i: nat, token: nat, n: nat, codeAt: Option<nat>)
    requires i < |PiecesSource(ps)|
    ensures var fate := PieceFate(ps, i, token, n, codeAt);
            fate.Kept? ==> if fate.place.CodeLine? then fate.place.n >= n
                           else (fate.place.Title? || fate.place.PanelLine?) && fate.place.token >= token
  {
    hide PieceFate, PiecesSource, Stands;
    if PieceFate(ps, i, token, n, codeAt).Kept? {
      PieceFateHolds(ps, i, token, n, codeAt, panel => []);
    }
  }

  lemma RegionFrom(inner: seq<string>, i: nat, token: nat)
    requires i < |inner|
    ensures var fate := RegionFate(inner, i, token);
            fate.Kept? ==> (fate.place.Title? || fate.place.PanelLine?) && fate.place.token == token
  {
    hide RegionFate, Stands;
    if RegionFate(inner, i, token).Kept? {
      RegionFateHolds(inner, i, token, panel => []);
    }
  }

  lemma {:induction false} PiecePlacesDiffer(ps: seq<Piece>, i: nat, j: nat, token: nat, n: nat, codeAt: Option<nat>)
    requires i < j < |PiecesSource(ps)|
    ensures Differ(PieceFate(ps, i, token, n, codeAt), PieceFate(ps, j, token, n, codeAt))
  {
    hide PieceFate, RegionFate, PiecesSource;
    PieceFateSteps(ps, i, token, n, codeAt);
    PieceFateSteps(ps, j, token, n, codeAt);
    var own, rest := |PieceSource(ps[0])|, ps[1..];
    var token', n' := if ps[0].TabsPiece? then token + 1 else token, if ps[0].CodePiece? then n + 1 else n;
    if i >= own {
      PiecePlacesDiffer(rest, i - own, j - own, token', n', codeAt);
    } else {
      if j >= own {
        PieceFrom(rest, j - own, token', n', codeAt);
      }
      if ps[0].TabsPiece? && 1 <= i <= |ps[0].inner| {
        RegionFrom(ps[0].inner, i - 1, token);
        if j <= |ps[0].inner| {
          RegionPlacesDiffer(ps[0].inner, i - 1, j - 1, token);
        }
      }
    }
  }

  // ---------------------------------------------------------------- lists, tables, quotes

  lemma {:induction false} ItemsGrow(lines: seq<string>, i: nat, j: nat)
    requires i < j <= |lines| && Classify(lines[i]).ItemLine?
    ensures |RenderItems(lines[..i])| < |RenderItems(lines[..j])|
  {
    hide Classify;
    assert lines[..j][1..] == lines[1..][..j - 1];
    if i == 0 {
      assert lines[..0] == [];
    } else {
      ItemsGrow(lines[1..], i - 1, j - 1);
      assert lines[..i][1..] == lines[1..][..i - 1];
    }
  }

  lemma {:induction false} RowsGrow(lines: seq<string>, i: nat, j: nat)
    requires i < j <= |lines| && Classify(lines[i]).RowLine?
    ensures |RowsOf(lines[..i])| < |RowsOf(lines[..j])|
  {
    hide Classify, RowCells;
    assert lines[..j][1..] == lines[1..][..j - 1];
    if i == 0 {
      assert lines[..0] == [];
    } else {
      RowsGrow(lines[1..], i - 1, j - 1);
      assert lines[..i][1..] == lines[1..][..i - 1];
    }
  }

  lemma {:induction false} StartsGrow(rows: seq<seq<string>>, r: nat, q: nat)
    requires r <= q <= |rows|
    ensures RowStart(rows, r) <= RowStart(rows, q)
    ensures r < q && !(r == 1 && IsSeparator(rows[r])) ==> RowStart(rows, r) < RowStart(rows, q)
    decreases q - r
  {
    hide RenderCells, IsSeparator;
    if r < q {
      StartsGrow(rows, r, q - 1);
    }
  }

  lemma RowPlacesDiffer(lines: seq<string>, i: nat, j: nat)
    requires i < j < |lines|
    ensures Differ(RowFate(lines, i), RowFate(lines, j))
  {
    hide Classify, RowCells, RowsOf, RowStart, IsSeparator;
    RowsAt(lines, i);
    RowsAt(lines, j);
    if RowFate(lines, i).Kept? {
      RowsGrow(lines, i, j);
      StartsGrow(RowsOf(lines), |RowsOf(lines[..i])|, |RowsOf(lines[..j])|);
    }
  }

  lemma {:induction false} OffsetsGrow(lines: seq<string>, i: nat, j: nat)
    requires i < j <= |lines|
    ensures Size(QuoteTexts(lines[..i])) < Size(QuoteTexts(lines[..j]))
  {
    hide QuoteText;
    assert lines[..j][1..] == lines[1..][..j - 1];
    if i == 0 {
      assert lines[..0] == [];
    } else {
      OffsetsGrow(lines[1..], i - 1, j - 1);
      assert lines[..i][1..] == lines[1..][..i - 1];
    }
  }

  // ---------------------------------------------------------------- blocks and pages

  lemma BlockPlacesDiffer(b: Block, i: nat, j: nat)
    requires i < j < |Source(b)|
    ensures Differ(FateIn(b, i), FateIn(b, j))
  {
    hide Classify, RegionFate, PieceFate, RowFate, RenderItems, QuoteTexts, Size, PiecesSource, Regions;
    match b
    case TabsBlock(open, inner, close) =>
      if 1 <= i && j <= |inner| {
        RegionPlacesDiffer(inner, i - 1, j - 1, 0);
      }
    case FenceBlock(open, pieces, close) => FencePlacesDiffer(pieces, i, j, Some(Regions(pieces)));
    case OpenFenceBlock(open, pieces, dangling) => FencePlacesDiffer(pieces, i, j, None);
    case TableBlock(lines) => RowPlacesDiffer(lines, i, j);
    case ListBlock(kind, lines) =>
      if Classify(lines[i]).ItemLine? {
        ItemsGrow(lines, i, j);
      }
    case AlertBlock(line, quoted) =>
      if 1 <= i {
        OffsetsGrow(quoted, i - 1, j - 1);
      }
    case QuoteBlock(lines) => OffsetsGrow(lines, i, j);
    case _ =>
  }

  lemma FencePlacesDiffer(pieces: seq<Piece>, i: nat, j: nat, codeAt: Option<nat>)
    requires i < j
    ensures 1 <= i && j <= |PiecesSource(pieces)| ==>
              Differ(PieceFate(pieces, i - 1, 0, 0, codeAt), PieceFate(pieces, j - 1, 0, 0, codeAt))
    ensures i == 0 && j <= |PiecesSource(pieces)| ==>
              var fate := PieceFate(pieces, j - 1, 0, 0, codeAt); fate.Kept? ==> !fate.place.Language?
  {
    hide PieceFate, PiecesSource;
    if j <= |PiecesSource(pieces)| {
      PieceFrom(pieces, j - 1, 0, 0, codeAt);
      if 1 <= i {
        PiecePlacesDiffer(pieces, i - 1, j - 1, 0, 0, codeAt);
      }
    }
  }

  lemma LaterDiffer(a: Fate, b: Fate, n: nat)
    requires Differ(a, b)
    ensures Differ(Later(a, n), Later(b, n))
  {
  }

  /** Two lines of a page never stand at the same place: each occurrence of a text has its own. */
  lemma {:induction false} PlacesDiffer(lines: seq<string>, i: nat, j: nat, html: Html)
    requires i < j < |lines| && Plain(lines)
    ensures Differ(FateOf(lines, i, html), FateOf(lines, j, html))
    decreases |lines|
  {
    hide First, FateIn, Source, Render, GoodBlock, Stands, CellsStand, Moved, Differ;
    FirstIsPrefix(lines);
    FirstIsGood(lines);
    var b := First(lines);
    var n := |Source(b)|;
    assert Source(b) == lines[..n];
    if j < n {
      BlockPlacesDiffer(b, i, j);
    } else if i >= n {
      PlacesDiffer(lines[n..], i - n, j - n, html);
      LaterDiffer(FateOf(lines[n..], i - n, html), FateOf(lines[n..], j - n, html), |Render(b, html)|);
    } else {
      if FateIn(b, i).Kept? {
        FateInHolds(b, i, html);
      }
      TokensApart(FateIn(b, i), FateOf(lines[n..], j - n, html), |Render(b, html)|);
    }
  }

  lemma TokensApart(a: Fate, b: Fate, n: nat)
    requires a.Kept? ==> a.place.token < n
    ensures Differ(a, Later(b, n))
  {
  }
}
