/** What the Mermaid text of link-adr.ts shows: its lines, read back, are the nodes and the arrows between them. */
module AdrDiagram {
  import opened Text
  import opened AdrGraph
  import AdrHeading
  import ReadmeSplice

  // ---------------------------------------------------------------- the lines

  ghost predicate OneLineTitles(nodes: seq<Node>) {
    forall k :: 0 <= k < |nodes| ==> '\n' !in nodes[k].title
  }

  lemma IdIsOneWord(id: string)
    requires IsId(id)
    ensures forall c :: c in id ==> c != '\n' && c != ' ' && c != '[' && c != '"'
  {
    forall i | 0 <= i < |id|
      ensures id[i] != '\n' && id[i] != ' ' && id[i] != '[' && id[i] != '"'
    {
      if i < |STEM| {
        assert id[i] == STEM[i];
        StemIsOneWord(i);
      }
    }
  }

  lemma StemIsOneWord(i: nat)
    requires i < |STEM|
    ensures STEM[i] != '\n' && STEM[i] != ' ' && STEM[i] != '[' && STEM[i] != '"'
  {
  }

  lemma NodeLineIs(n: Node) returns (line: string)
    requires IsId(n.id) && '\n' !in n.title
    ensures line == "  " + n.id + "[\"" + n.id + ": " + CleanTitle(n.title) + "\"]"
    ensures NodeLine(n) == line + ['\n'] && '\n' !in line
  {
    hide IsId, CleanTitle;
    line := "  " + n.id + "[\"" + n.id + ": " + CleanTitle(n.title) + "\"]";
    IdIsOneWord(n.id);
    CleanTitleMeans(n.title);
  }

  lemma EdgeLineIs(e: (string, string)) returns (line: string)
    requires IsId(e.0) && IsId(e.1)
    ensures line == "  " + e.0 + " --> " + e.1
    ensures EdgeLine(e) == line + ['\n'] && '\n' !in line
  {
    hide IsId;
    line := "  " + e.0 + " --> " + e.1;
    IdIsOneWord(e.0);
    IdIsOneWord(e.1);
  }

  /** One more line in front of the rest. */
  lemma NextLine(front: string, line: string, rest: string, ls: seq<string>)
    requires '\n' !in line
    requires Split(front + (line + ['\n'] + rest), '\n') == ls + Split(line + ['\n'] + rest, '\n')
    ensures Split(front + (line + ['\n']) + rest, '\n') == ls + [line] + Split(rest, '\n')
  {
    hide Split;
    SplitAtSep(line, rest, '\n');
    assert front + (line + ['\n']) + rest == front + (line + ['\n'] + rest);
    assert ls + ([line] + Split(rest, '\n')) == ls + [line] + Split(rest, '\n');
  }

  lemma {:induction false} NodeLinesSplit(nodes: seq<Node>, rest: string) returns (ls: seq<string>)
    requires OneLineTitles(nodes) && forall k :: 0 <= k < |nodes| ==> IsId(nodes[k].id)
    ensures Split(NodeLines(nodes) + rest, '\n') == ls + Split(rest, '\n') && |ls| == |nodes|
    ensures forall k :: 0 <= k < |nodes| ==>
      ls[k] == "  " + nodes[k].id + "[\"" + nodes[k].id + ": " + CleanTitle(nodes[k].title) + "\"]"
  {
    hide IsId, CleanTitle, Split, NodeLine;
    if nodes == [] {
      ls := [];
      assert NodeLines(nodes) + rest == rest && ls + Split(rest, '\n') == Split(rest, '\n');
    } else {
      var front, n := nodes[..|nodes| - 1], nodes[|nodes| - 1];
      var line := NodeLineIs(n);
      var ls' := NodeLinesSplit(front, line + ['\n'] + rest);
      NextLine(NodeLines(front), line, rest, ls');
      ls := ls' + [line];
    }
  }

  lemma {:induction false} EdgeLinesSplit(es: seq<(string, string)>, rest: string) returns (ls: seq<string>)
    requires forall k :: 0 <= k < |es| ==> IsId(es[k].0) && IsId(es[k].1)
    ensures Split(EdgeLines(es) + rest, '\n') == ls + Split(rest, '\n') && |ls| == |es|
    ensures forall k :: 0 <= k < |es| ==> ls[k] == "  " + es[k].0 + " --> " + es[k].1
  {
    hide IsId, Split, EdgeLine;
    if es == [] {
      ls := [];
      assert EdgeLines(es) + rest == rest && ls + Split(rest, '\n') == Split(rest, '\n');
    } else {
      var front, e := es[..|es| - 1], es[|es| - 1];
      var line := EdgeLineIs(e);
      var ls' := EdgeLinesSplit(front, line + ['\n'] + rest);
      NextLine(EdgeLines(front), line, rest, ls');
      ls := ls' + [line];
    }
  }

  /** The lines of the diagram, `boxes` for the nodes and `arrows` for the edges. */
  ghost predicate AreLines(text: string, boxes: seq<string>, arrows: seq<string>) {
    Split(text, '\n') == ["```mermaid", "flowchart LR"] + boxes + arrows + ["```", ""]
  }

  /** Two lines of head, a line for each node, a line for each edge with its source before the arrow, and the end. */
  lemma DiagramLines(nodes: seq<Node>) returns (boxes: seq<string>, arrows: seq<string>)
    requires GoodNodes(nodes) && OneLineTitles(nodes)
    ensures AreLines(Diagram(nodes), boxes, arrows) && |boxes| == |nodes| && |arrows| == |Edges(nodes)|
    ensures forall k :: 0 <= k < |nodes| ==>
      boxes[k] == "  " + nodes[k].id + "[\"" + nodes[k].id + ": " + CleanTitle(nodes[k].title) + "\"]"
    ensures forall k :: 0 <= k < |arrows| ==> arrows[k] == "  " + Edges(nodes)[k].0 + " --> " + Edges(nodes)[k].1
  {
    hide IsId, CleanTitle, Split, NodeLines, EdgeLines, Edges, Diagram;
    EdgeEndsAreIds(nodes);
    var es := Edges(nodes);
    assert forall k :: 0 <= k < |es| ==> es[k] in es;
    boxes := NodeLinesSplit(nodes, EdgeLines(es) + "```\n");
    arrows := EdgeLinesSplit(es, "```\n");
    DiagramParts(nodes);
    SplitHead(NodeLines(nodes) + (EdgeLines(es) + "```\n"));
    SplitTail();
    FourParts(boxes, arrows);
  }

  lemma DiagramParts(nodes: seq<Node>)
    ensures Diagram(nodes) == "```mermaid" + ['\n'] +
                              ("flowchart LR" + ['\n'] + (NodeLines(nodes) + (EdgeLines(Edges(nodes)) + "```\n")))
  {
    hide NodeLines, EdgeLines, Edges;
    assert "```mermaid\nflowchart LR\n" == "```mermaid" + ['\n'] + "flowchart LR" + ['\n'];
  }

  lemma FourParts(boxes: seq<string>, arrows: seq<string>)
    ensures ["```mermaid"] + (["flowchart LR"] + (boxes + (arrows + ["```", ""]))) ==
            ["```mermaid", "flowchart LR"] + boxes + arrows + ["```", ""]
  {
  }

  lemma SplitHead(body: string)
    ensures Split("```mermaid" + ['\n'] + ("flowchart LR" + ['\n'] + body), '\n') ==
            ["```mermaid"] + (["flowchart LR"] + Split(body, '\n'))
  {
    hide Split;
    SplitAtSep("```mermaid", "flowchart LR" + ['\n'] + body, '\n');
    SplitAtSep("flowchart LR", body, '\n');
  }

  lemma SplitTail()
    ensures Split("```\n", '\n') == ["```", ""]
  {
    hide Split;
    SplitAtSep("```", "", '\n');
    SplitPlain("", '\n');
    assert "```\n" == "```" + ['\n'] + "";
  }

  // ---------------------------------------------------------------- reading the text back

  datatype Piece = Box(id: string, title: string) | Arrow(source: string, target: string)

  datatype Drawing = Drawing(boxes: seq<(string, string)>, arrows: seq<(string, string)>)

  /** `id["id: title"]`, cut at its first bracket. */
  function ReadBox(id: string, caption: string): Option<Piece> {
    var head := id + ": ";
    if |head| + 2 <= |caption| && head <= caption && EndsWith(caption, "\"]")
    then Some(Box(id, caption[|head|..|caption| - 2]))
    else None
  }

  /** A line of the body, its two spaces gone: a box if it has a bracket, else an arrow from left to right. */
  function ReadLine(line: string): Option<Piece> {
    if |line| < 2 || line[..2] != "  " then None
    else
      var text := line[2..];
      match IndexOf(text, "[\"", 0)
      case Some(i) => if i + 2 <= |text| then ReadBox(text[..i], text[i + 2..]) else None
      case None =>
        match IndexOf(text, " --> ", 0)
        case Some(i) => if i + 5 <= |text| then Some(Arrow(text[..i], text[i + 5..])) else None
        case None => None
  }

  function ReadBody(lines: seq<string>): Option<Drawing> {
    if lines == [] then Some(Drawing([], []))
    else
      match (ReadLine(lines[0]), ReadBody(lines[1..]))
      case (Some(Box(id, title)), Some(d)) => Some(Drawing([(id, title)] + d.boxes, d.arrows))
      case (Some(Arrow(u, v)), Some(d)) => Some(Drawing(d.boxes, [(u, v)] + d.arrows))
      case _ => None
  }

  /** A flowchart from left to right, in its fence. */
  function ReadDiagram(text: string): Option<Drawing> {
    var lines := Split(text, '\n');
    if |lines| < 4 || lines[..2] != ["```mermaid", "flowchart LR"] || lines[|lines| - 2..] != ["```", ""] then None
    else ReadBody(lines[2..|lines| - 2])
  }

  lemma BoxReads(id: string, title: string)
    requires IsId(id)
    ensures ReadLine("  " + id + "[\"" + id + ": " + title + "\"]") == Some(Box(id, title))
  {
    hide IsId, IndexOf, ReadBox;
    var line, caption := "  " + id + "[\"" + id + ": " + title + "\"]", id + ": " + title + "\"]";
    var text := id + ("[\"" + caption);
    assert line == "  " + text && line[2..] == text;
    IdIsOneWord(id);
    assert text[|id|..|id| + 2] == "[\"";
    forall j | 0 <= j < |id|
      ensures !OccursAt(text, "[\"", j)
    {
      assert text[j] == id[j] && id[j] in id;
      assert j + 2 <= |text| ==> text[j..j + 2][0] == text[j];
    }
    ReadmeSplice.FirstAt(text, "[\"", 0, |id|);
    assert text[..|id|] == id && text[|id| + 2..] == caption;
    LabelReads(id, title);
  }

  lemma LabelReads(id: string, title: string)
    ensures ReadBox(id, id + ": " + title + "\"]") == Some(Box(id, title))
  {
    var head, caption := id + ": ", id + ": " + title + "\"]";
    assert caption[..|head|] == head && caption[|caption| - 2..] == "\"]" && caption[|head|..|caption| - 2] == title;
  }

  lemma ArrowReads(u: string, v: string)
    requires IsId(u) && IsId(v)
    ensures ReadLine("  " + u + " --> " + v) == Some(Arrow(u, v))
  {
    hide IsId, IndexOf;
    var line, text := "  " + u + " --> " + v, u + " --> " + v;
    assert line == "  " + text && line[2..] == text;
    IdIsOneWord(u);
    IdIsOneWord(v);
    forall j: nat
      ensures !OccursAt(text, "[\"", j)
    {
      assert '[' !in text;
      assert j + 2 <= |text| ==> text[j..j + 2][0] == text[j];
    }
    assert text[|u|..|u| + 5] == " --> ";
    forall j | 0 <= j < |u|
      ensures !OccursAt(text, " --> ", j)
    {
      assert text[j] == u[j] && u[j] in u;
      assert j + 5 <= |text| ==> text[j..j + 5][0] == text[j];
    }
    ReadmeSplice.FirstAt(text, " --> ", 0, |u|);
    assert text[..|u|] == u && text[|u| + 5..] == v;
  }

  lemma {:induction false} BoxesRead(boxes: seq<string>, pairs: seq<(string, string)>, more: seq<string>)
    requires |boxes| == |pairs| && ReadBody(more).Some?
    requires forall k :: 0 <= k < |boxes| ==> ReadLine(boxes[k]) == Some(Box(pairs[k].0, pairs[k].1))
    ensures ReadBody(boxes + more) ==
            Some(Drawing(pairs + ReadBody(more).value.boxes, ReadBody(more).value.arrows))
  {
    hide ReadLine;
    var d := ReadBody(more).value;
    if boxes == [] {
      assert boxes + more == more && pairs + d.boxes == d.boxes;
    } else {
      assert (boxes + more)[1..] == boxes[1..] + more;
      BoxesRead(boxes[1..], pairs[1..], more);
      assert [pairs[0]] + (pairs[1..] + d.boxes) == pairs + d.boxes;
    }
  }

  lemma {:induction false} ArrowsRead(arrows: seq<string>, pairs: seq<(string, string)>)
    requires |arrows| == |pairs|
    requires forall k :: 0 <= k < |arrows| ==> ReadLine(arrows[k]) == Some(Arrow(pairs[k].0, pairs[k].1))
    ensures ReadBody(arrows) == Some(Drawing([], pairs))
  {
    hide ReadLine;
    if arrows != [] {
      ArrowsRead(arrows[1..], pairs[1..]);
      assert [pairs[0]] + pairs[1..] == pairs;
    }
  }

  /** The diagram read back: a box for each node with its identifier and cleaned title, in the order of the nodes, and
      exactly the edges, in their order, each from its source to its target. */
  lemma DiagramReadsBack(nodes: seq<Node>)
    requires GoodNodes(nodes) && OneLineTitles(nodes)
    ensures ReadDiagram(Diagram(nodes)).Some?
    ensures var d := ReadDiagram(Diagram(nodes)).value;
            && d.arrows == Edges(nodes) && |d.boxes| == |nodes|
            && forall k :: 0 <= k < |nodes| ==> d.boxes[k] == (nodes[k].id, CleanTitle(nodes[k].title))
  {
    hide Split, IsId, CleanTitle, ReadLine, ReadBody, Edges, Diagram;
    var boxes, arrows := DiagramLines(nodes);
    var es, lines := Edges(nodes), Split(Diagram(nodes), '\n');
    var pairs := seq(|nodes|, k requires 0 <= k < |nodes| => (nodes[k].id, CleanTitle(nodes[k].title)));
    assert lines[2..|lines| - 2] == boxes + arrows;
    EdgeEndsAreIds(nodes);
    forall k | 0 <= k < |nodes|
      ensures ReadLine(boxes[k]) == Some(Box(pairs[k].0, pairs[k].1))
    {
      BoxReads(nodes[k].id, CleanTitle(nodes[k].title));
    }
    forall k | 0 <= k < |es|
      ensures ReadLine(arrows[k]) == Some(Arrow(es[k].0, es[k].1))
    {
      assert es[k] in es;
      ArrowReads(es[k].0, es[k].1);
    }
    ArrowsRead(arrows, es);
    BoxesRead(boxes, pairs, arrows);
    assert pairs + [] == pairs;
  }

  // ---------------------------------------------------------------- the arrows, from the files

  /** The file's name begins with `id`, in any case. */
  ghost predicate Makes(f: AdrFile, id: string) {
    MentionAt(f.name, id, 0)
  }

  ghost predicate LastMaker(files: seq<AdrFile>, id: string, last: nat) {
    last < |files| && Makes(files[last], id) && forall k :: last < k < |files| ==> !Makes(files[k], id)
  }

  lemma TitlesAreLines(files: seq<AdrFile>)
    ensures OneLineTitles(NodesOf(files))
  {
    hide NodesOf, IsId, LinksOf, FileId, AdrHeading.Heading;
    NodesAreFiles(files);
    NodesAreGood(files);
    var nodes := NodesOf(files);
    forall k | 0 <= k < |nodes|
      ensures '\n' !in nodes[k].title
    {
      assert nodes[k] in nodes;
      var last: nat :| MadeFrom(files, nodes[k], last);
      IdIsOneWord(nodes[k].id);
      AdrHeading.HeadingIsOneLine(files[last].content);
    }
  }

  lemma MakersMean(files: seq<AdrFile>, id: string)
    ensures HasId(NodesOf(files), id) <==> exists k :: 0 <= k < |files| && Makes(files[k], id)
    ensures forall last: nat :: LastWith(files, id, last) <==> LastMaker(files, id, last)
  {
    hide NodesOf, FileId, Makes, IndexOfId;
    NodesAreFiles(files);
    forall k | 0 <= k < |files|
      ensures FileId(files[k].name) == Some(id) <==> Makes(files[k], id)
    {
      assert Makes(files[k], id) <==> MentionAt(files[k].name, id, 0) by { MakesIs(files[k], id); }
      FileIdMeans(files[k].name, id);
    }
    IndexOfIdMeans(NodesOf(files), id);
    if HasId(NodesOf(files), id) {
      var n := NodesOf(files)[IndexOfId(NodesOf(files), id).value];
      assert n in NodesOf(files);
      var last: nat :| MadeFrom(files, n, last);
    }
  }

  lemma MakesIs(f: AdrFile, id: string)
    ensures Makes(f, id) <==> MentionAt(f.name, id, 0)
  {
  }

  /** The diagram of a directory shows an arrow exactly where one record, the last that makes `u`, mentions another.
      Only a text without a bracket can be the source of an arrow, which tells the arrows from the boxes. */
  lemma ArrowsExactly(files: seq<AdrFile>, u: string, v: string)
    requires '[' !in u
    ensures "  " + u + " --> " + v in Split(Diagram(NodesOf(files)), '\n') <==>
      && u != v && (exists k :: 0 <= k < |files| && Makes(files[k], v))
      && exists last: nat :: LastMaker(files, u, last) && Mentions(files[last].content, v)
  {
    hide NodesOf, IsId, Diagram, Edges, Split, IndexOfId, LastWith, LastMaker, Mentions, CleanTitle, Makes;
    var nodes := NodesOf(files);
    NodesAreGood(files);
    TitlesAreLines(files);
    EdgesExact(files, u, v);
    MakersMean(files, u);
    MakersMean(files, v);
    ArrowIsEdge(nodes, u, v);
    forall last: nat | LastMaker(files, u, last)
      ensures exists k :: 0 <= k < |files| && Makes(files[k], u)
    {
      LastMakes(files, u, last);
    }
  }

  lemma LastMakes(files: seq<AdrFile>, id: string, last: nat)
    requires LastMaker(files, id, last)
    ensures last < |files| && Makes(files[last], id)
  {
  }

  lemma ArrowIsEdge(nodes: seq<Node>, u: string, v: string)
    requires GoodNodes(nodes) && OneLineTitles(nodes) && '[' !in u
    ensures "  " + u + " --> " + v in Split(Diagram(nodes), '\n') <==> (u, v) in Edges(nodes)
  {
    hide IsId, Diagram, Edges, Split, CleanTitle;
    var boxes, arrows := DiagramLines(nodes);
    ArrowIsNoHead(u, v);
    NoBoxIsArrow(nodes, boxes, u, v);
    EdgeEndsAreIds(nodes);
    ArrowStands(Edges(nodes), arrows, u, v);
  }

  lemma ArrowStands(es: seq<(string, string)>, arrows: seq<string>, u: string, v: string)
    requires |arrows| == |es| && forall e :: e in es ==> IsId(e.0) && IsId(e.1)
    requires forall k :: 0 <= k < |es| ==> arrows[k] == "  " + es[k].0 + " --> " + es[k].1
    ensures "  " + u + " --> " + v in arrows <==> (u, v) in es
  {
    hide IsId;
    var line := "  " + u + " --> " + v;
    if (u, v) in es {
      var k :| 0 <= k < |es| && es[k] == (u, v);
      assert arrows[k] == line;
    }
    if line in arrows {
      var k :| 0 <= k < |arrows| && arrows[k] == line;
      assert es[k] in es;
      SameArrow(u, v, es[k].0, es[k].1);
    }
  }

  lemma NoBoxIsArrow(nodes: seq<Node>, boxes: seq<string>, u: string, v: string)
    requires GoodNodes(nodes) && '[' !in u && |boxes| == |nodes|
    requires forall k :: 0 <= k < |nodes| ==>
      boxes[k] == "  " + nodes[k].id + "[\"" + nodes[k].id + ": " + CleanTitle(nodes[k].title) + "\"]"
    ensures "  " + u + " --> " + v !in boxes
  {
    hide IsId, CleanTitle;
    forall k | 0 <= k < |nodes|
      ensures boxes[k] != "  " + u + " --> " + v
    {
      var id, title := nodes[k].id, CleanTitle(nodes[k].title);
      ArrowIsNoBox(u, v, id, id + ": " + title + "\"]");
      BoxJoins(id, title);
    }
  }

  lemma BoxJoins(id: string, title: string)
    ensures "  " + id + "[\"" + id + ": " + title + "\"]" == "  " + id + "[\"" + (id + ": " + title + "\"]")
  {
  }

  lemma ArrowIsNoHead(u: string, v: string)
    ensures "  " + u + " --> " + v !in ["```mermaid", "flowchart LR"] && "  " + u + " --> " + v !in ["```", ""]
  {
    var line := "  " + u + " --> " + v;
    assert line[0] == ' ' && |line| > 0;
  }

  lemma ArrowIsNoBox(u: string, v: string, id: string, caption: string)
    requires '[' !in u && IsId(id)
    ensures "  " + u + " --> " + v != "  " + id + "[\"" + caption
  {
    IdIsOneWord(id);
    ArrowStart(u, v);
    BoxStart(id, caption);
  }

  lemma ArrowStart(u: string, v: string)
    requires '[' !in u
    ensures var line := "  " + u + " --> " + v;
            |line| > 2 + |u| && line[2 + |u|] == ' ' && forall i :: 2 <= i < 2 + |u| ==> line[i] != '['
  {
    var line := "  " + u + " --> " + v;
    assert forall i :: 2 <= i < 2 + |u| ==> line[i] == u[i - 2];
  }

  lemma BoxStart(id: string, caption: string)
    requires ' ' !in id
    ensures var line := "  " + id + "[\"" + caption;
            |line| > 2 + |id| && line[2 + |id|] == '[' && forall i :: 2 <= i < 2 + |id| ==> line[i] != ' '
  {
    var line := "  " + id + "[\"" + caption;
    assert forall i :: 2 <= i < 2 + |id| ==> line[i] == id[i - 2];
  }

  lemma SameArrow(u: string, v: string, a: string, b: string)
    requires IsId(a) && IsId(b) && "  " + u + " --> " + v == "  " + a + " --> " + b
    ensures u == a && v == b
  {
    hide IsId;
    IdIsOneWord(a);
    IdIsOneWord(b);
    var left, right := "  " + u + " --> " + v, "  " + a + " --> " + b;
    assert left[2 + |u|] == ' ' && left[6 + |u|] == ' ';
    SpacesOf(a, b);
    assert left[2..2 + |u|] == u && right[2..2 + |a|] == a;
    assert left[7 + |u|..] == v && right[7 + |a|..] == b;
  }

  lemma SpacesOf(a: string, b: string)
    requires ' ' !in a && ' ' !in b
    ensures var line := "  " + a + " --> " + b;
            forall i :: 2 <= i < |line| && line[i] == ' ' ==> i == 2 + |a| || i == 6 + |a|
  {
    var line := "  " + a + " --> " + b;
    assert forall i :: 2 <= i < 2 + |a| ==> line[i] == a[i - 2];
    assert forall i :: 7 + |a| <= i < |line| ==> line[i] == b[i - 7 - |a|];
  }
}
