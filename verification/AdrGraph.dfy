/** The dependency graph of link-adr.ts: nodes from file names, edges from mentions. */
module AdrGraph {
  import opened Text
  import opened ReadmeSplice
  import AdrHeading

  /** A file of the directory. */
  datatype AdrFile = AdrFile(name: string, content: string)

  datatype Node = Node(id: string, title: string, links: seq<string>)

  const STEM := "MEOW-"

  /** The length of the match of `MEOW-\d+`, in any case, at `i`; 0 when there is none. */
  function MatchLength(s: string, i: nat): (n: nat)
    ensures i + n <= |s| || n == 0
    ensures n > 0 ==> n > |STEM|
  {
    if i + 5 <= |s| && Upper(s[i..i + 5]) == STEM then
      var d := Span(s[i + 5..], IsDigit);
      if d >= 1 then 5 + d else 0
    else 0
  }

  /** All matches, left to right, each search going on behind the last match. */
  function Matches(s: string, from: nat): seq<string>
    requires from <= |s|
    decreases |s| - from
  {
    var n := MatchLength(s, from);
    if n > 0 then [Upper(s[from..from + n])] + Matches(s, from + n)
    else if from == |s| then []
    else Matches(s, from + 1)
  }

  /** The text names `id` somewhere. */
  ghost predicate Mentions(s: string, id: string) {
    exists i: nat :: MentionAt(s, id, i)
  }

  ghost predicate MentionAt(s: string, id: string, i: nat) {
    exists n: nat :: IsMention(s, i, n) && Upper(s[i..i + n]) == id
  }

  /** At `i` stand `MEOW-`, in any case, and digits, `n` characters in all; no further digit follows. */
  predicate IsMention(s: string, i: nat, n: nat) {
    && n > 5 && i + n <= |s| && Upper(s[i..i + 5]) == "MEOW-"
    && (forall k :: i + 5 <= k < i + n ==> '0' <= s[k] <= '9')
    && (i + n < |s| ==> !('0' <= s[i + n] <= '9'))
  }

  lemma MatchMeaning(s: string, i: nat, n: nat)
    ensures n > 0 && MatchLength(s, i) == n <==> IsMention(s, i, n)
  {
    hide Upper;
    if i + 5 <= |s| && Upper(s[i..i + 5]) == STEM {
      var tail := s[i + 5..];
      var d := Span(tail, IsDigit);
      assert forall k :: i + 5 <= k < |s| ==> s[k] == tail[k - i - 5];
      if IsMention(s, i, n) {
        DigitsEnd(tail, n - 5);
      }
    }
  }

  lemma DigitsEnd(s: string, n: nat)
    requires n <= |s| && (forall i :: 0 <= i < n ==> '0' <= s[i] <= '9') && (n < |s| ==> !('0' <= s[n] <= '9'))
    ensures Span(s, IsDigit) == n
  {
  }

  lemma MentionAtIs(s: string, id: string, i: nat)
    ensures MentionAt(s, id, i) <==> MatchLength(s, i) > 0 && Upper(s[i..i + MatchLength(s, i)]) == id
  {
    hide Upper, MatchLength;
    MatchMeaning(s, i, MatchLength(s, i));
    if MentionAt(s, id, i) {
      var n: nat :| IsMention(s, i, n) && Upper(s[i..i + n]) == id;
      MatchMeaning(s, i, n);
    }
  }

  predicate IsId(id: string) {
    STEM <= id && |id| > |STEM| && forall i :: |STEM| <= i < |id| ==> IsDigit(id[i])
  }

  // ---------------------------------------------------------------- matches and mentions

  lemma MatchIsId(s: string, i: nat)
    requires MatchLength(s, i) > 0
    ensures IsId(Upper(s[i..i + MatchLength(s, i)]))
    ensures forall k :: i < k < i + MatchLength(s, i) ==> s[k] != 'm' && s[k] != 'M'
  {
    var n := MatchLength(s, i);
    var m, stem := s[i..i + n], s[i..i + 5];
    UpperEach(m);
    UpperEach(stem);
    assert forall k :: 0 <= k < 5 ==> m[k] == stem[k];
    assert forall k :: 5 <= k < n ==> m[k] == s[i + 5..][k - 5];
    var id := Upper(m);
    assert id[..5] == Upper(stem);
    assert forall k :: 0 <= k < 5 ==> id[k] == Upper(stem)[k] == STEM[k];
    forall k | i < k < i + n
      ensures s[k] != 'm' && s[k] != 'M'
    {
      assert s[k] == m[k - i];
      if k - i < 5 {
        assert Upper(stem)[k - i] == STEM[k - i];
        StemHasOneM(k - i);
      }
    }
  }

  lemma StemHasOneM(k: nat)
    requires 1 <= k < 5
    ensures STEM[k] != 'M'
  {
  }

  lemma MatchStartsWithM(s: string, i: nat)
    requires MatchLength(s, i) > 0
    ensures s[i] == 'm' || s[i] == 'M'
  {
    UpperEach(s[i..i + 5]);
    assert Upper(s[i..i + 5])[0] == STEM[0];
  }

  ghost predicate MentionFrom(s: string, id: string, from: nat) {
    exists i: nat :: from <= i && MentionAt(s, id, i)
  }

  lemma MentionLater(s: string, id: string, from: nat, n: nat)
    requires from <= n && forall i: nat :: from <= i < n ==> !MentionAt(s, id, i)
    ensures MentionFrom(s, id, from) <==> MentionFrom(s, id, n)
  {
    hide MentionAt;
  }

  lemma NoMatchAtEnd(s: string, id: string)
    ensures !MentionFrom(s, id, |s|)
  {
    hide Upper;
  }

  /** No match starts inside a match. */
  lemma NoMatchInside(s: string, id: string, from: nat)
    requires MatchLength(s, from) > 0
    ensures forall i: nat :: from < i < from + MatchLength(s, from) ==> !MentionAt(s, id, i)
  {
    hide Upper, MatchLength, MentionAt;
    MatchIsId(s, from);
    forall i: nat | from < i < from + MatchLength(s, from)
      ensures !MentionAt(s, id, i)
    {
      MentionAtIs(s, id, i);
      if MatchLength(s, i) > 0 {
        MatchStartsWithM(s, i);
      }
    }
  }

  /** The scan finds exactly what the text mentions: going on behind a match skips no other match. */
  lemma {:induction false} MatchesAreMentions(s: string, from: nat, id: string)
    requires from <= |s|
    ensures id in Matches(s, from) <==> MentionFrom(s, id, from)
    decreases |s| - from
  {
    hide Upper, MatchLength, MentionAt;
    var n := MatchLength(s, from);
    MentionAtIs(s, id, from);
    if n > 0 {
      MatchesAreMentions(s, from + n, id);
      NoMatchInside(s, id, from);
      MentionLater(s, id, from + 1, from + n);
      assert MentionFrom(s, id, from) <==> MentionAt(s, id, from) || MentionFrom(s, id, from + 1);
    } else if from < |s| {
      MatchesAreMentions(s, from + 1, id);
      MentionLater(s, id, from, from + 1);
    } else {
      NoMatchAtEnd(s, id);
    }
  }

  // ---------------------------------------------------------------- the order of the matches

  /** `p` is where the text names `id` for the first time. */
  ghost predicate FirstMention(s: string, id: string, p: nat) {
    MentionAt(s, id, p) && forall k: nat :: k < p ==> !MentionAt(s, id, k)
  }

  /** `ps` are the places of the matches `ms` from `from` on: one for each, from left to right, and every mention has
      its place. */
  ghost predicate ArePlaces(s: string, from: nat, ms: seq<string>, ps: seq<nat>) {
    && |ps| == |ms|
    && (forall k :: 0 <= k < |ps| ==> from <= ps[k] && MentionAt(s, ms[k], ps[k]))
    && (forall j, k :: 0 <= j < k < |ps| ==> ps[j] < ps[k])
    && (forall id, i: nat :: from <= i && MentionAt(s, id, i) ==> i in ps)
  }

  lemma {:induction false} MatchPlaces(s: string, from: nat) returns (ps: seq<nat>)
    requires from <= |s|
    ensures ArePlaces(s, from, Matches(s, from), ps)
    decreases |s| - from
  {
    hide Upper, MatchLength, ArePlaces;
    var n := MatchLength(s, from);
    if n > 0 {
      var more := MatchPlaces(s, from + n);
      ps := [from] + more;
      PlaceHere(s, from, Matches(s, from + n), more);
    } else if from < |s| {
      ps := MatchPlaces(s, from + 1);
      NoPlaceHere(s, from, Matches(s, from + 1), ps);
    } else {
      ps := [];
      NoPlaceAtEnd(s);
    }
  }

  lemma PlaceHere(s: string, from: nat, ms: seq<string>, ps: seq<nat>)
    requires MatchLength(s, from) > 0 && ArePlaces(s, from + MatchLength(s, from), ms, ps)
    ensures ArePlaces(s, from, [Upper(s[from..from + MatchLength(s, from)])] + ms, [from] + ps)
  {
    hide Upper, MatchLength, MentionAt;
    var id := Upper(s[from..from + MatchLength(s, from)]);
    MentionAtIs(s, id, from);
    forall other, i: nat | from <= i && MentionAt(s, other, i)
      ensures i == from || i in ps
    {
      NoMatchInside(s, other, from);
    }
    PlaceAdded(s, from, from + MatchLength(s, from), id, ms, ps);
  }

  lemma PlaceAdded(s: string, from: nat, next: nat, id: string, ms: seq<string>, ps: seq<nat>)
    requires from < next && ArePlaces(s, next, ms, ps) && MentionAt(s, id, from)
    requires forall other, i: nat :: from <= i && MentionAt(s, other, i) ==> i == from || i in ps
    ensures ArePlaces(s, from, [id] + ms, [from] + ps)
  {
    hide MentionAt;
    var ms', ps' := [id] + ms, [from] + ps;
    forall k | 0 <= k < |ps'|
      ensures from <= ps'[k] && MentionAt(s, ms'[k], ps'[k]) && (k > 0 ==> from < ps'[k])
    {
      if k > 0 {
        assert ps'[k] == ps[k - 1] && ms'[k] == ms[k - 1];
      }
    }
    forall j, k | 0 <= j < k < |ps'|
      ensures ps'[j] < ps'[k]
    {
      assert ps'[k] == ps[k - 1];
      if j > 0 {
        assert ps'[j] == ps[j - 1];
      }
    }
  }

  lemma NoPlaceHere(s: string, from: nat, ms: seq<string>, ps: seq<nat>)
    requires MatchLength(s, from) == 0 && ArePlaces(s, from + 1, ms, ps)
    ensures ArePlaces(s, from, ms, ps)
  {
    hide Upper, MatchLength, MentionAt;
    forall id
      ensures !MentionAt(s, id, from)
    {
      MentionAtIs(s, id, from);
    }
  }

  lemma NoPlaceAtEnd(s: string)
    ensures ArePlaces(s, |s|, [], [])
  {
    hide MentionAt;
    forall id, i: nat | |s| <= i
      ensures !MentionAt(s, id, i)
    {
      NoMatchAtEnd(s, id);
    }
  }

  // ---------------------------------------------------------------- nodes

  /** `/^(MEOW-\d+)/i` on the file name. */
  function FileId(name: string): Option<string> {
    var n := MatchLength(name, 0);
    if n > 0 then Some(Upper(name[..n])) else None
  }

  /** `Array.from(new Set(...))`: each value once, where it first occurs. */
  function Unique(s: seq<string>): seq<string> {
    if s == [] then []
    else
      var front := Unique(s[..|s| - 1]);
      if s[|s| - 1] in front then front else front + [s[|s| - 1]]
  }

  function Dropping(s: seq<string>, x: string): seq<string> {
    if s == [] then [] else (if s[0] == x then [] else [s[0]]) + Dropping(s[1..], x)
  }

  function LinksOf(content: string, id: string): seq<string> {
    Dropping(Unique(Matches(content, 0)), id)
  }

  function IndexOfId(nodes: seq<Node>, id: string): Option<nat> {
    if nodes == [] then None
    else if nodes[0].id == id then Some(0)
    else
      match IndexOfId(nodes[1..], id)
      case Some(i) => Some(i + 1)
      case None => None
  }

  /** `Map.set`: a known id keeps its place and gets the new node. */
  function Put(nodes: seq<Node>, node: Node): seq<Node> {
    match IndexOfId(nodes, node.id)
    case Some(i) => if i < |nodes| then nodes[i := node] else nodes
    case None => nodes + [node]
  }

  /** A record without a heading is called by its identifier. */
  function TitleOf(f: AdrFile, id: string): string {
    match AdrHeading.Heading(f.content)
    case Some(title) => title
    case None => id
  }

  function AddFile(nodes: seq<Node>, f: AdrFile): seq<Node> {
    match FileId(f.name)
    case Some(id) => Put(nodes, Node(id, TitleOf(f, id), LinksOf(f.content, id)))
    case None => nodes
  }

  function NodesOf(files: seq<AdrFile>): seq<Node> {
    if files == [] then [] else AddFile(NodesOf(files[..|files| - 1]), files[|files| - 1])
  }

  method CollectNodes(files: seq<AdrFile>) returns (nodes: seq<Node>)
    ensures nodes == NodesOf(files)
  {
    nodes := [];
    for k := 0 to |files|
      invariant nodes == NodesOf(files[..k])
    {
      assert files[..k + 1][..k] == files[..k];
      nodes := AddFile(nodes, files[k]);
    }
    assert files[..|files|] == files;
  }

  ghost predicate Distinct<T(!new)>(s: seq<T>) {
    forall i, j :: 0 <= i < j < |s| ==> s[i] != s[j]
  }

  ghost predicate DistinctIds(nodes: seq<Node>) {
    forall i, j :: 0 <= i < j < |nodes| ==> nodes[i].id != nodes[j].id
  }

  predicate HasId(nodes: seq<Node>, id: string) {
    IndexOfId(nodes, id).Some?
  }

  lemma {:induction false} IndexOfIdMeans(nodes: seq<Node>, id: string)
    ensures match IndexOfId(nodes, id)
            case Some(i) => i < |nodes| && nodes[i].id == id
            case None => forall i :: 0 <= i < |nodes| ==> nodes[i].id != id
  {
    if nodes != [] {
      IndexOfIdMeans(nodes[1..], id);
    }
  }

  /** `last` is the last of the files that make `id`. */
  ghost predicate LastWith(files: seq<AdrFile>, id: string, last: nat) {
    && last < |files| && FileId(files[last].name) == Some(id)
    && forall k :: last < k < |files| ==> FileId(files[k].name) != Some(id)
  }

  /** `n` is the node made from the last file with its id. */
  ghost predicate MadeFrom(files: seq<AdrFile>, n: Node, last: nat) {
    LastWith(files, n.id, last) && n == Node(n.id, TitleOf(files[last], n.id), LinksOf(files[last].content, n.id))
  }

  /** One node for each id that occurs among the file names, made from the last file with that id. */
  lemma {:induction false} NodesAreFiles(files: seq<AdrFile>)
    ensures DistinctIds(NodesOf(files))
    ensures forall n :: n in NodesOf(files) ==>
      exists last: nat :: MadeFrom(files, n, last)
    ensures forall k :: 0 <= k < |files| && FileId(files[k].name).Some? ==>
            HasId(NodesOf(files), FileId(files[k].name).value)
  {
    hide FileId, LinksOf, IndexOfId, TitleOf;
    if files != [] {
      var front, f := files[..|files| - 1], files[|files| - 1];
      NodesAreFiles(front);
      var nodes, nodes' := NodesOf(front), NodesOf(files);
      forall n | n in nodes && FileId(f.name) != Some(n.id)
        ensures exists last: nat :: MadeFrom(files, n, last)
      {
        var last: nat :| MadeFrom(front, n, last);
        assert MadeFrom(files, n, last);
      }
      if FileId(f.name).Some? {
        var id := FileId(f.name).value;
        var node := Node(id, TitleOf(f, id), LinksOf(f.content, id));
        IndexOfIdMeans(nodes, id);
        assert MadeFrom(files, node, |files| - 1);
        PutKeeps(nodes, node);
      }
      forall k | 0 <= k < |files| && FileId(files[k].name).Some?
        ensures HasId(nodes', FileId(files[k].name).value)
      {
        if k < |front| {
          assert front[k] == files[k];
        }
      }
    }
  }

  /** `k` is the first of the files that make `id`. */
  ghost predicate FirstWith(files: seq<AdrFile>, id: string, k: nat) {
    && k < |files| && FileId(files[k].name) == Some(id)
    && forall j :: 0 <= j < k ==> FileId(files[j].name) != Some(id)
  }

  /** The nodes come in the order in which their ids first occur among the file names. */
  lemma {:induction false} NodesInOrder(files: seq<AdrFile>, i: nat, j: nat) returns (p: nat, q: nat)
    requires i < j < |NodesOf(files)|
    ensures p < q && FirstWith(files, NodesOf(files)[i].id, p) && FirstWith(files, NodesOf(files)[j].id, q)
  {
    hide FileId, LinksOf, IndexOfId, TitleOf;
    var front, f := files[..|files| - 1], files[|files| - 1];
    var nodes, nodes' := NodesOf(front), NodesOf(files);
    if FileId(f.name).Some? {
      var id := FileId(f.name).value;
      var node := Node(id, TitleOf(f, id), LinksOf(f.content, id));
      PutPlaces(nodes, node);
      if j == |nodes| {
        NodesAreFiles(front);
        assert nodes[i] in nodes;
        p := FirstFile(front, nodes[i]);
        q := |front|;
        NewId(front, nodes, node.id);
      } else {
        p, q := NodesInOrder(front, i, j);
      }
    } else {
      p, q := NodesInOrder(front, i, j);
    }
  }

  /** A node put in takes the place of its id, or the last one. */
  lemma PutPlaces(nodes: seq<Node>, node: Node)
    ensures var nodes' := Put(nodes, node);
            && |nodes| <= |nodes'| <= |nodes| + 1 && (forall k :: 0 <= k < |nodes| ==> nodes'[k].id == nodes[k].id)
            && (|nodes'| > |nodes| ==> nodes'[|nodes|] == node && !HasId(nodes, node.id))
  {
    hide IndexOfId;
    IndexOfIdMeans(nodes, node.id);
  }

  lemma NewId(files: seq<AdrFile>, nodes: seq<Node>, id: string)
    requires nodes == NodesOf(files) && !HasId(nodes, id)
    ensures forall k :: 0 <= k < |files| ==> FileId(files[k].name) != Some(id)
  {
    hide FileId, NodesOf, HasId;
    NodesAreFiles(files);
  }

  lemma FirstFile(files: seq<AdrFile>, n: Node) returns (k: nat)
    requires exists last: nat :: MadeFrom(files, n, last)
    ensures FirstWith(files, n.id, k)
  {
    hide FileId, NodesOf, TitleOf, LinksOf;
    var last: nat :| MadeFrom(files, n, last);
    k := 0;
    while FileId(files[k].name) != Some(n.id)
      invariant k <= last < |files|
      invariant forall j :: 0 <= j < k ==> FileId(files[j].name) != Some(n.id)
      decreases last - k
    {
      k := k + 1;
    }
  }

  lemma PutKeeps(nodes: seq<Node>, node: Node)
    requires DistinctIds(nodes)
    ensures DistinctIds(Put(nodes, node))
    ensures HasId(Put(nodes, node), node.id)
    ensures forall id :: HasId(nodes, id) ==> HasId(Put(nodes, node), id)
    ensures forall n :: n in Put(nodes, node) ==> n == node || (n in nodes && n.id != node.id)
  {
    hide IndexOfId;
    IndexOfIdMeans(nodes, node.id);
    var nodes' := Put(nodes, node);
    IndexOfIdMeans(nodes', node.id);
    var found := IndexOfId(nodes, node.id);
    var at := if found.Some? then found.value else |nodes|;
    assert nodes'[at] == node;
    assert forall i :: 0 <= i < |nodes'| && i != at ==> i < |nodes| && nodes'[i] == nodes[i] && nodes[i].id != node.id;
    forall id | HasId(nodes, id)
      ensures HasId(nodes', id)
    {
      IndexOfIdMeans(nodes, id);
      IndexOfIdMeans(nodes', id);
      assert nodes'[IndexOfId(nodes, id).value].id == id;
    }
  }

  // ---------------------------------------------------------------- edges

  /** The links of one node that lead to a node. */
  function NodeEdges(nodes: seq<Node>, id: string, links: seq<string>): seq<(string, string)> {
    if links == [] then []
    else NodeEdges(nodes, id, links[..|links| - 1])
         + if HasId(nodes, links[|links| - 1]) then [(id, links[|links| - 1])] else []
  }

  function EdgesUpto(nodes: seq<Node>, k: nat): seq<(string, string)>
    requires k <= |nodes|
  {
    if k == 0 then [] else EdgesUpto(nodes, k - 1) + NodeEdges(nodes, nodes[k - 1].id, nodes[k - 1].links)
  }

  function Edges(nodes: seq<Node>): seq<(string, string)> {
    EdgesUpto(nodes, |nodes|)
  }

  function EdgeKey(e: (string, string)): string {
    e.0 + "-->" + e.1
  }

  lemma {:induction false} DroppingMeans(s: seq<string>, x: string)
    requires Distinct(s)
    ensures Distinct(Dropping(s, x)) && forall y :: y in Dropping(s, x) <==> y in s && y != x
  {
    if s != [] {
      DroppingMeans(s[1..], x);
      assert s == [s[0]] + s[1..];
      assert s[0] !in s[1..];
      assert s[0] !in Dropping(s[1..], x);
    }
  }

  lemma {:induction false} UniqueMeans(s: seq<string>)
    ensures Distinct(Unique(s)) && forall y :: y in Unique(s) <==> y in s
  {
    if s != [] {
      UniqueMeans(s[..|s| - 1]);
      assert s == s[..|s| - 1] + [s[|s| - 1]];
    }
  }

  /** `x` occurs in `s` at `i` and not before. */
  ghost predicate FirstAt<T(!new)>(s: seq<T>, x: T, i: nat) {
    i < |s| && s[i] == x && x !in s[..i]
  }

  /** The values come in the order in which they first occur. */
  lemma {:induction false} UniqueOrder(s: seq<string>, i: nat, j: nat) returns (p: nat, q: nat)
    requires i < j < |Unique(s)|
    ensures p < q && FirstAt(s, Unique(s)[i], p) && FirstAt(s, Unique(s)[j], q)
  {
    var front, last := s[..|s| - 1], |s| - 1;
    if j < |Unique(front)| {
      p, q := UniqueOrder(front, i, j);
      assert front[..p] == s[..p] && front[..q] == s[..q];
    } else {
      UniqueMeans(front);
      p := FirstOccurs(front, Unique(front)[i]);
      assert front[..p] == s[..p];
      q := last;
    }
  }

  lemma {:induction false} FirstOccurs(s: seq<string>, x: string) returns (p: nat)
    requires x in s
    ensures FirstAt(s, x, p)
  {
    var front := s[..|s| - 1];
    if x in front {
      p := FirstOccurs(front, x);
      assert front[..p] == s[..p];
    } else {
      p := |s| - 1;
    }
  }

  /** Dropping a value keeps the others in their order. */
  lemma {:induction false} DroppingOrder(s: seq<string>, x: string, i: nat, j: nat) returns (p: nat, q: nat)
    requires i < j < |Dropping(s, x)|
    ensures p < q < |s| && s[p] == Dropping(s, x)[i] && s[q] == Dropping(s, x)[j]
  {
    if s[0] == x {
      p, q := DroppingOrder(s[1..], x, i, j);
      p, q := p + 1, q + 1;
    } else if i > 0 {
      p, q := DroppingOrder(s[1..], x, i - 1, j - 1);
      p, q := p + 1, q + 1;
    } else {
      p, q := 0, DroppedAt(s[1..], x, j - 1) + 1;
    }
  }

  function DroppedAt(s: seq<string>, x: string, j: nat): (q: nat)
    requires j < |Dropping(s, x)|
    ensures q < |s| && s[q] == Dropping(s, x)[j]
  {
    if s[0] == x then 1 + DroppedAt(s[1..], x, j)
    else if j == 0 then 0
    else 1 + DroppedAt(s[1..], x, j - 1)
  }

  /** The links come in the order in which the text first mentions them. */
  lemma LinksInOrder(content: string, id: string, i: nat, j: nat)
    requires i < j < |LinksOf(content, id)|
    ensures var links := LinksOf(content, id);
            exists p: nat, q: nat ::
              p < q && FirstMention(content, links[i], p) && FirstMention(content, links[j], q)
  {
    hide Matches, Unique, Dropping, MentionAt;
    var ms := Matches(content, 0);
    var ps := MatchPlaces(content, 0);
    var a, b := DroppingOrder(Unique(ms), id, i, j);
    var k, l := UniqueOrder(ms, a, b);
    PlaceIsFirst(content, ms, ps, k);
    PlaceIsFirst(content, ms, ps, l);
    assert ps[k] < ps[l];
  }

  lemma PlaceIsFirst(s: string, ms: seq<string>, ps: seq<nat>, k: nat)
    requires ArePlaces(s, 0, ms, ps) && k < |ms| && FirstAt(ms, ms[k], k)
    ensures FirstMention(s, ms[k], ps[k])
  {
    hide MentionAt;
    forall i: nat | i < ps[k]
      ensures !MentionAt(s, ms[k], i)
    {
      if MentionAt(s, ms[k], i) {
        var j: nat :| j < |ps| && ps[j] == i;
        OneMention(s, i, ms[j], ms[k]);
        EarlierDiffers(ms, k, j);
      }
    }
  }

  lemma EarlierDiffers(ms: seq<string>, k: nat, j: nat)
    requires k < |ms| && FirstAt(ms, ms[k], k) && j < k
    ensures ms[j] != ms[k]
  {
    assert ms[..k][j] == ms[j];
  }

  lemma OneMention(s: string, i: nat, a: string, b: string)
    requires MentionAt(s, a, i) && MentionAt(s, b, i)
    ensures a == b
  {
    MentionAtIs(s, a, i);
    MentionAtIs(s, b, i);
  }

  /** The links are the other ids the text mentions, each once. */
  lemma LinksMeans(content: string, id: string)
    ensures Distinct(LinksOf(content, id))
    ensures forall y :: y in LinksOf(content, id) <==> Mentions(content, y) && y != id
  {
    hide Matches, Unique, Dropping;
    UniqueMeans(Matches(content, 0));
    DroppingMeans(Unique(Matches(content, 0)), id);
    forall y
      ensures y in Matches(content, 0) <==> Mentions(content, y)
    {
      MatchesAreMentions(content, 0, y);
    }
  }

  lemma {:induction false} NodeEdgesMeans(nodes: seq<Node>, id: string, links: seq<string>)
    ensures forall e :: e in NodeEdges(nodes, id, links) <==> e.0 == id && e.1 in links && HasId(nodes, e.1)
    ensures Distinct(links) ==> Distinct(NodeEdges(nodes, id, links))
  {
    hide HasId;
    if links != [] {
      var front := links[..|links| - 1];
      NodeEdgesMeans(nodes, id, front);
      assert links == front + [links[|links| - 1]];
      if Distinct(links) {
        assert links[|links| - 1] !in front;
      }
    }
  }

  lemma {:induction false} EdgesUptoMeans(nodes: seq<Node>, k: nat)
    requires k <= |nodes|
    ensures forall e :: e in EdgesUpto(nodes, k) <==>
      exists i :: 0 <= i < k && nodes[i].id == e.0 && e.1 in nodes[i].links && HasId(nodes, e.1)
  {
    hide HasId, NodeEdges;
    if k > 0 {
      EdgesUptoMeans(nodes, k - 1);
      NodeEdgesMeans(nodes, nodes[k - 1].id, nodes[k - 1].links);
    }
  }

  ghost predicate GoodNodes(nodes: seq<Node>) {
    && DistinctIds(nodes)
    && forall i :: 0 <= i < |nodes| ==> IsId(nodes[i].id) && Distinct(nodes[i].links)
  }

  lemma {:induction false} EdgesUptoDistinct(nodes: seq<Node>, k: nat)
    requires k <= |nodes| && GoodNodes(nodes)
    ensures Distinct(EdgesUpto(nodes, k))
  {
    hide HasId, NodeEdges, IsId;
    if k > 0 {
      EdgesUptoDistinct(nodes, k - 1);
      EdgesUptoMeans(nodes, k - 1);
      var old', more := EdgesUpto(nodes, k - 1), NodeEdges(nodes, nodes[k - 1].id, nodes[k - 1].links);
      NodeEdgesMeans(nodes, nodes[k - 1].id, nodes[k - 1].links);
      forall i, j | 0 <= i < |old'| && 0 <= j < |more|
        ensures old'[i] != more[j]
      {
        assert old'[i] in old' && more[j] in more;
      }
    }
  }

  lemma NodesAreGood(files: seq<AdrFile>)
    ensures GoodNodes(NodesOf(files))
  {
    hide NodesOf, LinksOf, IsId, MatchLength;
    NodesAreFiles(files);
    var nodes := NodesOf(files);
    forall i | 0 <= i < |nodes|
      ensures IsId(nodes[i].id) && Distinct(nodes[i].links)
    {
      var n := nodes[i];
      assert n in nodes;
      var last: nat :| MadeFrom(files, n, last);
      LinksMeans(files[last].content, n.id);
      FileIdIsId(files[last].name);
    }
  }

  /** A file makes the identifier its name begins with. */
  lemma FileIdMeans(name: string, id: string)
    ensures FileId(name) == Some(id) <==> MentionAt(name, id, 0)
  {
    hide MatchLength, MentionAt;
    MentionAtIs(name, id, 0);
    var n := MatchLength(name, 0);
    assert n > 0 ==> name[0..0 + n] == name[..n];
  }

  /** A node is called by its record's heading, or by its identifier when the record has none. */
  lemma TitleMeans(f: AdrFile, id: string, title: string)
    ensures TitleOf(f, id) == title <==>
            || AdrHeading.IsHeading(f.content, title)
            || (title == id && forall k: nat :: !AdrHeading.LeadsAtLine(f.content, k))
  {
    hide AdrHeading.Heading, AdrHeading.IsHeading, AdrHeading.LeadsAtLine;
    AdrHeading.HeadingExactly(f.content, title);
    AdrHeading.HeadingExactly(f.content, TitleOf(f, id));
  }

  lemma FileIdIsId(name: string)
    ensures FileId(name).Some? ==> IsId(FileId(name).value)
  {
    if MatchLength(name, 0) > 0 {
      MatchIsId(name, 0);
      assert name[0..MatchLength(name, 0)] == name[..MatchLength(name, 0)];
    }
  }

  /** There is an edge from `u` to `v` exactly when both are nodes, they differ, and the last file of `u` mentions
      `v`. No edge comes twice. */
  lemma EdgesExact(files: seq<AdrFile>, u: string, v: string)
    ensures (u, v) in Edges(NodesOf(files)) <==>
      && u != v && HasId(NodesOf(files), u) && HasId(NodesOf(files), v)
      && exists last: nat :: LastWith(files, u, last) && Mentions(files[last].content, v)
    ensures Distinct(Edges(NodesOf(files)))
  {
    hide NodesOf, LinksOf, Mentions, FileId, IndexOfId, EdgesUpto;
    var nodes := NodesOf(files);
    NodesAreGood(files);
    NodesAreFiles(files);
    EdgesUptoMeans(nodes, |nodes|);
    EdgesUptoDistinct(nodes, |nodes|);
    IndexOfIdMeans(nodes, u);
    if HasId(nodes, u) {
      var i := IndexOfId(nodes, u).value;
      assert nodes[i] in nodes;
      var last: nat :| MadeFrom(files, nodes[i], last);
      LinksMeans(files[last].content, u);
      forall other: nat | LastWith(files, u, other)
        ensures other == last
      {
      }
      forall k | 0 <= k < |nodes| && nodes[k].id == u
        ensures k == i
      {
      }
    }
  }

  // ---------------------------------------------------------------- the diagram

  lemma KeyPrefix(a: string, b: string, x: string, y: string)
    requires a + "-->" + x == b + "-->" + y && |a| <= |b| && '>' !in b
    ensures a == b && x == y
  {
    var s, at := a + "-->" + x, |a| + 2;
    assert s[at] == '>' && s[|b|] == s[|b| + 1] == '-' by { ArrowIn(a, x); ArrowIn(b, y); }
    forall i | 0 <= i < |b|
      ensures s[i] != '>'
    {
      assert s[i] == b[i];
    }
    assert |a| == |b|;
    assert s[..|a|] == a && s[..|a|] == b;
    assert s[|a| + 3..] == x && s[|a| + 3..] == y;
  }

  lemma ArrowIn(a: string, x: string)
    ensures var s := a + "-->" + x; s[|a|] == s[|a| + 1] == '-' && s[|a| + 2] == '>'
  {
  }

  lemma IdHasNoArrow(id: string)
    requires IsId(id)
    ensures '>' !in id
  {
    forall i | 0 <= i < |id|
      ensures id[i] != '>'
    {
      if i < |STEM| {
        assert id[i] == STEM[i];
        StemHasNoArrow(i);
      }
    }
  }

  lemma StemHasNoArrow(i: nat)
    requires i < |STEM|
    ensures STEM[i] != '>'
  {
  }

  /** The string under which an edge is remembered determines the edge. */
  lemma EdgeKeyInjective(e: (string, string), f: (string, string))
    requires IsId(e.0) && IsId(f.0) && EdgeKey(e) == EdgeKey(f)
    ensures e == f
  {
    IdHasNoArrow(e.0);
    IdHasNoArrow(f.0);
    if |e.0| <= |f.0| {
      KeyPrefix(e.0, f.0, e.1, f.1);
    } else {
      KeyPrefix(f.0, e.0, f.1, e.1);
    }
  }

  predicate NotBracket(c: char) {
    !(c == '"' || c == '(' || c == ')' || c == '[' || c == ']')
  }

  /** `replace(/["()[\]]/g, "")` */
  function CleanTitle(title: string): string {
    Filter(title, NotBracket)
  }

  /** The cleaned title has none of the five characters, and is the title itself when that has none. */
  lemma CleanTitleMeans(title: string)
    ensures forall c :: c in CleanTitle(title) ==> c in title && c !in "\"()[]"
    ensures (forall c :: c in title ==> c !in "\"()[]") ==> CleanTitle(title) == title
    ensures forall a, c, b :: title == a + [c] + b && c in "\"()[]" ==> CleanTitle(title) == CleanTitle(a + b)
  {
    if forall c :: c in title ==> c !in "\"()[]" {
      FilterKeeps(title, NotBracket);
    }
    forall a, c, b | title == a + [c] + b && c in "\"()[]"
      ensures CleanTitle(title) == CleanTitle(a + b)
    {
      FilterDrops(a, c, b, NotBracket);
    }
  }

  function NodeLine(n: Node): string {
    "  " + n.id + "[\"" + n.id + ": " + CleanTitle(n.title) + "\"]\n"
  }

  function NodeLines(nodes: seq<Node>): string {
    if nodes == [] then "" else NodeLines(nodes[..|nodes| - 1]) + NodeLine(nodes[|nodes| - 1])
  }

  function EdgeLine(e: (string, string)): string {
    "  " + e.0 + " --> " + e.1 + "\n"
  }

  function EdgeLines(es: seq<(string, string)>): string {
    if es == [] then "" else EdgeLines(es[..|es| - 1]) + EdgeLine(es[|es| - 1])
  }

  function Diagram(nodes: seq<Node>): string {
    "```mermaid\nflowchart LR\n" + NodeLines(nodes) + EdgeLines(Edges(nodes)) + "```\n"
  }

  ghost predicate KeysOf(edgeSet: set<string>, es: seq<(string, string)>) {
    && |edgeSet| == |es|
    && forall key :: key in edgeSet <==> exists e :: e in es && EdgeKey(e) == key
  }

  lemma NewKey(edgeSet: set<string>, es: seq<(string, string)>, e: (string, string))
    requires KeysOf(edgeSet, es) && IsId(e.0) && e !in es && forall f :: f in es ==> IsId(f.0)
    ensures EdgeKey(e) !in edgeSet && KeysOf(edgeSet + {EdgeKey(e)}, es + [e])
  {
    hide IsId, EdgeKey;
    forall f | f in es
      ensures EdgeKey(f) != EdgeKey(e)
    {
      if EdgeKey(f) == EdgeKey(e) {
        EdgeKeyInjective(f, e);
      }
    }
    forall key
      ensures key in edgeSet + {EdgeKey(e)} <==> exists f :: f in es + [e] && EdgeKey(f) == key
    {
      if key in edgeSet {
        var f :| f in es && EdgeKey(f) == key;
        assert f in es + [e];
      } else if key == EdgeKey(e) {
        assert e in es + [e];
      }
    }
  }

  lemma EdgeLinesSnoc(es: seq<(string, string)>, e: (string, string))
    ensures EdgeLines(es + [e]) == EdgeLines(es) + EdgeLine(e)
  {
    assert (es + [e])[..|es|] == es;
  }

  /** The nested loop with its set of edge keys: the diagram holds each edge once, the set never turns one away,
      and its size is the number of edges. */
  method Draw(nodes: seq<Node>) returns (mermaid: string, edgeSet: set<string>)
    requires GoodNodes(nodes)
    ensures mermaid == Diagram(nodes)
    ensures |edgeSet| == |Edges(nodes)|
  {
    hide IsId, IndexOfId, EdgeKey, EdgeLine, EdgeLines, NodeLine, KeysOf, NodeEdges;
    mermaid := "```mermaid\nflowchart LR\n";
    for k := 0 to |nodes|
      invariant mermaid == "```mermaid\nflowchart LR\n" + NodeLines(nodes[..k])
    {
      assert nodes[..k + 1][..k] == nodes[..k];
      mermaid := mermaid + NodeLine(nodes[k]);
    }
    assert nodes[..|nodes|] == nodes;
    ghost var top := mermaid;
    edgeSet := {};
    NoEdgesYet();
    assert mermaid == top + EdgeLines([]);
    for i := 0 to |nodes|
      invariant KeysOf(edgeSet, EdgesUpto(nodes, i))
      invariant mermaid == top + EdgeLines(EdgesUpto(nodes, i))
    {
      var id, links := nodes[i].id, nodes[i].links;
      ghost var done := EdgesUpto(nodes, i);
      EdgesUptoMeans(nodes, i);
      NoLinksYet(nodes, id);
      assert done + [] == done && links[..0] == [];
      for j := 0 to |links|
        invariant KeysOf(edgeSet, done + NodeEdges(nodes, id, links[..j]))
        invariant mermaid == top + EdgeLines(done + NodeEdges(nodes, id, links[..j]))
      {
        var target := links[j];
        ghost var soFar := done + NodeEdges(nodes, id, links[..j]);
        NextLink(nodes, i, j);
        if HasId(nodes, target) {
          var edgeKey := EdgeKey((id, target));
          NewKey(edgeSet, soFar, (id, target));
          EdgeLinesSnoc(soFar, (id, target));
          assert done + (NodeEdges(nodes, id, links[..j]) + [(id, target)]) == soFar + [(id, target)];
          if edgeKey !in edgeSet {
            edgeSet := edgeSet + {edgeKey};
            mermaid := mermaid + EdgeLine((id, target));
          }
        } else {
          assert NodeEdges(nodes, id, links[..j]) + [] == NodeEdges(nodes, id, links[..j]);
        }
      }
      assert links[..|links|] == links;
    }
    SizeOfKeys(edgeSet, Edges(nodes));
    mermaid := mermaid + "```\n";
  }

  lemma SizeOfKeys(edgeSet: set<string>, es: seq<(string, string)>)
    requires KeysOf(edgeSet, es)
    ensures |edgeSet| == |es|
  {
  }

  lemma NoEdgesYet()
    ensures KeysOf({}, []) && EdgeLines([]) == ""
  {
  }

  lemma NoLinksYet(nodes: seq<Node>, id: string)
    ensures NodeEdges(nodes, id, []) == []
  {
  }

  /** One more link: at most one more edge, and it is new. */
  lemma NextLink(nodes: seq<Node>, i: nat, j: nat)
    requires GoodNodes(nodes) && i < |nodes| && j < |nodes[i].links|
    ensures var id, links := nodes[i].id, nodes[i].links;
            var es := NodeEdges(nodes, id, links[..j]);
            && NodeEdges(nodes, id, links[..j + 1]) == es + (if HasId(nodes, links[j]) then [(id, links[j])] else [])
            && IsId(id) && (id, links[j]) !in EdgesUpto(nodes, i) + es
            && forall f :: f in EdgesUpto(nodes, i) + es ==> IsId(f.0)
  {
    hide IsId, HasId;
    var id, links := nodes[i].id, nodes[i].links;
    assert links[..j + 1][..j] == links[..j];
    EdgesUptoMeans(nodes, i);
    NodeEdgesMeans(nodes, id, links[..j]);
    assert links[j] !in links[..j];
  }

  // ---------------------------------------------------------------- when the diagram is safe to splice

  /** Neither a dollar nor `##`, and no `#` at either edge. */
  ghost predicate Safe(s: string) {
    Clean(s) && (s != "" ==> s[0] != '#' && s[|s| - 1] != '#')
  }

  lemma SafeAppend(a: string, b: string)
    requires Safe(a) && Safe(b)
    ensures Safe(a + b)
  {
    var s := a + b;
    forall i: nat
      ensures !OccursAt(s, MARK, i)
    {
      MarkAt(s, i);
      if i + 2 <= |a| {
        MarkAt(a, i);
        assert !OccursAt(a, MARK, i);
      } else if |a| <= i && i + 2 <= |s| {
        MarkAt(b, i - |a|);
        assert !OccursAt(b, MARK, i - |a|);
      }
    }
  }

  /** Between a text that does not end and one that does not start with `#`, a clean title stays clean. */
  lemma SafeAround(a: string, title: string, b: string)
    requires Safe(a) && Safe(b) && a != "" && b != "" && Clean(title)
    ensures Safe(a + title + b)
  {
    var s := a + title + b;
    forall i: nat
      ensures !OccursAt(s, MARK, i)
    {
      MarkAt(s, i);
      if i + 2 <= |a| {
        MarkAt(a, i);
        assert !OccursAt(a, MARK, i);
      } else if |a| <= i && i + 2 <= |a| + |title| {
        MarkAt(title, i - |a|);
        assert !OccursAt(title, MARK, i - |a|);
      } else if |a| + |title| <= i && i + 2 <= |s| {
        MarkAt(b, i - |a| - |title|);
        assert !OccursAt(b, MARK, i - |a| - |title|);
      }
    }
  }

  lemma NoHashIsSafe(s: string)
    requires '#' !in s && '$' !in s
    ensures Safe(s)
  {
    forall i: nat
      ensures !OccursAt(s, MARK, i)
    {
      MarkAt(s, i);
    }
  }

  lemma IdIsPlain(id: string)
    requires IsId(id)
    ensures '#' !in id && '$' !in id
  {
    forall i | 0 <= i < |id|
      ensures id[i] != '#' && id[i] != '$'
    {
      if i < |STEM| {
        assert id[i] == STEM[i];
        StemIsPlain(i);
      }
    }
  }

  lemma StemIsPlain(i: nat)
    requires i < |STEM|
    ensures STEM[i] != '#' && STEM[i] != '$'
  {
  }

  lemma NodeLineSafe(n: Node)
    requires IsId(n.id) && Clean(CleanTitle(n.title))
    ensures Safe(NodeLine(n))
  {
    IdIsPlain(n.id);
    var front := "  " + n.id + "[\"" + n.id + ": ";
    NoHashIsSafe(front);
    NoHashIsSafe("\"]\n");
    SafeAround(front, CleanTitle(n.title), "\"]\n");
  }

  lemma {:induction false} NodeLinesSafe(nodes: seq<Node>)
    requires forall i :: 0 <= i < |nodes| ==> IsId(nodes[i].id) && Clean(CleanTitle(nodes[i].title))
    ensures Safe(NodeLines(nodes))
  {
    hide Clean, Safe, IsId, NodeLine;
    if nodes == [] {
      NoHashIsSafe("");
    } else {
      NodeLinesSafe(nodes[..|nodes| - 1]);
      NodeLineSafe(nodes[|nodes| - 1]);
      SafeAppend(NodeLines(nodes[..|nodes| - 1]), NodeLine(nodes[|nodes| - 1]));
    }
  }

  lemma {:induction false} EdgeLinesSafe(es: seq<(string, string)>)
    requires forall e :: e in es ==> IsId(e.0) && IsId(e.1)
    ensures Safe(EdgeLines(es))
  {
    hide Clean, Safe, IsId;
    if es == [] {
      NoHashIsSafe("");
    } else {
      var e := es[|es| - 1];
      assert e in es;
      EdgeLinesSafe(es[..|es| - 1]);
      IdIsPlain(e.0);
      IdIsPlain(e.1);
      NoHashIsSafe(EdgeLine(e));
      SafeAppend(EdgeLines(es[..|es| - 1]), EdgeLine(e));
    }
  }

  lemma EdgeEndsAreIds(nodes: seq<Node>)
    requires GoodNodes(nodes)
    ensures forall e :: e in Edges(nodes) ==> IsId(e.0) && IsId(e.1)
  {
    hide IsId;
    EdgesUptoMeans(nodes, |nodes|);
    forall e | e in Edges(nodes)
      ensures IsId(e.0) && IsId(e.1)
    {
      IndexOfIdMeans(nodes, e.1);
    }
  }

  lemma DiagramSafe(nodes: seq<Node>)
    requires GoodNodes(nodes) && forall i :: 0 <= i < |nodes| ==> Clean(CleanTitle(nodes[i].title))
    ensures Clean(Diagram(nodes))
  {
    hide Clean, IsId, NodeLines, EdgeLines, Edges;
    NodeLinesSafe(nodes);
    EdgeEndsAreIds(nodes);
    EdgeLinesSafe(Edges(nodes));
    var top, end := "```mermaid\nflowchart LR\n", "```\n";
    NoHashIsSafe(top);
    NoHashIsSafe(end);
    SafeAppend(top, NodeLines(nodes));
    SafeAppend(top + NodeLines(nodes), EdgeLines(Edges(nodes)));
    SafeAppend(top + NodeLines(nodes) + EdgeLines(Edges(nodes)), end);
  }

  lemma {:induction false} TitleInLines(nodes: seq<Node>, k: nat) returns (left: string, right: string)
    requires k < |nodes|
    ensures NodeLines(nodes) == left + CleanTitle(nodes[k].title) + right
  {
    var n := |nodes| - 1;
    if k == n {
      left := NodeLines(nodes[..n]) + ("  " + nodes[n].id + "[\"" + nodes[n].id + ": ");
      right := "\"]\n";
    } else {
      left, right := TitleInLines(nodes[..n], k);
      right := right + NodeLine(nodes[n]);
    }
  }

  /** The diagram is clean exactly when every title, its brackets and quotes dropped, is. */
  lemma DiagramCleanExactly(nodes: seq<Node>)
    requires GoodNodes(nodes)
    ensures Clean(Diagram(nodes)) <==> forall i :: 0 <= i < |nodes| ==> Clean(CleanTitle(nodes[i].title))
  {
    if forall i :: 0 <= i < |nodes| ==> Clean(CleanTitle(nodes[i].title)) {
      DiagramSafe(nodes);
    } else {
      var k :| 0 <= k < |nodes| && !Clean(CleanTitle(nodes[k].title));
      DirtyTitle(nodes, k);
    }
  }

  lemma DirtyTitle(nodes: seq<Node>, k: nat)
    requires k < |nodes| && !Clean(CleanTitle(nodes[k].title))
    ensures !Clean(Diagram(nodes))
  {
    hide NodeLines, EdgeLines, Edges, Contains;
    var left, right := TitleInLines(nodes, k);
    var title := CleanTitle(nodes[k].title);
    var before, behind := "```mermaid\nflowchart LR\n" + left, right + EdgeLines(Edges(nodes)) + "```\n";
    assert Diagram(nodes) == before + title + behind;
    if '$' in title {
      var i :| 0 <= i < |title| && title[i] == '$';
      assert Diagram(nodes)[|before| + i] == '$';
    } else {
      ContainsPart(Diagram(nodes), before, title, behind);
    }
  }

  // ---------------------------------------------------------------- dollars

  lemma {:induction false} NodeLinesDollars(nodes: seq<Node>)
    requires forall i :: 0 <= i < |nodes| ==> IsId(nodes[i].id) && '$' !in CleanTitle(nodes[i].title)
    ensures '$' !in NodeLines(nodes)
  {
    hide IsId, CleanTitle, NodeLine;
    if nodes != [] {
      NodeLinesDollars(nodes[..|nodes| - 1]);
      NodeLineDollars(nodes[|nodes| - 1]);
    }
  }

  lemma NodeLineDollars(n: Node)
    requires IsId(n.id) && '$' !in CleanTitle(n.title)
    ensures '$' !in NodeLine(n)
  {
    hide IsId, CleanTitle;
    IdIsPlain(n.id);
  }

  lemma DiagramDollars(nodes: seq<Node>)
    requires GoodNodes(nodes) && forall i :: 0 <= i < |nodes| ==> '$' !in CleanTitle(nodes[i].title)
    ensures '$' !in Diagram(nodes)
  {
    hide Contains, IsId, NodeLines, EdgeLines, Edges, CleanTitle;
    NodeLinesDollars(nodes);
    EdgeEndsAreIds(nodes);
    EdgeLinesSafe(Edges(nodes));
  }

  // ---------------------------------------------------------------- the whole run

  predicate IsRecord(f: AdrFile) {
    EndsWith(f.name, ".md") && f.name != "README.md"
  }

  function Records(files: seq<AdrFile>): seq<AdrFile> {
    Filter(files, IsRecord)
  }

  /** The records are the `.md` files but the README. */
  lemma RecordsMean(files: seq<AdrFile>, f: AdrFile)
    ensures f in Records(files) <==> f in files && f.name != "README.md" && exists stem :: f.name == stem + ".md"
  {
    EndsWithMeans(f.name, ".md");
  }

  /** `linkAdr` on a directory and its README: the text written back, if there is one to write to, and the two counts
      it then reports. */
  method LinkAdr(files: seq<AdrFile>, readme: Option<string>)
      returns (written: Option<string>, nodeCount: nat, edgeCount: nat)
    ensures var nodes := NodesOf(Records(files));
            && written == (if readme.Some? then Some(Splice(readme.value, Diagram(nodes))) else None)
            && nodeCount == |nodes| && edgeCount == |Edges(nodes)|
  {
    hide Diagram, Splice, Edges;
    var nodes := CollectNodes(Records(files));
    NodesAreGood(Records(files));
    var mermaid, edgeSet := Draw(nodes);
    nodeCount, edgeCount := |nodes|, |edgeSet|;
    written := None;
    if readme.Some? {
      var text := UpdateReadme(readme.value, mermaid);
      written := Some(text);
    }
  }

  /** Running the linker again on the same records: with clean titles the README is a fixed point from the first run
      on if it had the section, and from the second run on if it had not. */
  lemma RunsSettle(files: seq<AdrFile>, readme: string)
    requires forall i :: 0 <= i < |NodesOf(files)| ==> Clean(CleanTitle(NodesOf(files)[i].title))
    ensures var d := Diagram(NodesOf(files)); var r1 := Splice(readme, d); var r2 := Splice(r1, d);
            (HasSection(readme) ==> r2 == r1) && Splice(r2, d) == r2
  {
    hide NodesOf, Diagram, Splice, Clean;
    NodesAreGood(files);
    DiagramCleanExactly(NodesOf(files));
    var d := Diagram(NodesOf(files));
    if HasSection(readme) {
      CleanSplice(readme, d);
    } else {
      CleanAppend(readme, d);
    }
  }

  /** For titles without a dollar, exactly when the README settles: when no title, its brackets and quotes dropped,
      holds a `##`. Otherwise it grows. */
  lemma RunsSettleExactly(files: seq<AdrFile>, readme: string)
    requires forall i :: 0 <= i < |NodesOf(files)| ==> '$' !in CleanTitle(NodesOf(files)[i].title)
    ensures var d := Diagram(NodesOf(files)); var r1 := Splice(readme, d); var r2 := Splice(r1, d);
            var clean := forall i :: 0 <= i < |NodesOf(files)| ==> Clean(CleanTitle(NodesOf(files)[i].title));
            && (HasSection(readme) ==> (r2 == r1 <==> clean))
            && (Splice(r2, d) == r2 <==> clean)
  {
    hide NodesOf, Diagram, Splice, Contains, HasSection, CleanTitle;
    NodesAreGood(files);
    var nodes := NodesOf(files);
    var d := Diagram(nodes);
    DiagramCleanExactly(nodes);
    DiagramDollars(nodes);
    SectionAfter(readme, d);
    if HasSection(readme) {
      SettlesExactly(readme, d);
    }
    SettlesExactly(Splice(readme, d), d);
  }
}
