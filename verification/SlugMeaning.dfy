/** What the two slug pipelines make of a text, on its characters: which are kept, which become a dash, which go. */
module SlugMeaning {
  import opened Text
  import opened Slug

  // ---------------------------------------------------------------- lower case

  /** The two characters outside ASCII whose lower case holds an ASCII letter. */
  ghost predicate IsOdd(c: char) {
    c == '\U{212A}' || c == '\U{130}'
  }

  lemma {:induction false} LowerAppend(a: string, b: string)
    ensures Lower(a + b) == Lower(a) + Lower(b)
  {
    hide LowerChar;
    if a == "" {
      assert a + b == b;
    } else {
      assert (a + b)[1..] == a[1..] + b;
      LowerAppend(a[1..], b);
    }
  }

  /** Lowering leaves no capital and changes nothing but the case. */
  lemma {:induction false} LowerMeans(s: string)
    requires forall c :: c in s ==> !IsOdd(c)
    ensures |Lower(s)| == |s| && Upper(Lower(s)) == Upper(s)
    ensures forall c :: c in Lower(s) ==> !('A' <= c <= 'Z')
  {
    if s != "" {
      assert s[0] in s;
      LowerMeans(s[1..]);
      var head := LowerChar(s[0]);
      assert (head + Lower(s[1..]))[1..] == Lower(s[1..]);
    }
  }

  lemma OddLower()
    ensures Lower("\U{212A}") == "k" && Lower("\U{130}") == "i\U{307}"
  {
    assert "\U{212A}"[1..] == "" && "\U{130}"[1..] == "";
  }

  lemma {:induction false} LowerStays(s: string)
    requires forall c :: c in s ==> !('A' <= c <= 'Z') && !IsOdd(c)
    ensures Lower(s) == s
  {
    if s != "" {
      assert s[0] in s && forall c :: c in s[1..] ==> c in s;
      LowerStays(s[1..]);
    }
  }

  lemma {:induction false} LowerTwice(s: string)
    ensures Lower(Lower(s)) == Lower(s)
  {
    if s != "" {
      LowerTwice(s[1..]);
      LowerAppend(LowerChar(s[0]), Lower(s[1..]));
      LowerStays(LowerChar(s[0]));
    }
  }

  /** Neither pipeline looks at the case of a letter. */
  lemma CaseIsIgnored(s: string)
    ensures Anchor(Lower(s)) == Anchor(s) && Slugify(Lower(s)) == Slugify(s)
  {
    hide Lower;
    LowerTwice(s);
  }

  // ---------------------------------------------------------------- heading anchors

  /** `[a-z0-9_]` */
  ghost predicate IsWordChar(c: char) {
    'a' <= c <= 'z' || '0' <= c <= '9' || c == '_'
  }

  lemma {:induction false} SqueezeAppend(a: string, b: string, p: char -> bool, inRun: bool)
    ensures Squeeze(a + b, p, inRun) ==
            Squeeze(a, p, inRun) + Squeeze(b, p, if a == "" then inRun else p(a[|a| - 1]))
  {
    if a == "" {
      assert a + b == b;
    } else {
      assert (a + b)[1..] == a[1..] + b;
      SqueezeAppend(a[1..], b, p, p(a[0]));
    }
  }

  lemma {:induction false} SqueezeRun(s: string, p: char -> bool, inRun: bool)
    requires forall c :: c in s ==> p(c)
    ensures Squeeze(s, p, inRun) == if inRun || s == "" then "" else "-"
  {
    if s != "" {
      assert s[0] in s;
      SqueezeRun(s[1..], p, true);
    }
  }

  ghost function Kept(s: string): string {
    Filter(Lower(s), IsAnchorChar)
  }

  lemma KeptAppend(a: string, b: string)
    ensures Kept(a + b) == Kept(a) + Kept(b)
  {
    hide Lower, Filter;
    LowerAppend(a, b);
    FilterAppend(Lower(a), Lower(b), IsAnchorChar);
  }

  lemma KeptStays(s: string)
    requires forall c :: c in s ==> IsWordChar(c) || IsSpace(c) || c == '-'
    ensures Kept(s) == s
  {
    hide Lower, Filter;
    SpacesAreLow();
    LowerStays(s);
    FilterKeeps(s, IsAnchorChar);
  }

  lemma SpacesAreLow()
    ensures forall c :: IsSpace(c) ==> !('A' <= c <= 'Z') && !IsOdd(c) && !IsWordChar(c)
  {
  }

  /** A word is its own anchor. */
  lemma AnchorOfWord(w: string)
    requires forall c :: c in w ==> IsWordChar(c)
    ensures Anchor(w) == w
  {
    hide Anchor, Squeeze, Lower, Filter, IsSpace;
    SpacesAreLow();
    AnchorIsSinglePass(w);
    KeptStays(w);
    assert forall i :: 0 <= i < |w| ==> w[i] in w;
    SqueezeFixed(w, false);
  }

  /** White space and dashes in a row become one dash, between words and at either edge. */
  lemma AnchorJoins(a: string, gap: string, b: string)
    requires a == "" || IsWordChar(a[|a| - 1])
    requires gap != "" && forall c :: c in gap ==> IsSpace(c) || c == '-'
    requires b == "" || IsWordChar(b[0])
    ensures Anchor(a + gap + b) == Anchor(a) + "-" + Anchor(b)
  {
    hide Anchor, Squeeze, Kept, Lower, Filter, IsSpace;
    AnchorIsKept(a + gap + b);
    AnchorIsKept(a);
    AnchorIsKept(b);
    KeptAppend(a + gap, b);
    KeptAppend(a, gap);
    KeptStays(gap);
    KeptStays("");
    if a != "" {
      LastKept(a);
    }
    if b != "" {
      FirstKept(b);
    }
    SqueezeThree(Kept(a), gap, Kept(b));
  }

  lemma AnchorIsKept(s: string)
    ensures Anchor(s) == Squeeze(Kept(s), IsSpaceOrDash, false)
  {
    hide Anchor, Squeeze, Lower, Filter;
    AnchorIsSinglePass(s);
  }

  lemma LastKept(a: string)
    requires a != "" && IsWordChar(a[|a| - 1])
    ensures Kept(a) != "" && !IsSpaceOrDash(Kept(a)[|Kept(a)| - 1])
  {
    hide Lower, Filter, IsSpace, Kept;
    SpacesAreLow();
    var n := |a| - 1;
    KeptAppend(a[..n], [a[n]]);
    KeptStays([a[n]]);
    assert a == a[..n] + [a[n]];
  }

  lemma FirstKept(b: string)
    requires b != "" && IsWordChar(b[0])
    ensures Kept(b) != "" && !IsSpaceOrDash(Kept(b)[0])
  {
    hide Lower, Filter, IsSpace, Kept;
    SpacesAreLow();
    KeptAppend([b[0]], b[1..]);
    KeptStays([b[0]]);
    assert b == [b[0]] + b[1..];
  }

  lemma SqueezeThree(a: string, gap: string, b: string)
    requires a == "" || !IsSpaceOrDash(a[|a| - 1])
    requires gap != "" && forall c :: c in gap ==> IsSpaceOrDash(c)
    requires b == "" || !IsSpaceOrDash(b[0])
    ensures Squeeze(a + gap + b, IsSpaceOrDash, false) ==
            Squeeze(a, IsSpaceOrDash, false) + "-" + Squeeze(b, IsSpaceOrDash, false)
  {
    hide IsSpaceOrDash;
    SqueezeAppend(a + gap, b, IsSpaceOrDash, false);
    SqueezeAppend(a, gap, IsSpaceOrDash, false);
    SqueezeRun(gap, IsSpaceOrDash, false);
    assert gap[|gap| - 1] in gap;
  }

  /** Every other character goes, wherever it stands. */
  lemma AnchorDrops(a: string, c: char, b: string)
    requires !IsWordChar(c) && !('A' <= c <= 'Z') && !IsSpace(c) && c != '-' && !IsOdd(c)
    ensures Anchor(a + [c] + b) == Anchor(a + b)
  {
    hide Anchor, Squeeze, Lower, Filter, IsSpace;
    AnchorIsSinglePass(a + [c] + b);
    AnchorIsSinglePass(a + b);
    LowerAppend(a + [c], b);
    LowerAppend(a, [c]);
    LowerAppend(a, b);
    LowerStays([c]);
    FilterDrops(Lower(a), c, Lower(b), IsAnchorChar);
  }

  // ---------------------------------------------------------------- file slugs

  /** `[a-z0-9]` */
  ghost predicate IsSlugLetter(c: char) {
    'a' <= c <= 'z' || '0' <= c <= '9'
  }

  lemma {:induction false} WordsCut(a: string, c: char, b: string)
    requires !IsLowerAlnum(c)
    ensures Words(a + [c] + b) == Words(a) + Words(b)
    decreases |a|
  {
    hide IsLowerAlnum, Span, Words;
    if a == "" {
      NoWords();
      SkipOne([c] + b);
      assert ([c] + b)[1..] == b && "" + [c] + b == [c] + b;
      assert [] + Words(b) == Words(b);
    } else if IsLowerAlnum(a[0]) {
      var n := Span(a, IsLowerAlnum);
      SpanStarts(a, IsLowerAlnum);
      WordsCut(a[n..], c, b);
      WordStaysFirst(a, [c] + b);
      assert a + ([c] + b) == a + [c] + b && a[n..] + ([c] + b) == a[n..] + [c] + b;
      assert [a[..n]] + (Words(a[n..]) + Words(b)) == [a[..n]] + Words(a[n..]) + Words(b);
    } else {
      WordsCut(a[1..], c, b);
      SkipOne(a);
      SkipOne(a + [c] + b);
      assert (a + [c] + b)[1..] == a[1..] + [c] + b;
    }
  }

  lemma SkipOne(s: string)
    requires s != "" && !IsLowerAlnum(s[0])
    ensures Words(s) == Words(s[1..])
  {
  }

  /** The first word of a text stays it when what is added starts with no word character. */
  lemma WordStaysFirst(a: string, tail: string)
    requires a != "" && IsLowerAlnum(a[0]) && tail != "" && !IsLowerAlnum(tail[0])
    ensures var n := Span(a, IsLowerAlnum);
            Words(a) == [a[..n]] + Words(a[n..]) && Words(a + tail) == [a[..n]] + Words(a[n..] + tail)
  {
    hide IsLowerAlnum;
    var s, n := a + tail, Span(a, IsLowerAlnum);
    assert forall i :: 0 <= i < |a| ==> s[i] == a[i];
    SpanOf(s, IsLowerAlnum, n);
    assert s[..n] == a[..n] && s[n..] == a[n..] + tail;
  }

  lemma SpanStarts(s: string, p: char -> bool)
    requires s != "" && p(s[0])
    ensures Span(s, p) > 0
  {
  }

  lemma {:induction false} JoinTwo(ws: seq<string>, vs: seq<string>)
    ensures Join(ws + vs, "-") ==
            if ws == [] then Join(vs, "-") else if vs == [] then Join(ws, "-") else Join(ws, "-") + "-" + Join(vs, "-")
  {
    if ws == [] {
      assert ws + vs == vs;
    } else if vs == [] {
      assert ws + vs == ws;
    } else {
      assert (ws + vs)[1..] == ws[1..] + vs;
      JoinTwo(ws[1..], vs);
    }
  }

  /** A word is its own slug. */
  lemma SlugOfWord(w: string)
    requires forall c :: c in w ==> IsSlugLetter(c)
    ensures Slugify(w) == w
  {
    hide Slugify, Lower, Words;
    SlugifyIsWords(w);
    LowerStays(w);
    if w == "" {
      NoWords();
    } else {
      WordThenRest(w, "");
      NoWords();
      assert w + "" == w;
    }
  }

  /** Any other character parts two slugs: one dash between them, none when one side has nothing to show. */
  lemma SlugParts(a: string, c: char, b: string)
    requires !IsSlugLetter(c) && !('A' <= c <= 'Z') && !IsOdd(c)
    ensures Slugify(a + [c] + b) ==
            if Slugify(a) == "" then Slugify(b)
            else if Slugify(b) == "" then Slugify(a)
            else Slugify(a) + "-" + Slugify(b)
  {
    hide Slugify, Lower, Words, Join;
    SlugifyIsWords(a + [c] + b);
    SlugifyIsWords(a);
    SlugifyIsWords(b);
    LowerAppend(a + [c], b);
    LowerAppend(a, [c]);
    LowerStays([c]);
    WordsCut(Lower(a), c, Lower(b));
    JoinTwo(Words(Lower(a)), Words(Lower(b)));
    NothingShown(Lower(a));
    NothingShown(Lower(b));
  }

  lemma NothingShown(s: string)
    ensures Join(Words(s), "-") == "" <==> Words(s) == []
  {
    hide Words, Join;
    NoWords();
    if Words(s) != [] {
      JoinEdges(Words(s));
    }
  }
}
