/** The escaping of fenced code: three global replacements, one after the other. */
module CodeEscape {

  function ReplaceChar(s: string, c: char, sub: string): string {
    if s == "" then "" else (if s[0] == c then sub else [s[0]]) + ReplaceChar(s[1..], c, sub)
  }

  /** The chain of build-blog.js: `&` first, then `<`, then `>`. */
  function Escape(s: string): string {
    ReplaceChar(ReplaceChar(ReplaceChar(s, '&', "&amp;"), '<', "&lt;"), '>', "&gt;")
  }

  function Entity(c: char): string {
    match c
    case '&' => "&amp;"
    case '<' => "&lt;"
    case '>' => "&gt;"
    case _ => [c]
  }

  /** The simple form: each character on its own, in one pass. */
  function EscapeOnePass(s: string): string {
    if s == "" then "" else Entity(s[0]) + EscapeOnePass(s[1..])
  }

  /** One left-to-right pass that reads the three entities back. */
  function Unescape(s: string): string {
    if s == "" then ""
    else if "&amp;" <= s then "&" + Unescape(s[5..])
    else if "&lt;" <= s then "<" + Unescape(s[4..])
    else if "&gt;" <= s then ">" + Unescape(s[4..])
    else [s[0]] + Unescape(s[1..])
  }

  lemma {:induction false} ReplaceAppend(a: string, b: string, c: char, sub: string)
    ensures ReplaceChar(a + b, c, sub) == ReplaceChar(a, c, sub) + ReplaceChar(b, c, sub)
  {
    if a == "" {
      assert a + b == b;
    } else {
      assert (a + b)[1..] == a[1..] + b;
      ReplaceAppend(a[1..], b, c, sub);
    }
  }

  lemma {:induction false} ReplaceAbsent(s: string, c: char, sub: string)
    requires c !in s
    ensures ReplaceChar(s, c, sub) == s
  {
    if s != "" {
      ReplaceAbsent(s[1..], c, sub);
    }
  }

  /** No replacement ever sees the output of a later one, so the chain is a per-character map. */
  lemma {:induction false} EscapeIsOnePass(s: string)
    ensures Escape(s) == EscapeOnePass(s)
  {
    if s != "" {
      EscapeIsOnePass(s[1..]);
      var head := if s[0] == '&' then "&amp;" else [s[0]];
      var amped := ReplaceChar(s[1..], '&', "&amp;");
      ReplaceAppend(head, amped, '<', "&lt;");
      var head' := if s[0] == '<' then "&lt;" else head;
      ReplaceHead(head, '<', "&lt;");
      var lessed := ReplaceChar(amped, '<', "&lt;");
      ReplaceAppend(head', lessed, '>', "&gt;");
      ReplaceHead(head', '>', "&gt;");
    }
  }

  lemma ReplaceHead(head: string, c: char, sub: string)
    requires c !in head || head == [c]
    ensures ReplaceChar(head, c, sub) == if head == [c] then sub else head
  {
    if c !in head {
      ReplaceAbsent(head, c, sub);
    } else {
      assert ReplaceChar(head[1..], c, sub) == "";
    }
  }

  /** Escaped code cannot open or close a tag. */
  lemma {:induction false} EscapeHidesTags(s: string)
    ensures '<' !in Escape(s) && '>' !in Escape(s)
  {
    EscapeIsOnePass(s);
    if s != "" {
      EscapeHidesTags(s[1..]);
      EscapeIsOnePass(s[1..]);
    }
  }

  /** Nothing is lost: reading the entities back gives the code that was escaped. */
  lemma {:induction false} UnescapeEscape(s: string)
    ensures Unescape(Escape(s)) == s
  {
    EscapeIsOnePass(s);
    if s != "" {
      UnescapeEscape(s[1..]);
      EscapeIsOnePass(s[1..]);
      var e, rest := Entity(s[0]), EscapeOnePass(s[1..]);
      assert (e + rest)[|e|..] == rest;
      assert (e + rest)[..|e|] == e;
      if s[0] == '&' || s[0] == '<' || s[0] == '>' {
        assert (e + rest)[1] == e[1];
      } else {
        assert (e + rest)[0] == s[0] != '&';
      }
    }
  }
}
