/** The display transforms that components/AgentChat.tsx applies to an
    assistant answer before it is rendered as HTML: `escapeHtml`,
    `linksToHtml` and `stripSourcesFooter`. */
module ChatDisplay {
  import opened Wrappers
  import opened Text
  import ChatCleanup

  /** The characters that `escapeHtml` leaves no raw copy of. */
  predicate IsMarkup(c: char) {
    c == '<' || c == '>' || c == '"' || c == '\''
  }

  predicate NoMarkup(s: string) {
    forall i :: 0 <= i < |s| ==> !IsMarkup(s[i])
  }

  /** The entity map `htmlMap`; every other character stands for itself. */
  function Entity(c: char): string {
    match c
    case '&' => "&amp;"
    case '<' => "&lt;"
    case '>' => "&gt;"
    case '"' => "&quot;"
    case '\'' => "&#39;"
    case _ => [c]
  }

  /** `escapeHtml`: every character replaced by its entity. */
  function EscapeHtml(s: string): (r: string)
    ensures NoMarkup(r)
    ensures |r| >= |s|
  {
    if s == [] then []
    else Entity(s[0]) + EscapeHtml(s[1..])
  }

  lemma {:induction false} EscapeAppend(a: string, b: string)
    ensures EscapeHtml(a + b) == EscapeHtml(a) + EscapeHtml(b)
    decreases |a|
  {
    if a == [] {
      assert a + b == b;
    } else {
      assert (a + b)[0] == a[0] && (a + b)[1..] == a[1..] + b;
      EscapeAppend(a[1..], b);
    }
  }

  /** Text with none of `& < > " '` is left exactly as it is. */
  lemma {:induction false} EscapePlain(s: string)
    requires forall i :: 0 <= i < |s| ==> s[i] != '&' && !IsMarkup(s[i])
    ensures EscapeHtml(s) == s
    decreases |s|
  {
    if s != [] { EscapePlain(s[1..]); }
  }

  /** Escaping never introduces a `[`, so it cannot create a link span. */
  lemma {:induction false} EscapeNoBracket(s: string)
    requires '[' !in s
    ensures '[' !in EscapeHtml(s)
    decreases |s|
  {
    if s != [] { EscapeNoBracket(s[1..]); }
  }

  /** The character an entity (or a plain character) at the start of `t`
      stands for, and how many characters it takes. */
  function DecodeFirst(t: string): (r: (char, nat))
    requires t != []
    ensures 1 <= r.1 <= |t|
  {
    if |t| >= 5 && t[..5] == "&amp;" then ('&', 5)
    else if |t| >= 4 && t[..4] == "&lt;" then ('<', 4)
    else if |t| >= 4 && t[..4] == "&gt;" then ('>', 4)
    else if |t| >= 6 && t[..6] == "&quot;" then ('"', 6)
    else if |t| >= 5 && t[..5] == "&#39;" then ('\'', 5)
    else (t[0], 1)
  }

  /** Decoding the five entities; the inverse of `EscapeHtml`. */
  function Unescape(t: string): string
    decreases |t|
  {
    if t == [] then []
    else
      var (c, n) := DecodeFirst(t);
      [c] + Unescape(t[n..])
  }

  /** Decoding reads back the entity of one character. */
  lemma DecodeEntity(c: char, rest: string)
    ensures DecodeFirst(Entity(c) + rest) == (c, |Entity(c)|)
  {
    var t := Entity(c) + rest;
    if c == '&' {
      assert t[..5] == "&amp;";
    } else if c == '<' {
      assert t[1] == 'l' && t[..4] == "&lt;";
    } else if c == '>' {
      assert t[1] == 'g' && t[..4] == "&gt;";
    } else if c == '"' {
      assert t[1] == 'q' && t[..6] == "&quot;";
    } else if c == '\'' {
      assert t[1] == '#' && t[..5] == "&#39;";
    } else {
      assert t[0] == c;
    }
  }

  /** Escaping loses nothing: decoding the entities gives the text back. */
  lemma {:induction false} UnescapeEscape(s: string)
    ensures Unescape(EscapeHtml(s)) == s
    decreases |s|
  {
    if s != [] {
      UnescapeEscape(s[1..]);
      var e, rest := Entity(s[0]), EscapeHtml(s[1..]);
      DecodeEntity(s[0], rest);
      assert (e + rest)[|e|..] == rest;
      assert s == [s[0]] + s[1..];
    }
  }

  // ---- linksToHtml ---------------------------------------------------------

  /** One token of the link rewriter: a character copied as is, or a matched
      `[caption](url)` span. */
  datatype Piece = Plain(c: char) | Link(caption: string, url: string)

  /** A span the link pattern accepts: a non-empty caption without `]`, an
      `http://` or `https://` URL with at least one more character and no
      whitespace or `)`. */
  predicate LinkShape(caption: string, url: string) {
    && caption != [] && ']' !in caption
    && (forall k :: 0 <= k < |url| ==> !IsSpace(url[k]) && url[k] != ')')
    && ((|url| > 7 && url[..7] == "http://") || (|url| > 8 && url[..8] == "https://"))
  }

  /** The first index at or after `i` holding `]`, or `|t|`. */
  function CloseBracket(t: string, i: nat): (j: nat)
    requires i <= |t|
    ensures i <= j <= |t|
    ensures forall k :: i <= k < j ==> t[k] != ']'
    ensures j < |t| ==> t[j] == ']'
    decreases |t| - i
  {
    if i == |t| || t[i] == ']' then i else CloseBracket(t, i + 1)
  }

  /** The first index at or after `i` holding whitespace or `)`, or `|t|`. */
  function UrlEnd(t: string, i: nat): (j: nat)
    requires i <= |t|
    ensures i <= j <= |t|
    ensures forall k :: i <= k < j ==> !IsSpace(t[k]) && t[k] != ')'
    ensures j < |t| ==> IsSpace(t[j]) || t[j] == ')'
    decreases |t| - i
  {
    if i == |t| || IsSpace(t[i]) || t[i] == ')' then i else UrlEnd(t, i + 1)
  }

  /** Length of the `https?://` scheme at `u`, or 0 when there is none. */
  function SchemeLength(t: string, u: nat): (n: nat)
    requires u <= |t|
    ensures n == 0 || n == 7 || n == 8
    ensures n == 7 ==> u + 7 <= |t| && t[u..u + 7] == "http://"
    ensures n == 8 ==> u + 8 <= |t| && t[u..u + 8] == "https://"
  {
    if u + 8 <= |t| && t[u..u + 8] == "https://" then 8
    else if u + 7 <= |t| && t[u..u + 7] == "http://" then 7
    else 0
  }

  datatype LinkMatch = LinkMatch(caption: string, url: string, end: nat)

  /** The pattern `\[([^\]]+)\]\((https?:\/\/[^\s)]+)\)` tried at index `i`.
      Each repetition in it is followed by a character it excludes, so the
      greedy choice is the only one that can succeed. */
  function MatchLink(t: string, i: nat): (m: Option<LinkMatch>)
    requires i <= |t|
    ensures m.Some? ==> i < m.value.end <= |t|
  {
    if i < |t| && t[i] == '[' then
      var j := CloseBracket(t, i + 1);
      if j > i + 1 && j + 1 < |t| && t[j + 1] == '(' then
        var u := j + 2;
        var n := SchemeLength(t, u);
        if n > 0 then
          var e := UrlEnd(t, u + n);
          if e > u + n && e < |t| && t[e] == ')' then
            Some(LinkMatch(t[i + 1..j], t[u..e], e + 1))
          else None
        else None
      else None
    else None
  }

  /** A match spells `[caption](url)` over the text it covers, and has the
      shape the pattern demands. */
  lemma MatchLinkSpan(t: string, i: nat)
    requires i <= |t| && MatchLink(t, i).Some?
    ensures var m := MatchLink(t, i).value;
      t[i..m.end] == "[" + m.caption + "](" + m.url + ")" && LinkShape(m.caption, m.url)
  {
    var j, n, e := MatchLinkParts(t, i);
    SpanParts(t, i, j, e);
    UrlShape(t, j + 2, n, e);
    CaptionShape(t, i + 1, j);
  }

  /** The positions a match is made of: the closing bracket `j`, the scheme
      length `n` and the closing parenthesis `e`. */
  lemma MatchLinkParts(t: string, i: nat) returns (j: nat, n: nat, e: nat)
    requires i <= |t| && MatchLink(t, i).Some?
    ensures i + 1 < j && j + 2 <= e < |t|
    ensures t[i] == '[' && t[j] == ']' && t[j + 1] == '(' && t[e] == ')'
    ensures forall k :: i + 1 <= k < j ==> t[k] != ']'
    ensures n == SchemeLength(t, j + 2) && n > 0 && e == UrlEnd(t, j + 2 + n) && e > j + 2 + n
    ensures MatchLink(t, i).value == LinkMatch(t[i + 1..j], t[j + 2..e], e + 1)
  {
    j := CloseBracket(t, i + 1);
    n := SchemeLength(t, j + 2);
    e := UrlEnd(t, j + 2 + n);
  }

  /** The caption stops at the first `]`, so it holds none. */
  lemma CaptionShape(t: string, a: nat, j: nat)
    requires a <= j <= |t| && forall k :: a <= k < j ==> t[k] != ']'
    ensures ']' !in t[a..j]
  {
    forall k | 0 <= k < j - a ensures t[a..j][k] != ']' {
      assert t[a..j][k] == t[a + k];
    }
  }

  lemma SpanParts(t: string, i: nat, j: nat, e: nat)
    requires i + 1 < j && j + 2 <= e < |t|
    requires t[i] == '[' && t[j] == ']' && t[j + 1] == '(' && t[e] == ')'
    ensures t[i..e + 1] == "[" + t[i + 1..j] + "](" + t[j + 2..e] + ")"
  {
    assert t[i..e + 1] == [t[i]] + t[i + 1..j] + [t[j], t[j + 1]] + t[j + 2..e] + [t[e]];
  }

  lemma UrlShape(t: string, u: nat, n: nat, e: nat)
    requires u <= |t| && n == SchemeLength(t, u) && n > 0
    requires e == UrlEnd(t, u + n) && e > u + n
    ensures var url := t[u..e];
      (forall k :: 0 <= k < |url| ==> !IsSpace(url[k]) && url[k] != ')')
      && ((|url| > 7 && url[..7] == "http://") || (|url| > 8 && url[..8] == "https://"))
  {
    var url := t[u..e];
    assert |url| > n;
    assert url[..n] == t[u..u + n];
    forall k | 0 <= k < |url| ensures !IsSpace(url[k]) && url[k] != ')' {
      assert url[k] == t[u + k];
      if k < n {
        assert t[u..u + n][k] == t[u + k];
      }
    }
  }

  /** The global replace: scan from `i`, rewriting every match and copying
      every other character. */
  function Tokens(t: string, i: nat): seq<Piece>
    requires i <= |t|
    decreases |t| - i
  {
    if i == |t| then []
    else
      match MatchLink(t, i)
      case Some(m) => [Link(m.caption, m.url)] + Tokens(t, m.end)
      case None => [Plain(t[i])] + Tokens(t, i + 1)
  }

  /** The text a piece was read from. */
  function PieceSource(p: Piece): string {
    match p
    case Plain(c) => [c]
    case Link(caption, url) => "[" + caption + "](" + url + ")"
  }

  function Source(ps: seq<Piece>): string {
    if ps == [] then "" else PieceSource(ps[0]) + Source(ps[1..])
  }

  /** The anchor that replaces a link span. */
  function Anchor(caption: string, url: string): string {
    "<a href=\"" + url + "\" target=\"_blank\" rel=\"noopener noreferrer\">" + caption + "</a>"
  }

  function PieceHtml(p: Piece): string {
    match p
    case Plain(c) => [c]
    case Link(caption, url) => Anchor(caption, url)
  }

  function Render(ps: seq<Piece>): string {
    if ps == [] then "" else PieceHtml(ps[0]) + Render(ps[1..])
  }

  /** `linksToHtml`: escape first, then rewrite the link spans. */
  function LinksToHtml(md: string): string {
    var esc := EscapeHtml(md);
    Render(Tokens(esc, 0))
  }

  /** Tokenising loses nothing: the pieces spell out the scanned text. */
  lemma {:induction false} TokensSpell(t: string, i: nat)
    requires i <= |t|
    ensures Source(Tokens(t, i)) == t[i..]
    decreases |t| - i
  {
    if i < |t| {
      match MatchLink(t, i)
      case Some(m) =>
        MatchLinkSpan(t, i);
        TokensSpell(t, m.end);
        SourceCons(Link(m.caption, m.url), Tokens(t, m.end));
        SliceSplit(t, i, m.end);
      case None =>
        TokensSpell(t, i + 1);
        SourceCons(Plain(t[i]), Tokens(t, i + 1));
        SliceSplit(t, i, i + 1);
        assert t[i..i + 1] == [t[i]];
    }
  }

  lemma SourceCons(p: Piece, ps: seq<Piece>)
    ensures Source([p] + ps) == PieceSource(p) + Source(ps)
  {
    assert ([p] + ps)[1..] == ps;
  }

  lemma SliceSplit(t: string, i: nat, j: nat)
    requires i <= j <= |t|
    ensures t[i..] == t[i..j] + t[j..]
  {
  }

  /** Every token of text without raw markup is free of raw markup, so every
      inserted anchor carries an already-escaped caption and URL. */
  lemma {:induction false} TokensEscaped(t: string, i: nat)
    requires i <= |t| && NoMarkup(t)
    ensures forall p :: p in Tokens(t, i) ==>
              (p.Plain? ==> !IsMarkup(p.c))
              && (p.Link? ==> NoMarkup(p.caption) && NoMarkup(p.url) && LinkShape(p.caption, p.url))
    decreases |t| - i
  {
    if i < |t| {
      match MatchLink(t, i)
      case Some(m) =>
        MatchLinkSpan(t, i);
        TokensEscaped(t, m.end);
        var span := t[i..m.end];
        assert span == "[" + m.caption + "](" + m.url + ")";
        forall k | 0 <= k < |m.caption| ensures !IsMarkup(m.caption[k]) {
          assert m.caption[k] == span[1 + k] == t[i + 1 + k];
        }
        forall k | 0 <= k < |m.url| ensures !IsMarkup(m.url[k]) {
          assert m.url[k] == span[|m.caption| + 3 + k] == t[i + |m.caption| + 3 + k];
        }
      case None =>
        TokensEscaped(t, i + 1);
    }
  }

  /** Safety of `linksToHtml`: its output is the rendering of pieces read from
      the escaped text, and no piece holds a raw `<`, `>`, `"` or `'`. */
  lemma LinksToHtmlEscapesFirst(md: string)
    ensures LinksToHtml(md) == Render(Tokens(EscapeHtml(md), 0))
    ensures Source(Tokens(EscapeHtml(md), 0)) == EscapeHtml(md)
    ensures forall p :: p in Tokens(EscapeHtml(md), 0) ==>
              (p.Plain? ==> !IsMarkup(p.c))
              && (p.Link? ==> NoMarkup(p.caption) && NoMarkup(p.url) && LinkShape(p.caption, p.url))
  {
    TokensSpell(EscapeHtml(md), 0);
    TokensEscaped(EscapeHtml(md), 0);
  }

  /** Where no link span starts, the rewrite copies the text. */
  lemma {:induction false} NoLinkCopies(t: string, i: nat)
    requires i <= |t|
    requires forall k :: i <= k <= |t| ==> MatchLink(t, k).None?
    ensures Render(Tokens(t, i)) == t[i..]
    decreases |t| - i
  {
    if i < |t| {
      NoLinkCopies(t, i + 1);
      assert t[i..] == [t[i]] + t[i + 1..];
    }
  }

  /** No link span starts anywhere in `t`. */
  predicate NoLinkIn(t: string) {
    forall k :: 0 <= k <= |t| ==> MatchLink(t, k).None?
  }

  /** The rendering is the escaped text exactly when the escaped text holds
      no `[label](http…)` span. */
  lemma LinksToHtmlWithoutLinks(md: string)
    ensures LinksToHtml(md) == EscapeHtml(md) <==> NoLinkIn(EscapeHtml(md))
  {
    var t := EscapeHtml(md);
    if NoLinkIn(t) {
      NoLinkCopies(t, 0);
    } else {
      if LinksToHtml(md) == t {
        NoOpenNoLink(t, 0);
      }
    }
  }

  /** Text without a `[` holds no link span. */
  lemma NoBracketNoLink(md: string)
    requires '[' !in md
    ensures NoLinkIn(EscapeHtml(md))
  {
    var t := EscapeHtml(md);
    EscapeNoBracket(md);
    forall k | 0 <= k <= |t| ensures MatchLink(t, k).None? {
      if k < |t| { assert t[k] in t; }
    }
  }

  /** A rendering without an anchor's `<` comes from text in which no link
      span starts. */
  lemma {:induction false} NoOpenNoLink(t: string, i: nat)
    requires i <= |t| && '<' !in Render(Tokens(t, i))
    ensures forall k :: i <= k <= |t| ==> MatchLink(t, k).None?
    decreases |t| - i
  {
    if i < |t| {
      if MatchLink(t, i).Some? {
        LinkHere(t, i);
      } else {
        RenderCons(Plain(t[i]), Tokens(t, i + 1));
        InTail([t[i]], Render(Tokens(t, i + 1)));
        NoOpenNoLink(t, i + 1);
      }
    }
  }

  lemma LinkHere(t: string, i: nat)
    requires i <= |t| && MatchLink(t, i).Some?
    ensures '<' in Render(Tokens(t, i))
  {
    var m := MatchLink(t, i).value;
    RenderCons(Link(m.caption, m.url), Tokens(t, m.end));
    AnchorOpens(m.caption, m.url, Render(Tokens(t, m.end)));
  }

  lemma AnchorOpens(caption: string, url: string, rest: string)
    ensures '<' in Anchor(caption, url) + rest
  {
    assert (Anchor(caption, url) + rest)[0] == '<';
  }

  lemma InTail(a: string, b: string)
    requires '<' !in a + b
    ensures '<' !in b
  {
    forall j | 0 <= j < |b| ensures b[j] != '<' {
      assert (a + b)[|a| + j] == b[j];
    }
  }

  lemma RenderCons(p: Piece, ps: seq<Piece>)
    ensures Render([p] + ps) == PieceHtml(p) + Render(ps)
  {
    assert ([p] + ps)[1..] == ps;
  }


  // ---- stripSourcesFooter -------------------------------------------------

  /** The first index at or after `i` that does not hold a newline. */
  function SkipNewlines(s: string, i: nat): (j: nat)
    requires i <= |s|
    ensures i <= j <= |s|
    ensures forall k :: i <= k < j ==> s[k] == '\n'
    ensures j < |s| ==> s[j] != '\n'
    decreases |s| - i
  {
    if i < |s| && s[i] == '\n' then SkipNewlines(s, i + 1) else i
  }

  /** `/\n+Sources:\s[\s\S]*$/i` matches from index `p`: newlines, then
      `sources:` in any letter case, then one whitespace character. Backing off
      the newline run cannot help, since `S` is not a newline. */
  predicate FooterAt(s: string, p: nat) {
    p < |s| && s[p] == '\n'
    && var q := SkipNewlines(s, p);
       q + 9 <= |s| && Lower(s[q..q + 8]) == "sources:" && IsSpace(s[q + 8])
  }

  predicate HasFooter(s: string) {
    exists p :: 0 <= p < |s| && FooterAt(s, p)
  }

  /** The leftmost match at or after `i`, or `|s|` when there is none. */
  function FirstFooter(s: string, i: nat): (p: nat)
    requires i <= |s|
    ensures i <= p <= |s|
    ensures p < |s| ==> FooterAt(s, p)
    ensures forall k :: i <= k < p ==> !FooterAt(s, k)
    decreases |s| - i
  {
    if i == |s| || FooterAt(s, i) then i else FirstFooter(s, i + 1)
  }

  /** `stripSourcesFooter`: cut from the leftmost match to the end. */
  function StripSourcesFooter(s: string): (r: string)
    ensures |r| <= |s| && r == s[..|r|]
  {
    var p := FirstFooter(s, 0);
    if p < |s| then s[..p] else s
  }

  /** What the chat window renders for an assistant message: the footer cut,
      the citations cleaned out, then the text escaped with its links made
      anchors. */
  function Shown(content: string): string {
    LinksToHtml(ChatCleanup.StripCitationsAndCleanup(StripSourcesFooter(content)))
  }

  /** A match needs only the characters up to its whitespace character, so it
      survives in every extension of the string. */
  lemma SkipNewlinesExtend(s: string, u: string, i: nat)
    requires i <= |s| <= |u| && s == u[..|s|]
    ensures SkipNewlines(s, i) <= SkipNewlines(u, i)
    ensures SkipNewlines(s, i) < |s| ==> SkipNewlines(s, i) == SkipNewlines(u, i)
    decreases |s| - i
  {
    if i < |s| && s[i] == '\n' {
      SkipNewlinesExtend(s, u, i + 1);
    }
  }

  lemma FooterAtExtend(s: string, u: string, p: nat)
    requires |s| <= |u| && s == u[..|s|] && FooterAt(s, p)
    ensures FooterAt(u, p)
  {
    SkipNewlinesExtend(s, u, p);
    var q := SkipNewlines(s, p);
    assert s[q..q + 8] == u[q..q + 8];
  }

  /** The result never holds another footer. */
  lemma StripLeavesNoFooter(s: string)
    ensures !HasFooter(StripSourcesFooter(s))
  {
    var p := FirstFooter(s, 0);
    if p < |s| {
      var r := s[..p];
      if HasFooter(r) {
        var k :| 0 <= k < |r| && FooterAt(r, k);
        FooterAtExtend(r, s, k);
        assert false;
      }
    }
  }

  /** Text without a footer is returned unchanged. */
  lemma StripWithoutFooter(s: string)
    requires !HasFooter(s)
    ensures StripSourcesFooter(s) == s
  {
  }

  lemma StripIdempotent(s: string)
    ensures StripSourcesFooter(StripSourcesFooter(s)) == StripSourcesFooter(s)
  {
    StripLeavesNoFooter(s);
  }
}
