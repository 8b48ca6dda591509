/** `stripCitationsAndCleanup` of components/AgentChat.tsx: five global
    regular-expression replacements applied in turn, then `trim`. Each
    replacement is a left-to-right scan that, at every index, either rewrites
    the leftmost match found there or copies one character, as
    `String.prototype.replace` with a global pattern does. */
module ChatCleanup {
  import opened Wrappers
  import opened Text

  /** The dash characters in the two dash classes of the citation pattern as
      the file holds them: the en dash was stored as its UTF-8 bytes read
      back as Windows-1252 text (U+00E2, U+20AC, U+201C). */
  const WrittenDashes: set<char> := {'\U{E2}', '\U{20AC}', '\U{201C}', '-'}

  /** The classes the pattern's own comment describes: hyphen and en dash. */
  const IntendedDashes: set<char> := {'\U{2013}', '-'}

  /** `[.!?;:]`, the lookahead class of step 2. */
  predicate IsStop(c: char) {
    c == '.' || c == '!' || c == '?' || c == ';' || c == ':'
  }

  /** `[,.!?;:]`, the punctuation of step 5. */
  predicate IsPunct(c: char) {
    c == ',' || IsStop(c)
  }

  /** The characters some step may delete. */
  predicate Removable(c: char, dashes: set<char>) {
    IsSpace(c) || IsDigit(c) || c == ',' || c == ';' || c == ':'
    || c == '[' || c == ']' || c == '(' || c == ')' || c in dashes
  }

  predicate RemovableSpan(s: string, i: nat, j: nat, dashes: set<char>)
    requires i <= j <= |s|
  {
    forall k :: i <= k < j ==> Removable(s[k], dashes)
  }

  lemma RemovableJoin(s: string, a: nat, b: nat, c: nat, dashes: set<char>)
    requires a <= b <= c <= |s|
    requires RemovableSpan(s, a, b, dashes) && RemovableSpan(s, b, c, dashes)
    ensures RemovableSpan(s, a, c, dashes)
  {
  }

  /** The characters of `s` that no step deletes, in order. */
  function Kept(s: string, dashes: set<char>): string {
    if s == [] then []
    else (if Removable(s[0], dashes) then [] else [s[0]]) + Kept(s[1..], dashes)
  }

  lemma {:induction false} KeptAppend(a: string, b: string, dashes: set<char>)
    ensures Kept(a + b, dashes) == Kept(a, dashes) + Kept(b, dashes)
    decreases |a|
  {
    if a == [] {
      assert a + b == b;
    } else {
      assert (a + b)[0] == a[0] && (a + b)[1..] == a[1..] + b;
      KeptAppend(a[1..], b, dashes);
    }
  }

  lemma {:induction false} KeptNone(s: string, dashes: set<char>)
    requires forall k :: 0 <= k < |s| ==> Removable(s[k], dashes)
    ensures Kept(s, dashes) == []
    decreases |s|
  {
    if s != [] { KeptNone(s[1..], dashes); }
  }

  /** Deleting a span of removable characters keeps `Kept`. */
  lemma DropSpan(s: string, i: nat, e: nat, dashes: set<char>)
    requires i <= e <= |s|
    requires RemovableSpan(s, i, e, dashes)
    ensures Kept(s[i..], dashes) == Kept(s[e..], dashes)
  {
    assert s[i..] == s[i..e] + s[e..];
    KeptAppend(s[i..e], s[e..], dashes);
    KeptNone(s[i..e], dashes);
  }

  lemma CopyOne(s: string, i: nat, dashes: set<char>)
    requires i < |s|
    ensures Kept(s[i..], dashes) == Kept([s[i]], dashes) + Kept(s[i + 1..], dashes)
  {
    assert s[i..] == [s[i]] + s[i + 1..];
    KeptAppend([s[i]], s[i + 1..], dashes);
  }

  /** Whitespace is never kept, so `Kept` sees only the non-whitespace text. */
  lemma {:induction false} KeptNonSpace(s: string, dashes: set<char>)
    ensures Kept(NonSpace(s), dashes) == Kept(s, dashes)
    decreases |s|
  {
    if s != [] {
      KeptNonSpace(s[1..], dashes);
      var head := if IsSpace(s[0]) then [] else [s[0]];
      KeptAppend(head, NonSpace(s[1..]), dashes);
    }
  }

  function SkipDigits(s: string, i: nat): (j: nat)
    requires i <= |s|
    ensures i <= j <= |s|
    ensures forall k :: i <= k < j ==> IsDigit(s[k])
    ensures j < |s| ==> !IsDigit(s[j])
    decreases |s| - i
  {
    if i < |s| && IsDigit(s[i]) then SkipDigits(s, i + 1) else i
  }

  // ---- step 1: citations ----------------------------------------------------

  /** `(?:,\s*\d+)+` from `p`, greedily: the end of the last complete
      repetition, or `p` when not even one fits. */
  function CommaNumbers(s: string, p: nat): (q: nat)
    requires p <= |s|
    ensures p <= q <= |s|
    ensures forall k :: p <= k < q ==> s[k] == ',' || IsSpace(s[k]) || IsDigit(s[k])
    decreases |s| - p
  {
    if p < |s| && s[p] == ',' then
      var a := SkipSpace(s, p + 1);
      var b := SkipDigits(s, a);
      if b > a then CommaNumbers(s, b) else p
    else p
  }

  /** The optional range or list part after the first number, starting from
      the whitespace after it (`e`); `None` when the pattern cannot go on.
      A dash commits to the range form and a comma to the list form, since
      neither may stand before the closing `]`. */
  function CitationTail(s: string, e: nat, dashes: set<char>): (g: Option<nat>)
    requires e <= |s|
    ensures g.Some? ==> e <= g.value <= |s|
    ensures g.Some? ==> RemovableSpan(s, e, g.value, dashes)
  {
    var f := SkipSpace(s, e);
    if f < |s| && s[f] in dashes then
      var h := SkipSpace(s, f + 1);
      var k := SkipDigits(s, h);
      if k > h then Some(k) else None
    else if f < |s| && s[f] == ',' then
      var q := CommaNumbers(s, f);
      if q > f then Some(q) else None
    else Some(e)
  }

  /** `\s*[,;:<dash>]?\s*`, the part before the opening bracket. */
  function CitationLead(s: string, i: nat, dashes: set<char>): (c: nat)
    requires i <= |s|
    ensures i <= c <= |s|
    ensures RemovableSpan(s, i, c, dashes)
  {
    var a := SkipSpace(s, i);
    var b := if a < |s| && (s[a] == ',' || s[a] == ';' || s[a] == ':' || s[a] in dashes) then a + 1 else a;
    SkipSpace(s, b)
  }

  /** Bracket, spaces, digits, the tail and spaces up to the closing bracket
      are all citation characters. */
  lemma BracketSpan(s: string, c: nat, d: nat, e: nat, g: nat, z: nat, dashes: set<char>)
    requires c < |s| && s[c] == '[' && d == SkipSpace(s, c + 1) && e == SkipDigits(s, d)
    requires e <= g <= |s| && RemovableSpan(s, e, g, dashes)
    requires z == SkipSpace(s, g) && z < |s| && s[z] == ']'
    ensures RemovableSpan(s, c, z + 1, dashes)
  {
    assert RemovableSpan(s, c, d, dashes) && RemovableSpan(s, d, e, dashes);
    assert RemovableSpan(s, g, z + 1, dashes);
    RemovableJoin(s, c, d, e, dashes);
    RemovableJoin(s, c, e, g, dashes);
    RemovableJoin(s, c, g, z + 1, dashes);
  }

  /** `\[\s*\d+(...)?\s*\]` from the opening bracket at `c`. */
  function CitationBody(s: string, c: nat, dashes: set<char>): (e: Option<nat>)
    requires c <= |s|
    ensures e.Some? ==> c < e.value <= |s|
    ensures e.Some? ==> RemovableSpan(s, c, e.value, dashes)
  {
    if c < |s| && s[c] == '[' then
      var d := SkipSpace(s, c + 1);
      var e := SkipDigits(s, d);
      if e == d then None
      else
        match CitationTail(s, e, dashes)
        case None => None
        case Some(g) =>
          var z := SkipSpace(s, g);
          if z < |s| && s[z] == ']' then
            BracketSpan(s, c, d, e, g, z, dashes);
            Some(z + 1)
          else None
    else None
  }

  /** `\s*[,;:<dash>]?\s*\[\s*\d+(?:\s*[<dash>]\s*\d+|\s*(?:,\s*\d+)+)?\s*\]`
      tried at index `i`: the end of the match, if any. Everything it spans
      is a citation character. */
  function MatchCitation(s: string, i: nat, dashes: set<char>): (e: Option<nat>)
    requires i <= |s|
    ensures e.Some? ==> i < e.value <= |s|
    ensures e.Some? ==> RemovableSpan(s, i, e.value, dashes)
  {
    CitationBody(s, CitationLead(s, i, dashes), dashes)
  }

  function RemoveCitations(s: string, i: nat, dashes: set<char>): string
    requires i <= |s|
    decreases |s| - i
  {
    if i == |s| then []
    else
      match MatchCitation(s, i, dashes)
      case Some(e) => RemoveCitations(s, e, dashes)
      case None => [s[i]] + RemoveCitations(s, i + 1, dashes)
  }

  // ---- steps 2 to 4: leftover commas and parentheses -------------------------

  /** Step 2, `,\s*(?=[.!?;:])`: a comma and the whitespace after it, when
      sentence punctuation follows. */
  function DropCommaBeforeStop(s: string, i: nat): string
    requires i <= |s|
    decreases |s| - i
  {
    if i == |s| then []
    else if s[i] == ',' && SkipSpace(s, i + 1) < |s| && IsStop(s[SkipSpace(s, i + 1)]) then
      DropCommaBeforeStop(s, SkipSpace(s, i + 1))
    else [s[i]] + DropCommaBeforeStop(s, i + 1)
  }

  /** The last newline in `s[lo..hi]`. */
  function LastNewline(s: string, lo: nat, hi: nat): (p: Option<nat>)
    requires lo <= hi <= |s|
    ensures p.Some? ==> lo <= p.value < hi && s[p.value] == '\n'
    ensures p.None? ==> forall k :: lo <= k < hi ==> s[k] != '\n'
    decreases hi
  {
    if hi == lo then None
    else if s[hi - 1] == '\n' then Some(hi - 1)
    else LastNewline(s, lo, hi - 1)
  }

  /** Step 3, `,\s*(?=\n|$)` at a comma: the greedy `\s*` backs off to the
      last newline of the whitespace run, or takes the run when it ends the
      text. */
  function TrailingCommaEnd(s: string, i: nat): (e: Option<nat>)
    requires i < |s| && s[i] == ','
    ensures e.Some? ==> i < e.value <= |s|
    ensures e.Some? ==> forall k :: i < k < e.value ==> IsSpace(s[k])
  {
    var j := SkipSpace(s, i + 1);
    if j == |s| then Some(j) else LastNewline(s, i + 1, j)
  }

  function DropTrailingComma(s: string, i: nat): string
    requires i <= |s|
    decreases |s| - i
  {
    if i == |s| then []
    else if s[i] == ',' && TrailingCommaEnd(s, i).Some? then
      DropTrailingComma(s, TrailingCommaEnd(s, i).value)
    else [s[i]] + DropTrailingComma(s, i + 1)
  }

  /** Step 4, `\(\s*\)`: empty parentheses. */
  function DropEmptyParens(s: string, i: nat): string
    requires i <= |s|
    decreases |s| - i
  {
    if i == |s| then []
    else if s[i] == '(' && SkipSpace(s, i + 1) < |s| && s[SkipSpace(s, i + 1)] == ')' then
      DropEmptyParens(s, SkipSpace(s, i + 1) + 1)
    else [s[i]] + DropEmptyParens(s, i + 1)
  }

  // ---- step 5: whitespace normalisation --------------------------------------

  /** `\s+([,.!?;:])` replaced by the punctuation mark. */
  function TightenPunct(s: string, i: nat): string
    requires i <= |s|
    decreases |s| - i
  {
    if i == |s| then []
    else if IsSpace(s[i]) && SkipSpace(s, i) < |s| && IsPunct(s[SkipSpace(s, i)]) then
      [s[SkipSpace(s, i)]] + TightenPunct(s, SkipSpace(s, i) + 1)
    else [s[i]] + TightenPunct(s, i + 1)
  }

  /** `\s{2,}` replaced by one space. */
  function Collapse(s: string, i: nat): string
    requires i <= |s|
    decreases |s| - i
  {
    if i == |s| then []
    else if IsSpace(s[i]) && SkipSpace(s, i) >= i + 2 then [' '] + Collapse(s, SkipSpace(s, i))
    else [s[i]] + Collapse(s, i + 1)
  }

  /** The last two replacements and `trim` (AgentChat.tsx lines 59-60). */
  function Normalize(s: string): string {
    Trim(Collapse(TightenPunct(s, 0), 0))
  }

  function Cleanup(s: string, dashes: set<char>): string {
    var noCitations := RemoveCitations(s, 0, dashes);
    var noStrayComma := DropCommaBeforeStop(noCitations, 0);
    var noTrailingComma := DropTrailingComma(noStrayComma, 0);
    Normalize(DropEmptyParens(noTrailingComma, 0))
  }

  /** The function exactly as the file spells its dash classes. */
  function StripCitationsAndCleanupAsWritten(s: string): string {
    Cleanup(s, WrittenDashes)
  }

  /** The function with the en dash its comment promises; `ChatDisplay.Shown`
      renders assistant messages with this one. */
  function StripCitationsAndCleanup(s: string): string {
    Cleanup(s, IntendedDashes)
  }

  // ---- what the normalisation guarantees ---------------------------------------

  predicate NoDoubleSpace(t: string) {
    forall k :: 0 <= k < |t| - 1 ==> !(IsSpace(t[k]) && IsSpace(t[k + 1]))
  }

  predicate NoSpaceBeforePunct(t: string) {
    forall k :: 0 <= k < |t| - 1 ==> IsSpace(t[k]) ==> !IsPunct(t[k + 1])
  }

  lemma SkipSpaceStep(s: string, i: nat)
    requires i < |s| && IsSpace(s[i])
    ensures SkipSpace(s, i) == SkipSpace(s, i + 1)
  {
  }

  /** Where no rewrite starts, the scan copies the character first. */
  lemma TightenHead(s: string, i: nat)
    requires i < |s| && !IsSpace(s[i])
    ensures TightenPunct(s, i) == [s[i]] + TightenPunct(s, i + 1)
  {
  }

  /** After a whitespace character that step 5a keeps, no punctuation mark
      follows. */
  lemma TightenAfterSpace(s: string, i: nat)
    requires i < |s| && IsSpace(s[i])
    requires !(SkipSpace(s, i) < |s| && IsPunct(s[SkipSpace(s, i)]))
    ensures var rest := TightenPunct(s, i + 1); rest != [] ==> !IsPunct(rest[0])
  {
    var j := SkipSpace(s, i);
    if i + 1 < j {
      SkipSpaceStep(s, i + 1);
      SkipSpaceStep(s, i);
      assert IsSpace(s[i + 1]);
    } else if i + 1 < |s| {
      TightenHead(s, i + 1);
    }
  }

  lemma {:induction false} TightenNoSpaceBeforePunct(s: string, i: nat)
    requires i <= |s|
    ensures NoSpaceBeforePunct(TightenPunct(s, i))
    decreases |s| - i
  {
    if i < |s| {
      var j := SkipSpace(s, i);
      if IsSpace(s[i]) && j < |s| && IsPunct(s[j]) {
        TightenNoSpaceBeforePunct(s, j + 1);
        var r := TightenPunct(s, j + 1);
        assert TightenPunct(s, i) == [s[j]] + r;
      } else {
        TightenNoSpaceBeforePunct(s, i + 1);
        var r := TightenPunct(s, i + 1);
        if IsSpace(s[i]) { TightenAfterSpace(s, i); }
        assert TightenPunct(s, i) == [s[i]] + r;
      }
    }
  }

  lemma {:induction false} TightenNonSpace(s: string, i: nat)
    requires i <= |s|
    ensures NonSpace(TightenPunct(s, i)) == NonSpace(s[i..])
    decreases |s| - i
  {
    if i < |s| {
      var j := SkipSpace(s, i);
      if IsSpace(s[i]) && j < |s| && IsPunct(s[j]) {
        TightenNonSpace(s, j + 1);
        JumpNonSpace(s, i, j, TightenPunct(s, j + 1));
      } else {
        TightenNonSpace(s, i + 1);
        CopyNonSpace(s, i);
      }
    }
  }

  lemma JumpNonSpace(s: string, i: nat, j: nat, rest: string)
    requires i < |s| && IsSpace(s[i])
    requires j == SkipSpace(s, i) && j < |s| && IsPunct(s[j])
    requires rest == TightenPunct(s, j + 1) && NonSpace(rest) == NonSpace(s[j + 1..])
    ensures NonSpace(TightenPunct(s, i)) == NonSpace(s[i..])
  {
    TightenJump(s, i, j);
    SkipConsNonSpace(s, i, j, rest);
  }

  /** A whitespace run dropped in front of `s[j]` changes no non-space
      character. */
  lemma SkipConsNonSpace(s: string, i: nat, j: nat, rest: string)
    requires i <= |s| && j == SkipSpace(s, i) && j < |s|
    requires NonSpace(rest) == NonSpace(s[j + 1..])
    ensures NonSpace([s[j]] + rest) == NonSpace(s[i..])
  {
    ConsNonSpace(s, j, rest);
    NonSpaceSkip(s, i, j);
  }

  lemma CopyNonSpace(s: string, i: nat)
    requires i < |s|
    requires !(IsSpace(s[i]) && SkipSpace(s, i) < |s| && IsPunct(s[SkipSpace(s, i)]))
    requires NonSpace(TightenPunct(s, i + 1)) == NonSpace(s[i + 1..])
    ensures NonSpace(TightenPunct(s, i)) == NonSpace(s[i..])
  {
    TightenCopy(s, i);
    ConsNonSpace(s, i, TightenPunct(s, i + 1));
  }

  /** Putting `s[j]` in front of a string with the same non-space characters
      as the rest of `s` gives those of `s[j..]`. */
  lemma ConsNonSpace(s: string, j: nat, rest: string)
    requires j < |s| && NonSpace(rest) == NonSpace(s[j + 1..])
    ensures NonSpace([s[j]] + rest) == NonSpace(s[j..])
  {
    NonSpaceAppend([s[j]], rest);
    NonSpaceCons(s, j);
  }

  /** Step 5a at a whitespace run followed by punctuation: the mark replaces
      the run. */
  lemma TightenJump(s: string, i: nat, j: nat)
    requires i < |s| && IsSpace(s[i])
    requires j == SkipSpace(s, i) && j < |s| && IsPunct(s[j])
    ensures TightenPunct(s, i) == [s[j]] + TightenPunct(s, j + 1)
  {
  }

  /** Step 5a anywhere else: the character is copied. */
  lemma TightenCopy(s: string, i: nat)
    requires i < |s|
    requires !(IsSpace(s[i]) && SkipSpace(s, i) < |s| && IsPunct(s[SkipSpace(s, i)]))
    ensures TightenPunct(s, i) == [s[i]] + TightenPunct(s, i + 1)
  {
  }

  /** A whitespace run contributes nothing to the non-space characters. */
  lemma NonSpaceSkip(s: string, i: nat, j: nat)
    requires i <= j <= |s| && forall k :: i <= k < j ==> IsSpace(s[k])
    ensures NonSpace(s[i..]) == NonSpace(s[j..])
  {
    assert s[i..] == s[i..j] + s[j..];
    NonSpaceAppend(s[i..j], s[j..]);
    NonSpaceBlank(s[i..j]);
  }

  lemma CollapseHead(t: string, j: nat)
    requires j < |t| && !IsSpace(t[j])
    ensures Collapse(t, j) == [t[j]] + Collapse(t, j + 1)
  {
  }

  lemma {:induction false} CollapseShape(t: string, i: nat)
    requires i <= |t| && NoSpaceBeforePunct(t)
    ensures NoDoubleSpace(Collapse(t, i)) && NoSpaceBeforePunct(Collapse(t, i))
    decreases |t| - i
  {
    if i < |t| {
      var j := SkipSpace(t, i);
      if IsSpace(t[i]) && j >= i + 2 {
        CollapseShape(t, j);
        if j < |t| {
          CollapseHead(t, j);
          assert IsSpace(t[j - 1]);
        }
        assert Collapse(t, i) == [' '] + Collapse(t, j);
      } else {
        CollapseShape(t, i + 1);
        if IsSpace(t[i]) && i + 1 < |t| {
          assert j == i + 1;
          CollapseHead(t, i + 1);
        }
        assert Collapse(t, i) == [t[i]] + Collapse(t, i + 1);
      }
    }
  }

  lemma {:induction false} CollapseNonSpace(t: string, i: nat)
    requires i <= |t|
    ensures NonSpace(Collapse(t, i)) == NonSpace(t[i..])
    decreases |t| - i
  {
    if i < |t| {
      var j := SkipSpace(t, i);
      if IsSpace(t[i]) && j >= i + 2 {
        CollapseNonSpace(t, j);
        assert t[i..] == t[i..j] + t[j..];
        NonSpaceAppend(t[i..j], t[j..]);
        NonSpaceBlank(t[i..j]);
        NonSpaceAppend([' '], Collapse(t, j));
      } else {
        CollapseNonSpace(t, i + 1);
        assert t[i..] == [t[i]] + t[i + 1..];
        NonSpaceAppend([t[i]], t[i + 1..]);
        NonSpaceAppend([t[i]], Collapse(t, i + 1));
      }
    }
  }

  lemma SliceKeepsShape(t: string, a: nat, b: nat)
    requires a <= b <= |t|
    requires NoDoubleSpace(t) && NoSpaceBeforePunct(t)
    ensures NoDoubleSpace(t[a..b]) && NoSpaceBeforePunct(t[a..b])
  {
    var r := t[a..b];
    forall k | 0 <= k < |r| - 1 ensures !(IsSpace(r[k]) && IsSpace(r[k + 1])) {
      assert r[k] == t[a + k] && r[k + 1] == t[a + k + 1];
    }
    forall k | 0 <= k < |r| - 1 ensures IsSpace(r[k]) ==> !IsPunct(r[k + 1]) {
      assert r[k] == t[a + k] && r[k + 1] == t[a + k + 1];
    }
  }

  lemma NonSpaceSandwich(front: string, r: string, back: string)
    requires IsBlank(front) && IsBlank(back)
    ensures NonSpace(front + r + back) == NonSpace(r)
  {
    NonSpaceAppend(front + r, back);
    NonSpaceAppend(front, r);
    NonSpaceBlank(front);
    NonSpaceBlank(back);
  }

  /** A window of `t` with only whitespace outside it has `t`'s
      non-whitespace text. */
  lemma WindowNonSpace(t: string, r: string, a: nat)
    requires a <= |t| - |r| && t[a..a + |r|] == r
    requires IsBlank(t[..a]) && IsBlank(t[a + |r|..])
    ensures NonSpace(t) == NonSpace(r)
  {
    var b := a + |r|;
    assert t[..b] == t[..a] + t[a..b];
    assert t == t[..a] + r + t[b..];
    NonSpaceSandwich(t[..a], r, t[b..]);
  }

  lemma TrimNonSpace(t: string)
    ensures NonSpace(Trim(t)) == NonSpace(t)
  {
    var a := TrimWindow(t);
    WindowNonSpace(t, Trim(t), a);
  }

  lemma TrimKeepsShape(t: string)
    requires NoDoubleSpace(t) && NoSpaceBeforePunct(t)
    ensures NoDoubleSpace(Trim(t)) && NoSpaceBeforePunct(Trim(t))
    ensures NonSpace(Trim(t)) == NonSpace(t)
  {
    var a := TrimWindow(t);
    SliceKeepsShape(t, a, a + |Trim(t)|);
    TrimNonSpace(t);
  }

  /** The normalisation of lines 59-60: no whitespace at either end, no two
      whitespace characters in a row, none before `, . ! ? ; :`, and the
      non-whitespace text exactly as it was. */
  lemma NormalizeShape(s: string)
    ensures var r := Normalize(s);
      && (r != [] ==> !IsSpace(r[0]) && !IsSpace(r[|r| - 1]))
      && NoDoubleSpace(r)
      && NoSpaceBeforePunct(r)
      && NonSpace(r) == NonSpace(s)
  {
    var t := TightenPunct(s, 0);
    TightenNoSpaceBeforePunct(s, 0);
    TightenNonSpace(s, 0);
    CollapseShape(t, 0);
    CollapseNonSpace(t, 0);
    TrimKeepsShape(Collapse(t, 0));
  }

  // ---- steps 1 to 4 only delete citation characters ---------------------------

  lemma {:induction false} RemoveCitationsKept(s: string, i: nat, dashes: set<char>)
    requires i <= |s|
    ensures Kept(RemoveCitations(s, i, dashes), dashes) == Kept(s[i..], dashes)
    decreases |s| - i
  {
    if i < |s| {
      match MatchCitation(s, i, dashes)
      case Some(e) =>
        RemoveCitationsKept(s, e, dashes);
        DropSpan(s, i, e, dashes);
      case None =>
        RemoveCitationsKept(s, i + 1, dashes);
        CopyOne(s, i, dashes);
        KeptAppend([s[i]], RemoveCitations(s, i + 1, dashes), dashes);
    }
  }

  lemma {:induction false} DropCommaBeforeStopKept(s: string, i: nat, dashes: set<char>)
    requires i <= |s|
    ensures Kept(DropCommaBeforeStop(s, i), dashes) == Kept(s[i..], dashes)
    decreases |s| - i
  {
    if i < |s| {
      var j := SkipSpace(s, i + 1);
      if s[i] == ',' && j < |s| && IsStop(s[j]) {
        DropCommaBeforeStopKept(s, j, dashes);
        DropSpan(s, i, j, dashes);
      } else {
        DropCommaBeforeStopKept(s, i + 1, dashes);
        CopyOne(s, i, dashes);
        KeptAppend([s[i]], DropCommaBeforeStop(s, i + 1), dashes);
      }
    }
  }

  lemma {:induction false} DropTrailingCommaKept(s: string, i: nat, dashes: set<char>)
    requires i <= |s|
    ensures Kept(DropTrailingComma(s, i), dashes) == Kept(s[i..], dashes)
    decreases |s| - i
  {
    if i < |s| {
      if s[i] == ',' && TrailingCommaEnd(s, i).Some? {
        var e := TrailingCommaEnd(s, i).value;
        DropTrailingCommaKept(s, e, dashes);
        DropSpan(s, i, e, dashes);
      } else {
        DropTrailingCommaKept(s, i + 1, dashes);
        CopyOne(s, i, dashes);
        KeptAppend([s[i]], DropTrailingComma(s, i + 1), dashes);
      }
    }
  }

  lemma {:induction false} DropEmptyParensKept(s: string, i: nat, dashes: set<char>)
    requires i <= |s|
    ensures Kept(DropEmptyParens(s, i), dashes) == Kept(s[i..], dashes)
    decreases |s| - i
  {
    if i < |s| {
      var j := SkipSpace(s, i + 1);
      if s[i] == '(' && j < |s| && s[j] == ')' {
        DropEmptyParensKept(s, j + 1, dashes);
        DropSpan(s, i, j + 1, dashes);
      } else {
        DropEmptyParensKept(s, i + 1, dashes);
        CopyOne(s, i, dashes);
        KeptAppend([s[i]], DropEmptyParens(s, i + 1), dashes);
      }
    }
  }

  /** Citation stripping deletes only whitespace, digits, brackets,
      parentheses, `, ; :` and dashes: every other character of the answer
      (letters, `. ! ?`, ...) survives, in order. The result is also
      normalised as `NormalizeShape` states. */
  lemma CleanupKeepsText(s: string, dashes: set<char>)
    ensures Kept(Cleanup(s, dashes), dashes) == Kept(s, dashes)
    ensures var r := Cleanup(s, dashes);
      (r != [] ==> !IsSpace(r[0]) && !IsSpace(r[|r| - 1]))
      && NoDoubleSpace(r) && NoSpaceBeforePunct(r)
  {
    var o1 := RemoveCitations(s, 0, dashes);
    var o2 := DropCommaBeforeStop(o1, 0);
    var o3 := DropTrailingComma(o2, 0);
    var o4 := DropEmptyParens(o3, 0);
    RemoveCitationsKept(s, 0, dashes);
    DropCommaBeforeStopKept(o1, 0, dashes);
    DropTrailingCommaKept(o2, 0, dashes);
    DropEmptyParensKept(o3, 0, dashes);
    assert s[0..] == s && o1[0..] == o1 && o2[0..] == o2 && o3[0..] == o3;
    NormalizeShape(o4);
    KeptNonSpace(o4, dashes);
    KeptNonSpace(Normalize(o4), dashes);
  }

  // ---- the en dash of the range form ------------------------------------------

  predicate AllDigits(d: string) {
    forall k :: 0 <= k < |d| ==> IsDigit(d[k])
  }

  /** A range citation such as `[1–3]`, written with the en dash. */
  function RangeCitation(d1: string, d2: string): string {
    "[" + d1 + "\U{2013}" + d2 + "]"
  }

  /** With the en dash in its classes, the pattern matches a whole range
      citation, and the cleanup leaves nothing of it. */
  lemma RangeCitationRemoved(d1: string, d2: string)
    requires d1 != [] && d2 != [] && AllDigits(d1) && AllDigits(d2)
    ensures var s := RangeCitation(d1, d2);
      MatchCitation(s, 0, IntendedDashes) == Some(|s|)
    ensures StripCitationsAndCleanup(RangeCitation(d1, d2)) == []
  {
    var s := RangeCitation(d1, d2);
    var e := RangeLayoutOf(d1, d2);
    RangeMatched(s, e);
    assert RemoveCitations(s, 0, IntendedDashes) == [];
    CleanupEmpty(IntendedDashes);
  }

  /** The shape of `[d1–d2]`: digits from 1 to `e`, the en dash at `e`,
      digits up to the closing bracket. */
  predicate RangeLayout(s: string, e: nat) {
    && 1 < e && e + 2 < |s|
    && s[0] == '[' && s[e] == '\U{2013}' && s[|s| - 1] == ']'
    && (forall k :: 1 <= k < e ==> IsDigit(s[k]))
    && (forall k :: e + 1 <= k < |s| - 1 ==> IsDigit(s[k]))
  }

  lemma RangeLayoutOf(d1: string, d2: string) returns (e: nat)
    requires d1 != [] && d2 != [] && AllDigits(d1) && AllDigits(d2)
    ensures e == 1 + |d1| && RangeLayout(RangeCitation(d1, d2), e)
  {
    var s := RangeCitation(d1, d2);
    e := 1 + |d1|;
    assert s[0] == '[' && s[e] == '\U{2013}' && s[|s| - 1] == ']';
    assert forall k :: 1 <= k < e ==> s[k] == d1[k - 1];
    assert forall k :: e + 1 <= k < |s| - 1 ==> s[k] == d2[k - e - 1];
  }

  /** The intended pattern's tail reads the en dash and the second number. */
  lemma RangeTail(s: string, e: nat)
    requires RangeLayout(s, e)
    ensures CitationTail(s, e, IntendedDashes) == Some(|s| - 1)
  {
    assert SkipSpace(s, e) == e;
    assert SkipSpace(s, e + 1) == e + 1;
    assert SkipDigits(s, e + 1) == |s| - 1;
  }

  lemma RangeMatched(s: string, e: nat)
    requires RangeLayout(s, e)
    ensures MatchCitation(s, 0, IntendedDashes) == Some(|s|)
  {
    assert CitationLead(s, 0, IntendedDashes) == 0;
    assert SkipSpace(s, 1) == 1;
    assert SkipDigits(s, 1) == e;
    RangeTail(s, e);
    assert SkipSpace(s, |s| - 1) == |s| - 1;
    BodyAt(s, 0, 1, e, |s| - 1, |s| - 1, IntendedDashes);
  }

  /** Once its pieces have matched, the bracketed part matches exactly when
      the closing bracket follows. */
  lemma BodyAt(s: string, c: nat, d: nat, e: nat, g: nat, z: nat, dashes: set<char>)
    requires c < |s| && s[c] == '['
    requires d == SkipSpace(s, c + 1) && e == SkipDigits(s, d) && e != d
    requires CitationTail(s, e, dashes) == Some(g)
    requires z == SkipSpace(s, g)
    ensures CitationBody(s, c, dashes) == if z < |s| && s[z] == ']' then Some(z + 1) else None
  {
  }

  /** The cleanup of an empty answer is empty. */
  lemma CleanupEmpty(dashes: set<char>)
    ensures Cleanup([], dashes) == []
  {
    assert IsBlank([]);
  }

  /** As the file spells its dash classes, the pattern does not match a
      range citation written with the en dash. */
  lemma RangeCitationMissedAsWritten(d1: string, d2: string)
    requires d1 != [] && d2 != [] && AllDigits(d1) && AllDigits(d2)
    ensures MatchCitation(RangeCitation(d1, d2), 0, WrittenDashes) == None
  {
    var s := RangeCitation(d1, d2);
    var e := RangeLayoutOf(d1, d2);
    assert CitationLead(s, 0, WrittenDashes) == 0;
    assert SkipSpace(s, 1) == 1;
    assert SkipDigits(s, 1) == e;
    assert SkipSpace(s, e) == e;
    assert CitationTail(s, e, WrittenDashes) == Some(e);
    BodyAt(s, 0, 1, e, e, e, WrittenDashes);
  }

  /** A character at which no citation match can start. */
  predicate Inert(c: char, dashes: set<char>) {
    !IsSpace(c) && c != '[' && c != ',' && c != ';' && c != ':' && c !in dashes
  }

  lemma NoMatchAt(s: string, i: nat, dashes: set<char>)
    requires i < |s| && Inert(s[i], dashes)
    ensures MatchCitation(s, i, dashes) == None
  {
    assert SkipSpace(s, i) == i;
    assert CitationLead(s, i, dashes) == i;
  }

  lemma {:induction false} InertKept(s: string, i: nat, dashes: set<char>)
    requires i <= |s|
    requires forall k :: i <= k < |s| ==> Inert(s[k], dashes)
    ensures RemoveCitations(s, i, dashes) == s[i..]
    decreases |s| - i
  {
    if i < |s| {
      NoMatchAt(s, i, dashes);
      InertKept(s, i + 1, dashes);
      assert s[i..] == [s[i]] + s[i + 1..];
    }
  }

  lemma RangeCitationChars(d1: string, d2: string)
    requires AllDigits(d1) && AllDigits(d2)
    ensures var s := RangeCitation(d1, d2);
      && |s| == |d1| + |d2| + 3 && s[0] == '['
      && forall k :: 1 <= k < |s| ==> Inert(s[k], WrittenDashes) && s[k] != '(' && !IsSpace(s[k])
  {
    var s := RangeCitation(d1, d2);
    var e := 1 + |d1|;
    assert s[e] == '\U{2013}' && s[|s| - 1] == ']';
    assert forall k :: 1 <= k < e ==> s[k] == d1[k - 1];
    assert forall k :: e + 1 <= k < |s| - 1 ==> s[k] == d2[k - e - 1];
  }

  /** The as-written cleanup hands every range citation written with the en
      dash back untouched: `[1–3]` stays in the displayed answer. */
  lemma RangeCitationKeptAsWritten(d1: string, d2: string)
    requires d1 != [] && d2 != [] && AllDigits(d1) && AllDigits(d2)
    ensures StripCitationsAndCleanupAsWritten(RangeCitation(d1, d2)) == RangeCitation(d1, d2)
  {
    var s := RangeCitation(d1, d2);
    RangeCitationChars(d1, d2);
    RangeCitationMissedAsWritten(d1, d2);
    InertKept(s, 1, WrittenDashes);
    assert s[0..] == [s[0]] + s[1..];
    CleanupUnchanged(s, WrittenDashes);
  }

  /** A text the citation step leaves alone and that holds no comma,
      parenthesis or whitespace comes out of the whole cleanup unchanged. */
  lemma CleanupUnchanged(s: string, dashes: set<char>)
    requires RemoveCitations(s, 0, dashes) == s
    requires forall k :: 0 <= k < |s| ==> s[k] != ',' && s[k] != '(' && !IsSpace(s[k])
    ensures Cleanup(s, dashes) == s
  {
    CopiedWhole(s);
  }

  /** A text with no comma, parenthesis or whitespace passes steps 2 to 5
      unchanged. */
  lemma CopiedWhole(s: string)
    requires forall k :: 0 <= k < |s| ==> s[k] != ',' && s[k] != '(' && !IsSpace(s[k])
    ensures Normalize(DropEmptyParens(DropTrailingComma(DropCommaBeforeStop(s, 0), 0), 0)) == s
  {
    CopiedSteps(s, 0);
    assert s[0..] == s;
    assert IsBlank(s[..0]) && IsBlank(s[|s|..]);
    if s != [] {
      assert SkipSpace(s, 0) == 0;
      assert BackSpace(s, |s|) == |s|;
    }
  }

  lemma {:induction false} CopiedSteps(s: string, i: nat)
    requires i <= |s|
    requires forall k :: 0 <= k < |s| ==> s[k] != ',' && s[k] != '(' && !IsSpace(s[k])
    ensures DropCommaBeforeStop(s, i) == s[i..] && DropTrailingComma(s, i) == s[i..]
    ensures DropEmptyParens(s, i) == s[i..] && TightenPunct(s, i) == s[i..]
    ensures Collapse(s, i) == s[i..]
    decreases |s| - i
  {
    if i < |s| {
      CopiedSteps(s, i + 1);
      assert s[i..] == [s[i]] + s[i + 1..];
    }
  }
}
