/** String helpers shared by every module: the JavaScript whitespace class,
    `toLowerCase`, `trim`, `includes`, `split`, `join` and decimal printing,
    each stated as the ECMAScript built-in behaves on the inputs the
    program gives it. */
module Text {
  import Wrappers

  /** The `\s` class of a JavaScript regular expression; `String.prototype.trim`
      removes exactly the same code points (WhiteSpace and LineTerminator). */
  predicate IsSpace(c: char) {
    c == '\t' || c == '\n' || c == '\U{B}' || c == '\U{C}' || c == '\r' || c == ' '
    || c == '\U{A0}' || c == '\U{1680}' || ('\U{2000}' <= c <= '\U{200A}')
    || c == '\U{2028}' || c == '\U{2029}' || c == '\U{202F}' || c == '\U{205F}'
    || c == '\U{3000}' || c == '\U{FEFF}'
  }

  predicate IsDigit(c: char) { '0' <= c <= '9' }

  predicate IsUpper(c: char) {
    ('A' <= c <= 'Z') || ('\U{C0}' <= c <= '\U{DE}' && c != '\U{D7}')
  }

  /** `toLowerCase` on one code point, for the ASCII and Latin-1 letters. */
  function LowerChar(c: char): (r: char)
    ensures !IsUpper(r)
    ensures IsSpace(r) == IsSpace(c)
    ensures !IsUpper(c) ==> r == c
  {
    if IsUpper(c) then (c as int + 32) as char else c
  }

  function Lower(s: string): (r: string)
    ensures |r| == |s|
    ensures forall i :: 0 <= i < |s| ==> r[i] == LowerChar(s[i])
  {
    seq(|s|, i requires 0 <= i < |s| => LowerChar(s[i]))
  }

  lemma LowerAppend(a: string, b: string)
    ensures Lower(a + b) == Lower(a) + Lower(b)
  {
    assert forall i :: 0 <= i < |a + b| ==> Lower(a + b)[i] == (Lower(a) + Lower(b))[i];
  }

  lemma LowerSlice(s: string, i: nat, j: nat)
    requires i <= j <= |s|
    ensures Lower(s)[i..j] == Lower(s[i..j])
  {
  }

  /** A string with no upper-case letter is its own lower-case form. */
  lemma LowerIdentity(s: string)
    requires forall c :: c in s ==> !IsUpper(c)
    ensures Lower(s) == s
  {
    forall i | 0 <= i < |s| ensures Lower(s)[i] == s[i] {
      assert s[i] in s;
    }
  }

  /** Only the first letter changes when the rest is already lower case. */
  lemma LowerTail(c: char, rest: string)
    requires forall d :: d in rest ==> !IsUpper(d)
    ensures Lower([c] + rest) == [LowerChar(c)] + rest
  {
    LowerAppend([c], rest);
    LowerIdentity(rest);
  }

  /** `String.prototype.length`: UTF-16 code units, so a character beyond
      the Basic Multilingual Plane counts twice. */
  function Utf16Length(s: string): (n: nat)
    ensures |s| <= n <= 2 * |s|
  {
    if s == [] then 0 else (if s[0] as int >= 0x1_0000 then 2 else 1) + Utf16Length(s[1..])
  }

  /** Text of Basic Multilingual Plane characters has one unit per character. */
  lemma {:induction false} Utf16LengthBmp(s: string)
    requires forall i :: 0 <= i < |s| ==> s[i] as int < 0x1_0000
    ensures Utf16Length(s) == |s|
  {
    if s != [] {
      Utf16LengthBmp(s[1..]);
    }
  }

  /** Lower-casing changes only Latin-1 letters, so it keeps the length in
      code units. */
  lemma {:induction false} LowerUtf16Length(s: string)
    ensures Utf16Length(Lower(s)) == Utf16Length(s)
  {
    if s != [] {
      LowerUtf16Length(s[1..]);
      assert Lower(s)[1..] == Lower(s[1..]);
    }
  }

  predicate IsBlank(s: string) {
    forall i :: 0 <= i < |s| ==> IsSpace(s[i])
  }

  /** The first index at or after `i` that does not hold whitespace. */
  function SkipSpace(s: string, i: nat): (j: nat)
    requires i <= |s|
    ensures i <= j <= |s|
    ensures forall k :: i <= k < j ==> IsSpace(s[k])
    ensures j < |s| ==> !IsSpace(s[j])
    decreases |s| - i
  {
    if i < |s| && IsSpace(s[i]) then SkipSpace(s, i + 1) else i
  }

  /** The least index `i <= j` such that `s[i..j]` is all whitespace. */
  function BackSpace(s: string, j: nat): (i: nat)
    requires j <= |s|
    ensures i <= j
    ensures forall k :: i <= k < j ==> IsSpace(s[k])
    ensures 0 < i ==> !IsSpace(s[i - 1])
  {
    if 0 < j && IsSpace(s[j - 1]) then BackSpace(s, j - 1) else j
  }

  /** `String.prototype.trim`. */
  function Trim(s: string): (r: string)
    ensures r == [] <==> IsBlank(s)
    ensures r != [] ==> !IsSpace(r[0]) && !IsSpace(r[|r| - 1])
    ensures |r| <= |s|
  {
    var a := SkipSpace(s, 0);
    var b := BackSpace(s, |s|);
    if b <= a then
      assert a < |s| ==> b > a;
      []
    else
      s[a..b]
  }

  /** Where `Trim(s)` sits in `s`: only whitespace on either side of it. */
  lemma TrimWindow(s: string) returns (a: nat)
    ensures a <= |s| - |Trim(s)| && s[a..a + |Trim(s)|] == Trim(s)
    ensures IsBlank(s[..a]) && IsBlank(s[a + |Trim(s)|..])
  {
    a := SkipSpace(s, 0);
    var b := BackSpace(s, |s|);
    var r := Trim(s);
    assert IsBlank(s[..a]) by {
      assert forall k :: 0 <= k < a ==> s[..a][k] == s[k];
    }
    if b <= a {
      assert a < |s| ==> b > a;
      assert r == [] && s[a..a + |r|] == [] && s[a..] == [];
    } else {
      assert r == s[a..b] && a + |r| == b;
      assert IsBlank(s[b..]) by {
        assert forall k :: 0 <= k < |s[b..]| ==> s[b..][k] == s[b + k];
      }
    }
  }

  /** Two strings whose whitespace positions agree trim to the same window. */
  lemma SkipSpaceAgree(s: string, t: string, i: nat)
    requires |s| == |t| && i <= |s|
    requires forall k :: 0 <= k < |s| ==> IsSpace(s[k]) == IsSpace(t[k])
    ensures SkipSpace(s, i) == SkipSpace(t, i)
    decreases |s| - i
  {
    if i < |s| && IsSpace(s[i]) { SkipSpaceAgree(s, t, i + 1); }
  }

  lemma BackSpaceAgree(s: string, t: string, j: nat)
    requires |s| == |t| && j <= |s|
    requires forall k :: 0 <= k < |s| ==> IsSpace(s[k]) == IsSpace(t[k])
    ensures BackSpace(s, j) == BackSpace(t, j)
  {
    if 0 < j && IsSpace(s[j - 1]) { BackSpaceAgree(s, t, j - 1); }
  }

  /** Lower-casing before or after trimming gives the same string. */
  lemma TrimLower(s: string)
    ensures Trim(Lower(s)) == Lower(Trim(s))
    ensures |Trim(Lower(s))| == |Trim(s)|
  {
    var t := Lower(s);
    forall k | 0 <= k < |s| ensures IsSpace(s[k]) == IsSpace(t[k]) {
      assert t[k] == LowerChar(s[k]);
    }
    SkipSpaceAgree(s, t, 0);
    BackSpaceAgree(s, t, |s|);
    var a, b := SkipSpace(s, 0), BackSpace(s, |s|);
    if a < b {
      LowerSlice(s, a, b);
    }
  }

  /** `p` occurs in `t` at index `i`. */
  predicate ContainsAt(t: string, p: string, i: nat) {
    i + |p| <= |t| && t[i..i + |p|] == p
  }

  /** `String.prototype.includes`. */
  predicate Contains(t: string, p: string) {
    exists i :: 0 <= i <= |t| && ContainsAt(t, p, i)
  }

  /** An occurrence of `p` in `t` uses only characters that `t` has. */
  lemma ContainsChars(t: string, p: string, c: char)
    requires Contains(t, p) && c in p
    ensures c in t
  {
    var i :| 0 <= i <= |t| && ContainsAt(t, p, i);
    var j :| 0 <= j < |p| && p[j] == c;
    assert t[i..i + |p|][j] == t[i + j];
  }

  /** A phrase with a character the text lacks does not occur in it. */
  lemma MissingChar(t: string, p: string, c: char)
    requires c in p && c !in t
    ensures !Contains(t, p)
  {
    if Contains(t, p) { ContainsChars(t, p, c); }
  }

  /** A phrase whose first two characters never stand side by side in the
      text does not occur in it. */
  lemma MissingPair(t: string, p: string)
    requires |p| >= 2
    requires forall k :: 0 <= k < |t| - 1 ==> !(t[k] == p[0] && t[k + 1] == p[1])
    ensures !Contains(t, p)
  {
    if Contains(t, p) {
      var i :| 0 <= i <= |t| && ContainsAt(t, p, i);
      ContainsAtHead(t, p, i);
      assert false;
    }
  }

  lemma ContainsAtHead(t: string, p: string, i: nat)
    requires |p| >= 2 && ContainsAt(t, p, i)
    ensures t[i] == p[0] && t[i + 1] == p[1]
  {
    assert t[i..i + |p|][0] == t[i] && t[i..i + |p|][1] == t[i + 1];
  }

  /** The same, when the phrase's first character occurs in the text only at
      its start, and not followed there by the phrase's second. */
  lemma MissingAfterStart(t: string, p: string)
    requires |p| >= 2 && |t| >= 2
    requires p[0] !in t[1..] && t[1] != p[1]
    ensures !Contains(t, p)
  {
    forall k | 0 <= k < |t| - 1 ensures !(t[k] == p[0] && t[k + 1] == p[1]) {
      if k > 0 { assert t[k] == t[1..][k - 1]; }
    }
    MissingPair(t, p);
  }

  /** `v || d` for a string-valued field: an absent or empty string falls
      back to `d`. */
  function OrElse(v: Wrappers.Option<string>, d: string): (r: string)
    ensures v.Some? && v.value != [] ==> r == v.value
    ensures v.None? || v.value == [] ==> r == d
  {
    if v.Some? && v.value != [] then v.value else d
  }

  /** Some phrase of the list occurs in `t`. */
  predicate ContainsAny(t: string, phrases: seq<string>) {
    exists k :: 0 <= k < |phrases| && Contains(t, phrases[k])
  }

  /** `parts.join(sep)`. */
  function Join(sep: string, parts: seq<string>): (r: string)
    decreases |parts|
  {
    if parts == [] then ""
    else if |parts| == 1 then parts[0]
    else parts[0] + sep + Join(sep, parts[1..])
  }

  lemma JoinLast(sep: string, parts: seq<string>)
    requires |parts| >= 2
    ensures Join(sep, parts) == Join(sep, parts[..|parts| - 1]) + sep + parts[|parts| - 1]
    decreases |parts|
  {
    if |parts| > 2 {
      JoinLast(sep, parts[1..]);
      assert parts[1..][..|parts| - 2] == parts[..|parts| - 1][1..];
    }
  }

  /** The first index at or after `i` holding `c`, or `|s|`. */
  function IndexOf(s: string, c: char, i: nat): (j: nat)
    requires i <= |s|
    ensures i <= j <= |s|
    ensures forall k :: i <= k < j ==> s[k] != c
    ensures j < |s| ==> s[j] == c
    decreases |s| - i
  {
    if i == |s| || s[i] == c then i else IndexOf(s, c, i + 1)
  }

  /** `s.split(c)` with a one-character separator. */
  function Split(s: string, c: char): (r: seq<string>)
    ensures |r| >= 1
    ensures forall k :: 0 <= k < |r| ==> c !in r[k]
    decreases |s|
  {
    var i := IndexOf(s, c, 0);
    if i == |s| then [s] else [s[..i]] + Split(s[i + 1..], c)
  }

  /** Splitting and joining again with the same separator gives the input back. */
  lemma {:induction false} SplitJoin(s: string, c: char)
    ensures Join([c], Split(s, c)) == s
    decreases |s|
  {
    var i := IndexOf(s, c, 0);
    if i < |s| {
      SplitJoin(s[i + 1..], c);
      var rest := Split(s[i + 1..], c);
      assert Split(s, c) == [s[..i]] + rest;
      assert Join([c], Split(s, c)) == s[..i] + [c] + Join([c], rest);
      assert s == s[..i] + [c] + s[i + 1..];
    }
  }

  /** `s.split(c).pop()`: the text after the last `c`. */
  function LastPiece(s: string, c: char): (r: string)
  {
    var parts := Split(s, c);
    parts[|parts| - 1]
  }

  /** `r` ends `s` and is the text after the last `c` in it. */
  predicate SuffixAfter(s: string, c: char, r: string) {
    && |r| <= |s| && s[|s| - |r|..] == r && c !in r
    && (|r| < |s| ==> s[|s| - |r| - 1] == c)
  }

  lemma {:induction false} LastPieceIsSuffix(s: string, c: char)
    ensures SuffixAfter(s, c, LastPiece(s, c))
    decreases |s|
  {
    var i := IndexOf(s, c, 0);
    if i < |s| {
      var t := s[i + 1..];
      LastPieceIsSuffix(t, c);
      LastPieceSkip(s, c, i, t);
      SuffixAfterLonger(s, c, i, t, LastPiece(t, c));
    } else {
      assert Split(s, c) == [s];
    }
  }

  /** The pieces after the first `c` have the same last piece. */
  lemma LastPieceSkip(s: string, c: char, i: nat, t: string)
    requires i == IndexOf(s, c, 0) && i < |s| && t == s[i + 1..]
    ensures LastPiece(s, c) == LastPiece(t, c)
  {
    assert Split(s, c) == [s[..i]] + Split(t, c);
  }

  lemma SuffixAfterLonger(s: string, c: char, i: nat, t: string, r: string)
    requires i < |s| && s[i] == c && t == s[i + 1..] && SuffixAfter(t, c, r)
    ensures SuffixAfter(s, c, r)
  {
    var n := |r|;
    assert s[|s| - n..] == t[|t| - n..];
    if n == |t| {
      assert s[|s| - n - 1] == s[i];
    } else {
      assert s[|s| - n - 1] == t[|t| - n - 1];
    }
  }

  /** The file name of a path: `path.split('/').pop()`, which is also what
      `path.basename` returns for a path that does not end in a slash. */
  function Basename(path: string): (n: string)
    ensures |n| <= |path| && path[|path| - |n|..] == n
    ensures '/' !in n
    ensures |n| < |path| ==> path[|path| - |n| - 1] == '/'
  {
    LastPieceIsSuffix(path, '/');
    LastPiece(path, '/')
  }

  /** The pieces of `s.split(/\s+/)`: text between maximal whitespace runs. */
  function SplitWs(s: string): (r: seq<string>)
    ensures |r| >= 1
    ensures forall k :: 0 <= k < |r| ==> !(exists j :: 0 <= j < |r[k]| && IsSpace(r[k][j]))
    decreases |s|
  {
    var i := FirstSpace(s, 0);
    if i == |s| then [s]
    else
      var j := SkipSpace(s, i);
      [s[..i]] + SplitWs(s[j..])
  }

  /** The first whitespace index at or after `i`, or `|s|`. */
  function FirstSpace(s: string, i: nat): (j: nat)
    requires i <= |s|
    ensures i <= j <= |s|
    ensures forall k :: i <= k < j ==> !IsSpace(s[k])
    ensures j < |s| ==> IsSpace(s[j])
    decreases |s| - i
  {
    if i == |s| || IsSpace(s[i]) then i else FirstSpace(s, i + 1)
  }

  /** A string with no whitespace at either end has no empty piece when split. */
  lemma {:induction false} SplitWsNonEmpty(s: string)
    requires s != [] && !IsSpace(s[0]) && !IsSpace(s[|s| - 1])
    ensures forall k :: 0 <= k < |SplitWs(s)| ==> SplitWs(s)[k] != []
    decreases |s|
  {
    var i := FirstSpace(s, 0);
    if i < |s| {
      var j := SkipSpace(s, i);
      assert j < |s|;
      assert i > 0;
      SplitWsNonEmpty(s[j..]);
    }
  }

  /** The pieces written one after the other. */
  function Concat(ps: seq<string>): (r: string)
    ensures |r| >= (if ps == [] then 0 else |ps[0]|)
  {
    if ps == [] then [] else ps[0] + Concat(ps[1..])
  }

  /** Splitting drops exactly the whitespace: the pieces spell out the
      non-whitespace characters in order. */
  lemma {:induction false} SplitWsJoins(s: string)
    ensures Concat(SplitWs(s)) == NonSpace(s)
    decreases |s|
  {
    var i := FirstSpace(s, 0);
    if i == |s| {
      NonSpaceWord(s);
      assert Concat([s]) == s + Concat([]);
    } else {
      var j := SkipSpace(s, i);
      SplitWsJoins(s[j..]);
      NonSpaceSplit(s, i, j);
      ConcatCons(s[..i], SplitWs(s[j..]));
    }
  }

  /** Only the first and the last piece can be empty (leading or trailing
      whitespace). */
  lemma {:induction false} SplitWsInnerNonEmpty(s: string)
    ensures forall k :: 0 < k < |SplitWs(s)| - 1 ==> SplitWs(s)[k] != []
    decreases |s|
  {
    var i := FirstSpace(s, 0);
    if i < |s| {
      var j := SkipSpace(s, i);
      var rest := SplitWs(s[j..]);
      SplitWsInnerNonEmpty(s[j..]);
      assert SplitWs(s) == [s[..i]] + rest;
      if j < |s| {
        assert FirstSpace(s[j..], 0) > 0;
        assert rest[0] != [];
      }
    }
  }

  /** A word, a whitespace run, then the rest: only the word and the rest's
      non-whitespace remain. */
  lemma NonSpaceSplit(s: string, i: nat, j: nat)
    requires i <= j <= |s|
    requires forall k :: 0 <= k < i ==> !IsSpace(s[k])
    requires forall k :: i <= k < j ==> IsSpace(s[k])
    ensures NonSpace(s) == s[..i] + NonSpace(s[j..])
  {
    WordThenGap(s, 0, i, j);
    assert s[0..] == s;
  }

  lemma {:induction false} WordThenGap(s: string, a: nat, i: nat, j: nat)
    requires a <= i <= j <= |s|
    requires forall k :: a <= k < i ==> !IsSpace(s[k])
    requires forall k :: i <= k < j ==> IsSpace(s[k])
    ensures NonSpace(s[a..]) == s[a..i] + NonSpace(s[j..])
    decreases j - a
  {
    if a < i {
      NonSpaceCons(s, a);
      WordThenGap(s, a + 1, i, j);
      assert s[a..i] == [s[a]] + s[a + 1..i];
    } else if a < j {
      NonSpaceCons(s, a);
      WordThenGap(s, a + 1, a + 1, j);
    }
  }

  lemma NonSpaceCons(s: string, i: nat)
    requires i < |s|
    ensures NonSpace(s[i..]) == NonSpace([s[i]]) + NonSpace(s[i + 1..])
  {
    assert s[i..] == [s[i]] + s[i + 1..];
    NonSpaceAppend([s[i]], s[i + 1..]);
  }

  lemma ConcatCons(p: string, ps: seq<string>)
    ensures Concat([p] + ps) == p + Concat(ps)
  {
    assert ([p] + ps)[1..] == ps;
  }

  lemma {:induction false} NonSpaceWord(s: string)
    requires forall k :: 0 <= k < |s| ==> !IsSpace(s[k])
    ensures NonSpace(s) == s
    decreases |s|
  {
    if s != [] { NonSpaceWord(s[1..]); }
  }

  /** Decimal digits of a natural number, as `String(n)` prints it. */
  function Decimal(n: nat): (r: string)
    ensures r != []
    ensures forall k :: 0 <= k < |r| ==> IsDigit(r[k])
    decreases n
  {
    if n < 10 then [Digit(n)] else Decimal(n / 10) + [Digit(n % 10)]
  }

  function Digit(d: nat): (c: char)
    requires d < 10
    ensures IsDigit(c)
  {
    ('0' as int + d) as char
  }

  /** The value of a string of decimal digits. */
  function DecimalValue(s: string): nat
    requires forall k :: 0 <= k < |s| ==> IsDigit(s[k])
  {
    if s == [] then 0
    else
      assert IsDigit(s[|s| - 1]);
      10 * DecimalValue(s[..|s| - 1]) + (s[|s| - 1] as int - '0' as int)
  }

  /** Reading back a printed number gives the number. */
  lemma {:induction false} DecimalRoundTrip(n: nat)
    ensures DecimalValue(Decimal(n)) == n
    decreases n
  {
    if n >= 10 {
      DecimalRoundTrip(n / 10);
      var s := Decimal(n);
      assert s[..|s| - 1] == Decimal(n / 10);
    }
  }

  lemma DecimalInjective(m: nat, n: nat)
    requires Decimal(m) == Decimal(n)
    ensures m == n
  {
    DecimalRoundTrip(m);
    DecimalRoundTrip(n);
  }

  /** The characters of `s` that are not whitespace, in order. */
  function NonSpace(s: string): (r: string)
  {
    if s == [] then []
    else (if IsSpace(s[0]) then [] else [s[0]]) + NonSpace(s[1..])
  }

  lemma {:induction false} NonSpaceAppend(a: string, b: string)
    ensures NonSpace(a + b) == NonSpace(a) + NonSpace(b)
    decreases |a|
  {
    if a != [] {
      assert (a + b)[0] == a[0];
      assert (a + b)[1..] == a[1..] + b;
      NonSpaceAppend(a[1..], b);
    } else {
      assert a + b == b;
    }
  }

  lemma {:induction false} NonSpaceBlank(s: string)
    requires IsBlank(s)
    ensures NonSpace(s) == []
    decreases |s|
  {
    if s != [] { NonSpaceBlank(s[1..]); }
  }

  /** Lexicographic order on code points: the order of `localeCompare` on the
      ASCII timestamps the feed compares. */
  predicate LexLe(a: string, b: string)
    decreases |a|
  {
    a == [] || (b != [] && (a[0] < b[0] || (a[0] == b[0] && LexLe(a[1..], b[1..]))))
  }

  lemma {:induction false} LexTotal(a: string, b: string)
    ensures LexLe(a, b) || LexLe(b, a)
    decreases |a|
  {
    if a != [] && b != [] && a[0] == b[0] { LexTotal(a[1..], b[1..]); }
  }

  lemma {:induction false} LexTransitive(a: string, b: string, c: string)
    requires LexLe(a, b) && LexLe(b, c)
    ensures LexLe(a, c)
    decreases |a|
  {
    if a != [] && b != [] && c != [] && a[0] == b[0] && b[0] == c[0] {
      LexTransitive(a[1..], b[1..], c[1..]);
    }
  }
}
