/** portfolio-agent-netlify/scripts/build-embeddings.mjs: the build step that
    cuts every Markdown file of the knowledge folder into overlapping word
    windows and names each window `file::index`. Reading the files, the
    Markdown-to-text conversion and the embedding service are not modelled:
    the build starts from each file's path and its extracted plain text. */
module Embeddings {
  import opened Text

  /** One record of data/embeddings.json, without its embedding vector. */
  datatype Chunk = Chunk(id: string, text: string, source: string)

  /** The defaults of `chunk(text, max = 900, overlap = 150)`. */
  const DefaultMax: nat := 900
  const DefaultOverlap: int := 150

  // ---- chunk ------------------------------------------------------------------

  /** `words.slice(i, i + max)`. */
  function Window(words: seq<string>, i: nat, max: nat): (w: seq<string>)
    requires i <= |words|
    ensures |w| <= max
    ensures |w| == (if i + max <= |words| then max else |words| - i)
    ensures forall k :: 0 <= k < |w| ==> w[k] == words[i + k]
  {
    var len := if i + max <= |words| then max else |words| - i;
    words[i..i + len]
  }

  /** `words.slice(i, i + max).join(' ')`: the text of one window. */
  function Slice(words: seq<string>, i: nat, max: nat): string
    requires i <= |words|
  {
    Join(" ", Window(words, i, max))
  }

  /** The values the loop index takes from `i` on: `i, i + step, ...` while
      below `n`. */
  function Starts(n: nat, step: nat, i: nat): (r: seq<nat>)
    requires step > 0
    ensures forall k :: 0 <= k < |r| ==> i <= r[k] < n
    decreases n - i
  {
    if i >= n then [] else [i] + Starts(n, step, i + step)
  }

  /** The `k`-th start is `i + k * step`. */
  lemma {:induction false} StartsAt(n: nat, step: nat, i: nat, k: nat)
    requires step > 0 && k < |Starts(n, step, i)|
    ensures Starts(n, step, i)[k] == i + k * step
    decreases n - i
  {
    if k > 0 {
      StartsAt(n, step, i + step, k - 1);
      MulStep(k, step);
    }
  }

  /** The next start after the last one is not below `n`: no window is
      skipped. */
  lemma {:induction false} StartsEnd(n: nat, step: nat, i: nat)
    requires step > 0
    ensures i + |Starts(n, step, i)| * step >= n
    decreases n - i
  {
    if i < n {
      StartsEnd(n, step, i + step);
      MulStep(|Starts(n, step, i)|, step);
    }
  }

  lemma MulStep(k: int, step: int)
    requires k >= 1
    ensures (k - 1) * step + step == k * step
  {
  }

  /** The joined windows at the given starts, without those that are blank
      after trimming, in start order. */
  function KeptWindows(words: seq<string>, max: nat, starts: seq<nat>): (r: seq<string>)
    requires forall k :: 0 <= k < |starts| ==> starts[k] <= |words|
    ensures |r| <= |starts|
    ensures forall m :: 0 <= m < |r| ==> !IsBlank(r[m])
  {
    if starts == [] then []
    else
      var slice := Slice(words, starts[0], max);
      (if !IsBlank(slice) then [slice] else []) + KeptWindows(words, max, starts[1..])
  }

  /** What `chunk(text, max, overlap)` returns. It loops for ever unless
      `max > overlap`, so that is what it asks of its callers. */
  function Chunks(text: string, max: nat, overlap: int): (r: seq<string>)
    requires overlap < max
  {
    KeptFrom(SplitWs(text), max, max - overlap, 0)
  }

  /** The chunks the loop still has to push once its index is `i`. */
  function KeptFrom(words: seq<string>, max: nat, step: nat, i: nat): seq<string>
    requires step > 0
  {
    KeptWindows(words, max, Starts(|words|, step, i))
  }

  /** `chunk`: the loop over window starts. */
  method ChunkText(text: string, max: nat, overlap: int) returns (chunks: seq<string>)
    requires overlap < max
    ensures chunks == Chunks(text, max, overlap)
  {
    var words := SplitWs(text);
    var step: nat := max - overlap;
    chunks := [];
    var i: nat := 0;
    while i < |words|
      invariant chunks + KeptFrom(words, max, step, i) == KeptFrom(words, max, step, 0)
      decreases |words| - i
    {
      chunks := PushWindow(words, max, step, i, chunks);
      i := i + step;
    }
  }

  /** The body of the loop: push the window at `i` unless it is blank. */
  method PushWindow(words: seq<string>, max: nat, step: nat, i: nat, done: seq<string>)
    returns (chunks: seq<string>)
    requires step > 0 && i < |words|
    ensures chunks + KeptFrom(words, max, step, i + step) == done + KeptFrom(words, max, step, i)
  {
    var slice := Slice(words, i, max);
    WindowStep(words, max, step, i);
    chunks := done;
    if |Trim(slice)| > 0 {
      chunks := chunks + [slice];
    }
  }

  /** One turn of the loop: the window at `i`, if kept, then the rest. */
  lemma WindowStep(words: seq<string>, max: nat, step: nat, i: nat)
    requires step > 0 && i < |words|
    ensures var slice := Slice(words, i, max);
      KeptWindows(words, max, Starts(|words|, step, i))
      == (if !IsBlank(slice) then [slice] else []) + KeptWindows(words, max, Starts(|words|, step, i + step))
  {
    var rest := Starts(|words|, step, i + step);
    assert Starts(|words|, step, i) == [i] + rest;
    assert ([i] + rest)[1..] == rest;
  }

  /** `ks` says where each kept chunk comes from: `ks[m]` is the position in
      `starts` of the start of chunk `m`. The positions increase, and a start
      is used exactly when its window is not blank. */
  ghost predicate Origins(words: seq<string>, max: nat, starts: seq<nat>, ks: seq<nat>)
    requires forall k :: 0 <= k < |starts| ==> starts[k] <= |words|
  {
    OriginSlices(words, max, starts, ks) && Increasing(ks) && UsedIffKept(words, max, starts, ks)
  }

  ghost predicate OriginSlices(words: seq<string>, max: nat, starts: seq<nat>, ks: seq<nat>)
    requires forall k :: 0 <= k < |starts| ==> starts[k] <= |words|
  {
    var kept := KeptWindows(words, max, starts);
    |ks| == |kept|
    && forall m :: 0 <= m < |ks| ==>
         ks[m] < |starts| && kept[m] == Slice(words, starts[ks[m]], max)
  }

  ghost predicate Increasing(ks: seq<nat>) {
    forall m, m' :: 0 <= m < m' < |ks| ==> ks[m] < ks[m']
  }

  ghost predicate UsedIffKept(words: seq<string>, max: nat, starts: seq<nat>, ks: seq<nat>)
    requires forall k :: 0 <= k < |starts| ==> starts[k] <= |words|
  {
    forall k :: 0 <= k < |starts| ==> (k in ks <==> !IsBlank(Slice(words, starts[k], max)))
  }

  /** Every position moved one place on. */
  function Shift(xs: seq<nat>): (r: seq<nat>)
    ensures |r| == |xs| && forall m :: 0 <= m < |xs| ==> r[m] == xs[m] + 1
  {
    seq(|xs|, m requires 0 <= m < |xs| => xs[m] + 1)
  }

  lemma ShiftMember(xs: seq<nat>, k: nat)
    ensures k in Shift(xs) <==> (k > 0 && k - 1 in xs)
  {
    if k in Shift(xs) {
      var m :| 0 <= m < |xs| && Shift(xs)[m] == k;
    }
    if k > 0 && k - 1 in xs {
      var m :| 0 <= m < |xs| && xs[m] == k - 1;
      assert Shift(xs)[m] == k;
    }
  }

  lemma ShiftIncreasing(xs: seq<nat>)
    requires Increasing(xs)
    ensures Increasing(Shift(xs)) && Increasing([0] + Shift(xs))
  {
  }

  /** The first window, and then the kept windows of the other starts. */
  lemma KeptFirst(words: seq<string>, max: nat, starts: seq<nat>)
    requires forall k :: 0 <= k < |starts| ==> starts[k] <= |words|
    requires starts != []
    ensures var slice := Slice(words, starts[0], max);
      KeptWindows(words, max, starts)
      == (if !IsBlank(slice) then [slice] else []) + KeptWindows(words, max, starts[1..])
  {
  }

  /** A start other than the first is a start of the rest. */
  lemma UsedShift(words: seq<string>, max: nat, starts: seq<nat>, rest: seq<nat>)
    requires forall k :: 0 <= k < |starts| ==> starts[k] <= |words|
    requires starts != [] && UsedIffKept(words, max, starts[1..], rest)
    ensures forall k :: 1 <= k < |starts| ==>
      (k in Shift(rest) <==> !IsBlank(Slice(words, starts[k], max)))
    ensures 0 !in Shift(rest)
  {
    forall k | 1 <= k < |starts|
      ensures k in Shift(rest) <==> !IsBlank(Slice(words, starts[k], max))
    {
      ShiftMember(rest, k);
      assert starts[k] == starts[1..][k - 1];
    }
    ShiftMember(rest, 0);
  }

  /** The first start's window is blank: the origins are those of the rest,
      one place on. */
  lemma OriginsSkip(words: seq<string>, max: nat, starts: seq<nat>, rest: seq<nat>)
    requires forall k :: 0 <= k < |starts| ==> starts[k] <= |words|
    requires starts != [] && IsBlank(Slice(words, starts[0], max))
    requires Origins(words, max, starts[1..], rest)
    ensures Origins(words, max, starts, Shift(rest))
  {
    SlicesSkip(words, max, starts, rest);
    UsedShift(words, max, starts, rest);
    ShiftIncreasing(rest);
  }

  /** The first start's window is kept: it is origin 0, then those of the
      rest, one place on. */
  lemma OriginsKeep(words: seq<string>, max: nat, starts: seq<nat>, rest: seq<nat>)
    requires forall k :: 0 <= k < |starts| ==> starts[k] <= |words|
    requires starts != [] && !IsBlank(Slice(words, starts[0], max))
    requires Origins(words, max, starts[1..], rest)
    ensures Origins(words, max, starts, [0] + Shift(rest))
  {
    SlicesKeep(words, max, starts, rest);
    UsedKeep(words, max, starts, rest);
    ShiftIncreasing(rest);
  }

  lemma SlicesSkip(words: seq<string>, max: nat, starts: seq<nat>, rest: seq<nat>)
    requires forall k :: 0 <= k < |starts| ==> starts[k] <= |words|
    requires starts != [] && IsBlank(Slice(words, starts[0], max))
    requires OriginSlices(words, max, starts[1..], rest)
    ensures OriginSlices(words, max, starts, Shift(rest))
  {
    KeptFirst(words, max, starts);
    var kept := KeptWindows(words, max, starts);
    var ks := Shift(rest);
    forall m | 0 <= m < |ks|
      ensures ks[m] < |starts| && kept[m] == Slice(words, starts[ks[m]], max)
    {
      assert starts[ks[m]] == starts[1..][rest[m]];
    }
  }

  lemma SlicesKeep(words: seq<string>, max: nat, starts: seq<nat>, rest: seq<nat>)
    requires forall k :: 0 <= k < |starts| ==> starts[k] <= |words|
    requires starts != [] && !IsBlank(Slice(words, starts[0], max))
    requires OriginSlices(words, max, starts[1..], rest)
    ensures OriginSlices(words, max, starts, [0] + Shift(rest))
  {
    KeptFirst(words, max, starts);
    var kept := KeptWindows(words, max, starts);
    var tail := KeptWindows(words, max, starts[1..]);
    assert kept == [Slice(words, starts[0], max)] + tail;
    var ks := [0] + Shift(rest);
    forall m | 0 <= m < |ks|
      ensures ks[m] < |starts| && kept[m] == Slice(words, starts[ks[m]], max)
    {
      KeptAt(words, max, starts, rest, kept, tail, m);
    }
  }

  /** The first kept window comes from the first start, the later ones from
      their origins one place further on. */
  lemma KeptAt(words: seq<string>, max: nat, starts: seq<nat>, rest: seq<nat>,
               kept: seq<string>, tail: seq<string>, m: nat)
    requires forall k :: 0 <= k < |starts| ==> starts[k] <= |words|
    requires starts != [] && tail == KeptWindows(words, max, starts[1..])
    requires kept == [Slice(words, starts[0], max)] + tail
    requires OriginSlices(words, max, starts[1..], rest) && m < 1 + |rest|
    ensures var ks := [0] + Shift(rest);
      ks[m] < |starts| && kept[m] == Slice(words, starts[ks[m]], max)
  {
    if m > 0 {
      assert kept[m] == tail[m - 1];
      assert starts[rest[m - 1] + 1] == starts[1..][rest[m - 1]];
    }
  }

  lemma UsedKeep(words: seq<string>, max: nat, starts: seq<nat>, rest: seq<nat>)
    requires forall k :: 0 <= k < |starts| ==> starts[k] <= |words|
    requires starts != [] && !IsBlank(Slice(words, starts[0], max))
    requires UsedIffKept(words, max, starts[1..], rest)
    ensures UsedIffKept(words, max, starts, [0] + Shift(rest))
  {
    UsedShift(words, max, starts, rest);
    forall k | 0 <= k < |starts|
      ensures k in [0] + Shift(rest) <==> !IsBlank(Slice(words, starts[k], max))
    {
      assert k in [0] + Shift(rest) <==> k == 0 || k in Shift(rest);
    }
  }

  lemma {:induction false} KeptOrigins(words: seq<string>, max: nat, starts: seq<nat>)
    returns (ks: seq<nat>)
    requires forall k :: 0 <= k < |starts| ==> starts[k] <= |words|
    ensures Origins(words, max, starts, ks)
    decreases |starts|
  {
    if starts == [] {
      ks := [];
    } else {
      var rest := KeptOrigins(words, max, starts[1..]);
      if IsBlank(Slice(words, starts[0], max)) {
        OriginsSkip(words, max, starts, rest);
        ks := Shift(rest);
      } else {
        OriginsKeep(words, max, starts, rest);
        ks := [0] + Shift(rest);
      }
    }
  }

  /** The chunks of a text: each is the join of the window of at most `max`
      words that starts at word `k * step` for some `k`, below the word count;
      they come in start order, and a window is missing only when it is blank. */
  lemma ChunkWindows(text: string, max: nat, overlap: int) returns (ks: seq<nat>)
    requires overlap < max
    ensures var words := SplitWs(text); var step := max - overlap;
      var chunks := Chunks(text, max, overlap);
      |ks| == |chunks|
      && (forall m :: 0 <= m < |ks| ==>
            ks[m] * step < |words| && chunks[m] == Slice(words, ks[m] * step, max))
      && (forall m, m' :: 0 <= m < m' < |ks| ==> ks[m] < ks[m'])
      && (forall k: nat :: k * step < |words| ==>
            (k in ks <==> !IsBlank(Slice(words, k * step, max))))
  {
    var words := SplitWs(text);
    var step := max - overlap;
    var st := Starts(|words|, step, 0);
    ks := KeptOrigins(words, max, st);
    forall k: nat | k < |st| ensures st[k] == k * step {
      StartsAt(|words|, step, 0, k);
    }
    forall k: nat | k * step < |words| ensures k < |st| {
      StartsEnd(|words|, step, 0);
      if k >= |st| {
        MulMono(|st|, k, step);
      }
    }
  }

  lemma MulMono(a: nat, b: nat, c: nat)
    requires a <= b
    ensures a * c <= b * c
  {
  }

  /** When the step does not exceed the window (`overlap >= 0`), every word
      lies in some window. */
  lemma Coverage(n: nat, max: nat, overlap: int, j: nat)
    requires 0 <= overlap < max && j < n
    ensures var st := Starts(n, max - overlap, 0);
      exists k :: 0 <= k < |st| && st[k] <= j < st[k] + max
  {
    var step := max - overlap;
    var st := Starts(n, step, 0);
    var k := j / step;
    DivBounds(j, step);
    StartsEnd(n, step, 0);
    if k >= |st| {
      MulMono(|st|, k, step);
    }
    StartsAt(n, step, 0, k);
  }

  lemma DivBounds(j: nat, step: nat)
    requires step > 0
    ensures (j / step) * step <= j < (j / step) * step + step
  {
  }

  /** Two consecutive windows of which the second is full share exactly
      `overlap` words: the last ones of the first are the first ones of the
      second. */
  lemma SharedWords(words: seq<string>, max: nat, overlap: int, k: nat)
    requires 0 <= overlap < max
    requires var st := Starts(|words|, max - overlap, 0);
      k + 1 < |st| && st[k + 1] + max <= |words|
    ensures var st := Starts(|words|, max - overlap, 0);
      var first := Window(words, st[k], max);
      var second := Window(words, st[k + 1], max);
      |first| == max && |second| == max
      && first[max - overlap..] == second[..overlap]
  {
    var step := max - overlap;
    var st := Starts(|words|, step, 0);
    StartsAt(|words|, step, 0, k);
    StartsAt(|words|, step, 0, k + 1);
    MulStep(k + 1, step);
  }

  // ---- ids ----------------------------------------------------------------------

  /** `${path.basename(file)}::${idx}` */
  function ChunkId(base: string, idx: nat): (id: string)
  {
    base + "::" + Decimal(idx)
  }

  /** An id names its file and its index: since the index is all digits and
      follows a colon, two ids are equal only for the same file name and the
      same index. */
  lemma ChunkIdInjective(b1: string, i: nat, b2: string, j: nat)
    requires ChunkId(b1, i) == ChunkId(b2, j)
    ensures b1 == b2 && i == j
  {
    var s := ChunkId(b1, i);
    var d1, d2 := Decimal(i), Decimal(j);
    ColonDigits(s, d1, d2);
    ColonDigits(s, d2, d1);
    assert d1 == s[|s| - |d1|..] == d2;
    DecimalInjective(i, j);
    assert b1 == s[..|b1|] == b2;
  }

  /** Two digit strings that both end `s` right after a colon have the same
      length: the colon would otherwise fall on a digit of the longer one. */
  lemma ColonDigits(s: string, d1: string, d2: string)
    requires |d1| < |s| && |d2| < |s|
    requires s[|s| - |d1| - 1] == ':' && s[|s| - |d1|..] == d1
    requires s[|s| - |d2|..] == d2 && forall k :: 0 <= k < |d2| ==> IsDigit(d2[k])
    ensures |d1| >= |d2|
  {
    SuffixDigits(s, d2);
  }

  lemma SuffixDigits(s: string, d: string)
    requires |d| <= |s| && s[|s| - |d|..] == d && forall k :: 0 <= k < |d| ==> IsDigit(d[k])
    ensures forall j :: |s| - |d| <= j < |s| ==> IsDigit(s[j])
  {
    forall j | |s| - |d| <= j < |s| ensures IsDigit(s[j]) {
      assert s[j] == d[j - (|s| - |d|)];
    }
  }

  // ---- the build loop -------------------------------------------------------------

  /** A Markdown file of the knowledge folder: its path and its plain text
      (front matter dropped, Markdown reduced to its text, code and inline
      code). */
  datatype Source = Source(path: string, text: string)

  /** The records for one file: one per chunk, numbered from 0. */
  function FileChunks(f: Source): (r: seq<Chunk>)
    ensures |r| == |Chunks(f.text, DefaultMax, DefaultOverlap)|
  {
    var parts := Chunks(f.text, DefaultMax, DefaultOverlap);
    seq(|parts|, idx requires 0 <= idx < |parts| =>
      Chunk(ChunkId(Basename(f.path), idx), parts[idx], f.path))
  }

  /** The records of all files, file by file. */
  function AllChunks(files: seq<Source>): (r: seq<Chunk>)
  {
    if files == [] then []
    else AllChunks(files[..|files| - 1]) + FileChunks(files[|files| - 1])
  }

  /** The last file's records come last. */
  lemma AllChunksLast(files: seq<Source>, n: nat)
    requires n < |files|
    ensures AllChunks(files[..n + 1]) == AllChunks(files[..n]) + FileChunks(files[n])
  {
    assert files[..n + 1][..n] == files[..n];
  }

  /** The main loop of the build script over the files. */
  method Build(files: seq<Source>) returns (chunks: seq<Chunk>)
    ensures chunks == AllChunks(files)
  {
    chunks := [];
    for n := 0 to |files|
      invariant chunks == AllChunks(files[..n])
    {
      chunks := PushFile(files[n], chunks);
      AllChunksLast(files, n);
    }
    assert files[..|files|] == files;
  }

  /** The loop body: chunk one file and push a record per chunk
      (`parts.forEach`). */
  method PushFile(file: Source, done: seq<Chunk>) returns (chunks: seq<Chunk>)
    ensures chunks == done + FileChunks(file)
  {
    var parts := ChunkText(file.text, DefaultMax, DefaultOverlap);
    chunks := done;
    for idx := 0 to |parts|
      invariant chunks == done + FileChunks(file)[..idx]
    {
      chunks := chunks + [Chunk(ChunkId(Basename(file.path), idx), parts[idx], file.path)];
      assert FileChunks(file)[..idx + 1] == FileChunks(file)[..idx] + [FileChunks(file)[idx]];
    }
    assert FileChunks(file)[..|parts|] == FileChunks(file);
  }

  /** Where a record of the build comes from: file `f`, chunk `idx`. */
  lemma {:induction false} ChunkOrigin(files: seq<Source>, p: nat) returns (f: nat, idx: nat)
    requires p < |AllChunks(files)|
    ensures f < |files| && idx < |FileChunks(files[f])|
    ensures p == |AllChunks(files[..f])| + idx
    ensures AllChunks(files)[p] == FileChunks(files[f])[idx]
    decreases |files|
  {
    var init := files[..|files| - 1];
    AllChunksLast(files, |files| - 1);
    assert files[..|files|] == files;
    if p < |AllChunks(init)| {
      f, idx := ChunkOrigin(init, p);
      assert init[..f] == files[..f] && init[f] == files[f];
    } else {
      f, idx := |files| - 1, p - |AllChunks(init)|;
    }
  }

  /** Every record's text is a non-blank chunk of its own file, its source is
      that file's path, and its id names that file and the chunk's index. */
  lemma ChunkOfItsFile(files: seq<Source>, p: nat)
    requires p < |AllChunks(files)|
    ensures exists f: nat, idx: nat ::
      0 <= f < |files|
      && idx < |Chunks(files[f].text, DefaultMax, DefaultOverlap)|
      && AllChunks(files)[p].source == files[f].path
      && AllChunks(files)[p].text == Chunks(files[f].text, DefaultMax, DefaultOverlap)[idx]
      && !IsBlank(AllChunks(files)[p].text)
      && AllChunks(files)[p].id == ChunkId(Basename(files[f].path), idx)
  {
    var f, idx := ChunkOrigin(files, p);
  }

  /** Within one file the ids are all different, whatever the file is called. */
  lemma FileIdsDistinct(f: Source, i: nat, j: nat)
    requires i < j < |FileChunks(f)|
    ensures FileChunks(f)[i].id != FileChunks(f)[j].id
  {
    var b := Basename(f.path);
    if FileChunks(f)[i].id == FileChunks(f)[j].id {
      ChunkIdInjective(b, i, b, j);
    }
  }

  /** Ids are unique across the build when no two files share a file name. */
  lemma IdsDistinct(files: seq<Source>, p: nat, q: nat)
    requires forall a, b :: 0 <= a < b < |files| ==> Basename(files[a].path) != Basename(files[b].path)
    requires p < q < |AllChunks(files)|
    ensures AllChunks(files)[p].id != AllChunks(files)[q].id
  {
    var f, i := ChunkOrigin(files, p);
    var g, j := ChunkOrigin(files, q);
    if AllChunks(files)[p].id == AllChunks(files)[q].id {
      ChunkIdInjective(Basename(files[f].path), i, Basename(files[g].path), j);
      assert false;
    }
  }

  // ---- the file filter of walk -------------------------------------------------

  predicate IsLetter(c: char, lower: char, upper: char) { c == lower || c == upper }

  /** `/\.(md|mdx)$/i.test(name)`. */
  predicate IsMarkdownName(name: string) {
    var n := |name|;
    (n >= 3 && name[n - 3] == '.' && IsLetter(name[n - 2], 'm', 'M') && IsLetter(name[n - 1], 'd', 'D'))
    || (n >= 4 && name[n - 4] == '.' && IsLetter(name[n - 3], 'm', 'M')
        && IsLetter(name[n - 2], 'd', 'D') && IsLetter(name[n - 1], 'x', 'X'))
  }

  /** A name passes exactly when, lower-cased, it ends in `.md` or `.mdx`. */
  lemma MarkdownNameLower(name: string)
    ensures IsMarkdownName(name) <==> ((|name| >= 3 && Lower(name[|name| - 3..]) == ".md")
                                      || (|name| >= 4 && Lower(name[|name| - 4..]) == ".mdx"))
  {
    LowerLetters(name);
  }

  lemma LowerLetters(name: string)
    ensures |name| >= 3 ==> (Lower(name[|name| - 3..]) == ".md" <==>
      (name[|name| - 3] == '.' && IsLetter(name[|name| - 2], 'm', 'M')
       && IsLetter(name[|name| - 1], 'd', 'D')))
    ensures |name| >= 4 ==> (Lower(name[|name| - 4..]) == ".mdx" <==>
      (name[|name| - 4] == '.' && IsLetter(name[|name| - 3], 'm', 'M')
       && IsLetter(name[|name| - 2], 'd', 'D') && IsLetter(name[|name| - 1], 'x', 'X')))
  {
    var n := |name|;
    if n >= 3 {
      MdSuffix(name[n - 3..]);
    }
    if n >= 4 {
      MdxSuffix(name[n - 4..]);
    }
  }

  lemma MdSuffix(w: string)
    requires |w| == 3
    ensures Lower(w) == ".md" <==>
      (w[0] == '.' && IsLetter(w[1], 'm', 'M') && IsLetter(w[2], 'd', 'D'))
  {
    LowerCharIs(w[0]);
    LowerCharIs(w[1]);
    LowerCharIs(w[2]);
    if w[0] == '.' && IsLetter(w[1], 'm', 'M') && IsLetter(w[2], 'd', 'D') {
      assert Lower(w) == [Lower(w)[0], Lower(w)[1], Lower(w)[2]];
    }
  }

  lemma MdxSuffix(w: string)
    requires |w| == 4
    ensures Lower(w) == ".mdx" <==>
      (w[0] == '.' && IsLetter(w[1], 'm', 'M') && IsLetter(w[2], 'd', 'D') && IsLetter(w[3], 'x', 'X'))
  {
    LowerCharIs(w[0]);
    LowerCharIs(w[1]);
    LowerCharIs(w[2]);
    LowerCharIs(w[3]);
    if w[0] == '.' && IsLetter(w[1], 'm', 'M') && IsLetter(w[2], 'd', 'D') && IsLetter(w[3], 'x', 'X') {
      assert Lower(w) == [Lower(w)[0], Lower(w)[1], Lower(w)[2], Lower(w)[3]];
    }
  }

  /** Only `.`, `m`/`M`, `d`/`D` and `x`/`X` lower-case to `.`, `m`, `d` and `x`. */
  lemma LowerCharIs(c: char)
    ensures LowerChar(c) == '.' <==> c == '.'
    ensures LowerChar(c) == 'm' <==> IsLetter(c, 'm', 'M')
    ensures LowerChar(c) == 'd' <==> IsLetter(c, 'd', 'D')
    ensures LowerChar(c) == 'x' <==> IsLetter(c, 'x', 'X')
  {
  }

  /** The test gives the same answer for a file name and for the full path
      `dir/name` that `walk` builds from it, so the collected paths are
      exactly those of the Markdown files. */
  lemma MarkdownPath(dir: string, name: string)
    ensures IsMarkdownName(dir + "/" + name) <==> IsMarkdownName(name)
  {
    var p := dir + "/" + name;
    var n := |p|;
    if |name| < 4 {
      assert p[n - |name| - 1] == '/';
    }
    if |name| >= 3 {
      assert p[n - 3..] == name[|name| - 3..];
    }
    if |name| >= 4 {
      assert p[n - 4..] == name[|name| - 4..];
    }
  }
}
