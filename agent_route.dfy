/** The `POST` handler of portfolio-agent-netlify/app/api/agent/route.ts: it
    takes the last chat message as the query, ranks the embedded corpus by
    similarity, keeps the six best chunks, asks the chat model for an answer
    and appends a numbered `Sources:` footer naming the files of the chunks
    it used. The embedding and chat-completion services and the cosine
    similarity are parameters: a query maps to a scoring function over
    chunks, and a prompt to a completion. */
module AgentRoute {
  import opened Wrappers
  import opened Text
  import opened Sorting
  import opened Lists
  import opened ChatDisplay
  import ChatCleanup
  import Embeddings

  // ---- the query ------------------------------------------------------------

  /** `messages?.[messages.length - 1]?.content || ''`: the request body's
      message list may be missing, and each message's content may be
      missing. */
  function LastContent(messages: Option<seq<Option<string>>>): (q: string)
    ensures q != [] ==> messages.Some? && messages.value != []
                        && messages.value[|messages.value| - 1] == Some(q)
    ensures q == [] <==> messages.None? || messages.value == []
                         || OrElse(messages.value[|messages.value| - 1], "") == []
  {
    match messages
    case None => ""
    case Some(ms) => if ms == [] then "" else OrElse(ms[|ms| - 1], "")
  }

  // ---- ranking ----------------------------------------------------------------

  /** A record of data/embeddings.json as the build script writes it. */
  type Chunk = Embeddings.Chunk

  /** A chunk with the similarity of its embedding to the query's. */
  datatype Scored = Scored(chunk: Chunk, score: real)

  /** The number of chunks handed to the chat model. */
  const TopK: nat := 6

  function Min(a: nat, b: nat): nat { if a <= b then a else b }

  /** `EMBEDDINGS.map(e => ({ ...e, score }))`. */
  function ScoreAll(corpus: seq<Chunk>, score: Chunk -> real): (r: seq<Scored>)
    ensures |r| == |corpus|
    ensures forall i :: 0 <= i < |r| ==> r[i] == Scored(corpus[i], score(corpus[i]))
  {
    seq(|corpus|, i requires 0 <= i < |corpus| => Scored(corpus[i], score(corpus[i])))
  }

  /** The comparator `(a, b) => b.score - a.score` lets `a` stay ahead of `b`
      when it returns a value that is not positive. */
  predicate HigherFirst(a: Scored, b: Scored) {
    b.score - a.score <= 0.0
  }

  lemma HigherFirstPreorder()
    ensures TotalPreorder(HigherFirst)
  {
  }

  /** The scored corpus after the stable sort. */
  function Ranked(corpus: seq<Chunk>, score: Chunk -> real): (r: seq<Scored>)
    ensures |r| == |corpus|
    ensures multiset(r) == multiset(ScoreAll(corpus, score))
  {
    SortLength(ScoreAll(corpus, score), HigherFirst);
    Sort(ScoreAll(corpus, score), HigherFirst)
  }

  /** `.slice(0, 6)` of the ranked list. */
  function Top(corpus: seq<Chunk>, score: Chunk -> real): (r: seq<Scored>)
    ensures |r| == Min(TopK, |corpus|)
  {
    Ranked(corpus, score)[..Min(TopK, |corpus|)]
  }

  /** The chunks the slice leaves out. */
  function Unselected(corpus: seq<Chunk>, score: Chunk -> real): (r: seq<Scored>)
    ensures |r| == |corpus| - Min(TopK, |corpus|)
  {
    Ranked(corpus, score)[Min(TopK, |corpus|)..]
  }

  /** The selection holds min(6, n) chunks in non-increasing score order, it
      and the rest together are exactly the scored corpus, and no chunk left
      out scores higher than a selected one. */
  lemma TopSelection(corpus: seq<Chunk>, score: Chunk -> real)
    ensures var top := Top(corpus, score);
      |top| == Min(TopK, |corpus|)
      && (forall i, j :: 0 <= i < j < |top| ==> top[j].score <= top[i].score)
      && multiset(top) + multiset(Unselected(corpus, score)) == multiset(ScoreAll(corpus, score))
      && (forall a, b :: a in top && b in Unselected(corpus, score) ==> b.score <= a.score)
  {
    var r := Ranked(corpus, score);
    var n := Min(TopK, |corpus|);
    HigherFirstPreorder();
    SortOrdered(ScoreAll(corpus, score), HigherFirst);
    assert r == r[..n] + r[n..];
    forall a, b | a in r[..n] && b in r[n..] ensures b.score <= a.score {
      var i :| 0 <= i < n && r[i] == a;
      var j :| n <= j < |r| && r[j] == b;
      assert HigherFirst(r[i], r[j]);
    }
  }

  /** Stability: among the chunks that score the same as `p`, the selected
      ones are the earliest of them in corpus order. */
  lemma TopKeepsCorpusOrder(corpus: seq<Chunk>, score: Chunk -> real, p: Scored)
    ensures var all := TiedWith(ScoreAll(corpus, score), p, HigherFirst);
      var chosen := TiedWith(Top(corpus, score), p, HigherFirst);
      |chosen| <= |all| && all[..|chosen|] == chosen
  {
    var r := Ranked(corpus, score);
    var n := Min(TopK, |corpus|);
    HigherFirstPreorder();
    SortStable(ScoreAll(corpus, score), p, HigherFirst);
    assert r == r[..n] + r[n..];
    TiedWithAppend(r[..n], r[n..], p, HigherFirst);
  }

  // ---- the sources footer -----------------------------------------------------

  function Sources(top: seq<Scored>): (r: seq<string>)
    ensures |r| == |top|
    ensures forall i :: 0 <= i < |r| ==> r[i] == Basename(top[i].chunk.source)
  {
    seq(|top|, i requires 0 <= i < |top| => Basename(top[i].chunk.source))
  }

  /** `Array.from(new Set(top.map(basename)))`: every selected file name once,
      in the order in which it first appears among the selected chunks. */
  function Uniq(top: seq<Scored>): (u: seq<string>)
    ensures Distinct(u)
    ensures forall n :: n in u <==> n in Sources(top)
    ensures forall n :: n in u <==> exists i :: 0 <= i < |top| && Basename(top[i].chunk.source) == n
    ensures forall i, j :: 0 <= i < j < |u| ==>
      FirstIndex(Sources(top), u[i]) < FirstIndex(Sources(top), u[j])
  {
    var names := Sources(top);
    DedupOrder(names);
    assert forall n :: n in names <==> exists i :: 0 <= i < |top| && Basename(top[i].chunk.source) == n by {
      forall n | n in names ensures exists i :: 0 <= i < |top| && Basename(top[i].chunk.source) == n {
        var i :| 0 <= i < |names| && names[i] == n;
      }
    }
    Dedup(names)
  }

  /** `uniq.map((n, i) => `[${i + 1}] ${n}`)`. */
  function Numbered(names: seq<string>): (r: seq<string>)
    ensures |r| == |names|
    ensures forall i :: 0 <= i < |r| ==> r[i] == "[" + Decimal(i + 1) + "] " + names[i]
  {
    seq(|names|, i requires 0 <= i < |names| => "[" + Decimal(i + 1) + "] " + names[i])
  }

  /** The text that precedes the numbered list. */
  const FooterHead: string := "\n\nSources: "

  /** The reply: the answer, a blank line, then `Sources: [1] a, [2] b`. */
  function Cited(text: string, names: seq<string>): (r: string)
  {
    text + FooterHead + Join(", ", Numbered(names))
  }

  /** `completion.choices[0]?.message?.content || 'Sorry, no response.'` */
  function ReplyText(content: Option<string>): (t: string)
    ensures t != []
    ensures content.Some? && content.value != [] ==> t == content.value
  {
    OrElse(content, "Sorry, no response.")
  }

  // ---- the handler ------------------------------------------------------------

  datatype Response = Reply(reply: string) | Failure(status: nat, error: string)

  /** Everything after the similarity scores are known: the selection, the
      completion for it and the cited reply. */
  function Answer(corpus: seq<Chunk>, score: Chunk -> real,
                  completion: Result<Option<string>, string>): (r: Response)
    ensures completion.Err? ==> r == Failure(500, OrElse(Some(completion.error), "Error"))
    ensures completion.Ok? ==>
      r == Reply(Cited(ReplyText(completion.value), Uniq(Top(corpus, score))))
  {
    match completion
    case Err(m) => Failure(500, OrElse(Some(m), "Error"))
    case Ok(content) => Reply(Cited(ReplyText(content), Uniq(Top(corpus, score))))
  }

  /** `POST`: a body that cannot be read and a failing service call end in the
      `catch`, which answers 500 with the error's message or `Error`. */
  function Post(body: Result<Option<seq<Option<string>>>, string>,
                embed: string -> Result<Chunk -> real, string>,
                complete: (string, seq<Scored>) -> Result<Option<string>, string>,
                corpus: seq<Chunk>): (r: Response)
    ensures r.Failure? ==> r.status == 500 && r.error != []
  {
    match body
    case Err(m) => Failure(500, OrElse(Some(m), "Error"))
    case Ok(messages) =>
      var q := LastContent(messages);
      match embed(q)
      case Err(m) => Failure(500, OrElse(Some(m), "Error"))
      case Ok(score) => Answer(corpus, score, complete(q, Top(corpus, score)))
  }

  // ---- the footer and the chat window's stripSourcesFooter --------------------

  /** A run of newlines from `p` up to `h`, then something else. */
  lemma {:induction false} SkipNewlinesRun(s: string, p: nat, h: nat)
    requires p <= h < |s| && s[h] != '\n'
    requires forall k :: p <= k < h ==> s[k] == '\n'
    ensures SkipNewlines(s, p) == h
    decreases h - p
  {
    if p < h {
      SkipNewlinesRun(s, p + 1, h);
    }
  }

  /** The appended footer is itself a match, as is a newline run that ends
      the text and runs into it. */
  lemma FooterMatches(text: string, names: seq<string>, p: nat)
    requires p <= |text|
    requires forall k :: p <= k < |text| ==> text[k] == '\n'
    ensures FooterAt(Cited(text, names), p)
  {
    var s := Cited(text, names);
    var n := |text|;
    assert s[n..n + 11] == FooterHead;
    assert forall k :: p <= k < n ==> s[k] == text[k];
    FooterAtHead(s, n, p);
  }

  /** The footer's head is a match, from any newline run that runs into it. */
  lemma FooterAtHead(s: string, n: nat, p: nat)
    requires p <= n && n + 11 <= |s| && s[n..n + 11] == FooterHead
    requires forall k :: p <= k < n ==> s[k] == '\n'
    ensures FooterAt(s, p)
  {
    assert s[n] == '\n' && s[n + 1] == '\n' && s[n + 2] == 'S';
    SkipNewlinesRun(s, p, n + 2);
    assert FooterHead[2..10] == "Sources:";
    assert s[n + 2..n + 10] == s[n..n + 11][2..10];
    SourcesLabel();
    assert IsSpace(s[n + 10]);
  }

  lemma SourcesLabel()
    ensures Lower("Sources:") == "sources:"
  {
    LowerTail('S', "ources:");
    assert "Sources:" == ['S'] + "ources:";
  }


  /** Before the end of the text, a newline run cannot reach the footer. */
  lemma {:induction false} SkipNewlinesInside(text: string, tail: string, k: nat)
    requires k < |text| && text[|text| - 1] != '\n'
    ensures SkipNewlines(text + tail, k) == SkipNewlines(text, k) < |text|
    decreases |text| - k
  {
    var s := text + tail;
    assert s[k] == text[k];
    if text[k] == '\n' {
      SkipNewlinesInside(text, tail, k + 1);
    }
  }

  /** A window of eight characters that holds a newline is not `sources:` in
      any letter case. */
  lemma NewlineBreaksLabel(s: string, q: nat, n: nat)
    requires q <= n < |s| && s[n] == '\n'
    ensures q + 8 <= |s| && n < q + 8 ==> Lower(s[q..q + 8]) != "sources:"
  {
    if q + 8 <= |s| && n < q + 8 {
      assert Lower(s[q..q + 8])[n - q] == '\n';
    }
  }

  /** A match that starts inside the text and does not end in it would read a
      newline as a letter of `sources:`, so it is a match of `text + "\n"`. */
  lemma EarlierFooter(text: string, names: seq<string>, k: nat)
    requires k < |text| && text[|text| - 1] != '\n'
    requires FooterAt(Cited(text, names), k)
    ensures FooterAt(text + "\n", k)
  {
    var s := Cited(text, names);
    var u := text + "\n";
    var n := |text|;
    var tail := FooterHead + Join(", ", Numbered(names));
    assert s == text + tail;
    SkipNewlinesInside(text, tail, k);
    SkipNewlinesInside(text, "\n", k);
    var q := SkipNewlines(s, k);
    assert SkipNewlines(u, k) == q;
    LabelBeforeEnd(text, tail, q);
  }

  /** A label that starts inside the text ends before the footer's first
      newline, so a single newline after the text keeps it whole. */
  lemma LabelBeforeEnd(text: string, tail: string, q: nat)
    requires q < |text| && tail != [] && tail[0] == '\n'
    requires var s := text + tail;
      q + 9 <= |s| && Lower(s[q..q + 8]) == "sources:" && IsSpace(s[q + 8])
    ensures var u := text + "\n";
      q + 9 <= |u| && Lower(u[q..q + 8]) == "sources:" && IsSpace(u[q + 8])
  {
    var s, u, n := text + tail, text + "\n", |text|;
    NewlineBreaksLabel(s, q, n);
    assert u[q..q + 8] == s[q..q + 8];
    if q + 8 < n {
      assert u[q + 8] == s[q + 8];
    } else {
      assert u[q + 8] == '\n';
    }
  }

  /** The round trip with the chat window: stripping the footer from a reply
      gives back exactly the answer text, unless the text already holds a
      match once a newline is added, or ends in a newline (that newline then
      joins the footer's own). */
  lemma CitedStripped(text: string, names: seq<string>)
    ensures StripSourcesFooter(Cited(text, names)) == text
            <==> !HasFooter(text + "\n") && (text == [] || text[|text| - 1] != '\n')
  {
    if text != [] && text[|text| - 1] == '\n' {
      TrailingNewlineCut(text, names);
    } else if HasFooter(text + "\n") {
      EarlyFooterCut(text, names);
    } else {
      CleanTextKept(text, names);
    }
  }

  lemma TrailingNewlineCut(text: string, names: seq<string>)
    requires text != [] && text[|text| - 1] == '\n'
    ensures |StripSourcesFooter(Cited(text, names))| < |text|
  {
    FooterMatches(text, names, |text| - 1);
    assert FirstFooter(Cited(text, names), 0) <= |text| - 1;
  }

  lemma EarlyFooterCut(text: string, names: seq<string>)
    requires HasFooter(text + "\n")
    ensures |StripSourcesFooter(Cited(text, names))| < |text|
  {
    var s := Cited(text, names);
    var n := |text|;
    var k :| 0 <= k < n + 1 && FooterAt(text + "\n", k);
    assert k < n;
    assert text + "\n" == s[..n + 1];
    FooterAtExtend(text + "\n", s, k);
    assert FirstFooter(s, 0) <= k;
  }

  lemma CleanTextKept(text: string, names: seq<string>)
    requires !HasFooter(text + "\n") && (text == [] || text[|text| - 1] != '\n')
    ensures StripSourcesFooter(Cited(text, names)) == text
  {
    var s := Cited(text, names);
    var n := |text|;
    var p := FirstFooter(s, 0);
    FooterMatches(text, names, n);
    assert p <= n;
    if p < n {
      EarlierFooter(text, names, p);
      assert false;
    }
    assert s[..n] == text;
  }

  /** The fallback answer always survives the round trip: the window renders
      it as if the footer had never been added. */
  lemma FallbackShown(names: seq<string>)
    ensures StripSourcesFooter(Cited(ReplyText(None), names)) == ReplyText(None)
    ensures Shown(Cited(ReplyText(None), names))
            == LinksToHtml(ChatCleanup.StripCitationsAndCleanup(ReplyText(None)))
  {
    var t := ReplyText(None);
    NoNewlineNoFooter(t);
    CitedStripped(t, names);
  }

  /** Text with no newline at all has no match even after one is appended. */
  lemma NoNewlineNoFooter(t: string)
    requires '\n' !in t
    ensures !HasFooter(t + "\n")
  {
    var u := t + "\n";
    forall p | 0 <= p < |u| ensures !FooterAt(u, p) {
      if p < |t| {
        assert u[p] == t[p];
      } else {
        assert SkipNewlines(u, p) == |u|;
      }
    }
  }

  /** Stripping the footer from a successful reply gives back exactly the
      model's text, so the chat window renders that text: citations cleaned
      out, escaped, links made anchors. */
  lemma ReplyShown(corpus: seq<Chunk>, score: Chunk -> real,
                   completion: Result<Option<string>, string>)
    requires completion.Ok?
    requires var t := ReplyText(completion.value);
      '\n' !in t || (!HasFooter(t + "\n") && t[|t| - 1] != '\n')
    ensures Answer(corpus, score, completion).Reply?
    ensures StripSourcesFooter(Answer(corpus, score, completion).reply) == ReplyText(completion.value)
    ensures Shown(Answer(corpus, score, completion).reply)
            == LinksToHtml(ChatCleanup.StripCitationsAndCleanup(ReplyText(completion.value)))
  {
    var t := ReplyText(completion.value);
    var names := Uniq(Top(corpus, score));
    assert Answer(corpus, score, completion) == Reply(Cited(t, names));
    PlainReplyStripped(t, names);
  }

  /** A reply without a footer of its own and without a trailing line break
      is what remains after the appended footer is stripped. */
  lemma PlainReplyStripped(t: string, names: seq<string>)
    requires '\n' !in t || (!HasFooter(t + "\n") && t[|t| - 1] != '\n')
    ensures StripSourcesFooter(Cited(t, names)) == t
  {
    if '\n' !in t {
      NoNewlineNoFooter(t);
    }
    CitedStripped(t, names);
  }
}
