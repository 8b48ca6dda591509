/** The questions-and-answers page: the feed entries it shows, which of them
    it marks as weak, and the follow-up question it suggests under a weak
    answer, drawn from a fixed list minus the questions this browser session
    has already asked. */
module QaPage {
  import opened Wrappers
  import opened Text
  import opened Session
  import AuditFeed

  /** The page's own record type: `confident` is optional on it. */
  datatype QA = QA(ts: string, question: string, answer: string, confident: Option<bool>)

  /** The follow-up questions the page can offer, in order. */
  const Suggestions: seq<string> := [
    "What is Ryan's design process like?",
    "How does Ryan measure success on a feature?",
    "Tell me about the Nstyle design system.",
    "How does Ryan partner with engineering?",
    "What are Ryan\U{2019}s top projects to look at?",
    "How does Ryan approach discovery and research?",
    "What outcomes did Ryan drive at Ncontracts?",
    "What\U{2019}s Ryan\U{2019}s philosophy on design systems?",
    "How does Ryan de-risk ideas before shipping?"
  ]

  /** Whether a suggestion may be offered: its key is neither the question
      being answered nor one already asked. */
  predicate Offerable(s: string, asked: set<string>, avoidKey: string) {
    Key(s) != avoidKey && Key(s) !in asked
  }

  /** `SUGGESTIONS.filter(...)` over any list of candidates. */
  function Filter(xs: seq<string>, asked: set<string>, avoidKey: string): (pool: seq<string>)
    ensures |pool| <= |xs|
  {
    if xs == [] then []
    else (if Offerable(xs[0], asked, avoidKey) then [xs[0]] else []) + Filter(xs[1..], asked, avoidKey)
  }

  /** The pool holds exactly the offerable candidates. */
  lemma {:induction false} FilterMember(xs: seq<string>, asked: set<string>, avoidKey: string, s: string)
    ensures s in Filter(xs, asked, avoidKey) <==> s in xs && Offerable(s, asked, avoidKey)
    decreases |xs|
  {
    if xs != [] {
      FilterMember(xs[1..], asked, avoidKey, s);
      assert s in xs <==> s == xs[0] || s in xs[1..] by {
        assert xs == [xs[0]] + xs[1..];
      }
    }
  }

  /** Filtering keeps the candidates' order: filtering a list made of two
      parts is filtering each part and putting them back together. */
  lemma {:induction false} FilterAppend(a: seq<string>, b: seq<string>, asked: set<string>, avoidKey: string)
    ensures Filter(a + b, asked, avoidKey) == Filter(a, asked, avoidKey) + Filter(b, asked, avoidKey)
    decreases |a|
  {
    if a != [] {
      assert (a + b)[0] == a[0] && (a + b)[1..] == a[1..] + b;
      FilterAppend(a[1..], b, asked, avoidKey);
    } else {
      assert a + b == b;
    }
  }

  /** Every candidate is kept exactly when it is offerable, so a candidate
      list without repeats gives a pool without repeats. */
  lemma {:induction false} FilterDistinct(xs: seq<string>, asked: set<string>, avoidKey: string)
    requires Lists.Distinct(xs)
    ensures Lists.Distinct(Filter(xs, asked, avoidKey))
    decreases |xs|
  {
    if xs != [] {
      FilterDistinct(xs[1..], asked, avoidKey);
      FilterMember(xs[1..], asked, avoidKey, xs[0]);
      assert forall k :: 0 <= k < |xs[1..]| ==> xs[1..][k] == xs[k + 1];
      assert xs[0] !in xs[1..];
    }
  }

  /** The pool `pickSuggestion` draws from. `avoid` is `None` for a missing
      question; it and the empty string both mean nothing is avoided. */
  function Pool(asked: set<string>, avoid: Option<string>): (pool: seq<string>)
    ensures |pool| <= |Suggestions|
    ensures forall s :: s in pool <==>
      s in Suggestions && Key(s) != Key(OrElse(avoid, "")) && Key(s) !in asked
  {
    var pool := Filter(Suggestions, asked, Key(OrElse(avoid, "")));
    forall s ensures s in pool <==> s in Suggestions && Offerable(s, asked, Key(OrElse(avoid, ""))) {
      FilterMember(Suggestions, asked, Key(OrElse(avoid, "")), s);
    }
    pool
  }

  /** The suggestions are all different, so the pool never offers one twice. */
  lemma PoolDistinct(asked: set<string>, avoid: Option<string>)
    ensures Lists.Distinct(Pool(asked, avoid))
  {
    assert Lists.Distinct(Suggestions);
    FilterDistinct(Suggestions, asked, Key(OrElse(avoid, "")));
  }

  /** `Math.floor(Math.random() * n)` for a draw `rand` in [0, 1): a
      position below `n`, and position `k` for the draw `k / n`. */
  function Draw(rand: real, n: nat): (i: nat)
    requires 0.0 <= rand < 1.0 && n > 0
    ensures i < n
    ensures i as real <= rand * n as real < i as real + 1.0
  {
    assert rand * n as real < n as real;
    (rand * n as real).Floor
  }

  lemma DrawAt(k: nat, n: nat)
    requires k < n
    ensures 0.0 <= k as real / n as real < 1.0 && Draw(k as real / n as real, n) == k
  {
    var rand := k as real / n as real;
    assert rand * n as real == k as real;
  }

  /** `pickSuggestion`: `None` when every suggestion is the question itself
      or already asked, otherwise the suggestion at the drawn position. */
  function PickSuggestion(asked: set<string>, avoid: Option<string>, rand: real): (r: Option<string>)
    requires 0.0 <= rand < 1.0
    ensures r.None? <==> Pool(asked, avoid) == []
    ensures r.Some? ==> r.value in Pool(asked, avoid)
    ensures r.Some? ==>
      && r.value in Suggestions
      && Key(r.value) != Key(OrElse(avoid, ""))
      && Key(r.value) !in asked
  {
    var pool := Pool(asked, avoid);
    if |pool| == 0 then None
    else
      Some(pool[Draw(rand, |pool|)])
  }

  /** Any offerable suggestion can be drawn: for each one there is a draw
      that picks it. */
  lemma EveryOfferableDrawn(asked: set<string>, avoid: Option<string>, s: string)
    requires s in Pool(asked, avoid)
    ensures exists rand: real :: 0.0 <= rand < 1.0 && PickSuggestion(asked, avoid, rand) == Some(s)
  {
    var pool := Pool(asked, avoid);
    var k :| 0 <= k < |pool| && pool[k] == s;
    var rand := k as real / |pool| as real;
    DrawAt(k, |pool|);
    assert PickSuggestion(asked, avoid, rand) == Some(pool[k]);
  }

  /** A question with no surrounding spaces keys to its lower-cased form. */
  lemma KeyOfTrimmed(s: string)
    requires |s| > 0 && !IsSpace(s[0]) && !IsSpace(s[|s| - 1])
    ensures Key(s) == Lower(s)
  {
    var l := Lower(s);
    assert SkipSpace(l, 0) == 0;
    assert BackSpace(l, |l|) == |l|;
    assert l[0..|l|] == l;
  }

  /** The first two suggestions have different keys ("w…" and "h…"), so a
      session that has asked nothing always gets a suggestion, whatever
      question it is shown under. */
  lemma FreshSessionSuggests(avoid: Option<string>, rand: real)
    requires 0.0 <= rand < 1.0
    ensures PickSuggestion({}, avoid, rand).Some?
  {
    FirstKeysDiffer();
    FilterNonEmpty(Suggestions, Key(OrElse(avoid, "")));
  }

  /** A fresh session filters nothing out but the question itself, so two
      candidates with different keys leave at least one. */
  lemma FilterNonEmpty(xs: seq<string>, avoidKey: string)
    requires |xs| >= 2 && Key(xs[0]) != Key(xs[1])
    ensures Filter(xs, {}, avoidKey) != []
  {
    var x := if Key(xs[0]) != avoidKey then xs[0] else xs[1];
    FilterMember(xs, {}, avoidKey, x);
  }

  lemma FirstKeysDiffer()
    ensures Key(Suggestions[0]) != Key(Suggestions[1])
  {
    var s0, s1 := Suggestions[0], Suggestions[1];
    KeyOfTrimmed(s0);
    KeyOfTrimmed(s1);
    assert Key(s0)[0] == 'w' && Key(s1)[0] == 'h';
  }

  /** A question this session already asked is never suggested again: once
      the chat has remembered `q`, no suggestion with its key is drawn. */
  lemma RememberedNotSuggested(stored: Stored, q: string, avoid: Option<string>, rand: real)
    requires 0.0 <= rand < 1.0
    requires !stored.Malformed?
    requires stored.List? ==> AllStrings(stored.items)
    ensures var r := PickSuggestion(AlreadyAsked(Remember(stored, q)), avoid, rand);
      r.Some? ==> Key(r.value) != Key(q)
  {
    RememberedIsAsked(stored, q);
  }

  /** `item.confident === false`: only an explicit `false` marks an answer
      weak; a missing flag does not. */
  predicate Weak(confident: Option<bool>) {
    confident == Some(false)
  }

  /** The follow-up offered under one item: a suggestion only for a weak
      answer, drawn with the question as the one to avoid. */
  function FollowUp(item: QA, asked: set<string>, rand: real): (r: Option<string>)
    requires 0.0 <= rand < 1.0
    ensures r.Some? ==> Weak(item.confident)
    ensures !Weak(item.confident) ==> r.None?
    ensures Weak(item.confident) ==> r == PickSuggestion(asked, Some(item.question), rand)
  {
    if Weak(item.confident) then PickSuggestion(asked, Some(item.question), rand) else None
  }

  /** How an entry of the feed arrives on the page: the feed always sets
      `confident`, so the page sees it as present. */
  function FromEntry(e: AuditFeed.Entry): (item: QA)
    ensures item.confident.Some? && item.question == e.question && item.answer == e.answer
  {
    QA(e.ts, e.question, e.answer, Some(e.confident))
  }

  /** What the page lists for a feed response: its items in order (none for
      an error, so the page says there are no logs). */
  function Shown(feed: AuditFeed.Feed): (items: seq<QA>)
    ensures |items| == |feed.items|
    ensures forall k :: 0 <= k < |items| ==> items[k] == FromEntry(feed.items[k])
  {
    seq(|feed.items|, k requires 0 <= k < |feed.items| => FromEntry(feed.items[k]))
  }

  /** An item from the feed is weak exactly when the feed marked it not
      confident; in particular, a logged answer without a flag that the feed
      judges unconfident gets a follow-up in a fresh session. */
  lemma FeedWeakness(e: AuditFeed.Entry, rand: real)
    requires 0.0 <= rand < 1.0
    ensures Weak(FromEntry(e).confident) <==> !e.confident
    ensures !e.confident ==> FollowUp(FromEntry(e), {}, rand).Some?
  {
    if !e.confident {
      FreshSessionSuggests(Some(e.question), rand);
    }
  }

  /** For a logged line without a `confident` field, the page offers a
      follow-up in a fresh session exactly when the feed's heuristic finds
      the answer unconfident. */
  lemma UnflaggedFollowUp(p: AuditFeed.Parsed, now: string, rand: real)
    requires 0.0 <= rand < 1.0 && p.confident.None?
    ensures FollowUp(FromEntry(AuditFeed.ToEntry(p, now)), {}, rand).Some?
            <==> !AuditFeed.InferConfidence(p.answer)
  {
    FeedWeakness(AuditFeed.ToEntry(p, now), rand);
  }
}
