/** The chat component of components/AgentChat.tsx: its confidence
    heuristic, its state (the transcript, the input box, the loading flag and
    the session's remembered questions) and `send`, which posts the
    conversation, appends the reply and records an audit entry. */
module ChatClient {
  import opened Wrappers
  import opened Text
  import opened Session

  /** The phrases that mark an answer as a non-answer. */
  const BadPhrases: seq<string> := [
    "i don't know",
    "i dont know",
    "i'm not sure",
    "im not sure",
    "i do not know",
    "i don't have enough",
    "i don't have info",
    "can't answer",
    "cannot answer",
    "sorry, something went wrong",
    "i don't have that information",
    "no sufficient information"
  ]

  /** The answer shown when the agent cannot be reached. */
  const Fallback: string := "Sorry, something went wrong."

  const Greeting: string :=
    "Hi! I can answer questions about my experience, PM approach, design background, and projects."

  /** `isConfident`: no listed phrase in the lower-cased answer, and at least
      25 UTF-16 code units once trimmed. */
  predicate IsConfident(answer: string) {
    var t := Lower(answer);
    !ContainsAny(t, BadPhrases) && Utf16Length(Trim(t)) >= 25
  }

  /** Short answers are never confident. */
  lemma ShortNotConfident(answer: string)
    requires Utf16Length(Trim(answer)) < 25
    ensures !IsConfident(answer)
  {
    TrimLower(answer);
    LowerUtf16Length(Trim(answer));
  }

  /** The heuristic ignores letter case. */
  lemma ConfidentIgnoresCase(answer: string)
    ensures IsConfident(Lower(answer)) == IsConfident(answer)
  {
    LowerTwice(answer);
  }

  lemma PhrasesLowerCase()
    ensures forall k, c :: 0 <= k < |BadPhrases| && c in BadPhrases[k] ==> !IsUpper(c)
  {
  }

  /** A listed phrase anywhere in an answer, in any letter case, makes it a
      non-answer, however long the answer is. */
  lemma PhraseNotConfident(pre: string, k: nat, post: string)
    requires k < |BadPhrases|
    ensures !IsConfident(pre + BadPhrases[k] + post)
  {
    var p := BadPhrases[k];
    PhrasesLowerCase();
    LowerIdentity(p);
    LowerAppend(pre + p, post);
    LowerAppend(pre, p);
    var t := Lower(pre + p + post);
    assert t == Lower(pre) + p + Lower(post);
    assert ContainsAt(t, p, |pre|) by {
      assert t[|pre|..|pre| + |p|] == p;
    }
  }

  lemma LowerCapitalized(s: string, rest: string)
    requires rest == "orry, something went wrong."
    requires s == ['S'] + rest
    ensures Lower(s) == ['s'] + rest
  {
    assert forall c :: c in rest ==> !IsUpper(c);
    LowerTail('S', rest);
    assert LowerChar('S') == 's';
  }

  lemma FallbackSpelling()
    ensures Fallback == ['S'] + "orry, something went wrong."
  {
  }

  lemma PhraseSpelling()
    ensures BadPhrases[9] + "." == ['s'] + "orry, something went wrong."
  {
    var p := BadPhrases[9];
    assert p == "sorry, something went wrong";
  }

  /** The fallback answer holds a listed phrase, so it is never confident. */
  lemma FallbackNotConfident()
    ensures !IsConfident(Fallback)
  {
    LowerFallback(BadPhrases[9] + ".");
    LowerStartsWithPhrase(Fallback, 9, ".");
  }

  /** An answer that lower-cases to a listed phrase and more is not confident. */
  lemma LowerStartsWithPhrase(a: string, k: nat, post: string)
    requires k < |BadPhrases| && Lower(a) == BadPhrases[k] + post
    ensures !IsConfident(a)
  {
    var p, l := BadPhrases[k], Lower(a);
    assert l[0..|p|] == p;
    assert ContainsAt(l, p, 0);
  }

  /** Lower-cased, the fallback answer is the listed phrase and a full stop. */
  lemma LowerFallback(t: string)
    requires t == BadPhrases[9] + "."
    ensures Lower(Fallback) == t
  {
    FallbackSpelling();
    PhraseSpelling();
    LowerCapitalized(Fallback, "orry, something went wrong.");
  }

  datatype Role = User | Assistant

  datatype Msg = Msg(role: Role, content: string)

  /** How the request to the agent ended: the `fetch` or the JSON decoding
      threw, or a body arrived whose `reply` field is a string or not. */
  datatype Outcome = Threw | Replied(reply: Option<string>)

  /** The JSON body posted to the audit feed. The path, timestamp and user
      agent come from the browser and are parameters here. */
  datatype AuditPayload = AuditPayload(
    question: string, answer: string, confident: bool,
    path: string, ts: string, ua: string)

  /** The assistant message appended for an outcome. */
  function AnswerOf(outcome: Outcome): (a: string)
    ensures outcome.Replied? && outcome.reply.Some? ==> a == outcome.reply.value
    ensures !(outcome.Replied? && outcome.reply.Some?) ==> a == Fallback
  {
    match outcome
    case Replied(Some(reply)) => reply
    case _ => Fallback
  }

  /** The logged confidence: the heuristic on the reply, and `false` outright
      on the error path. */
  function ConfidenceOf(outcome: Outcome): (c: bool)
    ensures outcome.Threw? ==> !c
    ensures outcome.Replied? ==> c == IsConfident(AnswerOf(outcome))
  {
    match outcome
    case Threw => false
    case Replied(_) => IsConfident(AnswerOf(outcome))
  }

  /** Whatever the path, an answer that is the fallback text is logged as not
      confident. */
  lemma FallbackLoggedWeak(outcome: Outcome)
    requires AnswerOf(outcome) == Fallback
    ensures !ConfidenceOf(outcome)
  {
    FallbackNotConfident();
  }

  /** The greeting opens the transcript, and user and assistant messages
      alternate after it. */
  ghost predicate Alternating(msgs: seq<Msg>) {
    && |msgs| % 2 == 1
    && msgs[0] == Msg(Assistant, Greeting)
    && forall i :: 0 <= i < |msgs| ==> msgs[i].role == (if i % 2 == 0 then Assistant else User)
  }

  lemma AlternatingExtend(msgs: seq<Msg>, question: string, answer: string)
    requires Alternating(msgs)
    ensures Alternating(msgs + [Msg(User, question), Msg(Assistant, answer)])
  {
    var m := msgs + [Msg(User, question), Msg(Assistant, answer)];
    forall i | 0 <= i < |m| ensures m[i].role == (if i % 2 == 0 then Assistant else User) {
      if i < |msgs| { assert m[i] == msgs[i]; }
    }
  }

  lemma PushTwo(msgs: seq<Msg>, a: Msg, b: Msg)
    ensures msgs + [a] + [b] == msgs + [a, b]
  {
  }

  class Chat {
    var msgs: seq<Msg>
    var input: string
    var loading: bool
    /** The session storage entry `askedQuestions`. */
    var stored: Stored

    ghost predicate Valid()
      reads this
    {
      Alternating(msgs) && !loading
    }

    constructor(stored0: Stored)
      ensures Valid()
      ensures msgs == [Msg(Assistant, Greeting)] && input == [] && stored == stored0
    {
      msgs := [Msg(Assistant, Greeting)];
      input := [];
      loading := false;
      stored := stored0;
    }

    /** `send(override)`: the trimmed text of `override`, or of the input box
        when there is none, is sent unless it is empty. */
    method Send(override: Option<string>, outcome: Outcome, path: string, ts: string, ua: string)
      returns (audit: Option<AuditPayload>)
      requires Valid()
      modifies this
      ensures Valid()
      ensures var content := Trim(if override.Some? then override.value else old(input));
        if content == [] then
          audit == None && msgs == old(msgs) && input == old(input) && stored == old(stored)
        else
          && input == []
          && stored == Remember(old(stored), content)
          && msgs == old(msgs) + [Msg(User, content), Msg(Assistant, AnswerOf(outcome))]
          && audit == Some(AuditPayload(content, AnswerOf(outcome), ConfidenceOf(outcome), path, ts, ua))
    {
      var content := Trim(if override.Some? then override.value else input);
      if content == [] {
        return None;
      }
      input := [];
      stored := Remember(stored, content);
      var next := msgs + [Msg(User, content)];
      msgs := next;
      loading := true;
      match outcome {
        case Replied(reply) =>
          var answer := if reply.Some? then reply.value else Fallback;
          var confident := IsConfident(answer);
          msgs := next + [Msg(Assistant, answer)];
          audit := Some(AuditPayload(content, answer, confident, path, ts, ua));
          assert answer == AnswerOf(outcome) && confident == ConfidenceOf(outcome);
        case Threw =>
          msgs := next + [Msg(Assistant, Fallback)];
          audit := Some(AuditPayload(content, Fallback, false, path, ts, ua));
      }
      PushTwo(old(msgs), Msg(User, content), Msg(Assistant, AnswerOf(outcome)));
      AlternatingExtend(old(msgs), content, AnswerOf(outcome));
      loading := false;
    }
  }
}
