/** The `GET` handler of app/api/audit-feed/route.ts: it reads the last 14
    daily JSON-lines audit files from a GitHub repository, turns every line
    into a feed entry (filling in missing fields and inferring confidence),
    and returns the entries newest first. The GitHub API, base64 decoding,
    `JSON.parse` and the clock are parameters. */
module AuditFeed {
  import opened Wrappers
  import opened Text
  import opened Sorting
  import ChatClient
  import Lists

  /** The refusal phrases as the file holds them: the third was stored as the
      UTF-8 bytes of `i’m not sure` read back as Windows-1252 text. */
  const WrittenPhrases: seq<string> := [
    "i don't know", "i dont know", "i\U{E2}\U{20AC}\U{2122}m not sure", "im not sure", "i do not know",
    "sorry, something went wrong", "can't answer", "cannot answer", "no sufficient information"
  ]

  /** The list with the third phrase spelled with the right single quotation
      mark, as its author typed it. */
  const IntendedPhrases: seq<string> := [
    "i don't know", "i dont know", "i\U{2019}m not sure", "im not sure", "i do not know",
    "sorry, something went wrong", "can't answer", "cannot answer", "no sufficient information"
  ]

  /** `inferConfidence` over a given phrase list. */
  predicate ConfidenceWith(phrases: seq<string>, ans: Option<string>) {
    ans.Some? && ans.value != [] && !ContainsAny(Lower(ans.value), phrases)
    && Utf16Length(Trim(Lower(ans.value))) >= 25
  }

  predicate InferConfidenceAsWritten(ans: Option<string>) {
    ConfidenceWith(WrittenPhrases, ans)
  }

  predicate InferConfidence(ans: Option<string>) {
    ConfidenceWith(IntendedPhrases, ans)
  }

  /** Whatever the phrase list (the one the file holds or the corrected
      one): a missing or empty answer is never confident, nor is one that
      trims to fewer than 25 UTF-16 code units; otherwise only a listed
      phrase, in any letter case, makes it a non-answer. */
  lemma ConfidenceCases(phrases: seq<string>, ans: Option<string>)
    ensures ans.None? || ans.value == [] ==> !ConfidenceWith(phrases, ans)
    ensures ans.Some? && Utf16Length(Trim(ans.value)) < 25 ==> !ConfidenceWith(phrases, ans)
    ensures ans.Some? && Utf16Length(Trim(ans.value)) >= 25 ==>
      (ConfidenceWith(phrases, ans) <==> !ContainsAny(Lower(ans.value), phrases))
  {
    if ans.Some? {
      TrimLower(ans.value);
      LowerUtf16Length(Trim(ans.value));
      if Utf16Length(Trim(ans.value)) >= 25 {
        assert ans.value != [];
      }
    }
  }

  /** The lower-cased form of the answer the two lemmas below use. */
  const Unsure: string := "i\U{2019}m not sure" + " about that one."

  lemma UnsureLower(w: string)
    requires w == ['I'] + Unsure[1..]
    ensures Lower(w) == Unsure
  {
    assert forall c :: c in Unsure[1..] ==> !IsUpper(c);
    LowerTail('I', Unsure[1..]);
    assert LowerChar('I') == 'i';
  }

  /** `i’m not sure` does not stand in `Unsure` as the file spells it, and
      none of the other listed phrases does either. */
  lemma UnsureMissesWritten()
    ensures !ContainsAny(Unsure, WrittenPhrases)
  {
    forall k | 0 <= k < |WrittenPhrases| ensures !Contains(Unsure, WrittenPhrases[k]) {
      UnsureMissesWrittenAt(k);
    }
  }

  /** The characters `Unsure` is made of. */
  lemma UnsureAlphabet()
    ensures forall c :: c in Unsure ==>
      c in {'i', '\U{2019}', 'm', ' ', 'n', 'o', 't', 's', 'u', 'r', 'e', 'a', 'b', 'h', '.'}
  {
  }

  lemma UnsureMissesWrittenAt(k: nat)
    requires k < |WrittenPhrases|
    ensures !Contains(Unsure, WrittenPhrases[k])
  {
    if k < 3 { UnsureMissesWritten0(k); }
    else if k < 6 { UnsureMissesWritten3(k); }
    else { UnsureMissesWritten6(k); }
  }

  lemma UnsureMissesWritten0(k: nat)
    requires k < 3
    ensures !Contains(Unsure, WrittenPhrases[k])
  {
    UnsureAlphabet();
    if k == 0 {
      MissingChar(Unsure, WrittenPhrases[0], 'd');
    } else if k == 1 {
      MissingChar(Unsure, WrittenPhrases[1], 'd');
    } else {
      MissingChar(Unsure, WrittenPhrases[2], '\U{E2}');
    }
  }

  lemma UnsureMissesWritten3(k: nat)
    requires 3 <= k < 6
    ensures !Contains(Unsure, WrittenPhrases[k])
  {
    if k == 3 {
      assert 'i' !in Unsure[1..] && Unsure[1] != 'm';
      MissingAfterStart(Unsure, WrittenPhrases[3]);
    } else {
      UnsureAlphabet();
      MissingChar(Unsure, WrittenPhrases[k], if k == 4 then 'd' else ',');
    }
  }

  lemma UnsureMissesWritten6(k: nat)
    requires 6 <= k < 9
    ensures !Contains(Unsure, WrittenPhrases[k])
  {
    UnsureAlphabet();
    if k == 6 {
      MissingChar(Unsure, WrittenPhrases[6], '\'');
    } else if k == 7 {
      MissingChar(Unsure, WrittenPhrases[7], 'c');
    } else {
      MissingChar(Unsure, WrittenPhrases[8], 'f');
    }
  }

  lemma UnsureLong()
    ensures Utf16Length(Trim(Unsure)) == 28
  {
    var t := Unsure;
    assert !IsSpace(t[0]) && !IsSpace(t[|t| - 1]);
    assert SkipSpace(t, 0) == 0 && BackSpace(t, |t|) == |t|;
    assert t[0..|t|] == t;
    Utf16LengthBmp(t);
  }

  /** As written, `inferConfidence` counts "I’m not sure about that one." as
      a confident answer, since the phrase it lists for it cannot occur in
      real text. */
  lemma UnsureConfidentAsWritten(w: string)
    requires w == ['I'] + Unsure[1..]
    ensures InferConfidenceAsWritten(Some(w))
  {
    UnsureLower(w);
    UnsureMissesWritten();
    UnsureLong();
  }

  /** With the phrase as intended, the same answer is a non-answer. */
  lemma UnsureNotConfident(w: string)
    requires w == ['I'] + Unsure[1..]
    ensures !InferConfidence(Some(w))
  {
    UnsureLower(w);
    assert ContainsAt(Unsure, IntendedPhrases[2], 0) by {
      assert Unsure[0..12] == IntendedPhrases[2];
    }
  }

  /** The intended list flags every answer holding `i’m not sure`, in any
      letter case. */
  lemma CurlyUnsureNeverConfident(pre: string, post: string)
    ensures !InferConfidence(Some(pre + IntendedPhrases[2] + post))
  {
    var p := IntendedPhrases[2];
    assert forall c :: c in p ==> !IsUpper(c);
    LowerIdentity(p);
    LoweredKeeps(pre, p, post);
    PhraseListed(Lower(pre + p + post), IntendedPhrases, 2);
  }

  /** Lower-casing around a lower-case phrase leaves the phrase in place. */
  lemma LoweredKeeps(pre: string, p: string, post: string)
    requires Lower(p) == p
    ensures Contains(Lower(pre + p + post), p)
  {
    LowerAppend(pre + p, post);
    LowerAppend(pre, p);
    var t := Lower(pre + p + post);
    assert t == Lower(pre) + p + Lower(post);
    assert ContainsAt(t, p, |pre|) by {
      assert t[|pre|..|pre| + |p|] == p;
    }
  }

  /** An answer whose lower-cased text holds a listed phrase is not confident. */
  lemma PhraseListed(t: string, phrases: seq<string>, k: nat)
    requires k < |phrases| && Contains(t, phrases[k])
    ensures forall ans: string :: Lower(ans) == t ==> !ConfidenceWith(phrases, Some(ans))
  {
  }


  /** An answer the chat flags and the feed does not. */
  const Vague: string := "i don't have enough" + " detail on that" + " topic, sorry."

  lemma VagueLong()
    ensures Utf16Length(Trim(Vague)) == 48
  {
    var t := Vague;
    assert !IsSpace(t[0]) && !IsSpace(t[|t| - 1]);
    assert SkipSpace(t, 0) == 0 && BackSpace(t, |t|) == |t|;
    assert t[0..|t|] == t;
    Utf16LengthBmp(t);
  }

  /** The characters `Vague` is made of. */
  lemma VagueAlphabet()
    ensures forall c :: c in Vague ==>
      c in {'i', ' ', 'd', 'o', 'n', '\'', 't', 'h', 'a', 'v', 'e', 'u', 'g', 'l', 'p', 'c', ',', 's', 'r', 'y', '.'}
  {
  }

  lemma VagueMissesIntendedAt(k: nat)
    requires k < |IntendedPhrases|
    ensures !Contains(Vague, IntendedPhrases[k])
  {
    if k < 3 { VagueMissesIntended0(k); }
    else if k < 6 { VagueMissesIntended3(k); }
    else { VagueMissesIntended6(k); }
  }

  lemma VagueMissesIntended0(k: nat)
    requires k < 3
    ensures !Contains(Vague, IntendedPhrases[k])
  {
    VagueAlphabet();
    if k == 0 {
      MissingChar(Vague, IntendedPhrases[0], 'k');
    } else if k == 1 {
      MissingChar(Vague, IntendedPhrases[1], 'k');
    } else {
      MissingChar(Vague, IntendedPhrases[2], '\U{2019}');
    }
  }

  lemma VagueMissesIntended3(k: nat)
    requires 3 <= k < 6
    ensures !Contains(Vague, IntendedPhrases[k])
  {
    VagueAlphabet();
    if k == 3 {
      MissingChar(Vague, IntendedPhrases[3], 'm');
    } else if k == 4 {
      MissingChar(Vague, IntendedPhrases[4], 'k');
    } else {
      MissingChar(Vague, IntendedPhrases[5], 'm');
    }
  }

  lemma VagueMissesIntended6(k: nat)
    requires 6 <= k < 9
    ensures !Contains(Vague, IntendedPhrases[k])
  {
    VagueAlphabet();
    if k == 6 {
      MissingChar(Vague, IntendedPhrases[6], 'w');
    } else if k == 7 {
      MissingChar(Vague, IntendedPhrases[7], 'w');
    } else {
      MissingChar(Vague, IntendedPhrases[8], 'f');
    }
  }

  lemma UnsureMissesChatAt(k: nat)
    requires k < |ChatClient.BadPhrases|
    ensures !Contains(Unsure, ChatClient.BadPhrases[k])
  {
    if k < 3 { UnsureMissesChat0(k); }
    else if k < 6 { UnsureMissesChat3(k); }
    else if k < 9 { UnsureMissesChat6(k); }
    else { UnsureMissesChat9(k); }
  }

  lemma UnsureMissesChat0(k: nat)
    requires k < 3
    ensures !Contains(Unsure, ChatClient.BadPhrases[k])
  {
    UnsureAlphabet();
    if k == 0 {
      MissingChar(Unsure, ChatClient.BadPhrases[0], 'd');
    } else if k == 1 {
      MissingChar(Unsure, ChatClient.BadPhrases[1], 'd');
    } else {
      MissingChar(Unsure, ChatClient.BadPhrases[2], '\'');
    }
  }

  lemma UnsureMissesChat3(k: nat)
    requires 3 <= k < 6
    ensures !Contains(Unsure, ChatClient.BadPhrases[k])
  {
    UnsureAlphabet();
    if k == 3 {
      assert 'i' !in Unsure[1..] && Unsure[1] != 'm';
      MissingAfterStart(Unsure, ChatClient.BadPhrases[3]);
    } else if k == 4 {
      MissingChar(Unsure, ChatClient.BadPhrases[4], 'd');
    } else {
      MissingChar(Unsure, ChatClient.BadPhrases[5], 'd');
    }
  }

  lemma UnsureMissesChat6(k: nat)
    requires 6 <= k < 9
    ensures !Contains(Unsure, ChatClient.BadPhrases[k])
  {
    UnsureAlphabet();
    if k == 6 {
      MissingChar(Unsure, ChatClient.BadPhrases[6], 'd');
    } else if k == 7 {
      MissingChar(Unsure, ChatClient.BadPhrases[7], '\'');
    } else {
      MissingChar(Unsure, ChatClient.BadPhrases[8], 'c');
    }
  }

  lemma UnsureMissesChat9(k: nat)
    requires 9 <= k < |ChatClient.BadPhrases|
    ensures !Contains(Unsure, ChatClient.BadPhrases[k])
  {
    UnsureAlphabet();
    if k == 9 {
      MissingChar(Unsure, ChatClient.BadPhrases[9], ',');
    } else if k == 10 {
      MissingChar(Unsure, ChatClient.BadPhrases[10], 'd');
    } else {
      MissingChar(Unsure, ChatClient.BadPhrases[11], 'f');
    }
  }

  /** The chat and the feed use different phrase lists, so they disagree
      about some answers, in both directions. */
  lemma HeuristicsDisagree(w: string)
    requires w == ['I'] + Unsure[1..]
    ensures !ChatClient.IsConfident(Vague) && InferConfidence(Some(Vague))
    ensures ChatClient.IsConfident(w) && !InferConfidence(Some(w))
  {
    VagueOnlyChat();
    UnsureOnlyFeed(w);
  }

  /** `Vague` is rejected by the chat's list and passes the feed's. */
  lemma VagueOnlyChat()
    ensures !ChatClient.IsConfident(Vague) && InferConfidence(Some(Vague))
  {
    VagueLowered();
    VagueChatRejects();
    VagueFeedAccepts();
  }

  lemma VagueLowered()
    ensures Lower(Vague) == Vague
  {
    assert forall c :: c in Vague ==> !IsUpper(c);
    LowerIdentity(Vague);
  }

  lemma VagueChatRejects()
    ensures Contains(Vague, ChatClient.BadPhrases[5])
  {
    assert ContainsAt(Vague, ChatClient.BadPhrases[5], 0) by {
      assert Vague[0..19] == ChatClient.BadPhrases[5];
    }
  }

  lemma VagueFeedAccepts()
    ensures !ContainsAny(Vague, IntendedPhrases) && Utf16Length(Trim(Vague)) >= 25
  {
    forall k | 0 <= k < |IntendedPhrases| ensures !Contains(Vague, IntendedPhrases[k]) {
      VagueMissesIntendedAt(k);
    }
    VagueLong();
  }

  /** "I’m not sure about that one." passes the chat's list and is rejected
      by the feed's. */
  lemma UnsureOnlyFeed(w: string)
    requires w == ['I'] + Unsure[1..]
    ensures ChatClient.IsConfident(w) && !InferConfidence(Some(w))
  {
    UnsureNotConfident(w);
    UnsureLower(w);
    UnsureLong();
    forall k | 0 <= k < |ChatClient.BadPhrases| ensures !Contains(Unsure, ChatClient.BadPhrases[k]) {
      UnsureMissesChatAt(k);
    }
  }

  // ---- the entries -------------------------------------------------------------

  /** The fields of one parsed line, each a string (`confident` a boolean);
      `None` stands for a missing field. */
  datatype Parsed = Parsed(
    ts: Option<string>, path: Option<string>, question: Option<string>,
    answer: Option<string>, confident: Option<bool>, ua: Option<string>)

  datatype Entry = Entry(
    ts: string, path: Option<string>, question: string, answer: string,
    confident: bool, ua: string)

  /** One feed entry from a parsed line, with the clock reading `now` as the
      default timestamp. */
  function ToEntry(e: Parsed, now: string): (r: Entry)
    ensures r.ts == OrElse(e.ts, now) && r.path == e.path
    ensures r.question == OrElse(e.question, "") && r.answer == OrElse(e.answer, "")
    ensures r.ua == OrElse(e.ua, "")
    ensures e.confident.Some? ==> r.confident == e.confident.value
    ensures e.confident.None? ==> r.confident == InferConfidence(e.answer)
    ensures r.ts != [] <==> (e.ts.Some? && e.ts.value != []) || now != []
  {
    Entry(
      OrElse(e.ts, now), e.path, OrElse(e.question, ""), OrElse(e.answer, ""),
      if e.confident.Some? then e.confident.value else InferConfidence(e.answer),
      OrElse(e.ua, ""))
  }

  /** The entry a line yields: none for a blank line or one that does not
      parse. */
  function LineEntries(line: string, parse: string -> Option<Parsed>, now: string): (r: seq<Entry>)
    ensures |r| <= 1
  {
    var s := Trim(line);
    if s == [] then []
    else
      match parse(s)
      case None => []
      case Some(e) => [ToEntry(e, now)]
  }

  /** A line yields no entry exactly when it is blank or does not parse. */
  lemma LineEntriesNone(line: string, parse: string -> Option<Parsed>, now: string)
    ensures LineEntries(line, parse, now) == [] <==> IsBlank(line) || parse(Trim(line)).None?
  {
  }

  /** The reader of one line, as a value. */
  function LineReader(parse: string -> Option<Parsed>, now: string): string -> seq<Entry> {
    line => LineEntries(line, parse, now)
  }

  /** The entries of a file's lines, in order. */
  function TextEntries(lines: seq<string>, parse: string -> Option<Parsed>, now: string): seq<Entry> {
    Lists.FlatMap(lines, LineReader(parse, now))
  }

  lemma TextEntriesLast(lines: seq<string>, j: nat, parse: string -> Option<Parsed>, now: string)
    requires j < |lines|
    ensures TextEntries(lines[..j + 1], parse, now) == TextEntries(lines[..j], parse, now) + LineEntries(lines[j], parse, now)
  {
    Lists.FlatMapLast(lines, j, LineReader(parse, now));
  }

  /** Reading lines one after the other reads each part in turn. */
  lemma TextEntriesAppend(a: seq<string>, b: seq<string>, parse: string -> Option<Parsed>, now: string)
    ensures TextEntries(a + b, parse, now) == TextEntries(a, parse, now) + TextEntries(b, parse, now)
  {
    Lists.FlatMapAppend(a, b, LineReader(parse, now));
  }

  /** A blank or unparseable line is dropped and the lines around it are
      read as if it were not there. */
  lemma BadLineDropped(before: seq<string>, line: string, after: seq<string>,
                       parse: string -> Option<Parsed>, now: string)
    requires IsBlank(line) || parse(Trim(line)).None?
    ensures TextEntries(before + [line] + after, parse, now)
         == TextEntries(before, parse, now) + TextEntries(after, parse, now)
  {
    LineEntriesNone(line, parse, now);
    assert TextEntries([line], parse, now) == [] by {
      TextEntriesLast([line], 0, parse, now);
      assert [line][..1] == [line] && [line][..0] == [];
    }
    TextEntriesAppend(before, [line], parse, now);
    var head := TextEntries(before, parse, now);
    assert head + [] == head;
    TextEntriesAppend(before + [line], after, parse, now);
  }

  // ---- the day files -------------------------------------------------------------

  const Days: nat := 14

  function DayPath(day: string): string {
    "data/audit/audit-" + day + ".jsonl"
  }

  /** The paths for day offsets 0 to 13, today first; `dayOf(i)` is the
      `YYYY-MM-DD` date `i` days ago. */
  function AllPaths(dayOf: nat -> string): (r: seq<string>)
    ensures |r| == Days
    ensures forall i :: 0 <= i < Days ==> r[i] == DayPath(dayOf(i))
  {
    seq(Days, i requires 0 <= i => DayPath(dayOf(i)))
  }

  method DayPaths(dayOf: nat -> string) returns (files: seq<string>)
    ensures files == AllPaths(dayOf)
  {
    files := [];
    var i := 0;
    while i < Days
      invariant 0 <= i <= Days
      invariant |files| == i
      invariant forall k :: 0 <= k < i ==> files[k] == DayPath(dayOf(k))
    {
      files := files + [DayPath(dayOf(i))];
      i := i + 1;
    }
  }

  /** What fetching one day's file from the contents API gives: a thrown
      error (network, or a body that is not JSON) with its message, or a
      response status with the file's decoded text, if it has any. */
  datatype Fetched = Failed(message: string) | Http(status: nat, content: Option<string>)

  function DayEntries(path: string, fetched: Fetched, parse: string -> Option<Parsed>, now: string): (r: Result<seq<Entry>, string>)
    ensures fetched.Http? && fetched.status == 404 ==> r == Ok([])
    ensures fetched.Http? && fetched.status != 404 && !(200 <= fetched.status <= 299) ==>
      r == Err("GitHub GET " + path + " failed: " + Decimal(fetched.status))
    ensures fetched.Failed? ==> r == Err(fetched.message)
  {
    match fetched
    case Failed(message) => Err(message)
    case Http(status, content) =>
      if status == 404 then Ok([])
      else if !(200 <= status <= 299) then Err("GitHub GET " + path + " failed: " + Decimal(status))
      else if content.None? || content.value == [] then Ok([])
      else Ok(TextEntries(Split(content.value, '\n'), parse, now))
  }

  /** Reading one more file after `acc`: the first error wins. */
  function Step(acc: Result<seq<Entry>, string>, path: string, fetch: string -> Fetched,
                parse: string -> Option<Parsed>, now: string): Result<seq<Entry>, string>
  {
    match acc
    case Err(m) => Err(m)
    case Ok(items) =>
      match DayEntries(path, fetch(path), parse, now)
      case Err(m) => Err(m)
      case Ok(es) => Ok(items + es)
  }

  /** The entries of the given files in order, or the first error. */
  function Collect(files: seq<string>, fetch: string -> Fetched, parse: string -> Option<Parsed>, now: string): Result<seq<Entry>, string>
  {
    if files == [] then Ok([])
    else Step(Collect(files[..|files| - 1], fetch, parse, now), files[|files| - 1], fetch, parse, now)
  }

  lemma CollectLast(files: seq<string>, k: nat, fetch: string -> Fetched, parse: string -> Option<Parsed>, now: string)
    requires k < |files|
    ensures Collect(files[..k + 1], fetch, parse, now) == Step(Collect(files[..k], fetch, parse, now), files[k], fetch, parse, now)
  {
    assert files[..k + 1][..k] == files[..k];
  }

  /** The results of two runs of files one after the other. */
  function Then(x: Result<seq<Entry>, string>, y: Result<seq<Entry>, string>): Result<seq<Entry>, string> {
    match x
    case Err(m) => Err(m)
    case Ok(a) =>
      match y
      case Err(m) => Err(m)
      case Ok(b) => Ok(a + b)
  }

  lemma StepThen(x: Result<seq<Entry>, string>, y: Result<seq<Entry>, string>, path: string,
                 fetch: string -> Fetched, parse: string -> Option<Parsed>, now: string)
    ensures Step(Then(x, y), path, fetch, parse, now) == Then(x, Step(y, path, fetch, parse, now))
  {
    if x.Ok? && y.Ok? {
      match DayEntries(path, fetch(path), parse, now)
      case Err(m) =>
      case Ok(es) => assert x.value + y.value + es == x.value + (y.value + es);
    }
  }

  lemma {:induction false} CollectAppend(a: seq<string>, b: seq<string>, fetch: string -> Fetched,
                                         parse: string -> Option<Parsed>, now: string)
    ensures Collect(a + b, fetch, parse, now) == Then(Collect(a, fetch, parse, now), Collect(b, fetch, parse, now))
    decreases |b|
  {
    if b == [] {
      assert a + b == a;
      var x := Collect(a, fetch, parse, now);
      if x.Ok? { assert x.value + [] == x.value; }
    } else {
      var init := b[..|b| - 1];
      assert (a + b)[..|a + b| - 1] == a + init;
      assert (a + b)[|a + b| - 1] == b[|b| - 1];
      CollectAppend(a, init, fetch, parse, now);
      StepThen(Collect(a, fetch, parse, now), Collect(init, fetch, parse, now), b[|b| - 1], fetch, parse, now);
    }
  }

  /** A day whose file does not exist (404) is no error and adds nothing. */
  lemma MissingDaySkipped(before: seq<string>, path: string, after: seq<string>, fetch: string -> Fetched,
                          parse: string -> Option<Parsed>, now: string)
    requires fetch(path).Http? && fetch(path).status == 404
    ensures Collect(before + [path] + after, fetch, parse, now) == Collect(before + after, fetch, parse, now)
  {
    CollectAppend(before + [path], after, fetch, parse, now);
    CollectAppend(before, [path], fetch, parse, now);
    CollectAppend(before, after, fetch, parse, now);
    assert Collect([path], fetch, parse, now) == Ok([]) by {
      assert [path][..0] == [];
    }
    var x := Collect(before, fetch, parse, now);
    if x.Ok? { assert x.value + [] == x.value; }
  }

  // ---- the response --------------------------------------------------------------

  /** The JSON body and status of the response. */
  datatype Feed = Feed(items: seq<Entry>, error: Option<string>, status: nat)

  /** `(a, b) => (b.ts || '').localeCompare(a.ts || '') <= 0`: `a` may stay
      ahead of `b` when its timestamp is not older. */
  function NewerFirst(a: Entry, b: Entry): bool {
    LexLe(b.ts, a.ts)
  }

  lemma NewerFirstPreorder()
    ensures TotalPreorder(NewerFirst)
  {
    forall a: Entry, b: Entry ensures NewerFirst(a, b) || NewerFirst(b, a) {
      LexTotal(a.ts, b.ts);
    }
    forall a: Entry, b: Entry, c: Entry | NewerFirst(a, b) && NewerFirst(b, c) ensures NewerFirst(a, c) {
      LexTransitive(c.ts, b.ts, a.ts);
    }
  }

  /** The outcome `GET` returns for the configuration and what the day files
      hold. */
  function Response(token: Option<string>, repo: Option<string>, dayOf: nat -> string,
                    fetch: string -> Fetched, parse: string -> Option<Parsed>, now: string): Feed
  {
    if token.None? || token.value == [] || repo.None? || repo.value == [] then
      Feed([], Some("Missing GH_TOKEN or GH_REPO"), 200)
    else
      match Collect(AllPaths(dayOf), fetch, parse, now)
      case Err(m) => Feed([], Some(OrElse(Some(m), "feed error")), 200)
      case Ok(items) => Feed(Sort(items, NewerFirst), None, 200)
  }

  /** `GH_TOKEN || GITHUB_TOKEN`. */
  function Token(ghToken: Option<string>, githubToken: Option<string>): (t: Option<string>)
    ensures ghToken.Some? && ghToken.value != [] ==> t == ghToken
    ensures ghToken.None? || ghToken.value == [] ==> t == githubToken
  {
    if ghToken.Some? && ghToken.value != [] then ghToken else githubToken
  }

  /** Every response has status 200; an error always comes with no items, and
      a successful one is sorted newest first and holds exactly the
      collected entries, entries with equal timestamps in file order. */
  lemma ResponseShape(token: Option<string>, repo: Option<string>, dayOf: nat -> string,
                      fetch: string -> Fetched, parse: string -> Option<Parsed>, now: string)
    ensures var feed := Response(token, repo, dayOf, fetch, parse, now);
      && feed.status == 200
      && (feed.error.Some? ==> feed.items == [] && feed.error.value != [])
      && (feed.error.None? ==>
            Collect(AllPaths(dayOf), fetch, parse, now).Ok?
            && var items := Collect(AllPaths(dayOf), fetch, parse, now).value;
            && multiset(feed.items) == multiset(items)
            && Ordered(feed.items, NewerFirst)
            && forall p :: TiedWith(feed.items, p, NewerFirst) == TiedWith(items, p, NewerFirst))
  {
    var feed := Response(token, repo, dayOf, fetch, parse, now);
    if feed.error.None? {
      var items := Collect(AllPaths(dayOf), fetch, parse, now).value;
      NewerFirstPreorder();
      SortOrdered(items, NewerFirst);
      forall p ensures TiedWith(feed.items, p, NewerFirst) == TiedWith(items, p, NewerFirst) {
        SortStable(items, p, NewerFirst);
      }
    }
  }

  /** The loop over the lines of one file. */
  method ReadLines(text: string, parse: string -> Option<Parsed>, now: string) returns (items: seq<Entry>)
    ensures items == TextEntries(Split(text, '\n'), parse, now)
  {
    var lines := Split(text, '\n');
    items := [];
    var j := 0;
    while j < |lines|
      invariant 0 <= j <= |lines|
      invariant items == TextEntries(lines[..j], parse, now)
    {
      var es := ReadLine(lines[j], parse, now);
      items := items + es;
      TextEntriesLast(lines, j, parse, now);
      j := j + 1;
    }
    assert lines[..|lines|] == lines;
  }

  /** The body of the loop over lines: a blank line or one that fails to
      parse is skipped, any other becomes one entry. */
  method ReadLine(line: string, parse: string -> Option<Parsed>, now: string) returns (es: seq<Entry>)
    ensures es == LineEntries(line, parse, now)
  {
    es := [];
    var s := Trim(line);
    if s != [] {
      match parse(s) {
        case Some(e) => es := [ToEntry(e, now)];
        case None =>
      }
    }
  }

  /** `ghGet` and the body of the loop over files: the entries of one day,
      or the message of the error it throws. */
  method ReadDay(path: string, fetch: string -> Fetched, parse: string -> Option<Parsed>, now: string)
    returns (r: Result<seq<Entry>, string>)
    ensures r == DayEntries(path, fetch(path), parse, now)
  {
    var fetched := fetch(path);
    if fetched.Failed? {
      return Err(fetched.message);
    }
    if fetched.status == 404 {
      return Ok([]);
    }
    if !(200 <= fetched.status <= 299) {
      return Err("GitHub GET " + path + " failed: " + Decimal(fetched.status));
    }
    if fetched.content.None? || fetched.content.value == [] {
      return Ok([]);
    }
    var es := ReadLines(fetched.content.value, parse, now);
    return Ok(es);
  }

  /** `GET`: the day paths, then each file in turn. */
  method Get(ghToken: Option<string>, githubToken: Option<string>, repo: Option<string>,
             dayOf: nat -> string, fetch: string -> Fetched, parse: string -> Option<Parsed>, now: string)
    returns (feed: Feed)
    ensures feed == Response(Token(ghToken, githubToken), repo, dayOf, fetch, parse, now)
  {
    var token := Token(ghToken, githubToken);
    if token.None? || token.value == [] || repo.None? || repo.value == [] {
      return Feed([], Some("Missing GH_TOKEN or GH_REPO"), 200);
    }
    var files := DayPaths(dayOf);
    var items: seq<Entry> := [];
    var k := 0;
    while k < |files|
      invariant 0 <= k <= |files|
      invariant Collect(files[..k], fetch, parse, now) == Ok(items)
    {
      var path := files[k];
      var day := ReadDay(path, fetch, parse, now);
      CollectLast(files, k, fetch, parse, now);
      if day.Err? {
        ErrorStops(files, k + 1, fetch, parse, now);
        return Feed([], Some(OrElse(Some(day.error), "feed error")), 200);
      }
      items := items + day.value;
      k := k + 1;
    }
    assert files[..|files|] == files;
    feed := Feed(Sort(items, NewerFirst), None, 200);
  }

  /** Once a file fails, so does the whole run. */
  lemma ErrorStops(files: seq<string>, k: nat, fetch: string -> Fetched, parse: string -> Option<Parsed>, now: string)
    requires k <= |files| && Collect(files[..k], fetch, parse, now).Err?
    ensures Collect(files, fetch, parse, now) == Collect(files[..k], fetch, parse, now)
  {
    CollectAppend(files[..k], files[k..], fetch, parse, now);
    assert files[..k] + files[k..] == files;
  }
}
