# portfolio-agent, the string and list core, in Dafny

The portfolio agent answers questions about a designer's portfolio. It has
five parts, and this project models the sequential logic in each of them:

- **The chat widget.** It posts a conversation to the agent, appends the
  reply to the transcript, logs an audit entry and remembers the question
  in session storage. It shows answers with HTML escaped and Markdown links
  made into anchors. It can cut the citation footer and clean citations out
  of the text, and it judges by heuristic whether an answer was a real one.
- **The audit-feed `GET` handler.** It reads the last fourteen daily
  JSON-lines files, turns each line into a feed entry with defaults and an
  inferred confidence, and sorts the entries newest first.
- **The agent `POST` handler.** It takes the last message as the query,
  ranks the knowledge chunks by an abstract score, keeps the top six and
  appends a numbered `Sources:` footer of their file names.
- **The embeddings build script.** It splits each Markdown file's text into
  overlapping word windows with ids `name::idx`, and collects only `.md`
  and `.mdx` files.
- **The questions-and-answers page.** It lists the feed, marks answers
  logged as not confident, and under each of those offers a follow-up
  question the session has not asked yet.

Modules:

- `Text`: the JavaScript whitespace class, `toLowerCase` for ASCII and
  Latin-1, and `trim`, `includes`, `split`, `join`, `split(/\s+/)`, the
  basename, decimal printing and `||` on strings.
- `Lists`: `Array.from(new Set(...))` as first-occurrence de-duplication.
- `Sorting`: a stable sort as `Array.prototype.sort` promises it.
- `ChatDisplay`, `ChatCleanup`, `Session` and `ChatClient`:
  components/AgentChat.tsx.
- `AuditFeed`: app/api/audit-feed/route.ts.
- `AgentRoute`: portfolio-agent-netlify/app/api/agent/route.ts.
- `Embeddings`: portfolio-agent-netlify/scripts/build-embeddings.mjs.
- `QaPage`: app/questions-and-answers/page.tsx.

The two 25-character thresholds count UTF-16 code units, as JavaScript's
`length` does (`Text.Utf16Length`). The inputs to the model are these, each as a value or a function parameter:

- the network (GitHub, OpenAI, the agent endpoint);
- `JSON.parse`, modelled as a partial parser;
- the clock: the date strings and "now";
- `Math.random`: a draw in [0, 1);
- the embedding scores.

The two handlers and the build script share one record shape for a chunk
(`Embeddings.Chunk`). So the agent's footer, the display's footer stripping
and the page's use of the feed are stated against the same definitions.

Some of these files hold text that was saved as UTF-8, read back as
Windows-1252 and saved again. The model keeps these strings as the files
hold them, in the members whose names end in `AsWritten`. The rest of the
model uses corrected members; see "## Findings".

## Model

| member | source | states |
|---|---|---|
| ChatDisplay.EscapeHtml | components/AgentChat.tsx:8-18 | the result holds no raw `<`, `>`, `"` or `'`, and is at least as long as the input |
| ChatDisplay.EscapeAppend | components/AgentChat.tsx:16-18 | escaping works character by character: escaping a concatenation is concatenating the escapes |
| ChatDisplay.EscapePlain | components/AgentChat.tsx:16-18 | text with none of `& < > " '` comes back unchanged |
| ChatDisplay.UnescapeEscape | components/AgentChat.tsx:8-18 | every character is replaced by its own entity: decoding the entities gives back the input |
| ChatDisplay.MatchLinkSpan | components/AgentChat.tsx:23 | a matched span is exactly `[label](url)`, where the label is non-empty and has no `]`, and the url starts with `http://` or `https://` followed by at least one character that is neither whitespace nor `)` |
| ChatDisplay.LinksToHtmlEscapesFirst | components/AgentChat.tsx:21-26 | links are rewritten in the escaped text; the pieces spell that text, and every label and url is already free of markup, so the inserted anchor is not escaped again |
| ChatDisplay.LinksToHtmlWithoutLinks | components/AgentChat.tsx:21-26 | `linksToHtml` gives exactly `escapeHtml` of the input if and only if no `[label](http…)` span occurs in the escaped text |
| ChatDisplay.NoBracketNoLink | components/AgentChat.tsx:21-26 | input without a `[` holds no such span, so it is rendered as `escapeHtml` of it |
| ChatDisplay.StripSourcesFooter | components/AgentChat.tsx:29-31 | the result is a prefix of the input |
| ChatDisplay.FirstFooter | components/AgentChat.tsx:30 | the footer match is the leftmost position where newlines are followed by `Sources:` in any case, then a whitespace character |
| ChatDisplay.StripLeavesNoFooter | components/AgentChat.tsx:29-31 | the result holds no footer match |
| ChatDisplay.StripWithoutFooter | components/AgentChat.tsx:29-31 | input without a footer match is returned unchanged |
| ChatDisplay.StripIdempotent | components/AgentChat.tsx:29-31 | stripping twice is stripping once |
| ChatCleanup.MatchCitation | components/AgentChat.tsx:44-47 | a match lies within the input and covers only characters the pattern allows: whitespace, an optional `, ; :` or dash, then a bracket holding digits, commas, whitespace and a dash |
| ChatCleanup.RemoveCitationsKept | components/AgentChat.tsx:44-47 | removing citations deletes only such characters: the other characters survive, in order |
| ChatCleanup.DropCommaBeforeStopKept | components/AgentChat.tsx:50 | dropping a comma before sentence punctuation keeps every other character |
| ChatCleanup.DropTrailingCommaKept | components/AgentChat.tsx:53 | dropping a comma at a line end keeps every other character |
| ChatCleanup.DropEmptyParensKept | components/AgentChat.tsx:56 | dropping empty parentheses keeps every other character |
| ChatCleanup.TightenNoSpaceBeforePunct | components/AgentChat.tsx:59 | after the fifth step no whitespace stands before `, . ! ? ; :` |
| ChatCleanup.CollapseShape | components/AgentChat.tsx:60 | collapsing whitespace runs leaves no two whitespace characters in a row and adds no space before punctuation |
| ChatCleanup.NormalizeShape | components/AgentChat.tsx:59-60 | the final normalisation has no leading or trailing whitespace, no double whitespace and no whitespace before punctuation, and keeps every non-space character in order |
| ChatCleanup.CleanupKeepsText | components/AgentChat.tsx:40-63 | the whole pipeline deletes only whitespace, digits, the characters `, ; : [ ] ( )` and dashes, keeping every other character in order, and its output has the normalised shape |
| ChatCleanup.CleanupUnchanged | components/AgentChat.tsx:40-63 | text with no citation, comma, parenthesis or whitespace passes through unchanged |
| ChatCleanup.RangeCitationRemoved | components/AgentChat.tsx:35 | with the en dash in the dash classes, a range citation `[d1–d2]` is matched whole and cleaned away |
| ChatCleanup.RangeCitationMissedAsWritten | components/AgentChat.tsx:45 | with the dash classes as written, the pattern does not match `[d1–d2]` |
| ChatCleanup.RangeCitationKeptAsWritten | components/AgentChat.tsx:44-60 | as written, the cleanup returns `[d1–d2]` unchanged |
| ChatClient.ShortNotConfident | components/AgentChat.tsx:83 | an answer shorter than 25 UTF-16 code units after trimming is not confident, the empty one included |
| ChatClient.PhraseNotConfident | components/AgentChat.tsx:67-82 | an answer containing any listed phrase is not confident, whatever text surrounds it |
| ChatClient.ConfidentIgnoresCase | components/AgentChat.tsx:67 | the heuristic reads the answer lower-cased |
| ChatClient.FallbackNotConfident | components/AgentChat.tsx:156-159 | the fallback reply "Sorry, something went wrong." is judged not confident |
| ChatClient.AnswerOf | components/AgentChat.tsx:156-178 | the appended answer is the `reply` string, or the fallback when there is none or the request threw |
| ChatClient.ConfidenceOf | components/AgentChat.tsx:159-185 | the logged confidence is the heuristic on the reply, and `false` on the error path |
| ChatClient.FallbackLoggedWeak | components/AgentChat.tsx:156-185 | on either path, a fallback answer is logged as not confident |
| ChatClient.AlternatingExtend | components/AgentChat.tsx:144-160 | one user message followed by one assistant message keeps the transcript alternating |
| ChatClient.Chat.constructor | components/AgentChat.tsx:114-118 | the transcript starts with the greeting alone and the input is empty |
| ChatClient.Chat.Send | components/AgentChat.tsx:138-194 | an empty or whitespace-only message changes nothing; otherwise the input is cleared, the question is remembered, exactly one user message and one assistant message are appended, earlier messages are kept, and the audit payload carries the trimmed question, the answer and its confidence |
| Session.Key | components/AgentChat.tsx:106 | the key is never longer than the question, and is empty exactly when the question is blank |
| Session.KeyIdempotent | app/questions-and-answers/page.tsx:24 | normalising a key again changes nothing |
| Session.Remember | components/AgentChat.tsx:101-109 | unparsable storage is left alone; otherwise the stored list holds the key and has no repeats |
| Session.RememberContents | components/AgentChat.tsx:104-107 | the new list holds the old entries and the key, and nothing else |
| Session.RememberAgain | components/AgentChat.tsx:105-107 | remembering the same question twice is remembering it once |
| Session.AlreadyAsked | app/questions-and-answers/page.tsx:20-26 | the set holds exactly the keys of the stored strings; storage that is missing, unparsable, not an array, or that holds a non-string gives the empty set |
| Session.RememberedIsAsked | app/questions-and-answers/page.tsx:20-26 | a question the chat remembered is in the set the page reads back, and nothing else is added |
| AuditFeed.ConfidenceCases | app/api/audit-feed/route.ts:27-36 | for any phrase list, the file's own included: an absent or empty answer is not confident; neither is one shorter than 25 UTF-16 code units after trimming; a longer one is confident exactly when no listed phrase occurs in it lower-cased |
| AuditFeed.CurlyUnsureNeverConfident | app/api/audit-feed/route.ts:31-34 | with the corrected phrase list, any answer containing "i’m not sure" is not confident |
| AuditFeed.UnsureConfidentAsWritten | app/api/audit-feed/route.ts:31 | with the phrase as written, "I’m not sure about that one." is judged confident |
| AuditFeed.UnsureNotConfident | app/api/audit-feed/route.ts:31 | with the corrected phrase, the same answer is judged not confident |
| AuditFeed.HeuristicsDisagree | app/api/audit-feed/route.ts:30-33 | the feed's and the chat's phrase lists differ: there is an answer only the chat rejects, and one only the feed rejects |
| AuditFeed.ToEntry | app/api/audit-feed/route.ts:61-68 | the entry keeps a boolean `confident`, or infers it from the answer; `question`, `answer` and `ua` default to the empty string and `ts` to now |
| AuditFeed.LineEntriesNone | app/api/audit-feed/route.ts:57-69 | a line yields no entry exactly when it is blank or does not parse |
| AuditFeed.ReadLine | app/api/audit-feed/route.ts:57-69 | the body of the loop over lines computes that line's entries |
| AuditFeed.TextEntriesAppend | app/api/audit-feed/route.ts:56-70 | the lines are read in order: reading two runs of lines one after the other joins their entries |
| AuditFeed.BadLineDropped | app/api/audit-feed/route.ts:56-69 | a blank or unparsable line is dropped and leaves the entries of the other lines as they were |
| AuditFeed.ReadLines | app/api/audit-feed/route.ts:56-70 | the loop over lines yields the entries of the `\n`-separated lines, in order |
| AuditFeed.AllPaths | app/api/audit-feed/route.ts:44-49 | exactly 14 paths, the i-th being `data/audit/audit-<day i>.jsonl` |
| AuditFeed.DayPaths | app/api/audit-feed/route.ts:44-49 | the loop builds exactly those paths |
| AuditFeed.DayEntries | app/api/audit-feed/route.ts:8-16 | a 404 is a day without entries; another non-2xx status, or a thrown error, is an error with its message |
| AuditFeed.ReadDay | app/api/audit-feed/route.ts:52-71 | the body of the loop over files computes the entries of one day |
| AuditFeed.MissingDaySkipped | app/api/audit-feed/route.ts:52-54 | a missing day file changes nothing in the result |
| AuditFeed.CollectAppend | app/api/audit-feed/route.ts:52-71 | the files are read in order and their entries concatenated; the first error wins |
| AuditFeed.ErrorStops | app/api/audit-feed/route.ts:52-79 | once a file has failed, the files after it do not matter |
| AuditFeed.Token | app/api/audit-feed/route.ts:3 | `GH_TOKEN` is used when set and non-empty, otherwise `GITHUB_TOKEN` |
| AuditFeed.NewerFirstPreorder | app/api/audit-feed/route.ts:73 | the comparator is a total preorder on timestamps |
| AuditFeed.ResponseShape | app/api/audit-feed/route.ts:38-80 | the status is always 200; an error has no items and a non-empty message; a success holds exactly the collected entries, newest first, with entries of equal timestamp in file order |
| AuditFeed.Get | app/api/audit-feed/route.ts:38-80 | the handler returns that response for the configured token |
| AgentRoute.LastContent | portfolio-agent-netlify/app/api/agent/route.ts:28 | the query is the last message's content, and is empty exactly when there are no messages or that content is missing or empty |
| AgentRoute.ScoreAll | portfolio-agent-netlify/app/api/agent/route.ts:31 | one scored record per chunk, in corpus order |
| AgentRoute.HigherFirstPreorder | portfolio-agent-netlify/app/api/agent/route.ts:32 | the comparator orders by descending score as a total preorder |
| AgentRoute.Ranked | portfolio-agent-netlify/app/api/agent/route.ts:31-32 | the ranking is a permutation of the scored corpus |
| AgentRoute.TopSelection | portfolio-agent-netlify/app/api/agent/route.ts:31-33 | the selection has min(6, corpus size) chunks with non-increasing scores; with the rest it makes up the corpus; no unselected chunk scores higher than a selected one |
| AgentRoute.TopKeepsCorpusOrder | portfolio-agent-netlify/app/api/agent/route.ts:31-33 | chunks of equal score are selected in corpus order, earliest first |
| AgentRoute.Sources | portfolio-agent-netlify/app/api/agent/route.ts:52 | each selected chunk's source reduced to its last `/` segment |
| AgentRoute.Uniq | portfolio-agent-netlify/app/api/agent/route.ts:52 | each selected file name exactly once, and nothing else, in order of first occurrence |
| AgentRoute.Numbered | portfolio-agent-netlify/app/api/agent/route.ts:53 | the i-th name is written `[i+1] name` |
| AgentRoute.ReplyText | portfolio-agent-netlify/app/api/agent/route.ts:51 | the model's content when non-empty, otherwise "Sorry, no response."; never empty |
| AgentRoute.Answer | portfolio-agent-netlify/app/api/agent/route.ts:51-57 | a completion becomes the reply with the footer of the top chunks' file names; a failure becomes status 500 with its message |
| AgentRoute.Post | portfolio-agent-netlify/app/api/agent/route.ts:25-59 | every failure has status 500 and a non-empty error |
| AgentRoute.CitedStripped | portfolio-agent-netlify/app/api/agent/route.ts:53 | stripping the footer from a reply gives back the text exactly when the text does not end in a newline and gains no footer match once a newline is appended |
| AgentRoute.TrailingNewlineCut | portfolio-agent-netlify/app/api/agent/route.ts:53 | a text ending in a newline loses its trailing newlines too |
| AgentRoute.EarlyFooterCut | portfolio-agent-netlify/app/api/agent/route.ts:53 | a text that already holds a footer match is cut short |
| AgentRoute.NoNewlineNoFooter | components/AgentChat.tsx:30 | a single-line text never holds a footer match, even with a newline appended |
| AgentRoute.FallbackShown | portfolio-agent-netlify/app/api/agent/route.ts:51-53 | stripping the footer gives back exactly the fallback reply, so the chat window renders that reply as `linksToHtml(stripCitationsAndCleanup("Sorry, no response."))`, as if no footer had been added |
| AgentRoute.ReplyShown | portfolio-agent-netlify/app/api/agent/route.ts:51-55 | for a single-line reply, or one that satisfies the round-trip condition, stripping the footer gives back exactly the model's text, so the chat window renders `linksToHtml(stripCitationsAndCleanup(text))` of it (components/AgentChat.tsx:210-212) |
| Embeddings.Window | portfolio-agent-netlify/scripts/build-embeddings.mjs:28 | the window holds the words from `i` up to `min(i+max, n)`, so never more than `max` |
| Embeddings.Starts | portfolio-agent-netlify/scripts/build-embeddings.mjs:27 | every start lies below the word count |
| Embeddings.StartsAt | portfolio-agent-netlify/scripts/build-embeddings.mjs:27 | the k-th start is `i + k * step` |
| Embeddings.StartsEnd | portfolio-agent-netlify/scripts/build-embeddings.mjs:27 | the starts run up to the word count |
| Embeddings.KeptWindows | portfolio-agent-netlify/scripts/build-embeddings.mjs:29-30 | no more chunks than starts, and no chunk is blank |
| Embeddings.ChunkText | portfolio-agent-netlify/scripts/build-embeddings.mjs:24-32 | the loop returns exactly the non-blank windows at the starts, in order |
| Embeddings.PushWindow | portfolio-agent-netlify/scripts/build-embeddings.mjs:28-29 | one turn of the loop appends the window at `i` exactly when it is not blank |
| Embeddings.KeptOrigins | portfolio-agent-netlify/scripts/build-embeddings.mjs:27-30 | every chunk is the window at some start, in increasing start order, and a start contributes a chunk exactly when its window is not blank |
| Embeddings.ChunkWindows | portfolio-agent-netlify/scripts/build-embeddings.mjs:24-32 | the chunks of a text are the windows at `k * (max - overlap)` below the word count, in order, missing exactly the blank ones |
| Embeddings.Coverage | portfolio-agent-netlify/scripts/build-embeddings.mjs:27-28 | when `0 <= overlap < max`, every word lies in some window |
| Embeddings.SharedWords | portfolio-agent-netlify/scripts/build-embeddings.mjs:27-28 | two consecutive windows, the second full, share exactly `overlap` words |
| Embeddings.ChunkIdInjective | portfolio-agent-netlify/scripts/build-embeddings.mjs:64 | an id determines its file name and its index |
| Embeddings.FileChunks | portfolio-agent-netlify/scripts/build-embeddings.mjs:62-65 | one record per chunk of the file |
| Embeddings.Build | portfolio-agent-netlify/scripts/build-embeddings.mjs:58-66 | the main loop yields the records of all files, file by file |
| Embeddings.PushFile | portfolio-agent-netlify/scripts/build-embeddings.mjs:62-65 | one file's turn appends exactly that file's records, numbered from 0, after those already built |
| Embeddings.ChunkOfItsFile | portfolio-agent-netlify/scripts/build-embeddings.mjs:58-66 | every record is a non-blank chunk of its own file, with that file's path and an id naming its file and index |
| Embeddings.FileIdsDistinct | portfolio-agent-netlify/scripts/build-embeddings.mjs:63-64 | ids within one file are all different |
| Embeddings.IdsDistinct | portfolio-agent-netlify/scripts/build-embeddings.mjs:58-66 | ids across the build are all different when no two files share a file name |
| Embeddings.MarkdownNameLower | portfolio-agent-netlify/scripts/build-embeddings.mjs:48 | a name passes exactly when it ends in `.md` or `.mdx` in any mix of case |
| Embeddings.MarkdownPath | portfolio-agent-netlify/scripts/build-embeddings.mjs:46-48 | the test depends only on the entry's own name, not on its directory |
| QaPage.FilterMember | app/questions-and-answers/page.tsx:30-33 | a candidate is in the pool exactly when its key is neither the avoided one nor already asked |
| QaPage.FilterAppend | app/questions-and-answers/page.tsx:30 | the filter keeps the candidates' relative order |
| QaPage.Pool | app/questions-and-answers/page.tsx:29-33 | the pool holds exactly the suggestions whose key differs from the avoided question's and is not asked; a missing question avoids only the empty key |
| QaPage.PoolDistinct | app/questions-and-answers/page.tsx:8-33 | the pool never holds a suggestion twice |
| QaPage.Draw | app/questions-and-answers/page.tsx:36 | the drawn index lies in the pool, at the floor of `rand * n` |
| QaPage.PickSuggestion | app/questions-and-answers/page.tsx:28-38 | null exactly when the pool is empty; otherwise a suggestion from the list, not the avoided question and not asked |
| QaPage.EveryOfferableDrawn | app/questions-and-answers/page.tsx:36-37 | every suggestion in the pool is picked by some draw |
| QaPage.FreshSessionSuggests | app/questions-and-answers/page.tsx:8-38 | a session that has asked nothing always gets a suggestion, whatever question it is shown under |
| QaPage.RememberedNotSuggested | app/questions-and-answers/page.tsx:20-37 | a question the chat has remembered is never suggested again |
| QaPage.FollowUp | app/questions-and-answers/page.tsx:68-69 | a suggestion is drawn only for an item with `confident === false`, with its question as the one to avoid |
| QaPage.FromEntry | app/questions-and-answers/page.tsx:4 | a feed entry reaches the page with its question and answer and with `confident` set |
| QaPage.Shown | app/questions-and-answers/page.tsx:47-49 | the page lists the feed's items in order |
| QaPage.FeedWeakness | app/questions-and-answers/page.tsx:68-69 | a feed item is weak exactly when the feed marked it not confident, and then a fresh session gets a follow-up |
| QaPage.UnflaggedFollowUp | app/questions-and-answers/page.tsx:68-69 | for a logged line without `confident`, a fresh session gets a follow-up exactly when the feed's heuristic finds the answer unconfident |
| Text.Trim | components/AgentChat.tsx:139 | `trim` gives an empty string exactly for an all-whitespace input, and otherwise one that neither starts nor ends with JavaScript whitespace |
| Text.TrimWindow | components/AgentChat.tsx:139 | the trimmed string is a contiguous window of the input with only whitespace on either side of it, so `trim` removes leading and trailing whitespace and nothing else |
| Text.SplitWs | portfolio-agent-netlify/scripts/build-embeddings.mjs:25 | `split(/\s+/)` gives at least one piece, and no piece holds whitespace |
| Text.SplitWsJoins | portfolio-agent-netlify/scripts/build-embeddings.mjs:25 | the pieces of `split(/\s+/)`, written one after the other, are exactly the input's non-whitespace characters in order: the split loses nothing but whitespace |
| Text.SplitWsInnerNonEmpty | portfolio-agent-netlify/scripts/build-embeddings.mjs:25 | only the first and the last piece can be empty (from leading or trailing whitespace) |
| Text.SplitWsNonEmpty | portfolio-agent-netlify/scripts/build-embeddings.mjs:25 | a text with no whitespace at either end splits into non-empty words only |
| Text.SplitJoin | app/api/audit-feed/route.ts:56 | joining the pieces of `split('\n')` with `\n` gives back the text |
| Text.Basename | portfolio-agent-netlify/app/api/agent/route.ts:52 | `split('/').pop()` is the part after the last `/`: a suffix without `/` |
| Text.DecimalRoundTrip | portfolio-agent-netlify/app/api/agent/route.ts:53 | an index printed in decimal reads back as the same number |
| Lists.Dedup | portfolio-agent-netlify/app/api/agent/route.ts:52 | `Array.from(new Set(xs))` has the same elements and no repeats |
| Lists.DedupOrder | portfolio-agent-netlify/app/api/agent/route.ts:52 | its elements come in order of first occurrence |
| Sorting.SortOrdered | app/api/audit-feed/route.ts:73 | the sort's output is ordered by the comparator |
| Sorting.SortStable | portfolio-agent-netlify/app/api/agent/route.ts:32 | the sort is stable: elements the comparator ties keep their order |

## Left out

- Network calls are parameters: the GitHub contents API, the OpenAI
  embedding and chat calls, the agent endpoint and the audit `POST`.
  Base64 decoding is a parameter as well.
- `cosine` is floating-point arithmetic with `sqrt`. Scores are an
  abstract `real` per chunk, so NaN is not modelled.
- `JSON.parse` is a partial parser parameter. So is the structure of the
  request body.
- `Date`, `toISOString` and `toLocaleString`: the fourteen date strings and
  "now" are inputs; how the page formats the date is not modelled.
- `Math.random` is a draw in [0, 1).
- React state, effects, rendering, scrolling and the `?q=` prefill are not
  modelled. Styling is not modelled. The loading flag is modelled only as
  being false between sends.
- ChatClient.Chat.Send: a send is modelled as running to completion before
  the next one starts. The button is disabled while loading, but Enter
  (components/AgentChat.tsx:227) calls `send` without checking `loading`.
  Two overlapping sends each append to the transcript they captured, so the
  first reply is lost and user and assistant messages no longer alternate.
  The model does not capture that interleaving.
- AuditFeed.ToEntry: one clock reading `now` is the default timestamp for
  every line. The handler reads the clock again for each line without a
  `ts` (app/api/audit-feed/route.ts:62), so in the source those defaults
  can differ by milliseconds, and the sort may order them differently.
- AuditFeed.ToEntry: a field holding a value of another JSON type is not
  modelled; the parser parameter yields only strings, and a boolean for
  `confident`. In the handler, `{"answer": 42}` makes `inferConfidence`
  throw and the line is dropped, `{"answer": 42, "confident": true}` keeps
  the number as the answer, and a truthy non-string `ts` can make the
  sort's comparator throw, which turns the response into the error case.
- AuditFeed.Parsed: holds only the string and boolean field values, for
  the reason in the line above.
- AuditFeed.ToEntry: infers confidence with the corrected phrase list
  (AuditFeed.IntendedPhrases, see "## Findings"), not the list written at
  app/api/audit-feed/route.ts:30-33. AuditFeed.ConfidenceCases and
  AuditFeed.UnsureConfidentAsWritten state what the written list does.
- AuditFeed.Response: builds its entries with AuditFeed.ToEntry, so it uses
  the corrected phrase list too.
- AuditFeed.Get: returns AuditFeed.Response, so it uses the corrected
  phrase list too.
- QaPage.UnflaggedFollowUp: is stated for the corrected phrase list, as
  AuditFeed.ToEntry uses it.
- `sessionStorage` access is a stored value. The `askedQuestions` writes are
  modelled; failed writes (quota) are not.
- `mdToText`, `gray-matter`, `walk`'s directory recursion, `readFileSync`
  and `writeFileSync` are library and file I/O. The build takes a list of
  (path, plain text) files. `path.basename` is modelled as the part after
  the last `/`, which agrees with it on the file paths `walk` produces.
- The stored `embedding` vector of a chunk is not modelled. It only feeds
  `cosine`.
- `toLowerCase` covers ASCII and Latin-1 letters only. Other scripts are
  left unchanged.
- `localeCompare` on timestamps is code-point order. That agrees with it
  on ISO timestamps.
- The `Sources:` match uses `\s` after the label, and `[\s\S]*$` to the
  end. Both are modelled exactly.
- AgentRoute.CitedStripped: the round trip needs more than "`text` has no
  footer match". A text ending in a newline is cut at its trailing
  newlines. So is a text such as `a\nSources:`, which has no match of its
  own but gains one once the footer's `\n` follows it. The lemma states
  the exact condition, and TrailingNewlineCut and EarlyFooterCut show both
  failures.
- Embeddings.Chunks and Embeddings.ChunkText require `overlap < max`. With
  `max <= overlap` the source loop never ends. The build always uses 900
  and 150.
- Ids collide across two files with the same file name in different
  directories. Embeddings.IdsDistinct assumes distinct file names for that
  reason.
- The citation pattern is modelled for the characters the pipeline keeps or
  deletes (ChatCleanup.CleanupKeepsText). Which exact spans it removes is
  stated only for the range-citation case.

## Findings

| source | as written | input that shows it | evidently intended | confidence | as-written member | corrected member |
|---|---|---|---|---|---|---|
| app/api/audit-feed/route.ts:31 | the phrase is the three characters `â€™` between `i` and `m`, which is `’` encoded as UTF-8 and read back as Windows-1252 | the answer `I’m not sure about that one.` contains no listed phrase and is 28 characters long, so it is logged as confident | `i’m not sure` with U+2019, as typed | not executed | AuditFeed.UnsureConfidentAsWritten | AuditFeed.UnsureNotConfident |
| components/AgentChat.tsx:45 | both dash classes hold `â`, `€` and `“` in place of the en dash `–` | the range citation `[1–3]` is not matched, and the cleanup returns it unchanged | classes containing U+2013, so that the range citations the comment on line 35 lists are removed | not executed | ChatCleanup.RangeCitationKeptAsWritten | ChatCleanup.RangeCitationRemoved |
