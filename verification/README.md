# GustAVO chat core in Dafny

A model of the request-handling core of the GustAVO school chatbot
(`app.py`), a Flask service that answers questions by embedding the user's
message and picking the intent whose example pattern is most similar.

Modules, following the parts of `app.py`:

- `Catalog`: start-up preparation of `intents.json` into the flat list of
  examples (one per pattern, in catalog order, each carrying its intent's
  tag) and the `tag -> responses` table, where a repeated tag keeps the
  responses of the last intent that carries it.
- `Classifier`: `classify_intent_embedding`, a linear scan that starts from
  score 0 and no tag, keeps the first strict maximum, and then applies the
  threshold (default 0.5). The embedding model and cosine similarity are
  abstracted into a parameter `sim(query, patternText): real`.
- `Responder`: `generate_response` and the "no intent" branch of the chat
  endpoint. The random draw is an explicit natural number `pick`.
- `Session`: the state transition of the `/chat` endpoint over the map of
  session histories. It strips the message and returns the prompt for a
  blank one. Otherwise it appends the user turn and builds the contextual
  query from the user turns among the last two turns of either role. It
  then classifies the query, selects the reply, appends the bot turn and
  keeps the last ten turns. `Exchange` is the non-blank path, and `Chat`
  is the whole endpoint.
- `Text`: Python's `str.strip()` (with the exact `str.isspace` character set)
  and `" ".join(...)`.
- `Optional`: the `None`-or-value type, with `dict.get`'s default.
- `Scenarios`: concrete exchanges against a one-intent catalog.

Each operation is checked against an independent statement:

- The scan is checked against independent reference definitions:
  max-or-zero, and the first example reaching the maximum.
- The preparation loop is checked against the functional `Examples` and
  `Table`.
- When every intent has at least one response (`HasResponses`), the chat
  transition keeps an invariant across any sequence of requests: every
  stored history alternates user, bot, ... and has at most ten turns. An
  intent with an empty response list breaks it (see the failed draw below).

Behaviour worth knowing, all as `app.py` computes it:

- The context window is the last `N_HISTORY = 2` turns of both roles,
  filtered to user turns afterwards. Over an alternating history this window
  is the previous bot turn and the new user turn, so the contextual query is
  only the current message. After the user turns "A" and "B" have been
  answered, the query for "C" is "C", not "B C"
  (`Scenarios.ContextAfterTwoExchanges`, `Session.ContextIsCurrentMessage`).
  Two user texts are joined only when the stored history ends with a user
  turn (`Session.ContextOfTwoUserTurns`). That happens after a failed draw.
- A blank message gets a reply carrying only the prompt text. It has no
  intent, confidence or history (`Reply.Prompt`).
- An empty catalog is accepted. Every message then classifies as no intent
  with score 0.
- When the matched intent's response list is empty, `random.choice` raises.
  By then the user turn has already been appended in place to the stored
  list of an existing session (`conversations.get` returns that very list).
  A session seen for the first time is not created. `Session.Record` models
  exactly this, and `Session.ExchangeFails` states it.

## Model

| member | source | states |
|---|---|---|
| Catalog.Examples | app.py:34-47 | one example per pattern, so the length is the total pattern count, and every example's tag is a tag of the catalog |
| Catalog.ExamplePosition | app.py:36-47 | pattern `j` of intent `i` sits at position (patterns of the earlier intents) + `j` and carries intent `i`'s tag |
| Catalog.Table | app.py:33-38 | the table's keys are exactly the catalog's tags |
| Catalog.TableLastWins | app.py:36-38 | a tag maps to the responses of the last intent that carries it |
| Catalog.TableResponsesNonEmpty | app.py:36-38 | when every intent has responses, so does every table entry |
| Catalog.ExampleTagsInTable | app.py:33-47 | every example's tag is a key of the response table |
| Catalog.Prepare | app.py:33-47 | the nested preparation loop builds exactly the functional example list and response table |
| Classifier.Scan | app.py:64-74 | the score is at least 0 and at least every example's score. The tag is absent exactly when no score is positive (then the score is 0). Otherwise it is the tag of an example that reaches the score, with every earlier example scoring strictly less |
| Classifier.Classify | app.py:59-79 | the score is the maximum of 0 and all scores, whether or not a tag is accepted. Below the threshold there is no tag. An accepted tag belongs to the first example reaching the score, which is positive and at least the threshold. A positive score at or above the threshold always keeps its tag |
| Classifier.ClassifyIntent | app.py:59-79 | the imperative loop returns the tag and score that `Classify` specifies |
| Classifier.ThresholdMonotone | app.py:76-79 | an accepted match stays accepted, unchanged, at any lower threshold |
| Classifier.MaxOrZeroIsMax | app.py:64-74 | the reference maximum is at least 0, bounds every score, and is 0 or some example's score |
| Classifier.FirstReachingAt | app.py:72-74 | the reference tag is that of the first example whose score reaches the bound |
| Classifier.ScanMatchesReference | app.py:64-74 | for every input, the scan's score is max(0, all scores). Its tag is the first example reaching that maximum when it is positive, and none otherwise |
| Classifier.ClassifiedTagInTable | app.py:67-79 | a tag accepted over a prepared catalog is a key of that catalog's response table |
| Responder.GenerateResponse | app.py:82-85 | an unknown tag gets the fallback sentence. A known tag gets one of its own responses. The draw fails exactly when the tag's list is empty |
| Responder.EveryResponseReachable | app.py:84 | each response of a known tag is the reply for some draw |
| Responder.SelectReply | app.py:161-164 | no intent, or an unknown one, gets the fallback. A known intent gets one of its responses. It fails exactly when that list is empty |
| Responder.MatchedReplyFromCatalog | app.py:161-164 | over a catalog whose intents all have responses, a catalog tag never makes the draw fail, and the reply is one of its responses |
| Text.TrimStart | app.py:138 | the result is a suffix, everything dropped is whitespace, and a non-empty result starts with non-whitespace |
| Text.TrimEnd | app.py:138 | the result is a prefix, everything dropped is whitespace, and a non-empty result ends with non-whitespace |
| Text.Strip | app.py:138 | the result is an infix with only whitespace outside it. A non-empty result has non-whitespace at both ends. It is empty exactly when the input is all whitespace |
| Text.StripIdempotent | app.py:138 | stripping a stripped string changes nothing |
| Text.StripUntrimmed | app.py:138 | a string with non-whitespace at both ends is its own strip |
| Text.Join | app.py:154 | no parts give "". Otherwise the length is the parts' total plus one separator between each pair of neighbours, and the first part is a prefix |
| Text.JoinSnoc | app.py:154 | appending a part appends the separator and that part, so joining keeps order |
| Session.Tail | app.py:151 | Python's `s[-n:]`: the last `n` elements (all of `s` when it is shorter), and all of `s` for `n = 0` |
| Session.UserTexts | app.py:149-153 | exactly one text per user turn of the input, and every text is the text of a user turn of the input |
| Session.WindowEndingWithUserTurn | app.py:149-153 | the user texts in the two-turn window of a history ending with a user turn are the previous turn's text when that is a user turn, then the new text |
| Session.ContextualQuery | app.py:149-154 | for a history ending with a user turn, the query is that turn's text, preceded by the previous turn's text and one space when the previous turn is a user turn too |
| Session.UserTextsAppend | app.py:149-153 | filtering user texts distributes over concatenation, so it keeps chronological order |
| Session.Respond | app.py:161-167 | the new history is the last ten turns of the old history plus the user and bot turns, and ends with exactly those two turns. Intent and confidence are the classifier's. The reply is the fallback for no or an unknown tag, otherwise one of the tag's responses. It fails exactly when that list is empty |
| Session.TailKeepsLastTwo | app.py:167 | truncating to ten turns keeps the two newest |
| Session.Record | app.py:145-167 | other sessions are untouched. Success stores the new history. A failed draw leaves a new session absent, and an existing one gains only the user turn |
| Session.Exchange | app.py:144-174 | a non-blank exchange changes no session but its own and always answers or fails |
| Session.ExchangeStoresHistory | app.py:145-167 | an answered exchange stores under its session the last ten turns of the stored history followed by the message and the reply, ending with those two turns |
| Session.ExchangeAnswers | app.py:156-173 | an answer carries the classification of the contextual query. Its reply is the fallback for no or an unknown tag, and one of the tag's responses otherwise |
| Session.ExchangeFails | app.py:145-167 | an exchange fails exactly when the accepted tag has an empty response list. A new session then stays absent, and an existing one gains only the user turn |
| Session.Chat | app.py:136-174 | the prompt is returned exactly when the message is all whitespace or missing, and then nothing changes. Otherwise the result is the exchange of the stripped message on the request's session, "default" when it names none |
| Session.MissingSessionIsDefault | app.py:139 | a request without a session id behaves exactly as the same request on the session "default" |
| Session.ChatKeepsOtherSessions | app.py:136-174 | a request changes no session but its own |
| Session.AppendExchangeKeepsAlternation | app.py:146-166 | appending a user turn and a bot turn keeps a history alternating |
| Session.TailKeepsAlternation | app.py:167 | truncating an alternating history to ten turns keeps it alternating |
| Session.RespondKeepsAlternation | app.py:161-167 | a successful reply step turns an alternating history into an alternating one |
| Session.RecordKeepsInvariant | app.py:167 | storing a bounded alternating history keeps every session alternating and bounded |
| Session.ContextIsCurrentMessage | app.py:149-154 | over an alternating history, the contextual query is exactly the new message |
| Session.ContextOfTwoUserTurns | app.py:149-154 | when the last two turns are user turns, the query is their texts joined by one space |
| Session.RecognisesMessage | app.py:149-159 | over an alternating history, classifying the contextual query is classifying the message alone, and an accepted tag belongs to the catalog |
| Session.RespondSucceeds | app.py:161-166 | over a catalog whose intents all have responses, the reply step never fails for a catalog tag |
| Session.ExchangeClassifiesMessage | app.py:145-164 | on an alternating history over such a catalog, the exchange answers, and its intent is the classification of the message alone |
| Session.ChatClassifiesMessage | app.py:136-164 | on a well-formed session map over such a catalog, a request never fails, and its intent is the classification of the stripped message |
| Session.ExchangePreservesInvariant | app.py:145-167 | over such a catalog, an exchange keeps every history alternating and at most ten turns long |
| Session.ChatPreservesInvariant | app.py:136-174 | over such a catalog, a request keeps every history alternating and at most ten turns long |
| Session.RunKeepsInvariant | app.py:136-174 | over such a catalog, any sequence of requests keeps every history alternating and at most ten turns long |
| Scenarios.GreetingEngineShape | app.py:33-47 | the one-intent catalog prepares to two examples and one table entry |
| Scenarios.GreetingRecognised | app.py:59-79 | "ciao" is recognised as "greeting" with score 1 |
| Scenarios.GreetingExchanged | app.py:144-174 | on a new session, "ciao" is answered "Ciao!", and the session holds the two turns |
| Scenarios.GreetingAnswered | app.py:136-174 | the full request for "ciao" on session "s1" gives that answer and that session map |
| Scenarios.QueryOfFirstMessage | app.py:149-154 | on a new session the contextual query is the message itself |
| Scenarios.UnrelatedUnrecognised | app.py:64-77 | text equal to no pattern classifies as no intent with score 0 |
| Scenarios.UnrelatedExchanged | app.py:161-167 | such text gets the fallback reply, no intent and confidence 0 |
| Scenarios.UnrelatedFallsBack | app.py:136-174 | the full request for such text gives that reply |
| Scenarios.BlankPrompts | app.py:141-142 | a message of spaces gets the prompt and leaves the session map unchanged |
| Scenarios.ContextAfterTwoExchanges | app.py:149-154 | after "A" and "B" have been answered, the query for "C" is "C" |

## Left out

- Session.Chat: the answer's confidence is the raw score, whereas app.py:172 returns `round(float(confidence), 2)`. Rounding a float to two decimals is not modelled.
- Session.ExchangeAnswers: the confidence is likewise the unrounded score, as for `Session.Chat`.
- Classifier.Scan: the scores are unbounded reals, not the float32 values `util.cos_sim` returns. Float ties and rounding are not modelled.
- Classifier.Classify: the threshold comparison is on reals, for the same reason as `Classifier.Scan`.
- Classifier.ClassifyIntent: the embedding of the query and of each pattern, and the cosine similarity, are folded into the parameter `sim`. The sentence-transformer model is not modelled.
- Catalog.Prepare: the embedding stored with each example is not kept. It depends only on the pattern text, and `sim` takes that text.
- Session.Chat: request parsing is simplified, because `Request` holds only two optional strings. A JSON body whose `message` is null or not a string makes `.strip()` raise (app.py:138), and a `session_id` that is not hashable raises at app.py:145; neither is expressible. A `session_id` of null or a number is hashable, so Python keeps it under its own key (`None`, `5`), apart from "default" and from the string "5"; the model has only string ids and treats a null id like a missing one. A missing or malformed JSON body is not modelled.
- Responder.GenerateResponse: `random.choice` (app.py:84) is the explicit draw `pick`, and the response used is `pick` modulo the list length.
- Session.Sessions: the global `conversations` map (app.py:52, 145-167) is read, changed and written without a lock. Concurrent requests are not modelled; each request is one atomic transition.
- Session.ChatPreservesInvariant: requires every intent to have at least one response, which `app.py` never checks. With an empty list, app.py:84 raises after app.py:146 has appended the user turn to the stored list, so that history stops alternating (`Session.ExchangeFails` states this).
- Session.RunKeepsInvariant: needs the same catalog assumption as `Session.ChatPreservesInvariant`, for the same reason.
- The JSON encoding of replies, and the HTTP status of a failed request, are not modelled. `Reply.ServerError` stands for the unhandled exception.
- Loading `intents.json` from disk is not modelled. The catalog is a parameter.
- The Flask routes other than `/chat` (static images, `/debug-files`, `/`, `/test`, app.py:90-129) are outside the request-handling core.
