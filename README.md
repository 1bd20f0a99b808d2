# Chat backend core, modelled in Dafny

A model of the sequential logic of a retrieval-augmented chat backend (a
FastAPI service). It covers four pieces:

- the `question` validator of `QueryRequest` (`validation.dfy`, module `Validation`). It strips the
  question, then rejects it when it is empty, when it is over 500 characters, or when fewer than
  30% of its characters are ASCII letters and it is over 5 characters long;
- the prompt-injection rewrite in `ask` (`validation.dfy`). A question with fewer than eight words
  whose lower-cased text holds one of six trigger phrases is replaced by a fixed sentence;
- the in-memory session store (`sessions.dfy`, module `Sessions`): the `sessions` dictionary, the
  expiry sweep and id resolution of `get_or_create_session`, and the append-then-cap-at-20 history
  update. The dictionary is the field of a `SessionStore` class whose methods update it in place;
- the `/ask` handler (`ask.dfy`, module `Ask`): the empty-question short cut, session resolution,
  the model call, the history update after an answer, and the fixed map from exception to fallback
  answer;
- `format_docs` of the retrieval chain (`format_docs.dfy`, module `RagChain`). It strips each
  passage, cuts it at its first `## [METADATA:` marker, unwraps `Q:`/`A:` framing, and joins the
  non-empty results with blank lines in retrieval order.

`text.dfy` (module `Text`) gives the Python `str` operations these rely on as functions on
`seq<char>`: `strip`, `in`, `find`, `startswith`, `split(sep)[0]`, `split(sep, 1)[1]`,
`replace(p, "")`, `replace(p, "", 1)`, `lower`, `split()` and `sep.join`. `wrappers.dfy` holds
`Option` and `Result`.

Abstractions:

- The clock is an integer count of microseconds, the resolution of `datetime`.
- `uuid.uuid4()` is a `freshId` argument: non-empty and not already a key of the dictionary.
- The retrieval-augmented chain is a function argument. It maps the question and the session's prior
  history to an answer or to the exception it raises. The 20-second `asyncio.wait_for` shows up only
  as one such outcome, `TimeoutError`.
- The stateful operations are methods. `SessionStore.GetOrCreateSession` and `SessionStore.RecordExchange`
  update the dictionary, and `Ask`/`Serve` call them. `CleanDocs`/`FormatDocs` run the loop of
  `format_docs`. Each method is proved equal to a specification function (`Resolve`, `AfterExchange`,
  `Exchange`, `Served`, `Cleaned`, `FormattedContext`), and the lemmas are stated about those functions.

Behaviour of the code that the model keeps:

- Expiry is measured from `created_at`, which is set once when a session is created and never
  refreshed. A session that is in constant use still expires one hour after it was created.
- The field validator of `QueryRequest` runs while FastAPI parses the request body. A blank, over-long
  or nonsense question is therefore answered by the framework with a 422 validation error, and `ask`
  never runs for it. That error response is not part of this model (see "Left out").
- The handler's own answer "I didn't receive a question…" (main.py:83-85) is reachable only when `ask`
  is given an unvalidated request (`BlankQuestionAnswered`). `ValidatedReachesChain` shows that a
  validated request never takes that branch.
- `Served` is the model's own composition of the validator with the handler. It routes a validator
  `ValueError` through the handler's first `except` clause, by its message. Under that composition a
  blank question gets "Please ask a clear question (max 500 characters)." (`BlankQuestionServed`).
  This is a property of the composition, not of the deployed service.
- The extra cut of an answer at `\n\n## [METADATA:` (backend/rag_chain.py:64-65) never takes effect. The
  text was already cut at the first `## [METADATA:`, and that shorter marker is contained in the longer
  one (`AnswerCutIsRedundant`). The model keeps the cut as written.

The alpha-ratio test `len(letters) / len(v) < 0.3` is modelled as `10 * letters < 3 * len`. The
two agree on every question the test sees. The length check has already bounded `len(v)` by 500, so
the true ratio is at least 1/5000 away from 0.3 unless it equals 0.3 exactly. In that case the
floating-point quotient `3/10` is the same double as the literal `0.3`, so the comparison is false in
both models.

## Model

| member | source | states |
|---|---|---|
| Text.TrimStart | main.py:39 | the leading-whitespace half of `strip()`: the result is a suffix of the input, everything dropped is whitespace, and the result does not start with whitespace |
| Text.TrimEnd | main.py:39 | the trailing half of `strip()`: the result is a prefix, everything dropped is whitespace, and the result does not end with whitespace |
| Text.Strip | main.py:39 | `strip()` is never longer than its input and neither starts nor ends with whitespace |
| Text.StripIsInfix | main.py:39 | what `strip()` keeps is the infix between a leading and a trailing run of whitespace |
| Text.StripTrimmed | main.py:83 | stripping a string that has no whitespace at either end changes nothing |
| Text.StripIdempotent | main.py:83 | `strip()` applied twice equals `strip()` applied once, so the handler's second strip of a validated question changes nothing |
| Text.FindFrom | backend/rag_chain.py:58 | the result is the first offset at or after `k` where the pattern occurs, or none when it occurs nowhere after `k` |
| Text.Find | backend/rag_chain.py:58 | the first offset of the pattern, or none exactly when it occurs nowhere |
| Text.ContainsIff | backend/rag_chain.py:58 | `p in s` holds exactly when `p` occurs at some offset of `s` |
| Text.InfixNotContains | backend/rag_chain.py:59 | a string without `p` has no slice that contains `p` |
| Text.StripNotContains | backend/rag_chain.py:59 | stripping cannot create an occurrence of a pattern |
| Text.NotContainsOuter | backend/rag_chain.py:64 | a string without `p` cannot contain any longer pattern that contains `p` |
| Text.Before | backend/rag_chain.py:59 | `split(p)[0]` is the prefix before the first occurrence of `p`, which holds no occurrence, or the whole string when `p` is absent |
| Text.BeforeNotContains | backend/rag_chain.py:59 | the text before the first occurrence of a non-empty marker no longer contains it |
| Text.After | backend/rag_chain.py:63 | `split(p, 1)[1]` is the suffix right after the first occurrence of `p`: `p` occurs just before it and nowhere earlier |
| Text.BeforeAfter | backend/rag_chain.py:63 | the text before `p`, then `p`, then the text after `p` give back the string |
| Text.RemoveAll | backend/rag_chain.py:68 | `replace(p, "")` never lengthens the string and is the identity when `p` is absent |
| Text.RemoveAllScan | backend/rag_chain.py:68 | when `p` occurs, `replace(p, "")` is the text before its first occurrence followed by `replace(p, "")` of the text after it: occurrences are removed left to right without overlap |
| Text.RemoveFirst | backend/rag_chain.py:68 | `replace(p, "", 1)` is the text before the first `p` followed by the text after it, `|p|` shorter, or the identity when `p` is absent |
| Text.Lower | main.py:87 | `lower()` keeps the length and lower-cases each ASCII capital in place |
| Text.WordLength | main.py:89 | the length of the leading run of non-whitespace: every character before it is non-whitespace and the one at it is whitespace |
| Text.Words | main.py:89 | `split()`: the maximal runs of non-whitespace, in order. It carries no contract of its own; its meaning is stated by `WordsAreWords`, `WordCount`, `WordsCoverNonSpace` and `WordsOfJoin` |
| Text.WordsAreWords | main.py:89 | every piece `split()` returns is a non-empty run of non-whitespace |
| Text.WordCount | main.py:89 | `len(s.split())` is the number of places where a word starts: a non-whitespace character at the start of the string or right after whitespace |
| Text.WordsCoverNonSpace | main.py:89 | the words `split()` returns, run together, are exactly the non-whitespace characters of the string, in order |
| Text.WordsOfJoin | main.py:89 | `split()` undoes `" ".join` on words: `" ".join(ws).split() == ws` |
| Text.WordCountSameSpacing | main.py:87-89 | two strings with whitespace at the same positions split into the same number of words |
| Text.Join | backend/rag_chain.py:76 | `sep.join(xs)` is never the empty string when its first piece is not empty |
| Validation.LetterCount | main.py:44 | the number of `[a-zA-Z]` matches is at most the length; it is zero exactly when the string has no ASCII letter, and equals the length exactly when every character is one |
| Validation.LooksLikeNonsense | main.py:44-45 | a question judged nonsense is over five characters long and holds a character that is not an ASCII letter; one over five characters with no ASCII letter at all is judged nonsense |
| Validation.ErrorMessage | main.py:40-46 | of the validator's three messages, only the nonsense rejection's contains "Nonsense input" |
| Validation.ValidateQuestion | main.py:38-47 | success exactly when the stripped question is non-empty, at most 500 characters and not nonsense, and then the value is the stripped question; each rejection kind holds exactly under its own condition, checked in the order empty, too long, nonsense |
| Validation.ValidatedIsFixpoint | main.py:39-47 | a question the validator accepts is accepted again, unchanged |
| Validation.AtMostMaxNotTooLong | main.py:42-43 | a stripped question of at most 500 characters (500 itself included) is never rejected as too long |
| Validation.ShortNeverNonsense | main.py:44-46 | a stripped question of at most five characters is never rejected as nonsense |
| Validation.AllLettersCount | main.py:44 | a string made only of ASCII letters counts every character as a letter |
| Validation.LettersOfMaxLengthAccepted | main.py:42-46 | a question of exactly 500 ASCII letters is accepted unchanged |
| Validation.LetterlessRejected | main.py:44-46 | a stripped question of 6 to 500 characters without any ASCII letter is rejected as nonsense |
| Validation.HasTrigger | main.py:87-88 | a question whose lower-cased form holds a trigger phrase is at least six characters long, the length of the shortest triggers |
| Validation.LooksLikeInjection | main.py:88-89 | a suspected injection attempt is at least six characters long and has at most seven words |
| Validation.RewriteInjection | main.py:87-90 | the question becomes the fixed sentinel when its lower-cased form contains one of the six triggers and it has fewer than eight words; otherwise it is unchanged |
| Validation.LongQuestionsUnchanged | main.py:89 | a question of eight or more words always reaches the model unchanged |
| Validation.TriggerFreeUnchanged | main.py:88-89 | a question without any trigger phrase reaches the model unchanged |
| Validation.InstructionWordCount | main.py:89 | "ignore all previous instructions" splits into four words |
| Validation.ShortInstructionRewritten | main.py:87-90 | "ignore all previous instructions" reaches the model as the sentinel |
| Validation.InjectionIgnoresCase | main.py:87-89 | the injection test gives the same verdict on a question and on its lower-cased form |
| Sessions.Sweep | main.py:50-53 | after the sweep no expired session is left, and every unexpired session is kept, unchanged |
| Sessions.Resolve | main.py:49-61 | the returned id is a non-empty key of the new dictionary. A live session keeps its id and its value. Otherwise the fresh id maps to an empty session created now |
| Sessions.ResolveFrame | main.py:50-60 | afterwards no expired session is left, every expired session is gone, every unexpired session is kept unchanged, and no key is added except the returned id |
| Sessions.ResolveLive | main.py:50-55 | a live id is only looked up: the dictionary is exactly the swept one and the id is returned as given |
| Sessions.ExpiredSessionReplaced | main.py:51-60 | an id whose session has expired is deleted, and a different, fresh id with an empty history is returned |
| Sessions.Capped | main.py:111-112 | the cap keeps exactly 20 turns of a longer history and all turns of a shorter one |
| Sessions.CappedKeepsRecent | main.py:111-112 | what the cap keeps is a suffix of the history: its most recent turns |
| Sessions.AfterExchange | main.py:108-112 | one exchange grows a history by two turns until it holds 20; from then on it stays at 20 |
| Sessions.AfterExchangeWellFormed | main.py:108-112 | one exchange keeps a history at most 20 turns long, of even length and alternating user/assistant |
| Sessions.AfterExchangeEndsWithPair | main.py:108-112 | after an exchange the history ends with the user turn holding the question, then the assistant turn holding the answer, right after the most recent turns of the old history that still fit |
| Sessions.CapAbsorbs | main.py:111-112 | capping, appending and capping again keeps the same turns as appending and capping once |
| Sessions.ReplayIsCappedConcat | main.py:108-112 | a run of exchanges leaves the last 20 of the old history followed by all their turn pairs |
| Sessions.KeepsTenMostRecent | main.py:108-112 | after ten or more exchanges in a new session the history is exactly the ten most recent exchanges, 20 turns |
| Sessions.SessionStore.constructor | main.py:22 | the store starts empty |
| Sessions.SessionStore.GetOrCreateSession | main.py:49-61 | the loop deletes the collected expired ids, then an id is minted if needed; the new dictionary and the id are those of `Resolve`, and every history stays well formed |
| Sessions.SessionStore.RecordExchange | main.py:108-112 | only the given session changes: its history becomes the old one plus the user/assistant pair, cut to the last 20 |
| Ask.FallbackAnswer | main.py:118-127 | the exception-to-answer map of the three `except` clauses. It carries no contract of its own; `FallbackAnswerCases` states each case |
| Ask.FallbackAnswerCases | main.py:118-127 | a `ValueError` mentioning "Nonsense input" gets the rephrase answer and any other `ValueError` the "max 500 characters" answer; a timeout gets "taking a bit longer" and any other exception the apology; each answer arises only from its own case |
| Ask.ValidationFallbacks | main.py:118-121 | of the validator's three messages, only the nonsense one gets the rephrase answer; empty and too-long questions get the "max 500 characters" answer |
| Ask.FallbacksDistinct | main.py:85-127 | the five fixed answers are pairwise different |
| Ask.ChainInput | main.py:83-103 | the chain is called exactly when the stripped question is non-empty, and it gets the stripped question after the injection rewrite |
| Ask.Respond | main.py:97-127 | after the session is resolved: the model call and the history update keep the keys and the creation times, change no session but the resolved one, and the reply carries the resolved id or the caller's `session_id or ""` |
| Ask.RespondAnswered | main.py:108-116 | an answer is returned with the resolved id, and that session's history has the exchange appended and capped |
| Ask.RespondKeepsWellFormed | main.py:108-112 | the update keeps every stored history well formed |
| Ask.Exchange | main.py:80-127 | one call of `ask` never fails: the reply carries `session_id or ""` or a key of the new dictionary, and no key is added except the fresh id |
| Ask.BlankQuestionAnswered | main.py:83-85 | a question that is blank after stripping is answered "I didn't receive a question…" with `session_id or ""`, and no session is touched |
| Ask.ExchangeFrame | main.py:92-112 | past the blank check, a call deletes exactly the expired sessions, may add only the resolved id, and leaves every other live session unchanged |
| Ask.ResolveKeepsWellFormed | main.py:50-60 | resolving a session keeps every stored history well formed |
| Ask.FailureKeepsCallerId | main.py:118-127 | whenever the chain was not called or raised, the reply carries `request.session_id or ""` |
| Ask.ExchangeRecordsPair | main.py:92-116 | a successful call returns a non-empty id that is a key, whose history is its resolved history with the exchange appended and capped |
| Ask.SuccessRecordsPair | main.py:108-116 | after a successful call the returned session's history is well formed and ends with the user turn holding `request.question`, then the assistant turn holding the answer |
| Ask.ExchangeKeepsHistoriesWellFormed | main.py:82-127 | every call, whatever its outcome, keeps every stored history well formed |
| Ask.ChainInputOfLive | main.py:92-103 | naming a live session hands the chain that session's history unchanged |
| Ask.SessionContinuity | main.py:92-112 | a second call naming the id a successful first call returned, before it expires, hands the chain a history that ends with the first exchange's two turns |
| Ask.Ask | main.py:80-127 | the new dictionary and the reply are those of `Exchange`, and every history stays well formed |
| Ask.NewQueryRequest | main.py:33-47 | building the request fails exactly when the stripped question is empty, over 500 characters or nonsense; on success the request holds the stripped question and the given session id |
| Ask.Served | main.py:33-47 | the model's composition of the validator with `ask`: a rejected question is answered by the fallback of its validator message, with `session_id or ""`, and leaves the dictionary alone; an accepted one is handled by `ask` with the stripped question |
| Ask.BlankQuestionServed | main.py:118-121 | a blank question gets "Please ask a clear question (max 500 characters)." and leaves the sessions alone |
| Ask.LongQuestionServed | main.py:118-121 | a question over 500 characters after stripping gets the "max 500 characters" answer |
| Ask.NonsenseQuestionServed | main.py:118-120 | a nonsense question gets the rephrase answer |
| Ask.ValidatedReachesChain | main.py:83-85 | after validation the handler's own empty-question branch is never taken: the chain is always called |
| Ask.Serve | main.py:80-127 | validation followed by `ask` on the store: the new dictionary and the reply are those of `Served` |
| RagChain.Cleaned | backend/rag_chain.py:52-71 | there are at most as many cleaned pieces as passages, and none of them is empty |
| RagChain.CleanedAppend | backend/rag_chain.py:53-71 | the pieces of two runs of passages are the pieces of the first run followed by those of the second, so input order is kept |
| RagChain.FormattedContext | backend/rag_chain.py:48-76 | the formatted context is never the empty string, and it is the sentinel when no piece survives cleaning |
| RagChain.NoPassagesNoContext | backend/rag_chain.py:49-50 | no passages give exactly "No relevant information found in the knowledge base." |
| RagChain.BlankPassageSkipped | backend/rag_chain.py:54-56 | a passage that is blank after stripping contributes nothing |
| RagChain.AllBlankNoContext | backend/rag_chain.py:52-74 | when every passage is blank there are no pieces and the context is the sentinel |
| RagChain.PlainPassage | backend/rag_chain.py:54-71 | a passage without the marker and without a `### Q:`/`Q:` prefix comes out as its stripped text |
| RagChain.MetadataPassage | backend/rag_chain.py:58-59 | a passage with the marker and no question label comes out as the stripped text before the first marker |
| RagChain.DropMetadata | backend/rag_chain.py:58-59 | after the cut no `## [METADATA:` marker is left; the text never grows; a passage without the marker is kept as it is; a stripped passage stays stripped |
| RagChain.AnswerCutIsRedundant | backend/rag_chain.py:64-65 | the extra cut of the answer at `\n\n## [METADATA:` never fires once the text was cut at `## [METADATA:` |
| RagChain.Unwrap | backend/rag_chain.py:61-68 | text without a `### Q:`/`Q:` label is kept as it is; unwrapped text has no whitespace at either end; the text never grows |
| RagChain.CleanPassage | backend/rag_chain.py:54-68 | a cleaned passage is never longer than the passage |
| RagChain.QuestionAnswerPassage | backend/rag_chain.py:61-66 | a question-labelled passage containing `\nA:` comes out as the stripped text after the first `\nA:` |
| RagChain.QuestionOnlyPassage | backend/rag_chain.py:67-68 | a question-labelled passage without `\nA:` loses every `### Q:`, then its first remaining `Q:`, and is stripped |
| RagChain.CleanPassageTrimmed | backend/rag_chain.py:54-68 | every cleaned passage has no whitespace at either end |
| RagChain.CleanPassageFormatsToItself | backend/rag_chain.py:48-76 | a single clean, non-blank passage is formatted as its stripped text |
| RagChain.CleanDocs | backend/rag_chain.py:52-71 | the loop's `cleaned` list is exactly the non-empty cleaned passages in input order |
| RagChain.FormatDocs | backend/rag_chain.py:48-76 | the returned string is the formatted context (the sentinel when nothing is left, otherwise the pieces joined by a blank line), and it is never empty |

## Left out

- `log_to_n8n` (main.py:63-78) is not modelled. It is an outbound HTTP POST whose failures are swallowed, and it changes neither the reply nor the sessions.
- `serve_ui` and `favicon` (main.py:24-31) are not modelled. They are file I/O and fixed HTTP responses.
- backend/config.py is not part of this model: environment and `.env` loading, the API-key check (main.py:19-20) and the index readiness polling.
- The retriever, the embeddings, the language model and the chain wiring (backend/rag_chain.py:1-10, 46, 78-87) are one opaque function argument. It maps a question and a history to an answer or an exception. The prompt text (backend/rag_chain.py:12-44) is content, not logic.
- The executor thread and the 20-second `asyncio.wait_for` (main.py:95-106) appear only as the outcome `TimeoutError`. A chain call that goes on running after the timeout has no effect on the model.
- Concurrency is not modelled: each request is one atomic step on the dictionary.
- `datetime.utcnow()` is read once per `get_or_create_session` call. The second reading at main.py:59 is taken to be the same instant as the one at main.py:50.
- `uuid.uuid4()` is a `freshId` argument. The model assumes it is non-empty and not already a key; it does not model randomness or collisions.
- The expired ids are collected into a set, not a list. The order of deletion cannot affect the resulting dictionary.
- Text.Lower: lower-cases ASCII capitals only, where Python's `lower()` covers all of Unicode. No non-ASCII character lower-cases into one of the ASCII trigger phrases, so the injection verdict is the same.
- The float ratio at main.py:44 is replaced by integer cross-multiplication. The introduction explains why the two agree.
- Ask.Served, Ask.Serve, Ask.BlankQuestionServed, Ask.LongQuestionServed, Ask.NonsenseQuestionServed: these compose the validator with the handler's `except` clause. In the deployed application FastAPI answers a validator `ValueError` itself, with a 422 validation error, before `ask` runs; that framework response is not modelled.
- Text.RemoveAll: its own contract gives only the length bound and the absent case. Which occurrences it removes is stated by `Text.RemoveAllScan`.
