/**
 * The `/ask` handler of main.py: the empty-question short-circuit, the
 * injection rewrite, session resolution, the model call, the history update
 * after an answer, and the fixed mapping from exceptions to fallback answers.
 *
 * The retrieval-augmented chain is a pure function from the (possibly
 * rewritten) question and the session's prior history to either an answer
 * or the exception it raises; the 20-second `asyncio.wait_for` shows up only
 * as its outcome, `TimeoutError`.
 */
module Ask {
  import opened Wrappers
  import opened Text
  import opened Validation
  import opened Sessions

  /** The JSON body of `POST /ask`; `session_id` may be absent. */
  datatype QueryRequest = QueryRequest(question: string, sessionId: Option<string>)

  /** The JSON response `{answer, session_id}`. */
  datatype Reply = Reply(answer: string, sessionId: string)

  /** The exceptions the handler tells apart. */
  datatype Failure = ValueError(message: string) | TimeoutError | OtherError

  /** What invoking the chain yields. */
  datatype ChainOutcome = Answered(text: string) | Raised(failure: Failure)

  /** The chain: question and prior history in, outcome out. */
  type Chain = (string, seq<Turn>) -> ChainOutcome

  const NoQuestionAnswer: string := "I didn't receive a question. Could you please ask something?"
  const RephraseAnswer: string := "Sorry, I couldn't understand that. Could you please rephrase your question?"
  const ClearQuestionAnswer: string := "Please ask a clear question (max 500 characters)."
  const TimeoutAnswer: string := "I'm taking a bit longer than expected. Please try again."
  const ApologyAnswer: string := "I'm sorry, I encountered an issue. Could you please rephrase your question?"

  /** `request.session_id or ""`. */
  function IdOrEmpty(sessionId: Option<string>): string {
    match sessionId
    case Some(id) => id
    case None => ""
  }

  /** The `except` clauses of `ask`, in order. */
  function FallbackAnswer(f: Failure): string {
    match f
    case ValueError(message) =>
      if Contains(message, "Nonsense input") then RephraseAnswer else ClearQuestionAnswer
    case TimeoutError => TimeoutAnswer
    case OtherError => ApologyAnswer
  }

  /**
   * Each kind of exception has its own answer, and a `ValueError` asks to
   * rephrase exactly when its message mentions "Nonsense input".
   */
  lemma {:induction false} FallbackAnswerCases(f: Failure)
    ensures FallbackAnswer(f) == RephraseAnswer <==> f.ValueError? && Contains(f.message, "Nonsense input")
    ensures FallbackAnswer(f) == ClearQuestionAnswer <==> f.ValueError? && !Contains(f.message, "Nonsense input")
    ensures FallbackAnswer(f) == TimeoutAnswer <==> f.TimeoutError?
    ensures FallbackAnswer(f) == ApologyAnswer <==> f.OtherError?
    ensures FallbackAnswer(f) != NoQuestionAnswer
  {
  }

  /**
   * Each validator message lands on its intended answer: only the nonsense
   * rejection asks to rephrase; empty and over-long questions get the
   * "max 500 characters" answer.
   */
  lemma {:induction false} ValidationFallbacks(e: ValidationError)
    ensures FallbackAnswer(ValueError(ErrorMessage(e))) ==
            if e == NonsenseInput then RephraseAnswer else ClearQuestionAnswer
  {
  }

  /** The five fallback answers are pairwise different. */
  lemma {:induction false} FallbacksDistinct()
    ensures |{NoQuestionAnswer, RephraseAnswer, ClearQuestionAnswer, TimeoutAnswer, ApologyAnswer}| == 5
  {
  }

  /**
   * What the chain is invoked with: the stripped question after the
   * injection rewrite, and the resolved session's history. `None` when the
   * handler answers before resolving a session.
   */
  function ChainInput(m: map<string, Session>, req: QueryRequest, now: int, freshId: string)
    : (r: Option<(string, seq<Turn>)>)
    requires freshId != [] && freshId !in m
    ensures r.None? <==> Strip(req.question) == []
    ensures r.Some? ==> r.value.0 == RewriteInjection(Strip(req.question))
  {
    var question := Strip(req.question);
    if question == [] then None
    else
      var (live, id) := Resolve(m, req.sessionId, now, freshId);
      Some((RewriteInjection(question), live[id].chatHistory))
  }

  /** The chain was invoked and answered. */
  predicate Succeeds(m: map<string, Session>, req: QueryRequest, now: int, freshId: string, chain: Chain)
    requires freshId != [] && freshId !in m
  {
    var input := ChainInput(m, req, now, freshId);
    input.Some? && chain(input.value.0, input.value.1).Answered?
  }

  /**
   * `ask` once the session is resolved: invoke the chain on `question`, the
   * stripped and possibly rewritten question, and the session's history, then either record the exchange or
   * map the exception to its fallback answer. It keeps the keys and the
   * creation times, changes no session but the resolved one, and replies
   * with the resolved id or with the id the caller sent.
   */
  function Respond(live: map<string, Session>, id: string, question: string, req: QueryRequest, chain: Chain)
    : (r: (map<string, Session>, Reply))
    requires id in live
    ensures r.0.Keys == live.Keys && r.0[id].createdAt == live[id].createdAt
    ensures forall k :: k in live && k != id ==> r.0[k] == live[k]
    ensures r.1.sessionId == id || r.1.sessionId == IdOrEmpty(req.sessionId)
  {
    var session := live[id];
    match chain(question, session.chatHistory)
    case Answered(response) =>
      (live[id := session.(chatHistory := AfterExchange(session.chatHistory, req.question, response))],
       Reply(response, id))
    case Raised(f) =>
      (live, Reply(FallbackAnswer(f), IdOrEmpty(req.sessionId)))
  }

  /**
   * One call of `ask`: the new `sessions` dictionary and the reply. The
   * handler never fails: every outcome is an answer and a session id,
   * either the one the caller sent (or "") or a key of the new dictionary,
   * and no key is added but the fresh id.
   */
  function Exchange(m: map<string, Session>, req: QueryRequest, now: int, freshId: string, chain: Chain)
    : (r: (map<string, Session>, Reply))
    requires freshId != [] && freshId !in m
    ensures r.1.sessionId == IdOrEmpty(req.sessionId) || r.1.sessionId in r.0
    ensures forall k :: k in r.0 ==> k in m || k == freshId
  {
    if Strip(req.question) == [] then (m, Reply(NoQuestionAnswer, IdOrEmpty(req.sessionId)))
    else
      var (live, id) := Resolve(m, req.sessionId, now, freshId);
      Respond(live, id, RewriteInjection(Strip(req.question)), req, chain)
  }

  /** An answer comes back with the resolved id, and the session's history has the exchange recorded. */
  lemma {:induction false} RespondAnswered(live: map<string, Session>, id: string, question: string, req: QueryRequest, chain: Chain)
    requires id in live
    requires chain(question, live[id].chatHistory).Answered?
    ensures var (m', reply) := Respond(live, id, question, req, chain);
            reply.sessionId == id && id in m'
            && m'[id].chatHistory == AfterExchange(live[id].chatHistory, req.question, reply.answer)
  {
  }

  /** Responding keeps every stored history well formed. */
  lemma {:induction false} RespondKeepsWellFormed(live: map<string, Session>, id: string, question: string, req: QueryRequest, chain: Chain)
    requires id in live
    requires forall k :: k in live ==> WellFormedHistory(live[k].chatHistory)
    ensures var m' := Respond(live, id, question, req, chain).0;
            forall k :: k in m' ==> WellFormedHistory(m'[k].chatHistory)
  {
    match chain(question, live[id].chatHistory)
    case Answered(response) =>
      var h := AfterExchange(live[id].chatHistory, req.question, response);
      AfterExchangeWellFormed(live[id].chatHistory, req.question, response);
      var m' := live[id := live[id].(chatHistory := h)];
      assert Respond(live, id, question, req, chain).0 == m';
      forall k | k in m' ensures WellFormedHistory(m'[k].chatHistory) {
        if k != id {
          assert m'[k] == live[k];
        }
      }
    case Raised(_) =>
  }

  /** A question that is blank after stripping is answered at once and touches no session. */
  lemma {:induction false} BlankQuestionAnswered(m: map<string, Session>, req: QueryRequest, now: int, freshId: string, chain: Chain)
    requires freshId != [] && freshId !in m
    requires Strip(req.question) == []
    ensures Exchange(m, req, now, freshId, chain) == (m, Reply(NoQuestionAnswer, IdOrEmpty(req.sessionId)))
  {
  }

  /**
   * Past the blank check, an exchange deletes exactly the expired sessions,
   * may add only the resolved id, and changes no other session.
   */
  lemma {:induction false} ExchangeFrame(m: map<string, Session>, req: QueryRequest, now: int, freshId: string, chain: Chain)
    requires freshId != [] && freshId !in m
    requires Strip(req.question) != []
    ensures var m' := Exchange(m, req, now, freshId, chain).0;
            var id := Resolve(m, req.sessionId, now, freshId).1;
            id in m'
            && (forall k :: k in m' ==> !Expired(m'[k], now))
            && (forall k :: k in m && Expired(m[k], now) ==> k !in m')
            && (forall k :: k in m && !Expired(m[k], now) && k != id ==> k in m' && m'[k] == m[k])
            && (forall k :: k in m' && k != id ==> k in m)
  {
    var (live, id) := Resolve(m, req.sessionId, now, freshId);
    var question := RewriteInjection(Strip(req.question));
    var m' := Respond(live, id, question, req, chain).0;
    assert Exchange(m, req, now, freshId, chain).0 == m';
    ResolveFrame(m, req.sessionId, now, freshId);
    assert id in m';
    forall k | k in m' ensures !Expired(m'[k], now) {
      assert k in live;
      if k != id {
        assert m'[k] == live[k];
      }
    }
  }

  /** Resolving a session keeps every stored history well formed. */
  lemma {:induction false} ResolveKeepsWellFormed(m: map<string, Session>, sessionId: Option<string>, now: int, freshId: string)
    requires freshId != [] && freshId !in m
    requires forall k :: k in m ==> WellFormedHistory(m[k].chatHistory)
    ensures var live := Resolve(m, sessionId, now, freshId).0;
            forall k :: k in live ==> WellFormedHistory(live[k].chatHistory)
  {
    var (live, id) := Resolve(m, sessionId, now, freshId);
    ResolveFrame(m, sessionId, now, freshId);
    forall k | k in live ensures WellFormedHistory(live[k].chatHistory) {
      if k != id {
        assert live[k] == m[k];
      }
    }
  }

  /** The reply of a failed exchange carries the id the caller sent, or "". */
  lemma {:induction false} FailureKeepsCallerId(m: map<string, Session>, req: QueryRequest, now: int, freshId: string, chain: Chain)
    requires freshId != [] && freshId !in m
    requires !Succeeds(m, req, now, freshId, chain)
    ensures Exchange(m, req, now, freshId, chain).1.sessionId == IdOrEmpty(req.sessionId)
  {
  }

  /** A successful exchange returns a non-empty id that is a key, with the new pair at the end of its history. */
  lemma {:induction false} ExchangeRecordsPair(m: map<string, Session>, req: QueryRequest, now: int, freshId: string, chain: Chain)
    requires freshId != [] && freshId !in m
    requires Succeeds(m, req, now, freshId, chain)
    ensures var (m', reply) := Exchange(m, req, now, freshId, chain);
            reply.sessionId != [] && reply.sessionId in m'
            && m'[reply.sessionId].chatHistory
               == AfterExchange(Resolve(m, req.sessionId, now, freshId).0[reply.sessionId].chatHistory, req.question, reply.answer)
  {
    var (live, id) := Resolve(m, req.sessionId, now, freshId);
    var question := RewriteInjection(Strip(req.question));
    assert Exchange(m, req, now, freshId, chain) == Respond(live, id, question, req, chain);
    RespondAnswered(live, id, question, req, chain);
  }

  /** The history after a successful exchange is well formed and ends with the new pair. */
  lemma {:induction false} SuccessRecordsPair(m: map<string, Session>, req: QueryRequest, now: int, freshId: string, chain: Chain)
    requires freshId != [] && freshId !in m
    requires forall k :: k in m ==> WellFormedHistory(m[k].chatHistory)
    requires Succeeds(m, req, now, freshId, chain)
    ensures var (m', reply) := Exchange(m, req, now, freshId, chain);
            reply.sessionId in m'
            && var h := m'[reply.sessionId].chatHistory;
            WellFormedHistory(h) && |h| >= 2 && h[|h| - 2..] == TurnPair(req.question, reply.answer)
  {
    ExchangeRecordsPair(m, req, now, freshId, chain);
    var (live, id) := Resolve(m, req.sessionId, now, freshId);
    var reply := Exchange(m, req, now, freshId, chain).1;
    ResolveKeepsWellFormed(m, req.sessionId, now, freshId);
    AfterExchangeWellFormed(live[reply.sessionId].chatHistory, req.question, reply.answer);
  }

  /** Every exchange keeps every stored history well formed. */
  lemma {:induction false} ExchangeKeepsHistoriesWellFormed(m: map<string, Session>, req: QueryRequest, now: int, freshId: string, chain: Chain)
    requires freshId != [] && freshId !in m
    requires forall k :: k in m ==> WellFormedHistory(m[k].chatHistory)
    ensures var m' := Exchange(m, req, now, freshId, chain).0;
            forall k :: k in m' ==> WellFormedHistory(m'[k].chatHistory)
  {
    if Strip(req.question) != [] {
      var (live, id) := Resolve(m, req.sessionId, now, freshId);
      var question := RewriteInjection(Strip(req.question));
      assert Exchange(m, req, now, freshId, chain) == Respond(live, id, question, req, chain);
      ResolveKeepsWellFormed(m, req.sessionId, now, freshId);
      RespondKeepsWellFormed(live, id, question, req, chain);
    }
  }

  /** Naming a live session hands the chain that session's history. */
  lemma {:induction false} ChainInputOfLive(m: map<string, Session>, question: string, id: string, now: int, freshId: string)
    requires freshId != [] && freshId !in m
    requires Strip(question) != []
    requires IsLive(m, Some(id), now)
    ensures ChainInput(m, QueryRequest(question, Some(id)), now, freshId)
            == Some((RewriteInjection(Strip(question)), m[id].chatHistory))
  {
    ResolveLive(m, Some(id), now, freshId);
  }

  /**
   * Session continuity: when a second question names the session a first
   * successful exchange returned, and that session has not expired, the
   * chain sees the first exchange's two turns as the end of its history.
   */
  lemma {:induction false} SessionContinuity(m0: map<string, Session>, req1: QueryRequest, t1: int, f1: string, chain: Chain,
                          question2: string, t2: int, f2: string)
    requires f1 != [] && f1 !in m0
    requires Succeeds(m0, req1, t1, f1, chain)
    requires Strip(question2) != []
    requires var (m1, reply1) := Exchange(m0, req1, t1, f1, chain);
             f2 != [] && f2 !in m1 && reply1.sessionId in m1 && !Expired(m1[reply1.sessionId], t2)
    ensures var (m1, reply1) := Exchange(m0, req1, t1, f1, chain);
            var input := ChainInput(m1, QueryRequest(question2, Some(reply1.sessionId)), t2, f2);
            input.Some? && |input.value.1| >= 2
            && input.value.1[|input.value.1| - 2..] == TurnPair(req1.question, reply1.answer)
  {
    var (m1, reply1) := Exchange(m0, req1, t1, f1, chain);
    ExchangeRecordsPair(m0, req1, t1, f1, chain);
    var id := reply1.sessionId;
    var before := Resolve(m0, req1.sessionId, t1, f1).0[id].chatHistory;
    AfterExchangeEndsWithPair(before, req1.question, reply1.answer);
    ChainInputOfLive(m1, question2, id, t2, f2);
  }

  /**
   * `ask` on the store: the state change and reply of `Exchange`. The
   * webhook logging after an answer has no effect on either.
   */
  method Ask(store: SessionStore, req: QueryRequest, now: int, freshId: string, chain: Chain)
    returns (reply: Reply)
    requires store.Valid()
    requires freshId != [] && freshId !in store.sessions
    modifies store
    ensures store.Valid()
    ensures (store.sessions, reply) == Exchange(old(store.sessions), req, now, freshId, chain)
  {
    var question := Strip(req.question);
    if question == [] {
      return Reply(NoQuestionAnswer, IdOrEmpty(req.sessionId));
    }
    question := RewriteInjection(question);
    var sessionId := store.GetOrCreateSession(req.sessionId, now, freshId);
    var outcome := chain(question, store.sessions[sessionId].chatHistory);
    match outcome
    case Raised(f) =>
      reply := Reply(FallbackAnswer(f), IdOrEmpty(req.sessionId));
    case Answered(response) =>
      store.RecordExchange(sessionId, req.question, response);
      reply := Reply(response, sessionId);
  }

  /** Building the `QueryRequest`, which runs the `question` field validator. */
  function NewQueryRequest(question: string, sessionId: Option<string>): (r: Result<QueryRequest, ValidationError>)
    ensures r.Failure? <==> Strip(question) == [] || |Strip(question)| > MaxQuestionLength
                            || LooksLikeNonsense(Strip(question))
    ensures r.Success? ==> r.value.question == Strip(question) && r.value.sessionId == sessionId
  {
    match ValidateQuestion(question)
    case Success(q) => Success(QueryRequest(q, sessionId))
    case Failure(e) => Failure(e)
  }

  /**
   * A whole request: validation, then `ask`. A validator rejection is the
   * `ValueError` the handler's first `except` clause maps to an answer.
   */
  function Served(m: map<string, Session>, question: string, sessionId: Option<string>, now: int, freshId: string, chain: Chain)
    : (r: (map<string, Session>, Reply))
    requires freshId != [] && freshId !in m
    ensures ValidateQuestion(question).Failure? ==>
              r == (m, Reply(FallbackAnswer(ValueError(ErrorMessage(ValidateQuestion(question).error))), IdOrEmpty(sessionId)))
    ensures ValidateQuestion(question).Success? ==>
              r == Exchange(m, QueryRequest(Strip(question), sessionId), now, freshId, chain)
  {
    match NewQueryRequest(question, sessionId)
    case Failure(e) => (m, Reply(FallbackAnswer(ValueError(ErrorMessage(e))), IdOrEmpty(sessionId)))
    case Success(req) => Exchange(m, req, now, freshId, chain)
  }

  /** A blank question gets the "max 500 characters" answer and leaves the sessions alone. */
  lemma {:induction false} BlankQuestionServed(m: map<string, Session>, question: string, sessionId: Option<string>, now: int, freshId: string, chain: Chain)
    requires freshId != [] && freshId !in m
    requires Strip(question) == []
    ensures Served(m, question, sessionId, now, freshId, chain) == (m, Reply(ClearQuestionAnswer, IdOrEmpty(sessionId)))
  {
    ValidationFallbacks(EmptyQuestion);
  }

  /** A question over 500 characters after stripping gets the "max 500 characters" answer. */
  lemma {:induction false} LongQuestionServed(m: map<string, Session>, question: string, sessionId: Option<string>, now: int, freshId: string, chain: Chain)
    requires freshId != [] && freshId !in m
    requires |Strip(question)| > MaxQuestionLength
    ensures Served(m, question, sessionId, now, freshId, chain) == (m, Reply(ClearQuestionAnswer, IdOrEmpty(sessionId)))
  {
    ValidationFallbacks(QuestionTooLong);
  }

  /** A question that looks like nonsense gets the "rephrase" answer. */
  lemma {:induction false} NonsenseQuestionServed(m: map<string, Session>, question: string, sessionId: Option<string>, now: int, freshId: string, chain: Chain)
    requires freshId != [] && freshId !in m
    requires |Strip(question)| <= MaxQuestionLength && LooksLikeNonsense(Strip(question))
    ensures Served(m, question, sessionId, now, freshId, chain) == (m, Reply(RephraseAnswer, IdOrEmpty(sessionId)))
  {
    ValidationFallbacks(NonsenseInput);
  }

  /**
   * A question the validator accepts always reaches the chain: the
   * handler's own empty-question branch is never taken after validation.
   */
  lemma {:induction false} ValidatedReachesChain(m: map<string, Session>, question: string, sessionId: Option<string>, now: int, freshId: string)
    requires freshId != [] && freshId !in m
    requires ValidateQuestion(question).Success?
    ensures ChainInput(m, QueryRequest(ValidateQuestion(question).value, sessionId), now, freshId).Some?
  {
    StripIdempotent(question);
  }

  /** `ask` after the validator: the state change and reply of `Served`. */
  method Serve(store: SessionStore, question: string, sessionId: Option<string>, now: int, freshId: string, chain: Chain)
    returns (reply: Reply)
    requires store.Valid()
    requires freshId != [] && freshId !in store.sessions
    modifies store
    ensures store.Valid()
    ensures (store.sessions, reply) == Served(old(store.sessions), question, sessionId, now, freshId, chain)
  {
    var request := NewQueryRequest(question, sessionId);
    match request
    case Failure(e) =>
      reply := Reply(FallbackAnswer(ValueError(ErrorMessage(e))), IdOrEmpty(sessionId));
    case Success(req) =>
      reply := Ask(store, req, now, freshId, chain);
  }
}
