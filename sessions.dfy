/**
 * The in-memory session store of main.py: the `sessions` dictionary from
 * session id to `{chat_history, created_at}`, the expiry sweep and
 * id resolution of `get_or_create_session`, and the turn-pair append with
 * its 20-entry cap that `ask` performs after a successful answer.
 *
 * Time is an integer clock in microseconds (the resolution of `datetime`);
 * the id `uuid.uuid4()` would mint is passed in as `freshId`.
 */
module Sessions {
  import opened Wrappers

  datatype Role = User | Assistant

  /** One `{"role": ..., "content": ...}` entry of a chat history. */
  datatype Turn = Turn(role: Role, content: string)

  /** One value of the `sessions` dictionary. */
  datatype Session = Session(chatHistory: seq<Turn>, createdAt: int)

  /** `timedelta(hours=1)`, in microseconds. */
  const SessionLifetime: int := 3_600_000_000

  /** At most this many turns are kept per session. */
  const HistoryCap: nat := 20

  /** `now - data["created_at"] > timedelta(hours=1)`. */
  predicate Expired(s: Session, now: int) {
    now - s.createdAt > SessionLifetime
  }

  /**
   * The dictionary once every expired session is deleted: no expired session
   * is left, and every unexpired one is kept unchanged.
   */
  function Sweep(m: map<string, Session>, now: int): (r: map<string, Session>)
    ensures forall k :: k in r ==> k in m && !Expired(m[k], now) && r[k] == m[k]
    ensures forall k :: k in m && !Expired(m[k], now) ==> k in r
  {
    map k | k in m && !Expired(m[k], now) :: m[k]
  }

  /** `session_id` is given, non-empty and still a key after the sweep. */
  predicate IsKnown(live: map<string, Session>, sessionId: Option<string>) {
    sessionId.Some? && sessionId.value != [] && sessionId.value in live
  }

  /** `session_id` names a session of `m` that has not expired at `now`. */
  predicate IsLive(m: map<string, Session>, sessionId: Option<string>, now: int) {
    sessionId.Some? && sessionId.value != [] && sessionId.value in m && !Expired(m[sessionId.value], now)
  }

  /**
   * `get_or_create_session`: the dictionary after the sweep and the possible
   * insertion, and the id returned. `freshId` stands for `str(uuid.uuid4())`:
   * non-empty and not already a key. A live session keeps its id and its
   * value; otherwise the fresh id gets an empty session created now.
   */
  function Resolve(m: map<string, Session>, sessionId: Option<string>, now: int, freshId: string)
    : (r: (map<string, Session>, string))
    requires freshId != [] && freshId !in m
    ensures r.1 in r.0 && r.1 != []
    ensures IsLive(m, sessionId, now) ==> r.1 == sessionId.value && r.0[r.1] == m[r.1]
    ensures !IsLive(m, sessionId, now) ==> r.1 == freshId && r.0[r.1] == Session([], now)
  {
    var live := Sweep(m, now);
    if IsKnown(live, sessionId) then (live, sessionId.value)
    else (live[freshId := Session([], now)], freshId)
  }

  /**
   * What the sweep and the insertion do to the dictionary: no expired
   * session is left, every other session is kept unchanged, and nothing
   * is added but the returned id.
   */
  lemma {:induction false} ResolveFrame(m: map<string, Session>, sessionId: Option<string>, now: int, freshId: string)
    requires freshId != [] && freshId !in m
    ensures var (m', id) := Resolve(m, sessionId, now, freshId);
            (forall k :: k in m' ==> !Expired(m'[k], now))
            && (forall k :: k in m && Expired(m[k], now) ==> k !in m')
            && (forall k :: k in m && !Expired(m[k], now) ==> k in m' && m'[k] == m[k])
            && (forall k :: k in m' && k != id ==> k in m)
  {
  }

  /** A live session is only looked up: the dictionary is exactly the swept one. */
  lemma {:induction false} ResolveLive(m: map<string, Session>, sessionId: Option<string>, now: int, freshId: string)
    requires freshId != [] && freshId !in m
    requires IsLive(m, sessionId, now)
    ensures Resolve(m, sessionId, now, freshId) == (Sweep(m, now), sessionId.value)
  {
  }

  /** A session past its lifetime is gone: looking it up mints a new id with an empty history. */
  lemma {:induction false} ExpiredSessionReplaced(m: map<string, Session>, id: string, now: int, freshId: string)
    requires freshId != [] && freshId !in m
    requires id in m && Expired(m[id], now)
    ensures var (m', id') := Resolve(m, Some(id), now, freshId);
            id' == freshId && id' != id && id !in m' && m'[id'].chatHistory == []
  {
  }

  /** `chat_history[-20:]` when the history is longer than 20: the most recent turns. */
  function Capped(h: seq<Turn>): (r: seq<Turn>)
    ensures |r| == if |h| > HistoryCap then HistoryCap else |h|
  {
    if |h| > HistoryCap then h[|h| - HistoryCap..] else h
  }

  /** The two turns one successful exchange appends. */
  function TurnPair(question: string, answer: string): seq<Turn> {
    [Turn(User, question), Turn(Assistant, answer)]
  }

  /**
   * A history after one exchange: the pair appended, then capped. It grows
   * by two turns until it holds 20.
   */
  function AfterExchange(h: seq<Turn>, question: string, answer: string): (r: seq<Turn>)
    ensures |r| == if |h| + 2 > HistoryCap then HistoryCap else |h| + 2
  {
    Capped(h + TurnPair(question, answer))
  }

  /**
   * What every stored history looks like: at most 20 turns, alternating
   * user and assistant, starting with a user turn, so of even length.
   */
  ghost predicate WellFormedHistory(h: seq<Turn>) {
    |h| <= HistoryCap && |h| % 2 == 0
    && forall i :: 0 <= i < |h| ==> h[i].role == (if i % 2 == 0 then User else Assistant)
  }

  /** One exchange keeps a history well formed. */
  lemma {:induction false} AfterExchangeWellFormed(h: seq<Turn>, question: string, answer: string)
    requires WellFormedHistory(h)
    ensures WellFormedHistory(AfterExchange(h, question, answer))
  {
    var g := h + TurnPair(question, answer);
    var h' := Capped(g);
    // A full history of 20 turns loses its oldest pair; a shorter one loses nothing.
    var d := |g| - |h'|;
    assert d == 0 || d == 2;
    forall i | 0 <= i < |h'|
      ensures h'[i].role == (if i % 2 == 0 then User else Assistant)
    {
      assert h'[i] == g[d + i];
    }
  }

  /** `Capped` keeps the most recent turns: a suffix of the history. */
  lemma {:induction false} CappedKeepsRecent(h: seq<Turn>)
    ensures Capped(h) == h[|h| - |Capped(h)|..]
  {
  }

  /**
   * After an exchange the history ends with the user turn holding the
   * question and the assistant turn holding the answer, right after the
   * most recent turns of the old history that still fit.
   */
  lemma {:induction false} AfterExchangeEndsWithPair(h: seq<Turn>, question: string, answer: string)
    ensures var h' := AfterExchange(h, question, answer);
            |h'| >= 2 && h'[|h'| - 2..] == TurnPair(question, answer)
            && h'[..|h'| - 2] == h[|h| - (|h'| - 2)..]
  {
    var g := h + TurnPair(question, answer);
    var h' := Capped(g);
    CappedKeepsRecent(g);
    assert h'[|h'| - 2..] == g[|g| - 2..];
    assert h'[..|h'| - 2] == g[|g| - |h'|..|g| - 2];
  }

  /** Capping twice keeps the same most recent turns as capping once. */
  lemma {:induction false} CapAbsorbs(a: seq<Turn>, b: seq<Turn>)
    ensures Capped(Capped(a) + b) == Capped(a + b)
  {
    if |a| > HistoryCap {
      var s, k := a + b, |a| - HistoryCap;
      assert Capped(a) + b == s[k..];
      assert s[k..][|s[k..]| - HistoryCap..] == s[|s| - HistoryCap..];
    }
  }

  /** The turns of a run of exchanges, in order. */
  function Pairs(xs: seq<(string, string)>): (r: seq<Turn>)
    ensures |r| == 2 * |xs|
  {
    if xs == [] then [] else TurnPair(xs[0].0, xs[0].1) + Pairs(xs[1..])
  }

  lemma {:induction false} PairsAppend(xs: seq<(string, string)>, ys: seq<(string, string)>)
    ensures Pairs(xs + ys) == Pairs(xs) + Pairs(ys)
    decreases |xs|
  {
    if xs == [] {
      assert xs + ys == ys;
    } else {
      assert (xs + ys)[1..] == xs[1..] + ys;
      PairsAppend(xs[1..], ys);
    }
  }

  /** A history after a run of exchanges, one after the other. */
  function Replay(h: seq<Turn>, xs: seq<(string, string)>): seq<Turn>
    decreases |xs|
  {
    if xs == [] then h else Replay(AfterExchange(h, xs[0].0, xs[0].1), xs[1..])
  }

  /** Capping after every exchange keeps what one cap at the end would keep. */
  lemma {:induction false} ReplayIsCappedConcat(h: seq<Turn>, xs: seq<(string, string)>)
    requires |h| <= HistoryCap
    ensures Replay(h, xs) == Capped(h + Pairs(xs))
    decreases |xs|
  {
    if xs == [] {
      assert h + Pairs(xs) == h;
    } else {
      var p, rest := TurnPair(xs[0].0, xs[0].1), Pairs(xs[1..]);
      calc {
        Replay(h, xs);
        Replay(Capped(h + p), xs[1..]);
        { ReplayIsCappedConcat(Capped(h + p), xs[1..]); }
        Capped(Capped(h + p) + rest);
        { CapAbsorbs(h + p, rest); }
        Capped(h + p + rest);
        { assert h + p + rest == h + Pairs(xs); }
        Capped(h + Pairs(xs));
      }
    }
  }

  /**
   * After ten or more exchanges in a fresh session the history holds exactly
   * the ten most recent exchanges, twenty turns.
   */
  lemma {:induction false} KeepsTenMostRecent(xs: seq<(string, string)>)
    requires |xs| >= 10
    ensures Replay([], xs) == Pairs(xs[|xs| - 10..])
    ensures |Replay([], xs)| == HistoryCap
  {
    ReplayIsCappedConcat([], xs);
    var k := |xs| - 10;
    assert xs == xs[..k] + xs[k..];
    PairsAppend(xs[..k], xs[k..]);
    assert [] + Pairs(xs) == Pairs(xs[..k]) + Pairs(xs[k..]);
  }

  /** The process-wide `sessions` dictionary as an object. */
  class SessionStore {
    var sessions: map<string, Session>

    ghost predicate Valid()
      reads this
    {
      forall id :: id in sessions ==> WellFormedHistory(sessions[id].chatHistory)
    }

    /** `sessions = {}`. */
    constructor ()
      ensures Valid() && sessions == map[]
    {
      sessions := map[];
    }

    /**
     * `get_or_create_session`: delete every expired session, then mint and
     * insert a new one unless `sessionId` names a session still present.
     */
    method GetOrCreateSession(sessionId: Option<string>, now: int, freshId: string) returns (id: string)
      requires Valid()
      requires freshId != [] && freshId !in sessions
      modifies this
      ensures Valid()
      ensures (sessions, id) == Resolve(old(sessions), sessionId, now, freshId)
    {
      var expired := set sid | sid in sessions && Expired(sessions[sid], now);
      ghost var before := sessions;
      var pending := expired;
      while pending != {}
        invariant pending <= expired
        invariant sessions == before - (expired - pending)
        decreases pending
      {
        var sid :| sid in pending;
        sessions := sessions - {sid};
        pending := pending - {sid};
      }
      assert sessions == Sweep(before, now);
      if sessionId.None? || sessionId.value == [] || sessionId.value !in sessions {
        id := freshId;
        sessions := sessions[id := Session([], now)];
      } else {
        id := sessionId.value;
      }
    }

    /**
     * The history update of `ask` after an answer: append the user turn and
     * the assistant turn, then keep only the last 20 entries.
     */
    method RecordExchange(id: string, question: string, answer: string)
      requires Valid() && id in sessions
      modifies this
      ensures Valid()
      ensures sessions == old(sessions)[id := old(sessions)[id].(
                chatHistory := AfterExchange(old(sessions)[id].chatHistory, question, answer))]
    {
      var history := sessions[id].chatHistory;
      ghost var original, before := history, sessions;
      AfterExchangeWellFormed(history, question, answer);
      history := history + [Turn(User, question)];
      history := history + [Turn(Assistant, answer)];
      assert history == original + TurnPair(question, answer);
      if |history| > HistoryCap {
        history := history[|history| - HistoryCap..];
      }
      assert history == AfterExchange(original, question, answer);
      sessions := sessions[id := sessions[id].(chatHistory := history)];
      forall k | k in sessions ensures WellFormedHistory(sessions[k].chatHistory) {
        if k != id {
          assert sessions[k] == before[k];
        }
      }
    }
  }
}
