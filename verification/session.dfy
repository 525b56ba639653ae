/** The per-session state transition of the chat endpoint. All sessions
    live in one map from session id to history; one exchange strips the
    message, appends the user turn, classifies the contextual query,
    selects a reply, appends the bot turn and keeps the most recent turns. */
module Session {
  import opened Optional
  import Text
  import opened Catalog
  import opened Classifier
  import opened Responder

  datatype Role = User | Bot

  datatype Turn = Turn(role: Role, text: string)

  type History = seq<Turn>

  /** The service's `conversations`: session id to history. */
  type Sessions = map<string, History>

  /** Turns (of both roles) looked at when building the contextual query. */
  const N_HISTORY: nat := 2

  /** Turns (of both roles) kept per session. */
  const MAX_HISTORY: nat := 10

  /** The reply to a blank message. */
  const BLANK_PROMPT: string := "Per favore scrivi qualcosa."

  /** Session id used when the request carries none. */
  const DEFAULT_SESSION: string := "default"

  /** The request body: both fields may be missing. */
  datatype Request = Request(message: Option<string>, sessionId: Option<string>)

  /** The prepared catalog the endpoint classifies against. */
  datatype Engine = Engine(examples: seq<Example>, responses: ResponseTable)

  /** What the endpoint answers: the prompt for a blank message, a full
      answer, or a server error when the matched intent has no responses. */
  datatype Reply =
    | Prompt(answer: string)
    | Answer(answer: string, intent: Option<string>, confidence: real, history: History)
    | ServerError

  /** The reply together with the session map after the exchange. */
  datatype Outcome = Outcome(reply: Reply, sessions: Sessions)

  /** The engine prepared at start-up from the catalog. */
  function Load(intents: seq<Intent>): Engine
  {
    Engine(Examples(intents), Table(intents))
  }

  /** Python's `s[-n:]`: the last `n` elements, all of `s` when it is shorter
      (and, as `-0 == 0`, all of `s` when `n` is 0). */
  function Tail<T>(s: seq<T>, n: nat): (r: seq<T>)
    ensures |r| <= |s| && r == s[|s| - |r|..]
    ensures n > 0 ==> |r| == if |s| < n then |s| else n
    ensures n == 0 ==> r == s
  {
    if n == 0 || |s| <= n then s else s[|s| - n..]
  }

  /** The texts of the user turns of `turns`, in order: one text for each
      user turn, and none from a bot turn. */
  function UserTexts(turns: History): (r: seq<string>)
    ensures |r| == |set i | 0 <= i < |turns| && turns[i].role == User|
    ensures forall k | 0 <= k < |r| :: exists i | 0 <= i < |turns| :: turns[i] == Turn(User, r[k])
  {
    if |turns| == 0 then []
    else
      var n := |turns| - 1;
      var init := turns[..n];
      var last := turns[n];
      assert forall i | 0 <= i < |init| :: init[i] == turns[i];
      assert (set i | 0 <= i < |turns| && turns[i].role == User)
             == (set i | 0 <= i < n && init[i].role == User) + (if last.role == User then {n} else {});
      UserTexts(init) + if last.role == User then [last.text] else []
  }

  /** Filtering user texts distributes over concatenation, so it keeps
      chronological order. */
  lemma {:induction false} UserTextsAppend(a: History, b: History)
    ensures UserTexts(a + b) == UserTexts(a) + UserTexts(b)
    decreases |b|
  {
    if |b| > 0 {
      var n := |b| - 1;
      assert (a + b)[..|a + b| - 1] == a + b[..n];
      UserTextsAppend(a, b[..n]);
    } else {
      assert a + b == a;
    }
  }

  /** The user texts in the window of a history that ends with the user
      turn `message`: the previous turn's text when that is a user turn too,
      then `message`. */
  lemma WindowEndingWithUserTurn(prior: History, message: string)
    ensures UserTexts(Tail(prior + [Turn(User, message)], N_HISTORY))
            == (if |prior| > 0 && prior[|prior| - 1].role == User then [prior[|prior| - 1].text] else [])
               + [message]
  {
    var window := Tail(prior + [Turn(User, message)], N_HISTORY);
    assert UserTexts([Turn(User, message)]) == [message] by {
      assert [Turn(User, message)][..0] == [];
    }
    if |prior| == 0 {
      assert window == [Turn(User, message)];
    } else {
      var p := prior[|prior| - 1];
      assert window == [p] + [Turn(User, message)];
      UserTextsAppend([p], [Turn(User, message)]);
      assert UserTexts([p]) == if p.role == User then [p.text] else [] by {
        assert [p][..0] == [];
      }
    }
  }

  /** The contextual query: the user texts among the last `N_HISTORY` turns
      of either role, space-joined in chronological order. For a history
      ending with a user turn it is that turn's text, preceded by the text
      of the turn before and a space when that one is a user turn too. */
  function ContextualQuery(history: History): (q: string)
    ensures |history| > 0 && history[|history| - 1].role == User ==>
              q == if |history| >= 2 && history[|history| - 2].role == User
                   then history[|history| - 2].text + " " + history[|history| - 1].text
                   else history[|history| - 1].text
  {
    JoinedWindow(history);
    Text.Join(UserTexts(Tail(history, N_HISTORY)), " ")
  }

  /** The joined user texts of the two-turn window, for a history ending
      with a user turn: the last one or two user texts. */
  lemma JoinedWindow(history: History)
    ensures |history| > 0 && history[|history| - 1].role == User ==>
              Text.Join(UserTexts(Tail(history, N_HISTORY)), " ")
              == if |history| >= 2 && history[|history| - 2].role == User
                 then history[|history| - 2].text + " " + history[|history| - 1].text
                 else history[|history| - 1].text
  {
    if |history| > 0 && history[|history| - 1].role == User {
      var n := |history| - 1;
      var prior := history[..n];
      assert history == prior + [Turn(User, history[n].text)];
      WindowEndingWithUserTurn(prior, history[n].text);
      if n > 0 && prior[n - 1].role == User {
        Text.JoinSnoc([prior[n - 1].text], history[n].text, " ");
      }
    }
  }

  /** The message after `strip()`, a missing message counting as "". */
  function Message(req: Request): string
  {
    Text.Strip(req.message.ValueOr(""))
  }

  /** The session id, "default" when missing. */
  function SessionId(req: Request): string
  {
    req.sessionId.ValueOr(DEFAULT_SESSION)
  }

  /** The stored history of `id`, empty for a session not seen yet. */
  function Stored(sessions: Sessions, id: string): History
  {
    if id in sessions then sessions[id] else []
  }

  /** A history that alternates user, bot, user, bot, ... with even length,
      so a non-empty one ends with a bot turn. */
  predicate Alternating(h: History)
  {
    && |h| % 2 == 0
    && forall i | 0 <= i < |h| :: h[i].role == if i % 2 == 0 then User else Bot
  }

  /** The invariant of the session map: every history alternates and is bounded. */
  predicate SessionsOk(sessions: Sessions)
  {
    forall id | id in sessions :: Alternating(sessions[id]) && |sessions[id]| <= MAX_HISTORY
  }

  /** The classification of one exchange: the contextual query of the
      history with the new user turn appended, at the default threshold. */
  function Recognise(engine: Engine, sim: Similarity, prior: History, message: string): Match
  {
    Classify(sim, ContextualQuery(prior + [Turn(User, message)]), engine.examples, THRESHOLD)
  }

  /** The reply step and the history update of one non-blank exchange, given
      the classification `m`: select the reply, append the user and the bot
      turn to `prior` and keep the last `MAX_HISTORY` turns. Fails only when
      the matched intent has an empty response list. */
  function Respond(responses: ResponseTable, prior: History, message: string, m: Match, pick: nat): (r: Result<Reply>)
    ensures r.Ok? ==> r.value.Answer?
    ensures r.Ok? ==>
              var h := r.value.history;
              && h == Tail(prior + [Turn(User, message), Turn(Bot, r.value.answer)], MAX_HISTORY)
              && 2 <= |h| <= MAX_HISTORY
              && h[|h| - 1] == Turn(Bot, r.value.answer)
              && h[|h| - 2] == Turn(User, message)
    ensures r.Ok? ==> r.value.intent == m.tag && r.value.confidence == m.score
    ensures m.tag.None? || m.tag.value !in responses ==> r.Ok? && r.value.answer == FALLBACK
    ensures m.tag.Some? && m.tag.value in responses && |responses[m.tag.value]| > 0 ==>
              r.Ok? && r.value.answer in responses[m.tag.value]
    ensures r.EmptyChoice? <==> m.tag.Some? && m.tag.value in responses && |responses[m.tag.value]| == 0
  {
    match SelectReply(responses, m.tag, pick)
    case EmptyChoice(tag) => EmptyChoice(tag)
    case Ok(answer) =>
      var full := prior + [Turn(User, message), Turn(Bot, answer)];
      TailKeepsLastTwo(full);
      Ok(Answer(answer, m.tag, m.score, Tail(full, MAX_HISTORY)))
  }

  /** Truncation keeps the two most recent turns. */
  lemma TailKeepsLastTwo(full: History)
    requires |full| >= 2
    ensures 2 <= |Tail(full, MAX_HISTORY)| <= MAX_HISTORY
    ensures Tail(full, MAX_HISTORY)[|Tail(full, MAX_HISTORY)| - 1] == full[|full| - 1]
    ensures Tail(full, MAX_HISTORY)[|Tail(full, MAX_HISTORY)| - 2] == full[|full| - 2]
  {
  }

  /** Stores the outcome of the non-blank path: on success the new history
      replaces the session's; on a failed draw the user turn stays appended
      to a session that already existed (the stored list was extended in
      place before the draw) and a new session is not created. */
  function Record(sessions: Sessions, id: string, message: string, c: Result<Reply>): (out: Outcome)
    requires c.Ok? ==> c.value.Answer?
    ensures forall other | other != id ::
              && (other in out.sessions <==> other in sessions)
              && (other in sessions ==> out.sessions[other] == sessions[other])
    ensures c.Ok? ==> out.reply == c.value && id in out.sessions && out.sessions[id] == c.value.history
    ensures c.EmptyChoice? ==>
              && out.reply == ServerError
              && (id in out.sessions <==> id in sessions)
              && (id in sessions ==> out.sessions[id] == sessions[id] + [Turn(User, message)])
  {
    if c.Ok? then Outcome(c.value, sessions[id := c.value.history])
    else if id in sessions then Outcome(ServerError, sessions[id := sessions[id] + [Turn(User, message)]])
    else Outcome(ServerError, sessions)
  }

  /** The non-blank path of one exchange, for session `id` and the stripped
      `message`: classify the contextual query, select the reply and record
      it. Only session `id` changes (see `ExchangeStoresHistory`,
      `ExchangeAnswers` and `ExchangeFails` for how). */
  function Exchange(sessions: Sessions, engine: Engine, sim: Similarity, id: string, message: string, pick: nat)
    : (out: Outcome)
    ensures forall other | other != id ::
              && (other in out.sessions <==> other in sessions)
              && (other in sessions ==> out.sessions[other] == sessions[other])
    ensures out.reply.Answer? || out.reply.ServerError?
  {
    var prior := Stored(sessions, id);
    Record(sessions, id, message, Respond(engine.responses, prior, message, Recognise(engine, sim, prior, message), pick))
  }

  /** `h` is the history kept after `message` was answered with `answer`
      on top of `prior`: the last `MAX_HISTORY` turns of `prior` followed by
      the user turn and the bot turn, which are its two newest turns. */
  predicate KeepsExchange(h: History, prior: History, message: string, answer: string)
  {
    && h == Tail(prior + [Turn(User, message), Turn(Bot, answer)], MAX_HISTORY)
    && 2 <= |h| <= MAX_HISTORY
    && h[|h| - 1] == Turn(Bot, answer)
    && h[|h| - 2] == Turn(User, message)
  }

  /** An answered exchange stores, under `id`, the last `MAX_HISTORY` turns
      of the old history followed by the message and the reply, so the two
      newest turns are the message and the reply. */
  lemma ExchangeStoresHistory(sessions: Sessions, engine: Engine, sim: Similarity, id: string, message: string,
                              pick: nat)
    ensures
      var out := Exchange(sessions, engine, sim, id, message, pick);
      out.reply.Answer? ==>
        && id in out.sessions
        && out.sessions[id] == out.reply.history
        && KeepsExchange(out.reply.history, Stored(sessions, id), message, out.reply.answer)
  {
    var prior := Stored(sessions, id);
    var m := Recognise(engine, sim, prior, message);
    RecordOfRespond(sessions, id, engine.responses, prior, message, m, pick);
    assert Exchange(sessions, engine, sim, id, message, pick)
           == Record(sessions, id, message, Respond(engine.responses, prior, message, m, pick));
  }

  /** What recording a reply step stores and answers, for any classification `m`. */
  lemma RecordOfRespond(sessions: Sessions, id: string, responses: ResponseTable, prior: History,
                        message: string, m: Match, pick: nat)
    ensures
      var out := Record(sessions, id, message, Respond(responses, prior, message, m, pick));
      out.reply.Answer? ==>
        && id in out.sessions
        && out.sessions[id] == out.reply.history
        && KeepsExchange(out.reply.history, prior, message, out.reply.answer)
        && out.reply.intent == m.tag
        && out.reply.confidence == m.score
        && (m.tag.None? || m.tag.value !in responses ==> out.reply.answer == FALLBACK)
        && (m.tag.Some? && m.tag.value in responses ==> out.reply.answer in responses[m.tag.value])
    ensures
      var out := Record(sessions, id, message, Respond(responses, prior, message, m, pick));
      && (out.reply.ServerError? <==> m.tag.Some? && m.tag.value in responses && |responses[m.tag.value]| == 0)
      && (out.reply.ServerError? ==>
            && (id in out.sessions <==> id in sessions)
            && (id in sessions ==> out.sessions[id] == sessions[id] + [Turn(User, message)]))
  {
  }

  /** An answered exchange carries the classifier's tag and score; its reply
      is the fallback when there is no known tag and one of the tag's
      responses otherwise. */
  lemma ExchangeAnswers(sessions: Sessions, engine: Engine, sim: Similarity, id: string, message: string, pick: nat)
    ensures
      var out := Exchange(sessions, engine, sim, id, message, pick);
      var m := Recognise(engine, sim, Stored(sessions, id), message);
      out.reply.Answer? ==>
        && out.reply.intent == m.tag
        && out.reply.confidence == m.score
        && (m.tag.None? || m.tag.value !in engine.responses ==> out.reply.answer == FALLBACK)
        && (m.tag.Some? && m.tag.value in engine.responses ==> out.reply.answer in engine.responses[m.tag.value])
  {
    var prior := Stored(sessions, id);
    var m := Recognise(engine, sim, prior, message);
    RecordOfRespond(sessions, id, engine.responses, prior, message, m, pick);
    assert Exchange(sessions, engine, sim, id, message, pick)
           == Record(sessions, id, message, Respond(engine.responses, prior, message, m, pick));
  }

  /** An exchange fails exactly when the classifier accepts a tag whose
      response list is empty. The user turn then stays appended to a session
      that already existed, and no new session is created. */
  lemma ExchangeFails(sessions: Sessions, engine: Engine, sim: Similarity, id: string, message: string, pick: nat)
    ensures
      var out := Exchange(sessions, engine, sim, id, message, pick);
      var m := Recognise(engine, sim, Stored(sessions, id), message);
      && (out.reply.ServerError? <==>
            m.tag.Some? && m.tag.value in engine.responses && |engine.responses[m.tag.value]| == 0)
      && (out.reply.ServerError? ==>
            && (id in out.sessions <==> id in sessions)
            && (id in sessions ==> out.sessions[id] == sessions[id] + [Turn(User, message)]))
  {
    var prior := Stored(sessions, id);
    var m := Recognise(engine, sim, prior, message);
    RecordOfRespond(sessions, id, engine.responses, prior, message, m, pick);
    assert Exchange(sessions, engine, sim, id, message, pick)
           == Record(sessions, id, message, Respond(engine.responses, prior, message, m, pick));
  }

  /** One exchange of the chat endpoint. `pick` is the random draw of the
      reply selector. A blank message gets the prompt and changes nothing;
      any other is exchanged, stripped, on the request's session (the
      session named "default" when the request names none), and no other
      session changes (`ChatKeepsOtherSessions`). */
  function Chat(sessions: Sessions, engine: Engine, sim: Similarity, req: Request, pick: nat): (out: Outcome)
    ensures out.reply.Prompt? <==> Text.IsBlank(req.message.ValueOr(""))
    ensures out.reply.Prompt? ==> out == Outcome(Prompt(BLANK_PROMPT), sessions)
    ensures !out.reply.Prompt? ==> out == Exchange(sessions, engine, sim, SessionId(req), Message(req), pick)
  {
    var message := Message(req);
    if message == "" then Outcome(Prompt(BLANK_PROMPT), sessions)
    else Exchange(sessions, engine, sim, SessionId(req), message, pick)
  }

  /** An exchange changes no session but the request's own. */
  lemma ChatKeepsOtherSessions(sessions: Sessions, engine: Engine, sim: Similarity, req: Request, pick: nat)
    ensures
      var out := Chat(sessions, engine, sim, req, pick);
      forall other | other != SessionId(req) ::
        && (other in out.sessions <==> other in sessions)
        && (other in sessions ==> out.sessions[other] == sessions[other])
  {
  }

  /** Keeping the last `MAX_HISTORY` turns of an alternating history keeps it
      alternating: the number of dropped turns is even. */
  lemma TailKeepsAlternation(h: History)
    requires Alternating(h)
    ensures Alternating(Tail(h, MAX_HISTORY))
  {
    if |h| > MAX_HISTORY {
      var d := |h| - MAX_HISTORY;
      var t := Tail(h, MAX_HISTORY);
      forall i | 0 <= i < |t|
        ensures t[i].role == if i % 2 == 0 then User else Bot
      {
        assert t[i] == h[i + d];
        EvenShiftKeepsParity(i, d);
      }
    }
  }

  /** Shifting an index by an even amount keeps its parity. */
  lemma EvenShiftKeepsParity(i: nat, d: nat)
    requires d % 2 == 0
    ensures (i + d) % 2 == i % 2
  {
  }

  /** Appending one user turn and one bot turn keeps a history alternating. */
  lemma AppendExchangeKeepsAlternation(prior: History, question: string, answer: string)
    requires Alternating(prior)
    ensures Alternating(prior + [Turn(User, question), Turn(Bot, answer)])
  {
    var full := prior + [Turn(User, question), Turn(Bot, answer)];
    assert forall i | 0 <= i < |prior| :: full[i] == prior[i];
  }

  /** A successful reply step leaves an alternating history when it starts from one. */
  lemma RespondKeepsAlternation(responses: ResponseTable, prior: History, message: string, m: Match, pick: nat)
    requires Alternating(prior)
    requires Respond(responses, prior, message, m, pick).Ok?
    ensures Alternating(Respond(responses, prior, message, m, pick).value.history)
  {
    var answer := Respond(responses, prior, message, m, pick).value.answer;
    AppendExchangeKeepsAlternation(prior, message, answer);
    TailKeepsAlternation(prior + [Turn(User, message), Turn(Bot, answer)]);
  }

  /** On an alternating history the last two turns after appending the user
      turn are (previous bot turn, new user turn), so the contextual query
      is exactly the new message. */
  lemma ContextIsCurrentMessage(prior: History, message: string)
    requires Alternating(prior)
    ensures ContextualQuery(prior + [Turn(User, message)]) == message
  {
    var h := prior + [Turn(User, message)];
    if |prior| > 0 {
      assert h[|h| - 2] == prior[|prior| - 1];
    }
  }

  /** The window counts turns of both roles: only when the last two turns
      are both user turns does the query join two user texts. */
  lemma ContextOfTwoUserTurns(prior: History, first: string, second: string)
    ensures ContextualQuery(prior + [Turn(User, first), Turn(User, second)]) == first + " " + second
  {
  }

  /** On an alternating history, the exchange classifies exactly the new
      message, and a tag it accepts over a prepared catalog is a tag of that
      catalog. */
  lemma RecognisesMessage(intents: seq<Intent>, sim: Similarity, prior: History, message: string)
    requires Alternating(prior)
    ensures Recognise(Load(intents), sim, prior, message) == Classify(sim, message, Examples(intents), THRESHOLD)
    ensures Recognise(Load(intents), sim, prior, message).tag.Some? ==>
              Recognise(Load(intents), sim, prior, message).tag.value in Tags(intents)
  {
    ContextIsCurrentMessage(prior, message);
  }

  /** Over a catalog whose intents all have responses, the reply step never
      fails for a tag of that catalog. */
  lemma RespondSucceeds(intents: seq<Intent>, prior: History, message: string, m: Match, pick: nat)
    requires HasResponses(intents)
    requires m.tag.Some? ==> m.tag.value in Tags(intents)
    ensures Respond(Table(intents), prior, message, m, pick).Ok?
  {
    TableResponsesNonEmpty(intents);
  }

  /** Over a catalog whose intents all have responses, an exchange on an
      alternating history never fails and classifies exactly the message. */
  lemma ExchangeClassifiesMessage(sessions: Sessions, intents: seq<Intent>, sim: Similarity, id: string,
                                  message: string, pick: nat)
    requires Alternating(Stored(sessions, id))
    requires HasResponses(intents)
    ensures Exchange(sessions, Load(intents), sim, id, message, pick).reply.Answer?
    ensures Exchange(sessions, Load(intents), sim, id, message, pick).reply.intent
            == Classify(sim, message, Examples(intents), THRESHOLD).tag
  {
    var prior := Stored(sessions, id);
    RecognisesMessage(intents, sim, prior, message);
    RespondSucceeds(intents, prior, message, Recognise(Load(intents), sim, prior, message), pick);
  }

  /** Over a catalog whose intents all have responses, an exchange on a
      well-formed session map never fails and classifies exactly the
      current message. */
  lemma ChatClassifiesMessage(sessions: Sessions, intents: seq<Intent>, sim: Similarity, req: Request, pick: nat)
    requires SessionsOk(sessions)
    requires HasResponses(intents)
    ensures !Chat(sessions, Load(intents), sim, req, pick).reply.ServerError?
    ensures Chat(sessions, Load(intents), sim, req, pick).reply.Answer? ==>
              Chat(sessions, Load(intents), sim, req, pick).reply.intent
              == Classify(sim, Message(req), Examples(intents), THRESHOLD).tag
  {
    var id := SessionId(req);
    assert Alternating(Stored(sessions, id)) by {
      if id in sessions {
        assert Alternating(sessions[id]);
      }
    }
    ExchangeClassifiesMessage(sessions, intents, sim, id, Message(req), pick);
  }

  /** Over a catalog whose intents all have responses, an exchange keeps
      every history of a well-formed session map alternating and bounded. */
  lemma ExchangePreservesInvariant(sessions: Sessions, intents: seq<Intent>, sim: Similarity, id: string,
                                   message: string, pick: nat)
    requires SessionsOk(sessions)
    requires HasResponses(intents)
    ensures SessionsOk(Exchange(sessions, Load(intents), sim, id, message, pick).sessions)
  {
    var engine := Load(intents);
    var prior := Stored(sessions, id);
    var m := Recognise(engine, sim, prior, message);
    RecognisesMessage(intents, sim, prior, message);
    RespondSucceeds(intents, prior, message, m, pick);
    var c := Respond(engine.responses, prior, message, m, pick);
    RespondKeepsAlternation(engine.responses, prior, message, m, pick);
    RecordKeepsInvariant(sessions, id, message, c);
  }

  /** Over a catalog whose intents all have responses, an exchange keeps
      every history of the session map alternating and bounded. */
  lemma ChatPreservesInvariant(sessions: Sessions, intents: seq<Intent>, sim: Similarity, req: Request, pick: nat)
    requires SessionsOk(sessions)
    requires HasResponses(intents)
    ensures SessionsOk(Chat(sessions, Load(intents), sim, req, pick).sessions)
  {
    ExchangePreservesInvariant(sessions, intents, sim, SessionId(req), Message(req), pick);
  }

  /** A request without a session id is the same request on the session "default". */
  lemma MissingSessionIsDefault(sessions: Sessions, engine: Engine, sim: Similarity, message: Option<string>,
                                pick: nat)
    ensures Chat(sessions, engine, sim, Request(message, None), pick)
            == Chat(sessions, engine, sim, Request(message, Some(DEFAULT_SESSION)), pick)
  {
    assert SessionId(Request(message, None)) == SessionId(Request(message, Some(DEFAULT_SESSION)));
    assert Message(Request(message, None)) == Message(Request(message, Some(DEFAULT_SESSION)));
  }

  /** Recording a successful exchange with a bounded alternating history keeps the invariant. */
  lemma RecordKeepsInvariant(sessions: Sessions, id: string, message: string, c: Result<Reply>)
    requires SessionsOk(sessions)
    requires c.Ok? && c.value.Answer?
    requires Alternating(c.value.history) && |c.value.history| <= MAX_HISTORY
    ensures SessionsOk(Record(sessions, id, message, c).sessions)
  {
  }

  /** The session map after a sequence of exchanges; `picks[k]` is the draw of exchange `k`. */
  function Run(sessions: Sessions, engine: Engine, sim: Similarity, reqs: seq<Request>, picks: seq<nat>): Sessions
    requires |picks| == |reqs|
    decreases |reqs|
  {
    if |reqs| == 0 then sessions
    else Run(Chat(sessions, engine, sim, reqs[0], picks[0]).sessions, engine, sim, reqs[1..], picks[1..])
  }

  /** From a well-formed session map, any sequence of exchanges over a
      catalog whose intents all have responses leaves every history
      alternating and at most `MAX_HISTORY` turns long. */
  lemma {:induction false} RunKeepsInvariant(sessions: Sessions, intents: seq<Intent>, sim: Similarity,
                                             reqs: seq<Request>, picks: seq<nat>)
    requires |picks| == |reqs|
    requires SessionsOk(sessions)
    requires HasResponses(intents)
    ensures SessionsOk(Run(sessions, Load(intents), sim, reqs, picks))
    decreases |reqs|
  {
    if |reqs| > 0 {
      ChatPreservesInvariant(sessions, intents, sim, reqs[0], picks[0]);
      RunKeepsInvariant(Chat(sessions, Load(intents), sim, reqs[0], picks[0]).sessions,
                        intents, sim, reqs[1..], picks[1..]);
    }
  }
}
