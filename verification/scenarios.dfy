/** Concrete exchanges against a one-intent catalog, with a similarity
    under which a query matches only an identical pattern. */
module Scenarios {
  import opened Optional
  import opened Catalog
  import opened Classifier
  import opened Responder
  import opened Session
  import Text

  /** Score 1 for an identical pattern, 0 otherwise. */
  function ExactMatch(query: string, text: string): real
  {
    if query == text then 1.0 else 0.0
  }

  /** A catalog with the single intent "greeting". */
  function Greeting(): seq<Intent>
  {
    [Intent("greeting", ["ciao", "salve"], ["Ciao!"])]
  }

  /** The greeting catalog recognises "ciao" with full confidence and answers "Ciao!". */
  lemma GreetingRecognised()
    ensures Recognise(Load(Greeting()), ExactMatch, [], "ciao") == Match(Some("greeting"), 1.0)
  {
    GreetingEngineShape();
    var engine := Load(Greeting());
    assert Scan(ExactMatch, "ciao", engine.examples[..1]) == Match(Some("greeting"), 1.0) by {
      assert engine.examples[..1][..0] == [];
    }
    ContextIsCurrentMessage([], "ciao");
    assert [] + [Turn(User, "ciao")] == [Turn(User, "ciao")];
  }

  /** A greeting exchanged on a new session is answered; the session then
      holds the user turn and the bot turn. */
  lemma GreetingExchanged()
    ensures Exchange(map[], Load(Greeting()), ExactMatch, "s1", "ciao", 0)
            == Outcome(Answer("Ciao!", Some("greeting"), 1.0, [Turn(User, "ciao"), Turn(Bot, "Ciao!")]),
                       map["s1" := [Turn(User, "ciao"), Turn(Bot, "Ciao!")]])
  {
    GreetingEngineShape();
    var engine := Load(Greeting());
    assert Stored(map[], "s1") == [];
    GreetingRecognised();
    var h := [Turn(User, "ciao"), Turn(Bot, "Ciao!")];
    assert Tail(h, MAX_HISTORY) == h;
    assert Respond(engine.responses, [], "ciao", Match(Some("greeting"), 1.0), 0)
           == Ok(Answer("Ciao!", Some("greeting"), 1.0, h));
  }

  /** A greeting sent on session "s1" is recognised and answered there. */
  lemma GreetingAnswered()
    ensures Chat(map[], Load(Greeting()), ExactMatch, Request(Some("ciao"), Some("s1")), 0)
            == Outcome(Answer("Ciao!", Some("greeting"), 1.0, [Turn(User, "ciao"), Turn(Bot, "Ciao!")]),
                       map["s1" := [Turn(User, "ciao"), Turn(Bot, "Ciao!")]])
  {
    Text.StripUntrimmed("ciao");
    GreetingExchanged();
  }

  /** The engine prepared from the greeting catalog. */
  lemma GreetingEngineShape()
    ensures Load(Greeting()).examples == [Example("greeting", "ciao"), Example("greeting", "salve")]
    ensures Load(Greeting()).responses == map["greeting" := ["Ciao!"]]
  {
    var intents := Greeting();
    assert intents[..0] == [];
  }

  /** On a new session, the contextual query is the message itself. */
  lemma QueryOfFirstMessage(message: string)
    ensures ContextualQuery(Stored(map[], "s1") + [Turn(User, message)]) == message
  {
    assert Stored(map[], "s1") + [Turn(User, message)] == [Turn(User, message)];
    ContextIsCurrentMessage([], message);
  }

  /** Text equal to no pattern is classified as no intent with score 0. */
  lemma UnrelatedUnrecognised(text: string)
    requires text != "ciao" && text != "salve"
    ensures Recognise(Load(Greeting()), ExactMatch, [], text) == Match(None, 0.0)
  {
    GreetingEngineShape();
    var engine := Load(Greeting());
    assert Scan(ExactMatch, text, engine.examples[..1]) == Match(None, 0.0) by {
      assert engine.examples[..1][..0] == [];
    }
    ContextIsCurrentMessage([], text);
    assert [] + [Turn(User, text)] == [Turn(User, text)];
  }

  /** Text matching no pattern, exchanged on a new session, gets the
      fallback reply and no intent. */
  lemma UnrelatedExchanged()
    ensures Exchange(map[], Load(Greeting()), ExactMatch, "s1", Unrelated(), 0).reply
            == Answer(FALLBACK, None, 0.0, [Turn(User, Unrelated()), Turn(Bot, FALLBACK)])
  {
    GreetingEngineShape();
    var engine := Load(Greeting());
    assert Stored(map[], "s1") == [];
    UnrelatedUnrecognised(Unrelated());
    var h := [Turn(User, Unrelated()), Turn(Bot, FALLBACK)];
    assert Tail(h, MAX_HISTORY) == h;
    assert Respond(engine.responses, [], Unrelated(), Match(None, 0.0), 0) == Ok(Answer(FALLBACK, None, 0.0, h));
  }

  /** Text matching no pattern gets the fallback reply and no intent. */
  lemma UnrelatedFallsBack()
    ensures Chat(map[], Load(Greeting()), ExactMatch, Request(Some(Unrelated()), Some("s1")), 0).reply
            == Answer(FALLBACK, None, 0.0, [Turn(User, Unrelated()), Turn(Bot, FALLBACK)])
  {
    Text.StripUntrimmed(Unrelated());
    UnrelatedExchanged();
  }

  /** A message unrelated to the greeting catalog. */
  function Unrelated(): string
  {
    "xyzzy completely unrelated text"
  }

  /** A message of spaces only gets the prompt and leaves every session as it was. */
  lemma BlankPrompts(sessions: Sessions)
    ensures Chat(sessions, Load(Greeting()), ExactMatch, Request(Some("   "), Some("s1")), 0)
            == Outcome(Prompt(BLANK_PROMPT), sessions)
  {
    assert Text.IsBlank("   ");
  }

  /** With user turns "A" and "B" already answered, the contextual query for
      a new message "C" is "C" alone: the two-turn window holds the last bot
      turn and the new user turn. */
  lemma ContextAfterTwoExchanges()
    ensures ContextualQuery([Turn(User, "A"), Turn(Bot, "x"), Turn(User, "B"), Turn(Bot, "y"), Turn(User, "C")]) == "C"
  {
    ContextIsCurrentMessage([Turn(User, "A"), Turn(Bot, "x"), Turn(User, "B"), Turn(Bot, "y")], "C");
  }
}
