/** Reply selection: a response drawn from the matched intent's list, or the
    fixed fallback sentence. The random draw is an explicit `pick`; the
    response used is `pick` modulo the list length, so every response is
    reachable and any draw lands in the list. */
module Responder {
  import opened Optional
  import opened Catalog

  /** The reply when no intent was recognised. */
  const FALLBACK: string := "Non ho capito bene, puoi riformulare?"

  /** A reply, or the failure of drawing from an empty response list
      (Python's `random.choice([])` raises `IndexError`). */
  datatype Result<+T> = Ok(value: T) | EmptyChoice(tag: string)

  /** `generate_response`: a response of `tag` when the table knows the tag,
      the fallback otherwise. */
  function GenerateResponse(table: ResponseTable, tag: string, pick: nat): (r: Result<string>)
    ensures tag !in table ==> r == Ok(FALLBACK)
    ensures tag in table && |table[tag]| > 0 ==> r.Ok? && r.value in table[tag]
    ensures r.EmptyChoice? <==> tag in table && |table[tag]| == 0
  {
    if tag in table then
      var options := table[tag];
      if |options| == 0 then EmptyChoice(tag) else Ok(options[pick % |options|])
    else
      Ok(FALLBACK)
  }

  /** The reply step of the chat endpoint: the fallback when the classifier
      returned no intent, otherwise `generate_response` of the tag. */
  function SelectReply(table: ResponseTable, intent: Option<string>, pick: nat): (r: Result<string>)
    ensures intent.None? || intent.value !in table ==> r == Ok(FALLBACK)
    ensures intent.Some? && intent.value in table && |table[intent.value]| > 0 ==>
              r.Ok? && r.value in table[intent.value]
    ensures r.EmptyChoice? <==> intent.Some? && intent.value in table && |table[intent.value]| == 0
  {
    match intent
    case None => Ok(FALLBACK)
    case Some(tag) => GenerateResponse(table, tag, pick)
  }

  /** Every response of a known tag is the reply for some draw, so the
      choice ranges over the whole list. */
  lemma EveryResponseReachable(table: ResponseTable, tag: string, k: nat)
    requires tag in table && k < |table[tag]|
    ensures GenerateResponse(table, tag, k) == Ok(table[tag][k])
  {
  }

  /** Over a catalog whose intents all have responses, a tag from the
      catalog never makes the draw fail, and the reply is one of that
      intent's responses. */
  lemma MatchedReplyFromCatalog(intents: seq<Intent>, tag: string, pick: nat)
    requires HasResponses(intents)
    requires tag in Tags(intents)
    ensures SelectReply(Table(intents), Some(tag), pick).Ok?
    ensures SelectReply(Table(intents), Some(tag), pick).value in Table(intents)[tag]
  {
    TableResponsesNonEmpty(intents);
  }
}
