/** Start-up preparation of the intent catalog: the list of examples the
    classifier scans (one per pattern, in catalog order) and the
    `tag -> responses` table the reply selector reads. The embedding stored
    with each example is not modelled: it is a function of the pattern text
    alone, so the classifier's similarity function takes that text instead. */
module Catalog {

  /** One entry of the `intents` list of `intents.json`. */
  datatype Intent = Intent(tag: string, patterns: seq<string>, responses: seq<string>)

  /** One element of `intent_embeddings`: a pattern and the tag of the intent it came from. */
  datatype Example = Example(tag: string, text: string)

  type ResponseTable = map<string, seq<string>>

  /** Number of patterns over all intents. */
  function PatternCount(intents: seq<Intent>): nat
  {
    if |intents| == 0 then 0
    else PatternCount(intents[..|intents| - 1]) + |intents[|intents| - 1].patterns|
  }

  /** The set of tags that occur in the catalog. */
  function Tags(intents: seq<Intent>): set<string>
  {
    set i | 0 <= i < |intents| :: intents[i].tag
  }

  /** The examples contributed by one intent, one per pattern. */
  function ExamplesOf(intent: Intent): (ex: seq<Example>)
    ensures |ex| == |intent.patterns|
    ensures forall j | 0 <= j < |ex| :: ex[j] == Example(intent.tag, intent.patterns[j])
  {
    seq(|intent.patterns|, j requires 0 <= j < |intent.patterns| => Example(intent.tag, intent.patterns[j]))
  }

  /** The flattened example list built by the preparation loop, intent by
      intent and pattern by pattern. */
  function Examples(intents: seq<Intent>): (ex: seq<Example>)
    ensures |ex| == PatternCount(intents)
    ensures forall k | 0 <= k < |ex| :: ex[k].tag in Tags(intents)
  {
    if |intents| == 0 then []
    else
      var init := intents[..|intents| - 1];
      var ex := Examples(init) + ExamplesOf(intents[|intents| - 1]);
      assert forall k | 0 <= k < |ex| :: ex[k].tag in Tags(intents) by {
        assert Tags(init) <= Tags(intents);
      }
      ex
  }

  /** The response table: `responses[tag] = intent["responses"]` for every
      intent in order, so a later intent with a repeated tag overwrites an
      earlier one. */
  function Table(intents: seq<Intent>): (t: ResponseTable)
    ensures t.Keys == Tags(intents)
  {
    if |intents| == 0 then map[]
    else
      var last := intents[|intents| - 1];
      var t := Table(intents[..|intents| - 1])[last.tag := last.responses];
      assert t.Keys == Tags(intents) by {
        assert Tags(intents) == Tags(intents[..|intents| - 1]) + {last.tag};
      }
      t
  }

  /** The catalog the service expects: every intent has at least one response. */
  predicate HasResponses(intents: seq<Intent>)
  {
    forall i | 0 <= i < |intents| :: |intents[i].responses| > 0
  }

  /** Exactly one example per pattern, in catalog order: pattern `j` of intent
      `i` sits at position (patterns of the earlier intents) + `j` and carries
      intent `i`'s tag. */
  lemma {:induction false} ExamplePosition(intents: seq<Intent>, i: nat, j: nat)
    requires i < |intents| && j < |intents[i].patterns|
    ensures PatternCount(intents[..i]) + j < |Examples(intents)|
    ensures Examples(intents)[PatternCount(intents[..i]) + j]
            == Example(intents[i].tag, intents[i].patterns[j])
  {
    var n := |intents|;
    var init := intents[..n - 1];
    var ex := Examples(intents);
    assert ex == Examples(init) + ExamplesOf(intents[n - 1]);
    if i == n - 1 {
      assert intents[..i] == init;
      assert ex[PatternCount(init) + j] == ExamplesOf(intents[i])[j];
    } else {
      assert init[..i] == intents[..i];
      ExamplePosition(init, i, j);
      PatternCountPrefix(init, i + 1);
      assert init[..i + 1][..i] == intents[..i];
      assert ex[PatternCount(intents[..i]) + j] == Examples(init)[PatternCount(intents[..i]) + j];
    }
  }

  /** The pattern count of a prefix never exceeds that of the whole catalog. */
  lemma {:induction false} PatternCountPrefix(intents: seq<Intent>, m: nat)
    requires m <= |intents|
    ensures PatternCount(intents[..m]) <= PatternCount(intents)
  {
    assert intents[..|intents|] == intents;
    if m < |intents| {
      var init := intents[..|intents| - 1];
      assert init[..m] == intents[..m];
      PatternCountPrefix(init, m);
    }
  }

  /** Every example's tag is a key of the response table, so a tag the
      classifier returns always has a response list. */
  lemma ExampleTagsInTable(intents: seq<Intent>)
    ensures forall k | 0 <= k < |Examples(intents)| :: Examples(intents)[k].tag in Table(intents)
  {
  }

  /** The table maps a tag to the responses of the LAST intent carrying it. */
  lemma {:induction false} TableLastWins(intents: seq<Intent>, i: nat)
    requires i < |intents|
    requires forall j | i < j < |intents| :: intents[j].tag != intents[i].tag
    ensures Table(intents)[intents[i].tag] == intents[i].responses
  {
    var n := |intents|;
    if i < n - 1 {
      var init := intents[..n - 1];
      TableLastWins(init, i);
    }
  }

  /** In a catalog where every intent has responses, so does every entry of the table. */
  lemma {:induction false} TableResponsesNonEmpty(intents: seq<Intent>)
    requires HasResponses(intents)
    ensures forall tag | tag in Table(intents) :: |Table(intents)[tag]| > 0
  {
    if |intents| > 0 {
      TableResponsesNonEmpty(intents[..|intents| - 1]);
    }
  }

  /** The preparation loop of the service, intent by intent and pattern by pattern. */
  method Prepare(intents: seq<Intent>) returns (examples: seq<Example>, responses: ResponseTable)
    ensures examples == Examples(intents)
    ensures responses == Table(intents)
  {
    examples := [];
    responses := map[];
    var i := 0;
    while i < |intents|
      invariant 0 <= i <= |intents|
      invariant examples == Examples(intents[..i])
      invariant responses == Table(intents[..i])
    {
      var intent := intents[i];
      assert intents[..i + 1][..i] == intents[..i];
      responses := responses[intent.tag := intent.responses];
      var j := 0;
      while j < |intent.patterns|
        invariant 0 <= j <= |intent.patterns|
        invariant examples == Examples(intents[..i]) + ExamplesOf(intent)[..j]
      {
        examples := examples + [Example(intent.tag, intent.patterns[j])];
        assert ExamplesOf(intent)[..j + 1] == ExamplesOf(intent)[..j] + [ExamplesOf(intent)[j]];
        j := j + 1;
      }
      assert ExamplesOf(intent)[..j] == ExamplesOf(intent);
      i := i + 1;
    }
    assert intents[..i] == intents;
  }
}
