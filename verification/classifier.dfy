/** Nearest-example intent classification: a linear scan over the prepared
    examples keeping the best similarity seen so far, followed by a
    confidence threshold. The embedding model and cosine similarity are
    abstracted into one similarity function from (query, example text) to a
    real score. */
module Classifier {
  import opened Optional
  import opened Catalog

  /** `cos_sim(encode(query), encode(text))`, left uninterpreted. */
  type Similarity = (string, string) -> real

  /** A candidate intent (or none) with its confidence score. */
  datatype Match = Match(tag: Option<string>, score: real)

  /** Default confidence threshold of the classifier. */
  const THRESHOLD: real := 0.5

  /** Similarity of the query to example `e`'s pattern. */
  function Score(sim: Similarity, query: string, e: Example): real
  {
    sim(query, e.text)
  }

  /** One iteration of the scan: a strictly better score replaces the running best. */
  function Step(best: Match, e: Example, s: real): Match
  {
    if s > best.score then Match(Some(e.tag), s) else best
  }

  /** The scan over `examples` starting from `(None, 0)`. The score is the
      maximum of 0 and all example scores; the tag is that of the FIRST
      example reaching it, and there is a tag exactly when some score is
      positive. */
  function Scan(sim: Similarity, query: string, examples: seq<Example>): (b: Match)
    ensures b.score >= 0.0
    ensures forall k | 0 <= k < |examples| :: Score(sim, query, examples[k]) <= b.score
    ensures b.tag.None? <==> forall k | 0 <= k < |examples| :: Score(sim, query, examples[k]) <= 0.0
    ensures b.tag.None? ==> b.score == 0.0
    ensures b.tag.Some? ==>
              exists k | 0 <= k < |examples| ::
                && examples[k].tag == b.tag.value
                && Score(sim, query, examples[k]) == b.score
                && forall l | 0 <= l < k :: Score(sim, query, examples[l]) < b.score
  {
    if |examples| == 0 then Match(None, 0.0)
    else
      var n := |examples| - 1;
      var prev := Scan(sim, query, examples[..n]);
      var b := Step(prev, examples[n], Score(sim, query, examples[n]));
      assert forall k | 0 <= k < n :: examples[..n][k] == examples[k];
      b
  }

  /** `classify_intent_embedding`: the scan's result, with the tag dropped
      when the score is below the threshold. */
  function Classify(sim: Similarity, query: string, examples: seq<Example>, threshold: real): (r: Match)
    ensures r.score >= 0.0
    ensures forall k | 0 <= k < |examples| :: Score(sim, query, examples[k]) <= r.score
    ensures r.score == 0.0 || exists k | 0 <= k < |examples| :: Score(sim, query, examples[k]) == r.score
    ensures r.score < threshold ==> r.tag.None?
    ensures r.tag.Some? ==>
              && r.score >= threshold
              && r.score > 0.0
              && exists k | 0 <= k < |examples| ::
                   && examples[k].tag == r.tag.value
                   && Score(sim, query, examples[k]) == r.score
                   && forall l | 0 <= l < k :: Score(sim, query, examples[l]) < r.score
    ensures r.score >= threshold && r.score > 0.0 ==> r.tag.Some?
  {
    var best := Scan(sim, query, examples);
    if best.score < threshold then Match(None, best.score) else best
  }

  /** The classifier's loop, as the service runs it. */
  method ClassifyIntent(sim: Similarity, query: string, examples: seq<Example>, threshold: real)
    returns (tag: Option<string>, score: real)
    ensures Match(tag, score) == Classify(sim, query, examples, threshold)
  {
    var best := Match(None, 0.0);
    var i := 0;
    while i < |examples|
      invariant 0 <= i <= |examples|
      invariant best == Scan(sim, query, examples[..i])
    {
      var s := sim(query, examples[i].text);
      if s > best.score {
        best := Match(Some(examples[i].tag), s);
      }
      assert examples[..i + 1][..i] == examples[..i];
      i := i + 1;
    }
    assert examples[..i] == examples;
    if best.score < threshold {
      return None, best.score;
    }
    return best.tag, best.score;
  }

  /** Lowering the threshold never rejects an accepted match nor changes it. */
  lemma ThresholdMonotone(sim: Similarity, query: string, examples: seq<Example>, t1: real, t2: real)
    requires t1 <= t2
    requires Classify(sim, query, examples, t2).tag.Some?
    ensures Classify(sim, query, examples, t1) == Classify(sim, query, examples, t2)
  {
  }

  /** Independent reference for the score: 0 folded with every example score
      by `max`, from the front of the list. */
  function MaxOrZero(sim: Similarity, query: string, examples: seq<Example>): real
  {
    if |examples| == 0 then 0.0
    else
      var rest := MaxOrZero(sim, query, examples[1..]);
      var s := Score(sim, query, examples[0]);
      if s > rest then s else rest
  }

  /** Independent reference for the tag: the tag of the first example whose
      score reaches `m`. */
  function FirstReaching(sim: Similarity, query: string, examples: seq<Example>, m: real): Option<string>
  {
    if |examples| == 0 then None
    else if Score(sim, query, examples[0]) >= m then Some(examples[0].tag)
    else FirstReaching(sim, query, examples[1..], m)
  }

  /** `MaxOrZero` bounds every score, is at least 0, and is 0 or some score. */
  lemma {:induction false} MaxOrZeroIsMax(sim: Similarity, query: string, examples: seq<Example>)
    ensures MaxOrZero(sim, query, examples) >= 0.0
    ensures forall k | 0 <= k < |examples| :: Score(sim, query, examples[k]) <= MaxOrZero(sim, query, examples)
    ensures MaxOrZero(sim, query, examples) == 0.0
            || exists k | 0 <= k < |examples| :: Score(sim, query, examples[k]) == MaxOrZero(sim, query, examples)
  {
    if |examples| > 0 {
      var rest := examples[1..];
      MaxOrZeroIsMax(sim, query, rest);
      assert forall k | 1 <= k < |examples| :: examples[k] == rest[k - 1];
      var m := MaxOrZero(sim, query, rest);
      if m != 0.0 && Score(sim, query, examples[0]) <= m {
        var k :| 0 <= k < |rest| && Score(sim, query, rest[k]) == m;
        assert Score(sim, query, examples[k + 1]) == m;
      }
    }
  }

  /** If example `k` is the first to reach `m`, the reference tag is its tag. */
  lemma {:induction false} FirstReachingAt(sim: Similarity, query: string, examples: seq<Example>, m: real, k: nat)
    requires k < |examples|
    requires Score(sim, query, examples[k]) >= m
    requires forall l | 0 <= l < k :: Score(sim, query, examples[l]) < m
    ensures FirstReaching(sim, query, examples, m) == Some(examples[k].tag)
  {
    if k > 0 {
      var rest := examples[1..];
      assert forall l | 0 <= l < k - 1 :: rest[l] == examples[l + 1];
      FirstReachingAt(sim, query, rest, m, k - 1);
    }
  }

  /** The scan agrees with the reference definitions: its score is
      `max(0, max of all scores)`, and its tag is the first example reaching
      that maximum when it is positive and `None` otherwise. */
  lemma {:induction false} ScanMatchesReference(sim: Similarity, query: string, examples: seq<Example>)
    ensures Scan(sim, query, examples).score == MaxOrZero(sim, query, examples)
    ensures Scan(sim, query, examples).tag
            == if MaxOrZero(sim, query, examples) > 0.0
               then FirstReaching(sim, query, examples, MaxOrZero(sim, query, examples))
               else None
  {
    var b := Scan(sim, query, examples);
    var m := MaxOrZero(sim, query, examples);
    MaxOrZeroIsMax(sim, query, examples);
    assert b.score == m;
    if b.tag.Some? {
      var k :| 0 <= k < |examples|
               && examples[k].tag == b.tag.value
               && Score(sim, query, examples[k]) == b.score
               && forall l | 0 <= l < k :: Score(sim, query, examples[l]) < b.score;
      FirstReachingAt(sim, query, examples, m, k);
    }
  }

  /** A tag the classifier accepts over a prepared catalog is a key of that
      catalog's response table. */
  lemma ClassifiedTagInTable(sim: Similarity, query: string, intents: seq<Intent>, threshold: real)
    ensures Classify(sim, query, Examples(intents), threshold).tag.Some? ==>
              Classify(sim, query, Examples(intents), threshold).tag.value in Table(intents)
  {
  }
}
