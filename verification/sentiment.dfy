/**
 Classification of the sentiment oracle's scores (`metrics.py`). The oracle
 itself, a lexicon-based analyser, is not part of this model: its result,
 a dictionary from `"pos"`, `"neg"`, `"neu"` and `"compound"` to numbers,
 is an input.
 */
module Sentiment {

  /** A score dictionary as the oracle returns it. */
  type Scores = map<string, real>

  /** `scores.get(key, 0)`. */
  function Score(scores: Scores, key: string): (v: real)
    ensures key in scores ==> v == scores[key]
    ensures key !in scores ==> v == 0.0
  {
    if key in scores then scores[key] else 0.0
  }

  /** The three polarity buckets all callers cut the compound score into. */
  datatype Tone = Positive | Negative | Neutral

  /** Above 0.2 is positive, below -0.2 negative; ±0.2 itself is neutral. */
  function ToneOf(compound: real): (t: Tone)
    ensures t == Positive <==> compound > 0.2
    ensures t == Negative <==> compound < -0.2
    ensures t == Neutral <==> -0.2 <= compound <= 0.2
  {
    if compound > 0.2 then Positive
    else if compound < -0.2 then Negative
    else Neutral
  }

  /** `sentiment_to_emoji`: the display label of a compound score. */
  function SentimentToEmoji(score: real): (r: string)
    ensures r == " Positive" <==> score > 0.2
    ensures r == " Negative " <==> score < -0.2
    ensures r == " Neutral" <==> -0.2 <= score <= 0.2
  {
    match ToneOf(score)
    case Positive => " Positive"
    case Negative => " Negative "
    case Neutral => " Neutral"
  }

  /** `sentiment_distribution`: the three proportions under display names,
      0 for a proportion the scores lack, and no other entry. */
  function SentimentDistribution(scores: Scores): (d: map<string, real>)
    ensures d.Keys == {"Positive", "Negative", "Neutral"}
    ensures "pos" in scores ==> d["Positive"] == scores["pos"]
    ensures "neg" in scores ==> d["Negative"] == scores["neg"]
    ensures "neu" in scores ==> d["Neutral"] == scores["neu"]
    ensures "pos" !in scores ==> d["Positive"] == 0.0
    ensures "neg" !in scores ==> d["Negative"] == 0.0
    ensures "neu" !in scores ==> d["Neutral"] == 0.0
  {
    map["Positive" := Score(scores, "pos"),
        "Negative" := Score(scores, "neg"),
        "Neutral" := Score(scores, "neu")]
  }
}
