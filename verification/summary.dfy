/**
 The two summaries of `metrics.py`: the extractive `simple_summary` and the
 templated paragraph of `comprehensive_summary`.
 */
module Summary {
  import opened Text
  import opened Format
  import opened Sentiment
  import opened Metrics
  import opened Keywords

  // ---------------------------------------------------------------------
  // simple_summary
  // ---------------------------------------------------------------------

  /** `simple_summary`: with at least two periods, the first segment and
      the segment before the last period, both stripped, as two sentences;
      otherwise the first 1000 characters followed by an ellipsis. */
  function SimpleSummary(text: string): string {
    var parts := Split(text, '.');
    if |parts| > 2 then Strip(parts[0]) + ". " + Strip(parts[|parts| - 2]) + "."
    else text[..Min(1000, |text|)] + "..."
  }

  /** With fewer than two periods the summary is the text, cut after 1000
      characters, followed by "...". */
  lemma SimpleSummaryShort(text: string)
    requires Count(text, '.') < 2
    ensures var r := SimpleSummary(text);
      |r| == Min(|text|, 1000) + 3 && r[..|r| - 3] == text[..|r| - 3] && r[|r| - 3..] == "..."
  {
    SplitCount(text, '.');
  }

  /** The first sentence of the summary is the text up to its first period,
      stripped. */
  lemma SimpleSummaryLead(text: string, first: string, rest: string)
    requires text == first + "." + rest
    requires '.' !in first && '.' in rest
    ensures var lead := Strip(first) + ". ";
      |SimpleSummary(text)| >= |lead| && SimpleSummary(text)[..|lead|] == lead
  {
    var parts := Split(text, '.');
    LeadSegment(first, rest);
    SummaryOfSegments(text, parts);
    TwoSentences(SimpleSummary(text), Strip(first), Strip(parts[|parts| - 2]));
  }

  /** Text with a period after a period-free start splits into at least
      three segments, the first of them that start. */
  lemma LeadSegment(first: string, rest: string)
    requires '.' !in first && '.' in rest
    ensures var parts := Split(first + "." + rest, '.');
      |parts| > 2 && parts[0] == first
  {
    SplitAfter(first, rest, '.');
    var i := IndexOf(rest, '.');
    assert i < |rest|;
  }

  /** The second sentence of the summary is the last complete sentence: the
      text between the last two periods, stripped. */
  lemma SimpleSummaryLast(text: string, init: string, mid: string, last: string)
    requires text == init + "." + mid + "." + last
    requires '.' !in mid && '.' !in last
    ensures var tail := Strip(mid) + ".";
      |SimpleSummary(text)| >= |tail| && SimpleSummary(text)[|SimpleSummary(text)| - |tail|..] == tail
  {
    SplitLastTwo(init, mid, last);
    var parts := Split(init, '.') + [mid, last];
    SummaryOfSegments(text, parts);
    TwoSentences(SimpleSummary(text), Strip(parts[0]), Strip(mid));
  }

  /** The two sentences of a summary, read from its two ends. */
  lemma TwoSentences(r: string, x: string, y: string)
    requires r == x + ". " + y + "."
    ensures |r| >= |x + ". "| && r[..|x + ". "|] == x + ". "
    ensures |r| >= |y + "."| && r[|r| - |y + "."|..] == y + "."
  {
    assert r == (x + ". ") + (y + ".");
  }

  /** With at least two periods the summary is exactly two sentences: the
      text before the first period and the text between the last two
      periods, each stripped, each closed by a period, joined by a space. */
  lemma SimpleSummaryExact(text: string, init: string, first: string, mid: string, last: string)
    requires text == init + "." + mid + "." + last
    requires '.' !in first && '.' !in mid && '.' !in last
    requires init == first || (|init| > |first| && init[..|first| + 1] == first + ".")
    ensures SimpleSummary(text) == Strip(first) + ". " + Strip(mid) + "."
  {
    SplitLastTwo(init, mid, last);
    var head := Split(init, '.');
    if init == first {
      IndexOfAbsent(first, '.');
      assert head == [first];
    } else {
      var rest := init[|first| + 1..];
      assert init == first + "." + rest;
      SplitAfter(first, rest, '.');
    }
    var parts := head + [mid, last];
    assert parts[0] == first && parts[|parts| - 2] == mid;
    SummaryOfSegments(text, parts);
  }

  lemma SummaryOfSegments(text: string, parts: seq<string>)
    requires parts == Split(text, '.') && |parts| > 2
    ensures SimpleSummary(text) == Strip(parts[0]) + ". " + Strip(parts[|parts| - 2]) + "."
  {
  }

  /** Splitting text ending in ".mid.last", with no period in mid and last,
      ends with the segments mid and last. */
  lemma SplitLastTwo(init: string, mid: string, last: string)
    requires '.' !in mid && '.' !in last
    ensures Split(init + "." + mid + "." + last, '.') == Split(init, '.') + [mid, last]
  {
    var text := init + "." + mid + "." + last;
    var head := Split(init, '.');
    var parts := head + [mid, last];
    assert parts == (head + [mid]) + [last];
    calc {
      Join(parts, ".");
      { JoinSnoc(head + [mid], last, "."); }
      Join(head + [mid], ".") + "." + last;
      { JoinSnoc(head, mid, "."); }
      Join(head, ".") + "." + mid + "." + last;
      { SplitJoin(init, '.'); }
      text;
    }
    forall k | 0 <= k < |parts| ensures '.' !in parts[k] {
      if k < |head| {
        assert parts[k] == head[k];
      }
    }
    JoinSplit(parts, '.');
  }

  // ---------------------------------------------------------------------
  // comprehensive_summary
  // ---------------------------------------------------------------------

  /** How the paragraph describes each polarity bucket. */
  function ToneDescription(t: Tone): (d: string)
    ensures d == "predominantly positive tone" <==> t == Positive
    ensures d == "predominantly negative tone" <==> t == Negative
    ensures d == "neutral sentiment" <==> t == Neutral
  {
    match t
    case Positive => "predominantly positive tone"
    case Negative => "predominantly negative tone"
    case Neutral => "neutral sentiment"
  }

  /** The phrase for the average word length `chars / max(words, 1)`:
      above 6 is complex, above 4.5 moderate, otherwise simple. */
  function ComplexityDescription(chars: nat, words: nat): (d: string)
    ensures d == "sophisticated and complex language" <==> chars > 6 * Max(words, 1)
    ensures d == "moderate vocabulary complexity" <==>
      9 * Max(words, 1) < 2 * chars <= 12 * Max(words, 1)
    ensures d == "simple and accessible language" <==> 2 * chars <= 9 * Max(words, 1)
  {
    var m := Max(words, 1);
    var avg := chars as real / m as real;
    DivAbove(chars, m, 6, 1);
    DivAbove(chars, m, 9, 2);
    if avg > 6.0 then "sophisticated and complex language"
    else if avg > 4.5 then "moderate vocabulary complexity"
    else "simple and accessible language"
  }

  /** Comparing a quotient with the fraction p/q is comparing cross
      products. */
  lemma DivAbove(n: nat, m: nat, p: nat, q: nat)
    requires m >= 1 && q >= 1
    ensures n as real / m as real > p as real / q as real <==> q * n > p * m
  {
    var x := n as real / m as real;
    assert x * m as real == n as real;
    var y := p as real / q as real;
    assert y * q as real == p as real;
    assert (q * n) as real == q as real * n as real;
    assert (p * m) as real == p as real * m as real;
  }

  /** The lower-cased tokens of the first five entries. */
  function Terms(tokens: seq<Entry>): (ts: seq<string>)
    ensures |ts| == Min(5, |tokens|)
    ensures forall i :: 0 <= i < |ts| ==> ts[i] == Lower(tokens[i].0)
  {
    seq(Min(5, |tokens|), i requires 0 <= i < Min(5, |tokens|) => Lower(tokens[i].0))
  }

  /** The key-terms list: the first five tokens, lower-cased, joined with
      ", ". */
  function KeyTerms(tokens: seq<Entry>): string {
    Join(Terms(tokens), ", ")
  }

  /** Each string with a space in front. */
  function Spaced(ps: seq<string>): (r: seq<string>)
    ensures |r| == |ps|
    ensures forall i :: 0 <= i < |ps| ==> r[i] == " " + ps[i]
  {
    seq(|ps|, i requires 0 <= i < |ps| => " " + ps[i])
  }

  /** Splitting a ", "-joined list of comma-free strings on ',' gives the
      first string and then every other one with its leading space. */
  lemma {:induction false} SplitCommaSpace(ps: seq<string>)
    requires |ps| >= 1
    requires forall k :: 0 <= k < |ps| ==> ',' !in ps[k]
    ensures Split(Join(ps, ", "), ',') == [ps[0]] + Spaced(ps[1..])
    decreases |ps|
  {
    if |ps| == 1 {
      IndexOfAbsent(ps[0], ',');
    } else {
      var tail := ps[1..];
      var j := Join(tail, ", ");
      assert Join(ps, ", ") == ps[0] + ", " + j;
      SplitCommaStep(ps[0], j);
      SplitCommaSpace(tail);
      SplitCons(' ', j, ',');
      SpacedCons(tail);
      assert Split(j, ',')[1..] == Spaced(tail[1..]);
    }
  }

  /** The first comma of "p, j" is the one after p. */
  lemma SplitCommaStep(p: string, j: string)
    requires ',' !in p
    ensures Split(p + ", " + j, ',') == [p] + Split([' '] + j, ',')
  {
    assert p + ", " + j == p + [','] + ([' '] + j);
    SplitAfter(p, [' '] + j, ',');
  }

  lemma SpacedCons(ps: seq<string>)
    requires |ps| >= 1
    ensures Spaced(ps) == [" " + ps[0]] + Spaced(ps[1..])
  {
  }

  /** The key terms read back: split on commas, they are the lower-cased
      first five tokens, every one after the first behind one space. */
  lemma KeyTermsReadBack(tokens: seq<Entry>)
    requires |tokens| >= 1
    requires forall i :: 0 <= i < |tokens| ==> ',' !in tokens[i].0
    ensures var parts := Split(KeyTerms(tokens), ',');
      && |parts| == Min(5, |tokens|)
      && parts[0] == Lower(tokens[0].0)
      && forall i :: 1 <= i < |parts| ==> parts[i] == " " + Lower(tokens[i].0)
  {
    var ts := Terms(tokens);
    forall k | 0 <= k < |ts| ensures ',' !in ts[k] {
      forall m | 0 <= m < |ts[k]| ensures ts[k][m] != ',' {
        assert tokens[k].0[m] in tokens[k].0;
      }
    }
    SplitCommaSpace(ts);
    var parts := Split(KeyTerms(tokens), ',');
    forall i | 1 <= i < |parts| ensures parts[i] == " " + Lower(tokens[i].0) {
      assert parts[i] == Spaced(ts[1..])[i - 1];
    }
  }

  /** The closing sentence every paragraph ends with. */
  const Closing := "The analysis reveals a well-structured composition that effectively communicates its key messages through strategic use of language and thematic elements."

  /** The opening sentence up to the tone phrase. */
  function Opening(wc: nat, sc: nat, tone: string): string {
    "This text contains " + Dec(wc) + " words organized across " + Dec(sc) + " sentences, maintaining a " + tone + ". "
  }

  /** `comprehensive_summary`: opens with the word count, the sentence count
      and the tone of the compound score, then names the complexity of the
      average word length, and ends with the key terms and the fixed closing
      sentence. */
  function ComprehensiveSummary(text: string, scores: Scores, tokens: seq<Entry>): (r: string)
    ensures var opening := "This text contains " + Dec(WordCount(text)) + " words organized across "
        + Dec(SentenceCount(text)) + " sentences, maintaining a "
        + ToneDescription(ToneOf(Score(scores, "compound"))) + ". ";
      |r| >= |opening| && r[..|opening|] == opening
    ensures Mentions(r, "The content demonstrates " + ComplexityDescription(|text|, WordCount(text)) + ", with")
    ensures var ending := " including " + KeyTerms(tokens) + ". " + Closing;
      |r| >= |ending| && r[|r| - |ending|..] == ending
  {
    var opening := Opening(WordCount(text), SentenceCount(text), ToneDescription(ToneOf(Score(scores, "compound"))));
    var complexity := "The content demonstrates " + ComplexityDescription(|text|, WordCount(text)) + ", with";
    var ending := " including " + KeyTerms(tokens) + ". " + Closing;
    Framed(opening, complexity, " primary focus on topics", ending);
    opening + complexity + " primary focus on topics" + ending
  }

  /** The counts read back from the paragraph: whatever digits fill the two
      slots of "This text contains _ words organized across _ ..." are the
      decimal word and sentence counts. */
  lemma ComprehensiveSummaryCounts(text: string, scores: Scores, tokens: seq<Entry>,
                                   words: string, sentences: string, rest: string)
    requires forall k :: 0 <= k < |words| ==> IsDigit(words[k])
    requires forall k :: 0 <= k < |sentences| ==> IsDigit(sentences[k])
    requires ComprehensiveSummary(text, scores, tokens)
      == "This text contains " + words + " words organized across " + sentences + " " + rest
    ensures words == Dec(WordCount(text)) && DigitValue(words) == WordCount(text)
    ensures sentences == Dec(SentenceCount(text)) && DigitValue(sentences) == SentenceCount(text)
  {
    var wc, sc := WordCount(text), SentenceCount(text);
    var r := ComprehensiveSummary(text, scores, tokens);
    var filled := "This text contains " + words + " words organized across " + sentences + " ";
    assert r[..|filled|] == filled;
    OpeningPrefix(text, scores, tokens);
    SameSlots(r, "This text contains ", " words organized across ", words, sentences, " ",
      Dec(wc), Dec(sc), " sentences, maintaining a ");
    DecValue(wc);
    DecValue(sc);
  }

  /** The paragraph starts with its counts, followed by " sentences,
      maintaining a ". */
  lemma OpeningPrefix(text: string, scores: Scores, tokens: seq<Entry>)
    ensures var r := ComprehensiveSummary(text, scores, tokens);
      var p := "This text contains " + Dec(WordCount(text)) + " words organized across "
        + Dec(SentenceCount(text)) + " sentences, maintaining a ";
      |r| >= |p| && r[..|p|] == p
  {
    var tone := ToneDescription(ToneOf(Score(scores, "compound")));
    var opening := Opening(WordCount(text), SentenceCount(text), tone);
    var p := "This text contains " + Dec(WordCount(text)) + " words organized across "
      + Dec(SentenceCount(text)) + " sentences, maintaining a ";
    var r := ComprehensiveSummary(text, scores, tokens);
    PrefixOfPrefix(r, p + tone, ". ");
    PrefixOfPrefix(r, p, tone);
  }

  lemma PrefixOfPrefix(s: string, a: string, b: string)
    requires |s| >= |a + b| && s[..|a + b|] == a + b
    ensures |s| >= |a| && s[..|a|] == a
  {
    assert s[..|a|] == s[..|a + b|][..|a|];
  }

  /** Two fillings of the template c + _ + w + _ + tail with digit runs,
      each slot followed by a non-digit, put the same digits in the slots. */
  lemma SameSlots(s: string, c: string, w: string,
                  d1: string, e1: string, t1: string, d2: string, e2: string, t2: string)
    requires |w| > 0 && w[0] == ' ' && |t1| > 0 && t1[0] == ' ' && |t2| > 0 && t2[0] == ' '
    requires forall k :: 0 <= k < |d1| ==> IsDigit(d1[k])
    requires forall k :: 0 <= k < |e1| ==> IsDigit(e1[k])
    requires forall k :: 0 <= k < |d2| ==> IsDigit(d2[k])
    requires forall k :: 0 <= k < |e2| ==> IsDigit(e2[k])
    requires |s| >= |c + d1 + w + e1 + t1| && s[..|c + d1 + w + e1 + t1|] == c + d1 + w + e1 + t1
    requires |s| >= |c + d2 + w + e2 + t2| && s[..|c + d2 + w + e2 + t2|] == c + d2 + w + e2 + t2
    ensures d1 == d2 && e1 == e2
  {
    Slots(s, c, d1, w, e1, t1);
    Slots(s, c, d2, w, e2, t2);
    DigitsAt(s, |c|, d1, d2);
    DigitsAt(s, |c| + |d1| + |w|, e1, e2);
  }

  /** Where the pieces of a prefix c + d + w + e + t sit. */
  lemma Slots(s: string, c: string, d: string, w: string, e: string, t: string)
    requires |s| >= |c + d + w + e + t| && s[..|c + d + w + e + t|] == c + d + w + e + t
    requires |w| > 0 && |t| > 0
    ensures s[|c|..|c| + |d|] == d && s[|c| + |d|] == w[0]
    ensures var q := |c| + |d| + |w|; s[q..q + |e|] == e && s[q + |e|] == t[0]
  {
    var f := c + d + w + e + t;
    var q := |c| + |d| + |w|;
    forall k | 0 <= k < |f| ensures s[k] == f[k] {
      assert s[..|f|][k] == s[k];
    }
    assert s[|c|..|c| + |d|] == d;
    assert s[q..q + |e|] == e;
  }

  /** Two digit runs at the same place, each followed by a non-digit, are
      the same run. */
  lemma DigitsAt(s: string, p: nat, d1: string, d2: string)
    requires forall k :: 0 <= k < |d1| ==> IsDigit(d1[k])
    requires forall k :: 0 <= k < |d2| ==> IsDigit(d2[k])
    requires p + |d1| < |s| && s[p..p + |d1|] == d1 && !IsDigit(s[p + |d1|])
    requires p + |d2| < |s| && s[p..p + |d2|] == d2 && !IsDigit(s[p + |d2|])
    ensures d1 == d2
  {
  }
}
