/**
 The plain-text report of `UI/analysis.py` (`generate_text_report`) and the
 readability level shown next to the readability score. The generation
 time is a parameter.
 */
module Report {
  import opened Text
  import opened Format
  import opened Results
  import opened Sentiment
  import opened Metrics
  import opened Keywords

  // ---------------------------------------------------------------------
  // Fields of the report
  // ---------------------------------------------------------------------

  /** The overall sentiment line: POSITIVE above 0.2, NEGATIVE below -0.2,
      NEUTRAL in between, bounds included. */
  function ReportLabel(compound: real): (l: string)
    ensures l == "POSITIVE" <==> compound > 0.2
    ensures l == "NEGATIVE" <==> compound < -0.2
    ensures l == "NEUTRAL" <==> -0.2 <= compound <= 0.2
  {
    if compound > 0.2 then "POSITIVE"
    else if compound < -0.2 then "NEGATIVE"
    else "NEUTRAL"
  }

  /** The report label and the display label of `sentiment_to_emoji` put a
      score in the same bucket. */
  lemma ReportLabelAgrees(compound: real)
    ensures ReportLabel(compound) == "POSITIVE" <==> ToneOf(compound) == Positive
    ensures ReportLabel(compound) == "NEGATIVE" <==> ToneOf(compound) == Negative
    ensures ReportLabel(compound) == "NEUTRAL" <==> SentimentToEmoji(compound) == " Neutral"
  {
  }

  /** Characters per word, `len(text) / max(wc, 1)`: defined for every text,
      the character count itself when there are no words. */
  function AvgWordLength(text: string): (r: real)
    ensures r >= 0.0
    ensures r * Max(WordCount(text), 1) as real == |text| as real
    ensures WordCount(text) == 0 ==> r == |text| as real
  {
    |text| as real / Max(WordCount(text), 1) as real
  }

  /** A sentiment percentage: `distribution.get(key, 0) * 100`. */
  function Percentage(distribution: map<string, real>, key: string): real {
    Score(distribution, key) * 100.0
  }

  /** The percentages are the oracle's proportions times 100, and 0 for a
      proportion it did not report. */
  lemma PercentagesOfScores(scores: Scores)
    ensures var d := SentimentDistribution(scores);
      && Percentage(d, "Positive") == Score(scores, "pos") * 100.0
      && Percentage(d, "Neutral") == Score(scores, "neu") * 100.0
      && Percentage(d, "Negative") == Score(scores, "neg") * 100.0
    ensures "pos" !in scores ==> Percentage(SentimentDistribution(scores), "Positive") == 0.0
  {
  }

  // ---------------------------------------------------------------------
  // Keyword lines
  // ---------------------------------------------------------------------

  /** One keyword line without its newline: `{i:2d}. {token.upper():<20}
      (frequency: {count})`. */
  function KeywordLine(i: nat, e: Entry): string {
    PadLeft(Dec(i), 2, ' ') + ". " + PadRight(Upper(e.0), 20, ' ') + Frequency(e.1)
  }

  /** The count field closing a keyword line. */
  function Frequency(n: nat): string {
    " (frequency: " + Dec(n) + ")"
  }

  /** Each string followed by a newline, all concatenated. */
  function Lines(ls: seq<string>): string {
    if |ls| == 0 then "" else ls[0] + "\n" + Lines(ls[1..])
  }

  /** The keyword section: one line per entry, numbered from `from`. */
  function KeywordLines(tokens: seq<Entry>, from: nat): string {
    Lines(Numbered(tokens, from))
  }

  /** The keyword lines without their newlines. */
  function Numbered(tokens: seq<Entry>, from: nat): (ls: seq<string>)
    ensures |ls| == |tokens|
    ensures forall k :: 0 <= k < |ls| ==> ls[k] == KeywordLine(from + k, tokens[k])
  {
    seq(|tokens|, k requires 0 <= k < |tokens| => KeywordLine(from + k, tokens[k]))
  }

  /** Upper-casing adds no newline. */
  lemma UpperKeepsNewlineOut(s: string)
    requires '\n' !in s
    ensures '\n' !in Upper(s)
  {
    forall k | 0 <= k < |s| ensures Upper(s)[k] != '\n' {
      assert s[k] in s;
    }
  }

  /** A keyword line holds no newline when its token holds none. */
  lemma KeywordLineSingle(i: nat, e: Entry)
    requires '\n' !in e.0
    ensures '\n' !in KeywordLine(i, e)
  {
    UpperKeepsNewlineOut(e.0);
    var d := PadLeft(Dec(i), 2, ' ');
    var t := PadRight(Upper(e.0), 20, ' ');
    var c := Dec(e.1);
    assert '\n' !in Frequency(e.1) by {
      assert forall k :: 0 <= k < |c| ==> c[k] != '\n';
    }
    assert forall k :: 0 <= k < |d| ==> d[k] != '\n' by {
      forall k | 0 <= k < |d| ensures d[k] != '\n' {
        if k >= |d| - |Dec(i)| {
          assert d[k] == Dec(i)[k - (|d| - |Dec(i)|)];
        }
      }
    }
    assert forall k :: 0 <= k < |t| ==> t[k] != '\n' by {
      forall k | 0 <= k < |t| ensures t[k] != '\n' {
        if k < |Upper(e.0)| {
          assert t[k] == Upper(e.0)[k];
          assert Upper(e.0)[k] in Upper(e.0);
        }
      }
    }
  }

  /** Newline-free lines come back from splitting their concatenation on
      newlines, followed by the empty remainder after the last newline. */
  lemma {:induction false} LinesSplit(ls: seq<string>)
    requires forall k :: 0 <= k < |ls| ==> '\n' !in ls[k]
    ensures Split(Lines(ls), '\n') == ls + [""]
    decreases |ls|
  {
    if |ls| == 0 {
      assert Split("", '\n') == [""];
    } else {
      var rest := ls[1..];
      assert forall k :: 0 <= k < |rest| ==> '\n' !in rest[k] by {
        forall k | 0 <= k < |rest| ensures '\n' !in rest[k] {
          assert rest[k] == ls[k + 1];
        }
      }
      LinesSplit(rest);
      assert Lines(ls) == ls[0] + "\n" + Lines(rest);
      SplitAfter(ls[0], Lines(rest), '\n');
      assert ls + [""] == [ls[0]] + (rest + [""]);
    }
  }

  /** The keyword section has exactly one line per entry, in order,
      numbered from `from`: split on newlines it gives back the lines and
      the empty remainder after the last newline. */
  lemma KeywordLinesSplit(tokens: seq<Entry>, from: nat)
    requires forall k :: 0 <= k < |tokens| ==> '\n' !in tokens[k].0
    ensures var parts := Split(KeywordLines(tokens, from), '\n');
      && |parts| == |tokens| + 1
      && parts[|tokens|] == ""
      && forall k :: 0 <= k < |tokens| ==> parts[k] == KeywordLine(from + k, tokens[k])
  {
    var ls := Numbered(tokens, from);
    NumberedSingle(tokens, from);
    LinesSplit(ls);
    var parts := Split(KeywordLines(tokens, from), '\n');
    assert parts == ls + [""];
    forall k | 0 <= k < |tokens| ensures parts[k] == KeywordLine(from + k, tokens[k]) {
      assert parts[k] == ls[k];
    }
  }

  lemma NumberedSingle(tokens: seq<Entry>, from: nat)
    requires forall k :: 0 <= k < |tokens| ==> '\n' !in tokens[k].0
    ensures forall k :: 0 <= k < |tokens| ==> '\n' !in Numbered(tokens, from)[k]
  {
    forall k | 0 <= k < |tokens| ensures '\n' !in Numbered(tokens, from)[k] {
      KeywordLineSingle(from + k, tokens[k]);
    }
  }

  /** Padding with spaces does not change the number a field spells. */
  lemma SpacePadValue(s: string, width: nat)
    ensures DigitValue(PadLeft(s, width, ' ')) == DigitValue(s)
  {
    var p := PadLeft(s, width, ' ');
    var fill := p[..|p| - |s|];
    assert p == fill + s;
    NoDigitsValue(fill);
    DigitValueAppend(fill, s);
  }

  /** The columns of a keyword line l: the number n right-aligned in (at
      least) two columns, filled with spaces, then ". ", then the token
      left-aligned in (at least) 20 columns, filled with spaces, then the
      tail. */
  predicate Columns(l: string, n: string, token: string, tail: string) {
    var w := Max(|n|, 2);
    var v := w + 2 + Max(|token|, 20);
    && |l| == v + |tail|
    && (forall k :: 0 <= k < w - |n| ==> l[k] == ' ')
    && l[w - |n|..w] == n
    && l[w..w + 2] == ". "
    && l[w + 2..w + 2 + |token|] == token
    && (forall k :: w + 2 + |token| <= k < v ==> l[k] == ' ')
    && l[v..] == tail
  }

  /** The layout of a keyword line: the digits of i right-aligned, reading
      back as i, then ". ", then the upper-cased token left-aligned in 20
      columns, then the count, which reads back, in parentheses. */
  lemma KeywordLineLayout(i: nat, e: Entry)
    ensures var l := KeywordLine(i, e);
      && Columns(l, Dec(i), Upper(e.0), Frequency(e.1))
      && DigitValue(l[..Max(|Dec(i)|, 2)]) == i
      && DigitValue(Frequency(e.1)) == e.1
  {
    var l := KeywordLine(i, e);
    PaddedLine(Dec(i), Upper(e.0), Frequency(e.1), l);
    assert DigitValue(l[..Max(|Dec(i)|, 2)]) == i by {
      SpacePadValue(Dec(i), 2);
      DecValue(i);
    }
    FrequencyValue(e.1);
  }

  /** A number padded to two columns, ". ", a token padded to 20 columns and
      a tail are laid out in those columns. */
  lemma PaddedLine(n: string, token: string, tail: string, l: string)
    requires l == PadLeft(n, 2, ' ') + ". " + PadRight(token, 20, ' ') + tail
    ensures Columns(l, n, token, tail)
    ensures l[..Max(|n|, 2)] == PadLeft(n, 2, ' ')
  {
    var d := PadLeft(n, 2, ' ');
    var t := PadRight(token, 20, ' ');
    var w := |d|;
    LineParts(d, t, tail);
    forall k | 0 <= k < w - |n| ensures l[k] == ' ' {
      assert l[k] == d[k];
    }
    assert l[w - |n|..w] == d[w - |n|..];
    forall k | w + 2 + |token| <= k < w + 2 + |t| ensures l[k] == ' ' {
      assert l[k] == t[k - w - 2];
    }
    assert t[..|token|] == token;
  }

  lemma LineParts(d: string, t: string, tail: string)
    ensures var l := d + ". " + t + tail;
      && l[..|d|] == d
      && l[|d|..|d| + 2] == ". "
      && l[|d| + 2..|d| + 2 + |t|] == t
      && l[|l| - |tail|..] == tail
  {
  }

  lemma FrequencyValue(n: nat)
    ensures DigitValue(Frequency(n)) == n
  {
    CaptionedValue(" (frequency: ", n);
    var close := ")";
    DigitValueAppend(" (frequency: " + Dec(n), close);
    NoDigitsValue(close);
  }

  // ---------------------------------------------------------------------
  // The report
  // ---------------------------------------------------------------------

  /** The double rule framing the title and the end. */
  const Banner := Repeat('\U{2550}', 63)

  /** The single rule framing each section heading. */
  const Rule := Repeat('\U{2500}', 65)

  /** A bullet with its caption, padded to 28 columns. */
  function Caption(name: string): (c: string)
    ensures |c| == Max(|name|, 26) + 2
  {
    "\U{2022} " + PadRight(name, 26, ' ')
  }

  /** A section heading between two rules. */
  function Heading(title: string): string {
    Rule + "\n" + title + "\n" + Rule + "\n"
  }

  /** Everything after the summary. */
  const Ending := "\n\n" + Banner + "\n" + Repeat(' ', 24) + "END OF REPORT\n" + Banner + "\n"

  // The fixed text between the fields of the report.
  const Title := "\n" + Banner + "\n" + Repeat(' ', 20) + "NARRATIVE NEXUS - TEXT ANALYSIS REPORT\n" + Banner + "\n\n"
  const MetricsOpening := "\n" + Heading("\U{1F4CA} KEY METRICS")
  const WordsCaption := Caption("Total Words:")
  const SentencesCaption := Caption("Total Sentences:")
  const AverageCaption := Caption("Average Word Length:")
  const CharactersCaption := Caption("Character Count:")
  const SentimentOpening := "\n" + Heading("\U{1F4AD} SENTIMENT ANALYSIS")
  const LabelCaption := Caption("Overall Sentiment:")
  const CompoundCaption := Caption("Compound Score:")
  const PositiveCaption := Caption("Positive Sentences:")
  const NeutralCaption := Caption("Neutral Sentences:")
  const NegativeCaption := Caption("Negative Sentences:")
  const KeywordsOpening := "\n" + Heading("\U{1F511} TOP KEYWORDS")
  const SummaryOpening := "\n" + Heading("\U{1F4DD} SUMMARY")

  /** The title block, ending in the generation time on a line of its
      own. */
  function TitleSection(generated: string): (s: string)
    ensures Mentions(s, "Generated: " + generated + "\n")
  {
    var ps := [Title, "Generated: ", generated, "\n"];
    ConcatTriple(ps, 1);
    Concat(ps)
  }

  /** The values the report fills into its template, already rendered as
      text, in the order they appear. */
  datatype Fields = Fields(
    generated: string,
    words: string, sentences: string, average: string, characters: string,
    overall: string, compound: string, positive: string, neutral: string, negative: string,
    keywords: string, summary: string)

  /** The rendering of each value: word and sentence counts with `str`, the
      average word length with `str(round(x, 2))`, the character count with
      thousands separators, the compound score to four places, the
      percentages to one place, and the numbered keyword lines. */
  function FieldsOf(text: string, distribution: map<string, real>, compound: real,
                    tokens: seq<Entry>, summary: string, generated: string): Fields {
    Fields(generated,
      Dec(WordCount(text)), Dec(SentenceCount(text)), Repr2(AvgWordLength(text)), GroupThousands(|text|),
      ReportLabel(compound), FormatFixed(compound, 4),
      FormatFixed(Percentage(distribution, "Positive"), 1),
      FormatFixed(Percentage(distribution, "Neutral"), 1),
      FormatFixed(Percentage(distribution, "Negative"), 1),
      KeywordLines(tokens, 1), summary)
  }

  /** KEY METRICS: words, sentences, average word length and characters,
      each on its own line right behind its caption. */
  function MetricsSection(f: Fields): (s: string)
    ensures Mentions(s, WordsCaption + f.words + "\n")
    ensures Mentions(s, SentencesCaption + f.sentences + "\n")
    ensures Mentions(s, AverageCaption + f.average + "\n")
    ensures Mentions(s, CharactersCaption + f.characters + "\n")
  {
    var ps := [MetricsOpening, WordsCaption, f.words, "\n", SentencesCaption, f.sentences, "\n",
      AverageCaption, f.average, "\n", CharactersCaption, f.characters, "\n"];
    ConcatTriple(ps, 1);
    ConcatTriple(ps, 4);
    ConcatTriple(ps, 7);
    ConcatTriple(ps, 10);
    Concat(ps)
  }

  /** SENTIMENT ANALYSIS: the label and the compound score, then the three
      percentages followed by '%', each on its own line right behind its
      caption. */
  function SentimentSection(f: Fields): (s: string)
    ensures Mentions(s, LabelCaption + f.overall + "\n")
    ensures Mentions(s, CompoundCaption + f.compound + "\n")
    ensures Mentions(s, PositiveCaption + f.positive + "%\n")
    ensures Mentions(s, NeutralCaption + f.neutral + "%\n")
    ensures Mentions(s, NegativeCaption + f.negative + "%\n")
  {
    var ps := [SentimentOpening, LabelCaption, f.overall, "\n", CompoundCaption, f.compound, "\n",
      PositiveCaption, f.positive, "%\n", NeutralCaption, f.neutral, "%\n",
      NegativeCaption, f.negative, "%\n"];
    ConcatTriple(ps, 1);
    ConcatTriple(ps, 4);
    ConcatTriple(ps, 7);
    ConcatTriple(ps, 10);
    ConcatTriple(ps, 13);
    Concat(ps)
  }

  /** Everything from the TOP KEYWORDS heading on: the keyword lines between
      their heading and the SUMMARY heading, then the summary and the end
      banner. */
  function Tail(f: Fields): string {
    KeywordsOpening + f.keywords + SummaryOpening + f.summary + Ending
  }

  /** The report for the given field values: every value on its own line
      behind its caption, and at the end the keyword lines alone between
      the TOP KEYWORDS and SUMMARY headings, then the summary verbatim right
      before the end banner. */
  function Render(f: Fields): (r: string)
    ensures Mentions(r, "Generated: " + f.generated + "\n")
    ensures Mentions(r, WordsCaption + f.words + "\n")
    ensures Mentions(r, SentencesCaption + f.sentences + "\n")
    ensures Mentions(r, AverageCaption + f.average + "\n")
    ensures Mentions(r, CharactersCaption + f.characters + "\n")
    ensures Mentions(r, LabelCaption + f.overall + "\n")
    ensures Mentions(r, CompoundCaption + f.compound + "\n")
    ensures Mentions(r, PositiveCaption + f.positive + "%\n")
    ensures Mentions(r, NeutralCaption + f.neutral + "%\n")
    ensures Mentions(r, NegativeCaption + f.negative + "%\n")
    ensures var tail := KeywordsOpening + f.keywords + SummaryOpening + f.summary + Ending;
      |r| >= |tail| && r[|r| - |tail|..] == tail
  {
    var title, metrics, sentiment, ending := TitleSection(f.generated), MetricsSection(f), SentimentSection(f), Tail(f);
    var ps := [title, metrics, sentiment, ending];
    var r := title + metrics + sentiment + ending;
    ConcatFour(ps);
    Quarters(title, metrics, sentiment, ending);
    MentionsTransitive(r, title, "Generated: " + f.generated + "\n");
    MentionsTransitive(r, metrics, WordsCaption + f.words + "\n");
    MentionsTransitive(r, metrics, SentencesCaption + f.sentences + "\n");
    MentionsTransitive(r, metrics, AverageCaption + f.average + "\n");
    MentionsTransitive(r, metrics, CharactersCaption + f.characters + "\n");
    MentionsTransitive(r, sentiment, LabelCaption + f.overall + "\n");
    MentionsTransitive(r, sentiment, CompoundCaption + f.compound + "\n");
    MentionsTransitive(r, sentiment, PositiveCaption + f.positive + "%\n");
    MentionsTransitive(r, sentiment, NeutralCaption + f.neutral + "%\n");
    MentionsTransitive(r, sentiment, NegativeCaption + f.negative + "%\n");
    Concat(ps)
  }

  /** The text of the report for a compound score, the distribution of
      the sentiment proportions and the generation time: the generation
      time, each metric and sentiment figure on its own line behind its
      caption, the keyword lines alone between the TOP KEYWORDS and SUMMARY
      headings and, at the end, the summary verbatim right before the end
      banner. */
  function ReportText(text: string, distribution: map<string, real>, compound: real,
                      tokens: seq<Entry>, summary: string, generated: string): (r: string)
    ensures Mentions(r, "Generated: " + generated + "\n")
    ensures Mentions(r, WordsCaption + Dec(WordCount(text)) + "\n")
    ensures Mentions(r, SentencesCaption + Dec(SentenceCount(text)) + "\n")
    ensures Mentions(r, AverageCaption + Repr2(AvgWordLength(text)) + "\n")
    ensures Mentions(r, CharactersCaption + GroupThousands(|text|) + "\n")
    ensures Mentions(r, LabelCaption + ReportLabel(compound) + "\n")
    ensures Mentions(r, CompoundCaption + FormatFixed(compound, 4) + "\n")
    ensures Mentions(r, PositiveCaption + FormatFixed(Percentage(distribution, "Positive"), 1) + "%\n")
    ensures Mentions(r, NeutralCaption + FormatFixed(Percentage(distribution, "Neutral"), 1) + "%\n")
    ensures Mentions(r, NegativeCaption + FormatFixed(Percentage(distribution, "Negative"), 1) + "%\n")
  {
    Render(FieldsOf(text, distribution, compound, tokens, summary, generated))
  }

  /** The report ends with the keyword lines alone between the TOP KEYWORDS
      and SUMMARY headings, then the summary verbatim and the end banner. */
  lemma ReportTextEnding(text: string, distribution: map<string, real>, compound: real,
                         tokens: seq<Entry>, summary: string, generated: string)
    ensures var r := ReportText(text, distribution, compound, tokens, summary, generated);
      var tail := KeywordsOpening + KeywordLines(tokens, 1) + SummaryOpening + summary + Ending;
      |r| >= |tail| && r[|r| - |tail|..] == tail
  {
    var f := FieldsOf(text, distribution, compound, tokens, summary, generated);
    assert ReportText(text, distribution, compound, tokens, summary, generated) == Render(f);
  }

  /** `generate_text_report(text, scores, tokens, summary)` at the given
      generation time. Reading the compound score raises `KeyError` when it
      is missing; otherwise the report is the text above for that score and
      for `sentiment_distribution(scores)`. */
  function GenerateTextReport(text: string, scores: Scores, tokens: seq<Entry>, summary: string, generated: string): (r: Result<string>)
    ensures r.Ok? <==> "compound" in scores
    ensures r.Err? ==> r.message == "'compound'"
    ensures r.Ok? ==> r.value == ReportText(text, SentimentDistribution(scores), scores["compound"], tokens, summary, generated)
  {
    if "compound" !in scores then Err("'compound'")
    else Ok(ReportText(text, SentimentDistribution(scores), scores["compound"], tokens, summary, generated))
  }

  // ---------------------------------------------------------------------
  // Readability level
  // ---------------------------------------------------------------------

  /** The school level a readability grade is shown as. */
  datatype Level = Elementary | Middle | High | College | Graduate

  /** Display name of a level. */
  function LevelName(l: Level): string {
    match l
    case Elementary => "Elementary School"
    case Middle => "Middle School"
    case High => "High School"
    case College => "College"
    case Graduate => "Graduate"
  }

  /** Position of a level, from 0 for elementary school to 4 for graduate. */
  function Rank(l: Level): nat {
    match l
    case Elementary => 0
    case Middle => 1
    case High => 2
    case College => 3
    case Graduate => 4
  }

  /** Grades below 6 are elementary, [6, 9) middle school, [9, 13) high
      school, [13, 16) college, and 16 upwards graduate. */
  function ReadabilityLevel(grade: real): (l: Level)
    ensures l == Elementary <==> grade < 6.0
    ensures l == Middle <==> 6.0 <= grade < 9.0
    ensures l == High <==> 9.0 <= grade < 13.0
    ensures l == College <==> 13.0 <= grade < 16.0
    ensures l == Graduate <==> grade >= 16.0
  {
    if grade < 6.0 then Elementary
    else if grade < 9.0 then Middle
    else if grade < 13.0 then High
    else if grade < 16.0 then College
    else Graduate
  }

  /** A higher grade never shows a lower level. */
  lemma {:induction false} LevelMonotone(a: real, b: real)
    requires a <= b
    ensures Rank(ReadabilityLevel(a)) <= Rank(ReadabilityLevel(b))
  {
    var la, lb := ReadabilityLevel(a), ReadabilityLevel(b);
    assert la == Elementary || la == Middle || la == High || la == College || la == Graduate;
  }
}
