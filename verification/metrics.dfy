/**
 The counting metrics of `metrics.py`: words, sentences and the
 Flesch–Kincaid style readability grade.
 */
module Metrics {
  import opened Text
  import opened Format

  /** `word_count`: the number of whitespace-separated tokens, which is the
      number of maximal runs of non-whitespace characters. */
  function WordCount(text: string): (n: nat)
    ensures n == RunStarts(text)
    ensures n <= |text|
  {
    WordsCountRuns(text);
    RunStartsBound(text, 0);
    |Words(text)|
  }

  lemma {:induction false} RunStartsBound(s: string, i: nat)
    requires i <= |s|
    ensures RunStartsFrom(s, i) <= |s| - i
    decreases |s| - i
  {
    if i < |s| {
      RunStartsBound(s, i + 1);
    }
  }

  /** The period-separated segments that are not blank, in order. A single
      segment is kept exactly when it is not blank; Metrics.NonBlankAppend
      extends this to any list, in order. */
  function NonBlank(parts: seq<string>): (r: seq<string>)
    ensures |r| <= |parts|
    ensures forall k :: 0 <= k < |r| ==> !AllSpace(r[k]) && r[k] in parts
    ensures |r| == 0 <==> forall k :: 0 <= k < |parts| ==> AllSpace(parts[k])
    ensures |parts| == 1 ==> (r == parts <==> !AllSpace(parts[0])) && (r == [] <==> AllSpace(parts[0]))
  {
    if |parts| == 0 then []
    else
      var rest := NonBlank(parts[1..]);
      assert forall k :: 1 <= k < |parts| ==> parts[k] == parts[1..][k - 1];
      if AllSpace(parts[0]) then rest else [parts[0]] + rest
  }

  /** Filtering a concatenation filters each half: the kept segments keep
      their order and their multiplicity. */
  lemma {:induction false} NonBlankAppend(a: seq<string>, b: seq<string>)
    ensures NonBlank(a + b) == NonBlank(a) + NonBlank(b)
    decreases |a|
  {
    if |a| > 0 {
      assert (a + b)[1..] == a[1..] + b;
      NonBlankAppend(a[1..], b);
    } else {
      assert a + b == b;
    }
  }

  /** Every character is whitespace or a period. */
  predicate OnlySpacesAndPeriods(s: string) {
    forall i :: 0 <= i < |s| ==> IsSpace(s[i]) || s[i] == '.'
  }

  /** `sentence_count`: the number of non-blank segments between periods.
      There can be at most one more of them than there are periods, and
      there are none exactly when the text holds nothing but whitespace and
      periods (so none for "" and for "..."). */
  function SentenceCount(text: string): (n: nat)
    ensures n <= Count(text, '.') + 1
    ensures n == 0 <==> OnlySpacesAndPeriods(text)
  {
    SplitCount(text, '.');
    BlankSegments(text);
    |NonBlank(Split(text, '.'))|
  }

  /** Every segment is blank. */
  predicate AllBlank(parts: seq<string>) {
    forall k :: 0 <= k < |parts| ==> AllSpace(parts[k])
  }

  /** All segments of `text.split(".")` are blank exactly when text is
      made of whitespace and periods. */
  lemma {:induction false} BlankSegments(text: string)
    ensures AllBlank(Split(text, '.')) <==> OnlySpacesAndPeriods(text)
    decreases |text|
  {
    var i := IndexOf(text, '.');
    if i == |text| {
      assert Split(text, '.') == [text];
      AllBlankCons(text, []);
      assert [text] + [] == [text];
      assert forall k :: 0 <= k < |text| ==> text[k] != '.';
    } else {
      var head, tail := text[..i], text[i + 1..];
      assert Split(text, '.') == [head] + Split(tail, '.');
      BlankSegments(tail);
      assert text == head + ['.'] + tail;
      SpacesAndPeriodsAround(head, tail);
      AllBlankCons(head, Split(tail, '.'));
    }
  }

  lemma AllBlankCons(head: string, rest: seq<string>)
    ensures AllBlank([head] + rest) <==> AllSpace(head) && AllBlank(rest)
  {
    var parts := [head] + rest;
    if AllBlank(parts) {
      assert AllSpace(parts[0]);
      forall k | 0 <= k < |rest| ensures AllSpace(rest[k]) {
        assert rest[k] == parts[k + 1];
      }
    }
  }

  lemma SpacesAndPeriodsAround(head: string, tail: string)
    requires '.' !in head
    ensures OnlySpacesAndPeriods(head + ['.'] + tail)
      <==> AllSpace(head) && OnlySpacesAndPeriods(tail)
  {
    var text := head + ['.'] + tail;
    var i := |head|;
    if OnlySpacesAndPeriods(text) {
      forall k | 0 <= k < |head| ensures IsSpace(head[k]) {
        assert head[k] == text[k];
        assert head[k] in head;
      }
      forall k | 0 <= k < |tail| ensures IsSpace(tail[k]) || tail[k] == '.' {
        assert tail[k] == text[i + 1 + k];
      }
    }
    if AllSpace(head) && OnlySpacesAndPeriods(tail) {
      forall k | 0 <= k < |text| ensures IsSpace(text[k]) || text[k] == '.' {
        if k < i {
          assert text[k] == head[k];
        } else if k > i {
          assert text[k] == tail[k - i - 1];
        }
      }
    }
  }

  // ---------------------------------------------------------------------
  // Readability
  // ---------------------------------------------------------------------

  /** Total number of characters over a list of words. */
  function Letters(ws: seq<string>): nat {
    if |ws| == 0 then 0 else |ws[0]| + Letters(ws[1..])
  }

  /** The Flesch–Kincaid grade-level approximation, with letters/5 standing
      in for syllables per word. */
  function FleschKincaid(words: nat, sentences: nat, letters: nat): real
    requires sentences > 0
  {
    var wordsPerSentence := words as real / sentences as real;
    var lettersPerWord := letters as real / Max(words, 1) as real;
    0.39 * wordsPerSentence + 11.8 * (lettersPerWord / 5.0) - 15.59
  }

  /** `round(x, 1)`: the nearest tenth, ties to the even tenth. */
  function Round1(x: real): (r: real)
    ensures x - 0.05 <= r <= x + 0.05
    ensures (r * 10.0).Floor as real == r * 10.0
    ensures x <= 0.0 ==> r <= 0.0
    ensures r == x + 0.05 || r == x - 0.05 ==> (r * 10.0).Floor % 2 == 0
  {
    var y := x * 10.0;
    var k := RoundHalfEven(y);
    Tenths(k, y);
    k as real / 10.0
  }

  /** Round1's contract determines it: a whole number of tenths within 0.05
      of x that is an even number of tenths at a tie is `round(x, 1)`. */
  lemma Round1Unique(x: real, r: real)
    requires x - 0.05 <= r <= x + 0.05
    requires (r * 10.0).Floor as real == r * 10.0
    requires r == x + 0.05 || r == x - 0.05 ==> (r * 10.0).Floor % 2 == 0
    ensures r == Round1(x)
  {
    var k := (r * 10.0).Floor;
    RoundHalfEvenUnique(x * 10.0, k);
    Tenths(k, x * 10.0);
  }

  lemma Tenths(k: int, y: real)
    requires y - 0.5 <= k as real <= y + 0.5
    ensures var r := k as real / 10.0;
      && r * 10.0 == k as real
      && (r * 10.0).Floor == k
      && y / 10.0 - 0.05 <= r <= y / 10.0 + 0.05
      && (y <= 0.0 ==> k <= 0)
  {
  }

  /** The grade `readability_score` computes for text with at least one
      sentence, before the clamp at zero. */
  function RawGrade(text: string): real
    requires SentenceCount(text) > 0
  {
    var ws := Words(text);
    FleschKincaid(|ws|, SentenceCount(text), Letters(ws))
  }

  /** `readability_score`: never negative, 0 for text without sentences,
      0 when the formula is negative, and otherwise the formula's value to
      within the rounding to one decimal; always a whole number of tenths. */
  function ReadabilityScore(text: string): (r: real)
    ensures r >= 0.0
    ensures (r * 10.0).Floor as real == r * 10.0
    ensures SentenceCount(text) == 0 ==> r == 0.0
    ensures SentenceCount(text) > 0 && RawGrade(text) <= 0.0 ==> r == 0.0
    ensures SentenceCount(text) > 0 && RawGrade(text) >= 0.0 ==>
      RawGrade(text) - 0.05 <= r <= RawGrade(text) + 0.05
    ensures SentenceCount(text) > 0 && (r == RawGrade(text) + 0.05 || r == RawGrade(text) - 0.05) ==>
      (r * 10.0).Floor % 2 == 0
  {
    if SentenceCount(text) == 0 then 0.0 else Clamped(RawGrade(text))
  }

  /** `max(0, round(grade, 1))`. */
  function Clamped(grade: real): (r: real)
    ensures r >= 0.0
    ensures (r * 10.0).Floor as real == r * 10.0
    ensures grade <= 0.0 ==> r == 0.0
    ensures grade >= 0.0 ==> grade - 0.05 <= r <= grade + 0.05
    ensures r == grade + 0.05 || r == grade - 0.05 ==> (r * 10.0).Floor % 2 == 0
  {
    var rounded := Round1(grade);
    if rounded > 0.0 then rounded else 0.0
  }
}
