/**
 The deterministic scaffolding of `extract_topics` in `metrics.py`: the
 sentences fed to the vectoriser, the two-step choice of the number of
 topics, the labelling of topics and the choice of their five heaviest
 terms, and the catch-all error result. The TF-IDF vectoriser and the LDA
 fit are parameters.
 */
module Topics {
  import opened Text
  import opened Format
  import opened Results
  import opened Metrics

  // ---------------------------------------------------------------------
  // Sentences
  // ---------------------------------------------------------------------

  /** Stripping keeps only characters of the original. */
  lemma StripKeepsAbsent(s: string, c: char)
    requires c !in s
    ensures c !in Strip(s)
  {
    var i := SurroundsAt(s, Strip(s));
    SliceKeepsAbsent(s, i, i + |Strip(s)|, c);
  }

  lemma SliceKeepsAbsent(s: string, i: nat, j: nat, c: char)
    requires c !in s && i <= j <= |s|
    ensures c !in s[i..j]
  {
    forall m | 0 <= m < j - i ensures s[i..j][m] != c {
      assert s[i..j][m] == s[i + m];
      assert s[i + m] in s;
    }
  }

  /** Every segment stripped. */
  function StripAll(ps: seq<string>): (r: seq<string>)
    requires forall k :: 0 <= k < |ps| ==> !AllSpace(ps[k]) && '.' !in ps[k]
    ensures |r| == |ps|
    ensures forall k :: 0 <= k < |r| ==> r[k] == Strip(ps[k])
    ensures forall k :: 0 <= k < |r| ==>
      r[k] != [] && '.' !in r[k] && !IsSpace(r[k][0]) && !IsSpace(r[k][|r[k]| - 1])
  {
    var r := seq(|ps|, k requires 0 <= k < |ps| => Strip(ps[k]));
    forall k | 0 <= k < |r| ensures '.' !in r[k] {
      StripKeepsAbsent(ps[k], '.');
    }
    r
  }

  /** The sentences topics are drawn from: the segments between periods,
      stripped, blank ones dropped. There are as many as `sentence_count`
      counts, each the stripped non-blank segment at its position, and so
      non-empty, period-free and without surrounding whitespace. */
  function TopicSentences(text: string): (ss: seq<string>)
    ensures |ss| == SentenceCount(text) == |NonBlank(Split(text, '.'))|
    ensures forall k :: 0 <= k < |ss| ==> ss[k] == Strip(NonBlank(Split(text, '.'))[k])
    ensures forall k :: 0 <= k < |ss| ==>
      ss[k] != [] && '.' !in ss[k] && !IsSpace(ss[k][0]) && !IsSpace(ss[k][|ss[k]| - 1])
  {
    var parts := Split(text, '.');
    var kept := NonBlank(parts);
    forall k | 0 <= k < |kept| ensures '.' !in kept[k] {
      var j :| 0 <= j < |parts| && parts[j] == kept[k];
    }
    StripAll(kept)
  }

  /** At most 100 sentences are vectorised. */
  const MaxDocuments := 100

  /** The documents handed to the vectoriser: the first 100 sentences. */
  function Documents(text: string): (docs: seq<string>)
    ensures |docs| == Min(SentenceCount(text), MaxDocuments)
    ensures docs == TopicSentences(text)[..|docs|]
  {
    var ss := TopicSentences(text);
    ss[..Min(|ss|, MaxDocuments)]
  }

  // ---------------------------------------------------------------------
  // Number of topics
  // ---------------------------------------------------------------------

  /** The number of topics fitted when `requested` were asked for and the
      text has n sentences: first lowered to max(1, n - 1) when there are
      fewer sentences than requested topics, then capped at the number of
      vectorised rows, min(n, 100). */
  function TopicCount(requested: int, n: nat): (k: int)
    ensures k <= Min(n, MaxDocuments)
    ensures requested >= 1 ==> k <= requested
    ensures n >= 1 && requested >= 1 ==> k >= 1
    ensures 1 <= requested <= Min(n, MaxDocuments) ==> k == requested
    ensures requested > n && 2 <= n <= MaxDocuments + 1 ==> k == n - 1
    ensures requested > n && n == 1 ==> k == 1
    ensures requested <= 0 ==> k == requested
    ensures MaxDocuments < requested <= n ==> k == MaxDocuments
    ensures requested > n >= MaxDocuments + 2 ==> k == MaxDocuments
    ensures requested >= 1 && n == 0 ==> k == 0
  {
    var lowered := if n < requested then Max(1, n - 1) else requested;
    var rows := Min(n, MaxDocuments);
    if rows < lowered then rows else lowered
  }

  // ---------------------------------------------------------------------
  // The heaviest terms of a topic
  // ---------------------------------------------------------------------

  /** Indices into row, in order of non-increasing weight. */
  predicate Descending(row: seq<real>, s: seq<nat>) {
    && (forall a :: 0 <= a < |s| ==> s[a] < |row|)
    && (forall a, b :: 0 <= a < b < |s| ==> row[s[a]] >= row[s[b]])
  }

  /** Places index i before the first index of no greater weight. */
  function InsertIndex(row: seq<real>, i: nat, s: seq<nat>): (r: seq<nat>)
    ensures |r| == |s| + 1
    ensures forall j :: j in r <==> j in s || j == i
  {
    if |s| == 0 then [i]
    else if s[0] < |row| && i < |row| && row[s[0]] <= row[i] then [i] + s
    else [s[0]] + InsertIndex(row, i, s[1..])
  }

  /** Inserting an index in range keeps the order. */
  lemma {:induction false} InsertDescending(row: seq<real>, i: nat, s: seq<nat>)
    requires i < |row| && Descending(row, s)
    ensures Descending(row, InsertIndex(row, i, s))
    decreases |s|
  {
    if |s| > 0 && row[s[0]] > row[i] {
      var tail := s[1..];
      InsertDescending(row, i, tail);
      var rest := InsertIndex(row, i, tail);
      var r := [s[0]] + rest;
      forall a | 0 <= a < |rest| ensures row[s[0]] >= row[rest[a]] {
        assert rest[a] in rest;
        if rest[a] != i {
          var b :| 0 <= b < |tail| && tail[b] == rest[a];
          assert tail[b] == s[b + 1];
        }
      }
      forall a, b | 0 <= a < b < |r| ensures row[r[a]] >= row[r[b]] {
        assert r[b] == rest[b - 1];
        if a > 0 {
          assert r[a] == rest[a - 1];
        }
      }
    }
  }

  /** Inserting a new index keeps the indices distinct. */
  lemma {:induction false} InsertNoDuplicates(row: seq<real>, i: nat, s: seq<nat>)
    requires NoDuplicates(s) && i !in s
    ensures NoDuplicates(InsertIndex(row, i, s))
    decreases |s|
  {
    if |s| > 0 && !(s[0] < |row| && i < |row| && row[s[0]] <= row[i]) {
      var tail := s[1..];
      InsertNoDuplicates(row, i, tail);
      var rest := InsertIndex(row, i, tail);
      var r := [s[0]] + rest;
      forall a, b | 0 <= a < b < |r| ensures r[a] != r[b] {
        assert r[b] == rest[b - 1];
        if a > 0 {
          assert r[a] == rest[a - 1];
        } else {
          assert rest[b - 1] in rest;
          assert s[0] !in tail;
        }
      }
    } else if |s| > 0 {
      var r := [i] + s;
      forall a, b | 0 <= a < b < |r| ensures r[a] != r[b] {
        assert r[b] == s[b - 1];
        if a > 0 {
          assert r[a] == s[a - 1];
        }
      }
    }
  }

  /** The indices 0 .. n - 1 of row, heaviest first; among equal weights the
      higher index comes first, as in a stable ascending sort reversed. */
  function SortIndices(row: seq<real>, n: nat): (r: seq<nat>)
    requires n <= |row|
    ensures |r| == n
    ensures forall j :: j in r <==> 0 <= j < n
    ensures Descending(row, r) && NoDuplicates(r)
  {
    if n == 0 then []
    else
      var s := SortIndices(row, n - 1);
      InsertDescending(row, n - 1, s);
      InsertNoDuplicates(row, n - 1, s);
      InsertIndex(row, n - 1, s)
  }

  /** `row.argsort()[-5:][::-1]`: the indices of the (at most) five heaviest
      weights, heaviest first. */
  function TopIndices(row: seq<real>): seq<nat> {
    var sorted := SortIndices(row, |row|);
    sorted[..Min(5, |sorted|)]
  }

  /** The five heaviest indices: as many as there are weights up to five,
      all distinct and in range, in non-increasing weight, and no index left
      out outweighs one that was picked. */
  lemma TopIndicesSpec(row: seq<real>)
    ensures |TopIndices(row)| == Min(5, |row|)
    ensures Descending(row, TopIndices(row)) && NoDuplicates(TopIndices(row))
    ensures forall j, a :: 0 <= j < |row| && j !in TopIndices(row) && 0 <= a < |TopIndices(row)| ==>
      row[TopIndices(row)[a]] >= row[j]
  {
    var sorted := SortIndices(row, |row|);
    var r := TopIndices(row);
    assert forall a :: 0 <= a < |r| ==> r[a] == sorted[a];
    forall j, a | 0 <= j < |row| && j !in r && 0 <= a < |r| ensures row[r[a]] >= row[j] {
      assert j in sorted;
      var m :| 0 <= m < |sorted| && sorted[m] == j;
      assert a < m;
    }
  }

  // ---------------------------------------------------------------------
  // Labelling
  // ---------------------------------------------------------------------

  /** A topic: its label and its terms. The error result is the single
      topic labelled "Error" whose one term is the message. */
  datatype Topic = Topic(name: string, terms: seq<string>)

  /** The label of the topic at position i: "Topic 1", "Topic 2", ...;
      "Topic " and then only digits, without a leading zero, spelling
      i + 1. */
  function Label(i: nat): (l: string)
    ensures |l| > 6 && l[..6] == "Topic "
    ensures forall k :: 6 <= k < |l| ==> IsDigit(l[k])
    ensures l[6] != '0' && DigitValue(l[6..]) == i + 1
  {
    var l := "Topic " + Dec(i + 1);
    assert l[6..] == Dec(i + 1);
    DecValue(i + 1);
    l
  }

  /** The message numpy gives for indexing past the end of a vocabulary of
      the given size. */
  function OutOfBounds(i: nat, size: nat): string {
    "index " + Dec(i) + " is out of bounds for axis 0 with size " + Dec(size)
  }

  /** `[feature_names[i] for i in idx]`: the terms at the given indices, or
      the error for the first index past the vocabulary. */
  function LookUp(idx: seq<nat>, vocabulary: seq<string>): (r: Result<seq<string>>)
    ensures r.Ok? <==> forall a :: 0 <= a < |idx| ==> idx[a] < |vocabulary|
    ensures r.Ok? ==> |r.value| == |idx|
    ensures r.Ok? ==> forall a :: 0 <= a < |idx| ==> r.value[a] == vocabulary[idx[a]]
  {
    if |idx| == 0 then Ok([])
    else if idx[0] >= |vocabulary| then Err(OutOfBounds(idx[0], |vocabulary|))
    else
      match LookUp(idx[1..], vocabulary)
      case Err(m) =>
        Err(m)
      case Ok(ws) =>
        assert forall a :: 0 < a < |idx| ==> idx[a] == idx[1..][a - 1];
        Ok([vocabulary[idx[0]]] + ws)
  }

  /** The terms of one topic: the words at its heaviest indices. At most
      five, all from the vocabulary, heaviest first; an error only when an
      index lies past the vocabulary. */
  function TopTerms(row: seq<real>, vocabulary: seq<string>): (r: Result<seq<string>>)
    ensures r.Ok? <==> forall a :: 0 <= a < |TopIndices(row)| ==> TopIndices(row)[a] < |vocabulary|
    ensures |row| <= |vocabulary| ==> r.Ok?
    ensures r.Ok? ==> |r.value| == Min(5, |row|) && forall t :: t in r.value ==> t in vocabulary
    ensures r.Ok? ==> forall a :: 0 <= a < |r.value| ==> r.value[a] == vocabulary[TopIndices(row)[a]]
    ensures r.Ok? ==> forall a, b :: 0 <= a < b < |r.value| ==>
      row[TopIndices(row)[a]] >= row[TopIndices(row)[b]]
  {
    var idx := TopIndices(row);
    TopIndicesSpec(row);
    var r := LookUp(idx, vocabulary);
    assert r.Ok? ==> forall t :: t in r.value ==> t in vocabulary by {
      if r.Ok? {
        forall t | t in r.value ensures t in vocabulary {
          var a :| 0 <= a < |r.value| && r.value[a] == t;
        }
      }
    }
    r
  }

  /** One topic per component row, from position `from` on, each labelled by
      its position and carrying its heaviest terms; the first failed lookup
      ends the loop. */
  function LabelTopics(components: seq<seq<real>>, vocabulary: seq<string>, from: nat): (r: Result<seq<Topic>>)
    ensures r.Ok? ==> |r.value| == |components|
    ensures r.Ok? ==> forall i :: 0 <= i < |components| ==>
      r.value[i].name == Label(from + i) && TopTerms(components[i], vocabulary) == Ok(r.value[i].terms)
    decreases |components|
  {
    if |components| == 0 then Ok([])
    else
      var tail := components[1..];
      match TopTerms(components[0], vocabulary)
      case Err(m) => Err(m)
      case Ok(terms) =>
        match LabelTopics(tail, vocabulary, from + 1)
        case Err(m) => Err(m)
        case Ok(rest) =>
          LabelTopicsCons(components, vocabulary, from, terms, rest);
          Ok([Topic(Label(from), terms)] + rest)
  }

  /** The first topic in front of the topics of the remaining rows. */
  lemma LabelTopicsCons(components: seq<seq<real>>, vocabulary: seq<string>, from: nat,
                        terms: seq<string>, rest: seq<Topic>)
    requires |components| > 0 && TopTerms(components[0], vocabulary) == Ok(terms)
    requires |rest| == |components| - 1
    requires forall i :: 0 <= i < |rest| ==>
      rest[i].name == Label(from + 1 + i) && TopTerms(components[1..][i], vocabulary) == Ok(rest[i].terms)
    ensures var r := [Topic(Label(from), terms)] + rest;
      forall i :: 0 <= i < |components| ==>
        r[i].name == Label(from + i) && TopTerms(components[i], vocabulary) == Ok(r[i].terms)
  {
    var r := [Topic(Label(from), terms)] + rest;
    forall i | 0 < i < |components|
      ensures r[i].name == Label(from + i) && TopTerms(components[i], vocabulary) == Ok(r[i].terms)
    {
      assert r[i] == rest[i - 1];
      assert components[i] == components[1..][i - 1];
    }
  }

  /** The catch-all result `{"Error": [str(e)]}`. */
  function ErrorTopics(message: string): seq<Topic> {
    [Topic("Error", [message])]
  }

  /** `extract_topics(text, requested)`, with the TF-IDF vectoriser
      (documents to a matrix and its vocabulary) and the LDA fit (number of
      topics and matrix to one weight row per topic) as parameters. The
      vectoriser sees the first 100 sentences, the fit is asked for
      `TopicCount` topics, and a failure anywhere yields the error shape
      with that failure's message. On success topic i is labelled
      "Topic i+1" and holds the (at most five) terms of the vocabulary at
      the heaviest weights of row i, heaviest first. */
  function ExtractTopics<M>(
    text: string, requested: int,
    vectorize: seq<string> -> Result<(M, seq<string>)>,
    fit: (int, M) -> Result<seq<seq<real>>>): (topics: seq<Topic>)
    ensures vectorize(Documents(text)).Err? ==>
      topics == ErrorTopics(vectorize(Documents(text)).message)
    ensures vectorize(Documents(text)).Ok? ==>
      var fitted := fit(TopicCount(requested, SentenceCount(text)), vectorize(Documents(text)).value.0);
      fitted.Err? ==> topics == ErrorTopics(fitted.message)
    ensures vectorize(Documents(text)).Ok? ==>
      var vocabulary := vectorize(Documents(text)).value.1;
      var fitted := fit(TopicCount(requested, SentenceCount(text)), vectorize(Documents(text)).value.0);
      fitted.Ok? && LabelTopics(fitted.value, vocabulary, 0).Err? ==>
        topics == ErrorTopics(LabelTopics(fitted.value, vocabulary, 0).message)
    ensures vectorize(Documents(text)).Ok? ==>
      var vocabulary := vectorize(Documents(text)).value.1;
      var fitted := fit(TopicCount(requested, SentenceCount(text)), vectorize(Documents(text)).value.0);
      fitted.Ok? && LabelTopics(fitted.value, vocabulary, 0).Ok? ==>
        |topics| == |fitted.value|
        && forall i :: 0 <= i < |topics| ==>
          topics[i].name == Label(i) && |topics[i].terms| <= 5
          && TopTerms(fitted.value[i], vocabulary) == Ok(topics[i].terms)
          && forall t :: t in topics[i].terms ==> t in vocabulary
  {
    var docs := Documents(text);
    match vectorize(docs)
    case Err(m) => ErrorTopics(m)
    case Ok((matrix, vocabulary)) =>
      match fit(TopicCount(requested, |TopicSentences(text)|), matrix)
      case Err(m) => ErrorTopics(m)
      case Ok(components) =>
        match LabelTopics(components, vocabulary, 0)
        case Err(m) => ErrorTopics(m)
        case Ok(topics) => topics
  }
}
