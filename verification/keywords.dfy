/**
 `top_tokens` of `metrics.py`: `Counter(text.split()).most_common(n)`.
 A `Counter` remembers its keys in first-occurrence order, and
 `most_common` is a stable sort by descending count, so tokens with equal
 counts keep first-occurrence order.
 */
module Keywords {
  import opened Text

  /** A token and its number of occurrences. */
  type Entry = (string, nat)

  /** Number of occurrences of w in ts. */
  function Occurrences(ts: seq<string>, w: string): nat {
    if |ts| == 0 then 0
    else Occurrences(ts[..|ts| - 1], w) + (if ts[|ts| - 1] == w then 1 else 0)
  }

  lemma {:induction false} OccurrencesPositive(ts: seq<string>, w: string)
    ensures Occurrences(ts, w) > 0 <==> w in ts
  {
    if |ts| > 0 {
      var init := ts[..|ts| - 1];
      OccurrencesPositive(init, w);
      assert ts == init + [ts[|ts| - 1]];
    }
  }

  /** Position of the first occurrence of w in ts. */
  function FirstIndex(ts: seq<string>, w: string): (i: nat)
    requires w in ts
    ensures i < |ts| && ts[i] == w
    ensures forall k :: 0 <= k < i ==> ts[k] != w
  {
    var init := ts[..|ts| - 1];
    if w in init then
      var i := FirstIndex(init, w);
      i
    else
      assert forall k :: 0 <= k < |ts| - 1 ==> ts[k] == init[k];
      |ts| - 1
  }

  /** The distinct tokens of ts in order of first occurrence: the key order
      of `Counter(ts)`. */
  function Distinct(ts: seq<string>): (d: seq<string>)
    ensures forall w :: w in d <==> w in ts
    ensures forall i, j :: 0 <= i < j < |d| ==> FirstIndex(ts, d[i]) < FirstIndex(ts, d[j])
  {
    if |ts| == 0 then []
    else
      var init := ts[..|ts| - 1];
      var last := ts[|ts| - 1];
      var d := Distinct(init);
      assert ts == init + [last];
      assert forall w :: w in init ==> FirstIndex(ts, w) == FirstIndex(init, w);
      if last in d then d
      else
        assert forall w :: w in init ==> FirstIndex(ts, w) < |ts| - 1;
        d + [last]
  }

  /** The first-occurrence order makes the tokens distinct. */
  lemma DistinctHasNoDuplicates(ts: seq<string>)
    ensures forall i, j :: 0 <= i < j < |Distinct(ts)| ==> Distinct(ts)[i] != Distinct(ts)[j]
  {
  }

  /** `Counter(ts).items()`: each distinct token with its count. */
  function Tally(ts: seq<string>): (es: seq<Entry>)
    ensures |es| == |Distinct(ts)|
    ensures forall i :: 0 <= i < |es| ==> es[i] == (Distinct(ts)[i], Occurrences(ts, Distinct(ts)[i]))
  {
    var d := Distinct(ts);
    seq(|d|, i requires 0 <= i < |d| => (d[i], Occurrences(ts, d[i])))
  }

  /** Places e after every entry whose count is at least e's: inserting the
      newest key into a list sorted by descending count keeps the sort
      stable. */
  function Insert(e: Entry, s: seq<Entry>): (r: seq<Entry>)
    ensures multiset(r) == multiset(s) + multiset{e}
  {
    if |s| == 0 then [e]
    else if s[0].1 < e.1 then [e] + s
    else
      assert s == [s[0]] + s[1..];
      [s[0]] + Insert(e, s[1..])
  }

  /** Stable sort by descending count (`sorted(..., reverse=True)` on the
      count), by insertion. */
  function SortByCount(es: seq<Entry>): (r: seq<Entry>)
    ensures multiset(r) == multiset(es)
  {
    if |es| == 0 then []
    else
      assert es == es[..|es| - 1] + [es[|es| - 1]];
      Insert(es[|es| - 1], SortByCount(es[..|es| - 1]))
  }

  /** `most_common` order on entries of tokens of ts: higher count first,
      and on equal counts the token that occurs first in ts. */
  predicate Before(ts: seq<string>, a: Entry, b: Entry)
    requires a.0 in ts && b.0 in ts
  {
    a.1 > b.1 || (a.1 == b.1 && FirstIndex(ts, a.0) < FirstIndex(ts, b.0))
  }

  /** Every entry names a token of ts, and the list is strictly in
      `most_common` order. */
  predicate Ranked(ts: seq<string>, r: seq<Entry>) {
    && (forall i :: 0 <= i < |r| ==> r[i].0 in ts)
    && (forall i, j :: 0 <= i < j < |r| ==> Before(ts, r[i], r[j]))
  }

  /** A ranked list stays ranked under a new head that ranks before every
      entry of it. */
  lemma RankedCons(ts: seq<string>, x: Entry, s: seq<Entry>)
    requires Ranked(ts, s) && x.0 in ts
    requires forall y :: y in s ==> y.0 in ts && Before(ts, x, y)
    ensures Ranked(ts, [x] + s)
  {
    var r := [x] + s;
    forall i, j | 0 <= i < j < |r| ensures Before(ts, r[i], r[j]) {
      assert r[j] == s[j - 1];
      if i > 0 {
        assert r[i] == s[i - 1];
      } else {
        assert s[j - 1] in s;
      }
    }
  }

  lemma {:induction false} InsertRanked(ts: seq<string>, e: Entry, s: seq<Entry>)
    requires Ranked(ts, s) && e.0 in ts
    requires forall k :: 0 <= k < |s| ==> FirstIndex(ts, s[k].0) < FirstIndex(ts, e.0)
    ensures Ranked(ts, Insert(e, s))
    decreases |s|
  {
    if |s| == 0 {
    } else if s[0].1 < e.1 {
      InsertFront(ts, e, s);
    } else {
      RankedTail(ts, s);
      InsertRanked(ts, e, s[1..]);
      InsertBehind(ts, e, s);
    }
  }

  /** A count above the head's goes in front of the whole list. */
  lemma InsertFront(ts: seq<string>, e: Entry, s: seq<Entry>)
    requires Ranked(ts, s) && e.0 in ts
    requires |s| > 0 && s[0].1 < e.1
    ensures Ranked(ts, [e] + s)
  {
    forall y | y in s ensures y.0 in ts && Before(ts, e, y) {
      var j :| 0 <= j < |s| && s[j] == y;
      if j > 0 {
        assert Before(ts, s[0], s[j]);
      }
    }
    RankedCons(ts, e, s);
  }

  lemma RankedTail(ts: seq<string>, s: seq<Entry>)
    requires Ranked(ts, s) && |s| > 0
    ensures Ranked(ts, s[1..])
  {
    forall i, j | 0 <= i < j < |s[1..]| ensures Before(ts, s[1..][i], s[1..][j]) {
      assert s[1..][i] == s[i + 1] && s[1..][j] == s[j + 1];
    }
  }

  /** Otherwise e goes behind the head, into the ranked rest. */
  lemma InsertBehind(ts: seq<string>, e: Entry, s: seq<Entry>)
    requires Ranked(ts, s) && e.0 in ts && |s| > 0 && s[0].1 >= e.1
    requires FirstIndex(ts, s[0].0) < FirstIndex(ts, e.0)
    requires Ranked(ts, Insert(e, s[1..]))
    ensures Ranked(ts, Insert(e, s))
  {
    var tail := Insert(e, s[1..]);
    assert Insert(e, s) == [s[0]] + tail;
    forall x | x in tail ensures x.0 in ts && Before(ts, s[0], x) {
      assert x in multiset(tail);
      if x != e {
        assert x in multiset(s[1..]);
        var j :| 0 <= j < |s[1..]| && s[1..][j] == x;
        assert s[j + 1] == x;
      }
    }
    RankedCons(ts, s[0], tail);
  }

  /** Sorting entries listed in first-occurrence order by count yields the
      `most_common` order. */
  lemma {:induction false} SortRanked(ts: seq<string>, es: seq<Entry>)
    requires forall i :: 0 <= i < |es| ==> es[i].0 in ts
    requires forall i, j :: 0 <= i < j < |es| ==> FirstIndex(ts, es[i].0) < FirstIndex(ts, es[j].0)
    ensures Ranked(ts, SortByCount(es))
    decreases |es|
  {
    if |es| > 0 {
      var init := es[..|es| - 1];
      var e := es[|es| - 1];
      var s := SortByCount(init);
      SortRanked(ts, init);
      forall k | 0 <= k < |s| ensures FirstIndex(ts, s[k].0) < FirstIndex(ts, e.0) {
        assert s[k] in multiset(init);
        var j :| 0 <= j < |init| && init[j] == s[k];
      }
      InsertRanked(ts, e, s);
    }
  }

  /** `Counter(ts).most_common(n)`; no entry at all when n is not positive. */
  function MostCommon(ts: seq<string>, n: int): seq<Entry> {
    var sorted := SortByCount(Tally(ts));
    if n <= 0 then [] else sorted[..Min(n, |sorted|)]
  }

  /** `top_tokens(text, n)`. */
  function TopTokens(text: string, n: int): seq<Entry> {
    MostCommon(Words(text), n)
  }

  /** e is a token of ts paired with its exact, positive count. */
  predicate Counted(ts: seq<string>, e: Entry) {
    e.0 in ts && e.1 == Occurrences(ts, e.0) && e.1 > 0
  }

  /** The fully sorted tally: one correctly counted entry per distinct
      token, in `most_common` order. */
  lemma SortedTally(ts: seq<string>)
    ensures var s := SortByCount(Tally(ts));
      && |s| == |Distinct(ts)|
      && Ranked(ts, s)
      && (forall e :: e in s ==> Counted(ts, e))
      && (forall w :: w in ts ==> (w, Occurrences(ts, w)) in s)
  {
    var es := Tally(ts);
    var s := SortByCount(es);
    SortRanked(ts, es);
    assert |s| == |es| by {
      assert |multiset(s)| == |multiset(es)|;
    }
    SortedTallyCounted(ts, es, s);
    SortedTallyComplete(ts, es, s);
  }

  lemma SortedTallyCounted(ts: seq<string>, es: seq<Entry>, s: seq<Entry>)
    requires es == Tally(ts) && multiset(s) == multiset(es)
    ensures forall e :: e in s ==> Counted(ts, e)
  {
    forall e | e in s ensures Counted(ts, e) {
      assert e in multiset(es);
      var j :| 0 <= j < |es| && es[j] == e;
      OccurrencesPositive(ts, e.0);
    }
  }

  lemma SortedTallyComplete(ts: seq<string>, es: seq<Entry>, s: seq<Entry>)
    requires es == Tally(ts) && multiset(s) == multiset(es)
    ensures forall w :: w in ts ==> (w, Occurrences(ts, w)) in s
  {
    var d := Distinct(ts);
    forall w | w in ts ensures (w, Occurrences(ts, w)) in s {
      var j :| 0 <= j < |d| && d[j] == w;
      assert es[j] == (w, Occurrences(ts, w));
      assert es[j] in multiset(s);
    }
  }

  /** `most_common(n)` is a prefix of the fully sorted tally, as long as
      asked for, or every distinct token if there are fewer. */
  lemma MostCommonLength(ts: seq<string>, n: int)
    ensures |MostCommon(ts, n)| == (if n <= 0 then 0 else Min(n, |Distinct(ts)|))
    ensures MostCommon(ts, n) == SortByCount(Tally(ts))[..|MostCommon(ts, n)|]
  {
    SortedTally(ts);
  }

  /** Every reported entry is a token of ts with its exact count. */
  lemma MostCommonCounted(ts: seq<string>, n: int)
    ensures forall e :: e in MostCommon(ts, n) ==> Counted(ts, e)
  {
    var s := SortByCount(Tally(ts));
    var r := MostCommon(ts, n);
    SortedTally(ts);
    MostCommonLength(ts, n);
    forall e | e in r ensures Counted(ts, e) {
      var i :| 0 <= i < |r| && r[i] == e;
      assert s[i] in s;
    }
  }

  /** The report is in `most_common` order: counts non-increasing, and equal
      counts in order of first occurrence in ts. */
  lemma MostCommonRanked(ts: seq<string>, n: int)
    ensures Ranked(ts, MostCommon(ts, n))
  {
    var s := SortByCount(Tally(ts));
    var r := MostCommon(ts, n);
    SortedTally(ts);
    MostCommonLength(ts, n);
    forall i | 0 <= i < |r| ensures r[i].0 in ts {
      assert r[i] == s[i];
    }
    forall i, j | 0 <= i < j < |r| ensures Before(ts, r[i], r[j]) {
      assert r[i] == s[i] && r[j] == s[j];
    }
  }

  /** No token is reported twice. */
  lemma MostCommonDistinct(ts: seq<string>, n: int)
    ensures var r := MostCommon(ts, n);
      forall i, j :: 0 <= i < j < |r| ==> r[i].0 != r[j].0
  {
    var r := MostCommon(ts, n);
    MostCommonRanked(ts, n);
    MostCommonCounted(ts, n);
    forall i, j | 0 <= i < j < |r| ensures r[i].0 != r[j].0 {
      assert Before(ts, r[i], r[j]);
      assert r[i] in r && r[j] in r;
    }
  }

  /** A token of ts that is left out of the report ranks after every token
      that is in it. */
  lemma MostCommonComplete(ts: seq<string>, n: int, w: string)
    requires w in ts
    requires forall k :: 0 <= k < |MostCommon(ts, n)| ==> MostCommon(ts, n)[k].0 != w
    ensures forall i :: 0 <= i < |MostCommon(ts, n)| ==>
      MostCommon(ts, n)[i].0 in ts && Before(ts, MostCommon(ts, n)[i], (w, Occurrences(ts, w)))
  {
    var s := SortByCount(Tally(ts));
    var r := MostCommon(ts, n);
    var e := (w, Occurrences(ts, w));
    assert Ranked(ts, s) && e in s by {
      SortedTally(ts);
    }
    assert r == s[..|r|] by {
      MostCommonLength(ts, n);
    }
    var m :| 0 <= m < |s| && s[m] == e;
    assert |r| <= m by {
      forall k | 0 <= k < |r| ensures s[k] != s[m] {
        assert r[k] == s[k];
      }
    }
    forall i | 0 <= i < |r| ensures r[i].0 in ts && Before(ts, r[i], e) {
      assert r[i] == s[i];
      assert Before(ts, s[i], s[m]);
    }
  }

  /** The counts `most_common` reports never add up to more tokens than the
      text has. */
  lemma MostCommonCountsBounded(ts: seq<string>, n: int)
    ensures Total(MostCommon(ts, n)) <= |ts|
  {
    var r := MostCommon(ts, n);
    MostCommonCounted(ts, n);
    MostCommonDistinct(ts, n);
    forall i | 0 <= i < |r| ensures r[i].1 == Occurrences(ts, r[i].0) {
      assert r[i] in r;
    }
    DistinctEntriesBounded(ts, r);
  }

  /** Sum of the counts of a list of entries. */
  function Total(es: seq<Entry>): nat {
    if |es| == 0 then 0 else es[0].1 + Total(es[1..])
  }

  /** Entries naming distinct tokens, each with its count in ts, add up to
      at most |ts|. */
  lemma {:induction false} DistinctEntriesBounded(ts: seq<string>, es: seq<Entry>)
    requires forall i :: 0 <= i < |es| ==> es[i].1 == Occurrences(ts, es[i].0)
    requires forall i, j :: 0 <= i < j < |es| ==> es[i].0 != es[j].0
    ensures Total(es) <= |ts|
    decreases |ts|
  {
    if |ts| == 0 {
      EmptyOccurrences(es);
    } else {
      var init := ts[..|ts| - 1];
      var last := ts[|ts| - 1];
      var es' := seq(|es|, i requires 0 <= i < |es| => (es[i].0, Occurrences(init, es[i].0)));
      DistinctEntriesBounded(init, es');
      DropOneOccurrence(ts, es, es');
    }
  }

  lemma {:induction false} EmptyOccurrences(es: seq<Entry>)
    requires forall i :: 0 <= i < |es| ==> es[i].1 == Occurrences([], es[i].0)
    ensures Total(es) == 0
    decreases |es|
  {
    if |es| > 0 {
      EmptyOccurrences(es[1..]);
    }
  }

  /** Counting in ts instead of ts without its last token adds one to the
      entry of that token, if there is one, and nothing else. */
  lemma {:induction false} DropOneOccurrence(ts: seq<string>, es: seq<Entry>, es': seq<Entry>)
    requires |ts| > 0 && |es'| == |es|
    requires forall i :: 0 <= i < |es| ==> es[i].1 == Occurrences(ts, es[i].0)
    requires forall i :: 0 <= i < |es| ==>
      es'[i] == (es[i].0, Occurrences(ts[..|ts| - 1], es[i].0))
    requires forall i, j :: 0 <= i < j < |es| ==> es[i].0 != es[j].0
    ensures Total(es) <= Total(es') + 1
    ensures (forall i :: 0 <= i < |es| ==> es[i].0 != ts[|ts| - 1]) ==> Total(es) == Total(es')
    decreases |es|
  {
    if |es| > 0 {
      DropOneOccurrence(ts, es[1..], es'[1..]);
    }
  }
}
