/**
 The Python string built-ins the analytics are written with: whitespace
 splitting (`str.split()`), splitting on a one-character separator
 (`str.split(sep)`), joining, stripping and case mapping. Strings are
 sequences of Unicode scalar values.
 */
module Text {

  /** `str.isspace()` for one character: the set `str.split()`, `str.strip()`
      and the regular-expression class `\s` all treat as whitespace. */
  predicate IsSpace(c: char) {
    var n := c as int;
    || n == 0x20 || 0x09 <= n <= 0x0D || 0x1C <= n <= 0x1F
    || n == 0x85 || n == 0xA0 || n == 0x1680 || 0x2000 <= n <= 0x200A
    || n == 0x2028 || n == 0x2029 || n == 0x202F || n == 0x205F || n == 0x3000
  }

  /** s is whitespace only; `s.strip()` is then empty, so Python treats s
      as blank. */
  predicate AllSpace(s: string) {
    forall i :: 0 <= i < |s| ==> IsSpace(s[i])
  }

  /** A token produced by `str.split()`: non-empty and without whitespace. */
  predicate IsWord(w: string) {
    |w| > 0 && forall i :: 0 <= i < |w| ==> !IsSpace(w[i])
  }

  /** No element occurs twice. */
  predicate NoDuplicates<T(==)>(s: seq<T>) {
    forall a, b :: 0 <= a < b < |s| ==> s[a] != s[b]
  }

  /** Without duplicates, the head is not in the tail, which has none
      either. */
  lemma NoDuplicatesTail<T>(s: seq<T>)
    requires |s| > 0 && NoDuplicates(s)
    ensures s[0] !in s[1..] && NoDuplicates(s[1..])
  {
    var rest := s[1..];
    forall j | 0 <= j < |rest| ensures rest[j] != s[0] {
      assert rest[j] == s[j + 1];
    }
    forall i, j | 0 <= i < j < |rest| ensures rest[i] != rest[j] {
      assert rest[i] == s[i + 1] && rest[j] == s[j + 1];
    }
  }

  function Min(a: int, b: int): int {
    if a <= b then a else b
  }

  function Max(a: int, b: int): int {
    if a >= b then a else b
  }

  // ---------------------------------------------------------------------
  // str.split()
  // ---------------------------------------------------------------------

  /** Length of the run of non-space characters that s starts with. */
  function RunLength(s: string): (n: nat)
    ensures n <= |s|
    ensures forall i :: 0 <= i < n ==> !IsSpace(s[i])
    ensures n == |s| || IsSpace(s[n])
  {
    if |s| == 0 || IsSpace(s[0]) then 0 else 1 + RunLength(s[1..])
  }

  /** `str.split()` with no argument: the maximal runs of non-space
      characters of s, in order. */
  function Words(s: string): (ws: seq<string>)
    ensures forall k :: 0 <= k < |ws| ==> IsWord(ws[k])
    decreases |s|
  {
    if |s| == 0 then []
    else if IsSpace(s[0]) then Words(s[1..])
    else
      var n := RunLength(s);
      assert n > 0;
      [s[..n]] + Words(s[n..])
  }

  /** Position i is where a maximal run of non-space characters begins. */
  predicate IsRunStart(s: string, i: int)
    requires 0 <= i < |s|
  {
    !IsSpace(s[i]) && (i == 0 || IsSpace(s[i - 1]))
  }

  /** The number of run starts at positions i and later. */
  function RunStartsFrom(s: string, i: nat): nat
    requires i <= |s|
    decreases |s| - i
  {
    if i == |s| then 0
    else (if IsRunStart(s, i) then 1 else 0) + RunStartsFrom(s, i + 1)
  }

  /** The number of maximal non-whitespace runs of s, counted position by
      position: an independent definition of the word count. */
  function RunStarts(s: string): nat {
    RunStartsFrom(s, 0)
  }

  lemma {:induction false} NoRunStartInside(s: string, i: nat, j: nat)
    requires i < j <= |s|
    requires forall k :: i <= k < j ==> !IsSpace(s[k])
    ensures RunStartsFrom(s, i + 1) == RunStartsFrom(s, j)
    decreases j - i
  {
    if i + 1 < j {
      NoRunStartInside(s, i + 1, j);
    }
  }

  lemma {:induction false} WordsFromBoundary(s: string, i: nat)
    requires i <= |s|
    requires i == 0 || i == |s| || IsSpace(s[i - 1])
    ensures |Words(s[i..])| == RunStartsFrom(s, i)
    decreases |s| - i, 1
  {
    if i == |s| {
      assert s[i..] == [];
    } else if IsSpace(s[i]) {
      WordsSpaceStep(s, i);
      WordsFromBoundary(s, i + 1);
    } else {
      WordsFromRun(s, i);
    }
  }

  /** The same count from the start of a word. */
  lemma {:induction false} WordsFromRun(s: string, i: nat)
    requires i < |s| && !IsSpace(s[i])
    requires i == 0 || IsSpace(s[i - 1])
    ensures |Words(s[i..])| == RunStartsFrom(s, i)
    decreases |s| - i, 0
  {
    var n := WordsRunStep(s, i);
    if i + n < |s| {
      WordsSpaceStep(s, i + n);
      WordsFromBoundary(s, i + n + 1);
    } else {
      WordsFromBoundary(s, i + n);
    }
  }

  /** A whitespace character taken off the front of s[i..]: no word and
      no run start. */
  lemma WordsSpaceStep(s: string, i: nat)
    requires i < |s| && IsSpace(s[i])
    ensures Words(s[i..]) == Words(s[i + 1..])
    ensures RunStartsFrom(s, i) == RunStartsFrom(s, i + 1)
  {
    var t := s[i..];
    assert t[0] == s[i];
    assert t[1..] == s[i + 1..];
  }

  /** One word taken off the front of s[i..]: it is a single run start. */
  lemma {:induction false} WordsRunStep(s: string, i: nat) returns (n: nat)
    requires i < |s| && !IsSpace(s[i])
    requires i == 0 || IsSpace(s[i - 1])
    ensures 0 < n && i + n <= |s|
    ensures i + n == |s| || IsSpace(s[i + n])
    ensures |Words(s[i..])| == 1 + |Words(s[i + n..])|
    ensures RunStartsFrom(s, i) == 1 + RunStartsFrom(s, i + n)
  {
    var t := s[i..];
    n := RunLength(t);
    assert t[0] == s[i];
    assert n > 0;
    assert Words(t) == [t[..n]] + Words(t[n..]);
    assert t[n..] == s[i + n..];
    forall k | i <= k < i + n
      ensures !IsSpace(s[k])
    {
      assert s[k] == t[k - i];
    }
    NoRunStartInside(s, i, i + n);
    if i + n < |s| {
      assert s[i + n] == t[n];
    }
  }

  /** `len(text.split())` is the number of maximal non-whitespace runs. */
  lemma WordsCountRuns(s: string)
    ensures |Words(s)| == RunStarts(s)
  {
    assert s[0..] == s;
    WordsFromBoundary(s, 0);
  }

  lemma {:induction false} WordsOfSpaces(s: string)
    requires AllSpace(s)
    ensures Words(s) == []
    decreases |s|
  {
    if |s| > 0 {
      WordsOfSpaces(s[1..]);
    }
  }

  // ---------------------------------------------------------------------
  // str.split(sep) and str.join
  // ---------------------------------------------------------------------

  /** Number of occurrences of c in s. */
  function Count(s: string, c: char): nat {
    if |s| == 0 then 0 else (if s[0] == c then 1 else 0) + Count(s[1..], c)
  }

  /** Index of the first c in s, or |s| when s has none. */
  function IndexOf(s: string, c: char): (i: nat)
    ensures i <= |s|
    ensures i < |s| ==> s[i] == c
    ensures forall k :: 0 <= k < i ==> s[k] != c
  {
    if |s| == 0 || s[0] == c then 0 else 1 + IndexOf(s[1..], c)
  }

  /** `str.split(sep)` for a one-character separator: the segments between
      occurrences of c, keeping empty ones. */
  function Split(s: string, c: char): (parts: seq<string>)
    ensures |parts| >= 1
    ensures forall k :: 0 <= k < |parts| ==> c !in parts[k]
    decreases |s|
  {
    var i := IndexOf(s, c);
    if i == |s| then [s] else [s[..i]] + Split(s[i + 1..], c)
  }

  /** `sep.join(parts)`. */
  function Join(parts: seq<string>, sep: string): string {
    if |parts| == 0 then ""
    else if |parts| == 1 then parts[0]
    else parts[0] + sep + Join(parts[1..], sep)
  }

  lemma {:induction false} CountAppend(a: string, b: string, c: char)
    ensures Count(a + b, c) == Count(a, c) + Count(b, c)
    decreases |a|
  {
    if |a| == 0 {
      assert a + b == b;
    } else {
      assert (a + b)[1..] == a[1..] + b;
      CountAppend(a[1..], b, c);
    }
  }

  lemma {:induction false} CountAbsent(s: string, c: char)
    requires c !in s
    ensures Count(s, c) == 0
    decreases |s|
  {
    if |s| > 0 {
      CountAbsent(s[1..], c);
    }
  }

  /** `s.split(c)` has one more segment than s has separators. */
  lemma {:induction false} SplitCount(s: string, c: char)
    ensures |Split(s, c)| == Count(s, c) + 1
    decreases |s|
  {
    var i := IndexOf(s, c);
    if i == |s| {
      CountAbsent(s, c);
    } else {
      assert s == s[..i] + [c] + s[i + 1..];
      CountAppend(s[..i] + [c], s[i + 1..], c);
      CountAppend(s[..i], [c], c);
      CountAbsent(s[..i], c);
      SplitCount(s[i + 1..], c);
    }
  }

  /** Joining the segments of `s.split(c)` with c gives s back. */
  lemma {:induction false} SplitJoin(s: string, c: char)
    ensures Join(Split(s, c), [c]) == s
    decreases |s|
  {
    var i := IndexOf(s, c);
    if i < |s| {
      var rest := Split(s[i + 1..], c);
      var parts := Split(s, c);
      assert parts == [s[..i]] + rest;
      assert |parts| >= 2 && parts[0] == s[..i] && parts[1..] == rest;
      assert Join(parts, [c]) == s[..i] + [c] + Join(rest, [c]);
      SplitJoin(s[i + 1..], c);
      assert s == s[..i] + [c] + s[i + 1..];
    } else {
      assert Split(s, c) == [s];
    }
  }

  /** Splitting a join of c-free segments on c gives the segments back. */
  lemma {:induction false} JoinSplit(parts: seq<string>, c: char)
    requires |parts| >= 1
    requires forall k :: 0 <= k < |parts| ==> c !in parts[k]
    ensures Split(Join(parts, [c]), c) == parts
    decreases |parts|
  {
    var s := Join(parts, [c]);
    if |parts| == 1 {
      IndexOfAbsent(parts[0], c);
    } else {
      var p, rest := parts[0], Join(parts[1..], [c]);
      assert s == p + [c] + rest;
      SplitAfter(p, rest, c);
      JoinSplit(parts[1..], c);
      assert parts == [p] + parts[1..];
    }
  }

  /** A c at position i with none before it is the first c. */
  lemma IndexOfFirst(s: string, c: char, i: nat)
    requires i < |s| && s[i] == c
    requires forall k :: 0 <= k < i ==> s[k] != c
    ensures IndexOf(s, c) == i
  {
  }

  lemma {:induction false} IndexOfAbsent(s: string, c: char)
    requires c !in s
    ensures IndexOf(s, c) == |s|
  {
    forall k | 0 <= k < |s|
      ensures s[k] != c
    {
      assert s[k] in s;
    }
  }

  lemma {:induction false} IndexOfAfter(p: string, rest: string, c: char)
    requires c !in p
    ensures IndexOf(p + [c] + rest, c) == |p|
  {
    var s := p + [c] + rest;
    forall k | 0 <= k < |p|
      ensures s[k] != c
    {
      assert s[k] == p[k];
      assert p[k] in p;
    }
    assert s[|p|] == c;
  }

  /** Joining a non-empty list with one more segment at the end. */
  lemma {:induction false} JoinSnoc(parts: seq<string>, last: string, sep: string)
    requires |parts| >= 1
    ensures Join(parts + [last], sep) == Join(parts, sep) + sep + last
    decreases |parts|
  {
    if |parts| == 1 {
      assert (parts + [last])[1..] == [last];
    } else {
      assert (parts + [last])[1..] == parts[1..] + [last];
      JoinSnoc(parts[1..], last, sep);
    }
  }

  /** Splitting after a leading non-separator character: the character
      joins the first segment. */
  lemma {:induction false} SplitCons(x: char, s: string, c: char)
    requires x != c
    ensures Split([x] + s, c) == [[x] + Split(s, c)[0]] + Split(s, c)[1..]
  {
    var t := [x] + s;
    var i := IndexOf(s, c);
    assert IndexOf(t, c) == 1 + i by {
      assert t[1..] == s;
    }
    if i < |s| {
      assert t[..1 + i] == [x] + s[..i];
      assert t[1 + i + 1..] == s[i + 1..];
    } else {
      assert t[..1 + i] == [x] + s;
    }
  }

  /** Splitting after a first segment: the segment, then the rest split. */
  lemma SplitAfter(line: string, rest: string, c: char)
    requires c !in line
    ensures Split(line + [c] + rest, c) == [line] + Split(rest, c)
  {
    var s := line + [c] + rest;
    IndexOfAfter(line, rest, c);
    assert s[..|line|] == line;
    assert s[|line| + 1..] == rest;
  }

  /** t appears in s at position i. */
  predicate Occurs(s: string, t: string, i: int) {
    0 <= i && i + |t| <= |s| && s[i..i + |t|] == t
  }

  /** t appears somewhere in s. */
  predicate Mentions(s: string, t: string) {
    exists i :: 0 <= i <= |s| && Occurs(s, t, i)
  }

  /** The pieces of a template, one after another (an f-string). */
  function Concat(ps: seq<string>): string {
    if |ps| == 0 then "" else ps[0] + Concat(ps[1..])
  }

  lemma {:induction false} ConcatAppend(ps: seq<string>, qs: seq<string>)
    ensures Concat(ps + qs) == Concat(ps) + Concat(qs)
    decreases |ps|
  {
    if |ps| == 0 {
      assert ps + qs == qs;
    } else {
      assert (ps + qs)[1..] == ps[1..] + qs;
      ConcatAppend(ps[1..], qs);
    }
  }

  /** Piece k of a template sits right after the pieces before it. */
  lemma ConcatPiece(ps: seq<string>, k: nat)
    requires k < |ps|
    ensures Occurs(Concat(ps), ps[k], |Concat(ps[..k])|)
    ensures Mentions(Concat(ps), ps[k])
  {
    assert ps == ps[..k] + ([ps[k]] + ps[k + 1..]);
    ConcatAppend(ps[..k], [ps[k]] + ps[k + 1..]);
    var a := Concat(ps[..k]);
    var b := Concat(ps[k + 1..]);
    assert ([ps[k]] + ps[k + 1..])[1..] == ps[k + 1..];
    assert Concat([ps[k]] + ps[k + 1..]) == ps[k] + b;
    assert (a + (ps[k] + b))[|a|..|a| + |ps[k]|] == ps[k];
    assert Occurs(Concat(ps), ps[k], |a|);
  }

  /** What a part of s mentions, s mentions. */
  lemma MentionsTransitive(s: string, t: string, u: string)
    requires Mentions(s, t) && Mentions(t, u)
    ensures Mentions(s, u)
  {
    var i :| 0 <= i <= |s| && Occurs(s, t, i);
    var j :| 0 <= j <= |t| && Occurs(t, u, j);
    forall m | 0 <= m < |u| ensures s[i + j + m] == u[m] {
      assert s[i..i + |t|][j + m] == t[j + m];
      assert t[j..j + |u|][m] == u[m];
    }
    assert s[i + j..i + j + |u|] == u;
    assert Occurs(s, u, i + j);
  }

  /** Three neighbouring pieces of a template appear in it side by side. */
  lemma {:induction false} ConcatTriple(ps: seq<string>, k: nat)
    requires k + 2 < |ps|
    ensures Mentions(Concat(ps), ps[k] + ps[k + 1] + ps[k + 2])
    decreases k
  {
    var t := ps[k] + ps[k + 1] + ps[k + 2];
    if k == 0 {
      assert ps[1..][1..][0] == ps[2];
      var rest := Concat(ps[1..][1..][1..]);
      assert Concat(ps[1..][1..]) == ps[2] + rest;
      assert Concat(ps[1..]) == ps[1] + (ps[2] + rest);
      assert Concat(ps) == ps[0] + (ps[1] + (ps[2] + rest));
      assert ps[0] + (ps[1] + (ps[2] + rest)) == t + rest;
      Middle("", t, rest);
      assert "" + t + rest == t + rest;
    } else {
      ConcatTriple(ps[1..], k - 1);
      assert ps[1..][k - 1] + ps[1..][k] + ps[1..][k + 1] == t;
      Middle(ps[0], Concat(ps[1..]), "");
      assert ps[0] + Concat(ps[1..]) + "" == Concat(ps);
      MentionsTransitive(Concat(ps), Concat(ps[1..]), t);
    }
  }

  /** The middle one of three strings in a row appears in the whole. */
  lemma Middle(x: string, y: string, z: string)
    ensures Mentions(x + y + z, y)
  {
    assert (x + y + z)[|x|..|x| + |y|] == y;
    assert Occurs(x + y + z, y, |x|);
  }

  /** Four strings one after another: the first opens the whole, the
      second follows it, and the last closes the whole. */
  lemma Framed(a: string, b: string, c: string, d: string)
    ensures var s := a + b + c + d;
      && |s| >= |a| && s[..|a|] == a
      && Occurs(s, b, |a|) && Mentions(s, b)
      && |s| >= |d| && s[|s| - |d|..] == d
  {
    var s := a + b + c + d;
    assert s[..|a|] == a;
    assert s[|a|..|a| + |b|] == b;
    assert Occurs(s, b, |a|);
    assert s[|s| - |d|..] == d;
  }

  lemma ConcatFour(ps: seq<string>)
    requires |ps| == 4
    ensures Concat(ps) == ps[0] + ps[1] + ps[2] + ps[3]
  {
    var d := ps[3..];
    assert d[1..] == [] && Concat(d) == ps[3];
    assert ps[2..][1..] == d;
    assert Concat(ps[2..]) == ps[2] + ps[3];
    assert ps[1..][1..] == ps[2..];
    assert Concat(ps[1..]) == ps[1] + (ps[2] + ps[3]);
    assert ps[1] + (ps[2] + ps[3]) == ps[1] + ps[2] + ps[3];
    assert ps[0] + (ps[1] + ps[2] + ps[3]) == ps[0] + ps[1] + ps[2] + ps[3];
  }

  /** Four strings one after another: each of the first three appears in
      the whole, and the last closes it. */
  lemma Quarters(a: string, b: string, c: string, d: string)
    ensures var s := a + b + c + d;
      && Mentions(s, a) && Mentions(s, b) && Mentions(s, c)
      && |s| >= |d| && s[|s| - |d|..] == d
  {
    var s := a + b + c + d;
    assert s[..|a|] == a;
    assert Occurs(s, a, 0);
    assert s[|a|..|a| + |b|] == b;
    assert Occurs(s, b, |a|);
    assert s[|a| + |b|..|a| + |b| + |c|] == c;
    assert Occurs(s, c, |a| + |b|);
    assert s[|s| - |d|..] == d;
  }

  /** A word followed by whitespace (or nothing) is the first token. */
  lemma WordsLead(w: string, rest: string)
    requires IsWord(w)
    requires rest == [] || IsSpace(rest[0])
    ensures Words(w + rest) == [w] + Words(rest)
  {
    var s := w + rest;
    var n := RunLength(s);
    assert forall i :: 0 <= i < |w| ==> s[i] == w[i];
    assert |s| > |w| ==> s[|w|] == rest[0];
    assert n == |w|;
    assert s[..n] == w && s[n..] == rest;
  }

  /** Splitting a single-space join of words gives the words back. */
  lemma {:induction false} WordsJoin(ws: seq<string>)
    requires forall k :: 0 <= k < |ws| ==> IsWord(ws[k])
    ensures Words(Join(ws, " ")) == ws
    decreases |ws|
  {
    if |ws| == 1 {
      WordsLead(ws[0], []);
      assert ws[0] + [] == ws[0];
    } else if |ws| > 1 {
      var j := Join(ws[1..], " ");
      assert Join(ws, " ") == ws[0] + (" " + j);
      WordsLead(ws[0], " " + j);
      assert (" " + j)[1..] == j;
      WordsJoin(ws[1..]);
      assert ws == [ws[0]] + ws[1..];
    }
  }

  /** Every character of a token of s is a non-space character of s, so a
      property of those characters holds of every token's characters. */
  lemma {:induction false} WordsKeep(s: string, p: char -> bool)
    requires forall i :: 0 <= i < |s| && !IsSpace(s[i]) ==> p(s[i])
    ensures forall k, i :: 0 <= k < |Words(s)| && 0 <= i < |Words(s)[k]| ==> p(Words(s)[k][i])
    decreases |s|
  {
    if |s| == 0 {
    } else if IsSpace(s[0]) {
      WordsKeep(s[1..], p);
    } else {
      var n := RunLength(s);
      var rest := Words(s[n..]);
      WordsKeep(s[n..], p);
      assert Words(s) == [s[..n]] + rest;
      forall k, i | 0 <= k < |Words(s)| && 0 <= i < |Words(s)[k]| ensures p(Words(s)[k][i]) {
        if k == 0 {
          assert Words(s)[k][i] == s[i];
        } else {
          assert Words(s)[k] == rest[k - 1];
        }
      }
    }
  }

  /** A property of every character of the parts and of the separator
      holds of every character of the join. */
  lemma {:induction false} JoinKeep(ws: seq<string>, sep: string, p: char -> bool)
    requires forall i :: 0 <= i < |sep| ==> p(sep[i])
    requires forall k, i :: 0 <= k < |ws| && 0 <= i < |ws[k]| ==> p(ws[k][i])
    ensures forall i :: 0 <= i < |Join(ws, sep)| ==> p(Join(ws, sep)[i])
    decreases |ws|
  {
    if |ws| > 1 {
      var tail := ws[1..];
      JoinKeep(tail, sep, p);
      var j := Join(tail, sep);
      var r := Join(ws, sep);
      assert r == ws[0] + sep + j;
      forall i | 0 <= i < |r| ensures p(r[i]) {
        if i < |ws[0]| {
          assert r[i] == ws[0][i];
        } else if i < |ws[0]| + |sep| {
          assert r[i] == sep[i - |ws[0]|];
        } else {
          assert r[i] == j[i - |ws[0]| - |sep|];
        }
      }
    } else if |ws| == 1 {
      assert forall i :: 0 <= i < |ws[0]| ==> p(ws[0][i]);
    }
  }

  // ---------------------------------------------------------------------
  // str.strip()
  // ---------------------------------------------------------------------

  /** Number of whitespace characters s starts with. */
  function LeadingSpaces(s: string): (n: nat)
    ensures n <= |s|
    ensures AllSpace(s[..n])
    ensures n == |s| || !IsSpace(s[n])
  {
    if |s| == 0 || !IsSpace(s[0]) then 0
    else
      var m := LeadingSpaces(s[1..]);
      assert s[..1 + m] == [s[0]] + s[1..][..m];
      1 + m
  }

  /** Number of whitespace characters s ends with. */
  function TrailingSpaces(s: string): (n: nat)
    ensures n <= |s|
    ensures AllSpace(s[|s| - n..])
    ensures n == |s| || !IsSpace(s[|s| - n - 1])
  {
    if |s| == 0 || !IsSpace(s[|s| - 1]) then 0
    else
      var t := s[..|s| - 1];
      var m := TrailingSpaces(t);
      assert s[|s| - (1 + m)..] == t[|t| - m..] + [s[|s| - 1]];
      assert m < |t| ==> s[|s| - (1 + m) - 1] == t[|t| - m - 1];
      1 + m
  }

  /** s is r surrounded by whitespace only. */
  ghost predicate Surrounds(s: string, r: string) {
    exists i :: 0 <= i <= i + |r| <= |s|
      && s[i..i + |r|] == r && AllSpace(s[..i]) && AllSpace(s[i + |r|..])
  }

  /** Where r sits in a string it is surrounded in. */
  lemma SurroundsAt(s: string, r: string) returns (i: nat)
    requires Surrounds(s, r)
    ensures i + |r| <= |s| && s[i..i + |r|] == r
  {
    i :| 0 <= i <= i + |r| <= |s|
      && s[i..i + |r|] == r && AllSpace(s[..i]) && AllSpace(s[i + |r|..]);
  }

  /** `str.strip()`: s without its leading and trailing whitespace. */
  function Strip(s: string): (r: string)
    ensures Surrounds(s, r)
    ensures r == [] <==> AllSpace(s)
    ensures r != [] ==> !IsSpace(r[0]) && !IsSpace(r[|r| - 1])
  {
    StripFacts(s);
    Stripped(s)
  }

  /** s between its leading and its trailing whitespace. */
  function Stripped(s: string): string {
    var t := s[LeadingSpaces(s)..];
    t[..|t| - TrailingSpaces(t)]
  }

  lemma StripFacts(s: string)
    ensures Surrounds(s, Stripped(s))
    ensures Stripped(s) == [] <==> AllSpace(s)
    ensures Stripped(s) != [] ==> !IsSpace(Stripped(s)[0]) && !IsSpace(Stripped(s)[|Stripped(s)| - 1])
  {
    StripFactsSurrounds(s);
    StripFactsEnds(s);
  }

  lemma StripFactsSurrounds(s: string)
    ensures Surrounds(s, Stripped(s))
  {
    var a := LeadingSpaces(s);
    var t := s[a..];
    var b := TrailingSpaces(t);
    assert Stripped(s) == t[..|t| - b];
    StripSurrounds(s, a, t, b);
  }

  lemma StripFactsEnds(s: string)
    ensures var r := Stripped(s);
      && (r == [] <==> AllSpace(s))
      && (r != [] ==> !IsSpace(r[0]) && !IsSpace(r[|r| - 1]))
  {
    var a := LeadingSpaces(s);
    var t := s[a..];
    var b := TrailingSpaces(t);
    assert Stripped(s) == t[..|t| - b];
    StripEnds(s, a, t, b);
  }

  /** What is left between the leading and the trailing whitespace is
      surrounded by whitespace only. */
  lemma StripSurrounds(s: string, a: nat, t: string, b: nat)
    requires a <= |s| && AllSpace(s[..a])
    requires t == s[a..]
    requires b <= |t| && AllSpace(t[|t| - b..])
    ensures Surrounds(s, t[..|t| - b])
  {
    var r := t[..|t| - b];
    assert s[a..a + |r|] == r;
    assert s[a + |r|..] == t[|t| - b..];
  }

  /** What is left is empty exactly for blank s, and otherwise starts and
      ends with a non-space. */
  lemma StripEnds(s: string, a: nat, t: string, b: nat)
    requires a <= |s| && AllSpace(s[..a]) && (a == |s| || !IsSpace(s[a]))
    requires t == s[a..]
    requires b <= |t| && AllSpace(t[|t| - b..]) && (b == |t| || !IsSpace(t[|t| - b - 1]))
    ensures var r := t[..|t| - b];
      && (r == [] <==> AllSpace(s))
      && (r != [] ==> !IsSpace(r[0]) && !IsSpace(r[|r| - 1]))
  {
    var r := t[..|t| - b];
    if a < |s| {
      assert t[0] == s[a];
      assert b < |t|;
      assert r[0] == s[a];
      assert r[|r| - 1] == t[|t| - b - 1];
    } else {
      forall i | 0 <= i < |s| ensures IsSpace(s[i]) {
        assert s[..a][i] == s[i];
      }
    }
  }

  // ---------------------------------------------------------------------
  // Case mapping (ASCII letters)
  // ---------------------------------------------------------------------

  predicate IsUpperAscii(c: char) { 'A' <= c <= 'Z' }
  predicate IsLowerAscii(c: char) { 'a' <= c <= 'z' }
  predicate IsDigit(c: char) { '0' <= c <= '9' }

  function LowerChar(c: char): char {
    if IsUpperAscii(c) then (c as int + 32) as char else c
  }

  function UpperChar(c: char): char {
    if IsLowerAscii(c) then (c as int - 32) as char else c
  }

  /** `str.lower()` on the ASCII letters. */
  function Lower(s: string): (r: string)
    ensures |r| == |s|
    ensures forall i :: 0 <= i < |s| ==> r[i] == LowerChar(s[i])
  {
    seq(|s|, i requires 0 <= i < |s| => LowerChar(s[i]))
  }

  /** `str.upper()` on the ASCII letters. */
  function Upper(s: string): (r: string)
    ensures |r| == |s|
    ensures forall i :: 0 <= i < |s| ==> r[i] == UpperChar(s[i])
  {
    seq(|s|, i requires 0 <= i < |s| => UpperChar(s[i]))
  }

  /** Lowering leaves no upper-case ASCII letter, and lowering twice is
      lowering once. */
  lemma LowerNormalises(s: string)
    ensures forall i :: 0 <= i < |s| ==> !IsUpperAscii(Lower(s)[i])
    ensures Lower(Lower(s)) == Lower(s)
  {
  }
}
