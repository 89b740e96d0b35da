/**
 The text normaliser of `data_preprocessing.py`: `clean_text` and the
 file-type dispatch of `preprocess_text`. The stopword list and the
 lemmatiser are parameters; a data frame is a sequence of named, typed
 columns of cells.
 */
module Preprocessing {
  import opened Text
  import opened Format
  import opened Results

  // ---------------------------------------------------------------------
  // clean_text
  // ---------------------------------------------------------------------

  /** The characters the substitution `[^a-zA-Z0-9.\s]` leaves alone. */
  predicate Kept(c: char) {
    IsLowerAscii(c) || IsUpperAscii(c) || IsDigit(c) || c == '.' || IsSpace(c)
  }

  /** The characters a cleaned token is made of. */
  predicate TokenChar(c: char) {
    IsLowerAscii(c) || IsDigit(c) || c == '.'
  }

  /** `re.sub(r"[^a-zA-Z0-9.\s]", " ", s)`: every other character becomes
      a space. */
  function Scrub(s: string): (r: string)
    ensures |r| == |s|
    ensures forall i :: 0 <= i < |s| ==> Kept(r[i])
    ensures forall i :: 0 <= i < |s| ==> (r[i] == s[i] <==> Kept(s[i]))
    ensures forall i :: 0 <= i < |s| && !Kept(s[i]) ==> r[i] == ' '
  {
    seq(|s|, i requires 0 <= i < |s| => if Kept(s[i]) then s[i] else ' ')
  }

  /** The tokens that are not stopwords, in their order. A single token is
      kept exactly when it is not a stopword; Preprocessing.UnstoppedAppend
      extends this to any list, in order. */
  function Unstopped(ws: seq<string>, stop: set<string>): (r: seq<string>)
    ensures |r| <= |ws|
    ensures forall k :: 0 <= k < |r| ==> r[k] in ws && r[k] !in stop
    ensures forall k :: 0 <= k < |ws| && ws[k] !in stop ==> ws[k] in r
    ensures |ws| == 1 ==> (r == ws <==> ws[0] !in stop) && (r == [] <==> ws[0] in stop)
  {
    if |ws| == 0 then []
    else
      var rest := Unstopped(ws[1..], stop);
      assert forall k :: 1 <= k < |ws| ==> ws[k] == ws[1..][k - 1];
      if ws[0] in stop then rest else [ws[0]] + rest
  }

  /** Filtering a concatenation filters each half: the kept tokens keep
      their order and their multiplicity. */
  lemma {:induction false} UnstoppedAppend(a: seq<string>, b: seq<string>, stop: set<string>)
    ensures Unstopped(a + b, stop) == Unstopped(a, stop) + Unstopped(b, stop)
    decreases |a|
  {
    if |a| > 0 {
      assert (a + b)[1..] == a[1..] + b;
      UnstoppedAppend(a[1..], b, stop);
    } else {
      assert a + b == b;
    }
  }

  /** A list without stopwords is kept whole. */
  lemma {:induction false} UnstoppedKeepsAll(ws: seq<string>, stop: set<string>)
    requires forall k :: 0 <= k < |ws| ==> ws[k] !in stop
    ensures Unstopped(ws, stop) == ws
    decreases |ws|
  {
    if |ws| > 0 {
      UnstoppedKeepsAll(ws[1..], stop);
      assert ws == [ws[0]] + ws[1..];
    }
  }

  /** A list of stopwords only is dropped whole. */
  lemma {:induction false} UnstoppedDropsAll(ws: seq<string>, stop: set<string>)
    requires forall k :: 0 <= k < |ws| ==> ws[k] in stop
    ensures Unstopped(ws, stop) == []
    decreases |ws|
  {
    if |ws| > 0 {
      UnstoppedDropsAll(ws[1..], stop);
    }
  }

  /** Each token through the lemmatiser. */
  function Lemmatised(ws: seq<string>, lem: string -> string): (r: seq<string>)
    ensures |r| == |ws|
    ensures forall k :: 0 <= k < |ws| ==> r[k] == lem(ws[k])
  {
    seq(|ws|, k requires 0 <= k < |ws| => lem(ws[k]))
  }

  /** The tokens that reach the lemmatiser: the whitespace tokens of the
      lower-cased, scrubbed text that are not stopwords. */
  function Tokens(t: string, stop: set<string>): seq<string> {
    Unstopped(Words(Scrub(Lower(t))), stop)
  }

  /** `clean_text` with the given stopwords and lemmatiser. */
  function CleanText(t: string, stop: set<string>, lem: string -> string): string {
    Join(Lemmatised(Tokens(t, stop), lem), " ")
  }

  /** Scrubbing lower-cased text leaves, outside whitespace, only lower-case
      ASCII letters, digits and periods. */
  lemma ScrubbedLower(t: string)
    ensures forall i :: 0 <= i < |t| && !IsSpace(Scrub(Lower(t))[i]) ==> TokenChar(Scrub(Lower(t))[i])
  {
    var l := Lower(t);
    LowerNormalises(t);
    forall i | 0 <= i < |t| && !IsSpace(Scrub(l)[i]) ensures TokenChar(Scrub(l)[i]) {
      assert !IsUpperAscii(l[i]);
    }
  }

  /** Every token that reaches the lemmatiser is a non-empty run of
      lower-case ASCII letters, digits and periods, and is not a stopword. */
  lemma TokensCharacters(t: string, stop: set<string>)
    ensures forall k :: 0 <= k < |Tokens(t, stop)| ==> IsWord(Tokens(t, stop)[k]) && Tokens(t, stop)[k] !in stop
    ensures forall k, i :: 0 <= k < |Tokens(t, stop)| && 0 <= i < |Tokens(t, stop)[k]| ==> TokenChar(Tokens(t, stop)[k][i])
  {
    var s := Scrub(Lower(t));
    var ws := Words(s);
    ScrubbedLower(t);
    WordsKeep(s, TokenChar);
    var ts := Tokens(t, stop);
    forall k, i | 0 <= k < |ts| && 0 <= i < |ts[k]| ensures TokenChar(ts[k][i]) {
      var m :| 0 <= m < |ws| && ws[m] == ts[k];
      assert TokenChar(ws[m][i]);
    }
  }

  /** Text without ASCII letters, digits and periods cleans to "" (so does
      the empty text). */
  lemma CleanTextNoContent(t: string, stop: set<string>, lem: string -> string)
    requires forall i :: 0 <= i < |t| ==> !IsLowerAscii(t[i]) && !IsUpperAscii(t[i]) && !IsDigit(t[i]) && t[i] != '.'
    ensures CleanText(t, stop, lem) == ""
  {
    var s := Scrub(Lower(t));
    assert AllSpace(s);
    WordsOfSpaces(s);
  }

  /** Text whose every token is a stopword cleans to "". With a lemmatiser
      that never returns "", these are the only texts that clean to "". */
  lemma CleanTextEmpty(t: string, stop: set<string>, lem: string -> string)
    ensures (forall k :: 0 <= k < |Words(Scrub(Lower(t)))| ==> Words(Scrub(Lower(t)))[k] in stop) ==> CleanText(t, stop, lem) == ""
    ensures (forall w :: lem(w) != "") ==>
      (CleanText(t, stop, lem) == "" <==> forall k :: 0 <= k < |Words(Scrub(Lower(t)))| ==> Words(Scrub(Lower(t)))[k] in stop)
  {
    var ws := Words(Scrub(Lower(t)));
    var ts := Tokens(t, stop);
    if forall k :: 0 <= k < |ws| ==> ws[k] in stop {
      UnstoppedDropsAll(ws, stop);
    } else {
      var k :| 0 <= k < |ws| && ws[k] !in stop;
      assert ws[k] in ts;
      var ls := Lemmatised(ts, lem);
      assert |ls| > 0 && ls[0] == lem(ts[0]);
      JoinNonEmpty(ls, " ");
      assert CleanText(t, stop, lem) == Join(ls, " ");
      if forall w :: lem(w) != "" {
        assert lem(ts[0]) != "";
        assert |ls[0]| > 0;
      }
      assert Words(Scrub(Lower(t)))[k] !in stop;
    }
  }

  /** A join of at least one part is "" only when its first part is. */
  lemma JoinNonEmpty(ps: seq<string>, sep: string)
    requires |ps| > 0
    ensures |Join(ps, sep)| >= |ps[0]|
  {
  }

  /** With a lemmatiser that returns single words, the cleaned text is the
      single-space join of its own tokens (no leading, trailing or doubled
      spaces), those tokens are the lemmas of the surviving tokens in their
      order, and there are no more of them than tokens in the scrubbed
      text. */
  lemma CleanTextTokens(t: string, stop: set<string>, lem: string -> string)
    requires forall w :: IsWord(lem(w))
    ensures var r := CleanText(t, stop, lem);
      && Words(r) == Lemmatised(Tokens(t, stop), lem)
      && Join(Words(r), " ") == r
      && |Words(r)| <= |Words(Scrub(Lower(t)))|
  {
    var ls := Lemmatised(Tokens(t, stop), lem);
    WordsJoin(ls);
  }

  /** With the identity lemmatiser, cleaning is idempotent. */
  lemma CleanTextIdempotent(t: string, stop: set<string>, lem: string -> string)
    requires forall w :: lem(w) == w
    ensures CleanText(CleanText(t, stop, lem), stop, lem) == CleanText(t, stop, lem)
  {
    var ts := Tokens(t, stop);
    assert Lemmatised(ts, lem) == ts;
    var r := CleanText(t, stop, lem);
    TokensCharacters(t, stop);
    JoinKeep(ts, " ", c => TokenChar(c) || c == ' ');
    assert Lower(r) == r;
    assert Scrub(r) == r;
    WordsJoin(ts);
    UnstoppedKeepsAll(ts, stop);
    assert Tokens(r, stop) == ts;
    assert Lemmatised(ts, lem) == ts;
  }

  // ---------------------------------------------------------------------
  // Tables
  // ---------------------------------------------------------------------

  /** A cell of a data frame: text, an integer, a boolean or a missing
      value (NaN). */
  datatype Cell = StrCell(s: string) | IntCell(i: int) | BoolCell(b: bool) | NaNCell

  /** The dtypes a column can have. */
  datatype DType = ObjectDType | Int64DType | BoolDType

  datatype Column = Column(name: string, dtype: DType, cells: seq<Cell>)

  /** A data frame: its columns in order. */
  type Table = seq<Column>

  /** `str(cell)`, as `astype(str)` renders it. */
  function Str(c: Cell): string {
    match c
    case StrCell(s) => s
    case IntCell(i) => if i < 0 then "-" + Dec(-i) else Dec(i)
    case BoolCell(b) => if b then "True" else "False"
    case NaNCell => "nan"
  }

  /** Text renders as itself; an integer renders as its canonical digits,
      behind a minus sign exactly when it is negative. */
  lemma StrReadsBack(c: Cell)
    ensures c.StrCell? ==> Str(c) == c.s
    ensures c.IntCell? ==> |Str(c)| > 0 && (Str(c)[0] == '-' <==> c.i < 0)
    ensures c.IntCell? && c.i >= 0 ==> DigitValue(Str(c)) == c.i
    ensures c.IntCell? && c.i < 0 ==> DigitValue(Str(c)[1..]) == -c.i
    ensures c.IntCell? ==> Canonical(if c.i < 0 then Str(c)[1..] else Str(c))
  {
    if c.IntCell? {
      if c.i < 0 {
        DecValue(-c.i);
        DecCanonical(-c.i);
        assert Str(c)[1..] == Dec(-c.i);
      } else {
        DecValue(c.i);
        DecCanonical(c.i);
      }
    }
  }

  /** `df[col].astype(str).apply(clean_text)`: an object column of the
      cleaned renderings. */
  function CleanColumn(c: Column, stop: set<string>, lem: string -> string): (r: Column)
    ensures r.name == c.name && r.dtype == ObjectDType && |r.cells| == |c.cells|
    ensures forall i :: 0 <= i < |c.cells| ==> r.cells[i] == StrCell(CleanText(Str(c.cells[i]), stop, lem))
  {
    Column(c.name, ObjectDType,
      seq(|c.cells|, i requires 0 <= i < |c.cells| => StrCell(CleanText(Str(c.cells[i]), stop, lem))))
  }

  /** `df.select_dtypes(include=["object"]).columns.tolist()`. */
  function ObjectColumns(t: Table): (names: seq<string>)
    ensures forall k :: 0 <= k < |t| && t[k].dtype == ObjectDType ==> t[k].name in names
    ensures forall n :: n in names ==> exists k :: 0 <= k < |t| && t[k].name == n && t[k].dtype == ObjectDType
  {
    if |t| == 0 then []
    else
      var rest := ObjectColumns(t[1..]);
      assert forall k :: 1 <= k < |t| ==> t[k] == t[1..][k - 1];
      if t[0].dtype == ObjectDType then [t[0].name] + rest else rest
  }

  predicate HasColumn(t: Table, name: string) {
    exists k :: 0 <= k < |t| && t[k].name == name
  }

  /** The message of the `KeyError` for a missing column. */
  function KeyMessage(name: string): string {
    "'" + name + "'"
  }

  /** The position of the first name that is not a column; |names| when
      every name is one. */
  function FirstMissing(t: Table, names: seq<string>): (j: nat)
    ensures j <= |names|
    ensures forall i :: 0 <= i < j ==> HasColumn(t, names[i])
    ensures j < |names| ==> !HasColumn(t, names[j])
  {
    if |names| == 0 then 0
    else if !HasColumn(t, names[0]) then 0
    else 1 + FirstMissing(t, names[1..])
  }

  /** `df[name] = df[name].astype(str).apply(clean_text)`. */
  function CleanNamed(t: Table, name: string, stop: set<string>, lem: string -> string): (r: Table)
    ensures |r| == |t|
    ensures forall k :: 0 <= k < |t| ==> r[k] == if t[k].name == name then CleanColumn(t[k], stop, lem) else t[k]
  {
    seq(|t|, k requires 0 <= k < |t| => if t[k].name == name then CleanColumn(t[k], stop, lem) else t[k])
  }

  /** The loop over the selected columns: it stops at the first missing
      column with its `KeyError`. */
  function CleanColumns(t: Table, names: seq<string>, stop: set<string>, lem: string -> string): (r: Result<Table>)
    ensures r.Ok? <==> FirstMissing(t, names) == |names|
    ensures r.Err? ==> r.message == KeyMessage(names[FirstMissing(t, names)])
    decreases |names|
  {
    if |names| == 0 then Ok(t)
    else if !HasColumn(t, names[0]) then Err(KeyMessage(names[0]))
    else
      var next := CleanNamed(t, names[0], stop, lem);
      SameColumns(t, next, names[0], stop, lem);
      CleanColumns(next, names[1..], stop, lem)
  }

  /** When the loop finishes, every column keeps its name, place and row
      count, the columns not selected are unchanged, and each column
      selected once is cleaned cell by cell. */
  lemma CleanColumnsKeeps(t: Table, names: seq<string>, stop: set<string>, lem: string -> string)
    requires FirstMissing(t, names) == |names|
    ensures var r := CleanColumns(t, names, stop, lem);
      && r.Ok? && |r.value| == |t|
      && (forall k :: 0 <= k < |t| ==> r.value[k].name == t[k].name && |r.value[k].cells| == |t[k].cells|)
      && (forall k :: 0 <= k < |t| && t[k].name !in names ==> r.value[k] == t[k])
      && (NoDuplicates(names) ==> forall k :: 0 <= k < |t| && t[k].name in names ==> r.value[k] == CleanColumn(t[k], stop, lem))
  {
    CleanColumnsShape(t, names, stop, lem);
    if NoDuplicates(names) {
      CleanColumnsCleans(t, names, stop, lem);
    }
  }

  /** The loop keeps every column's name, place and row count, and leaves
      the columns it does not select alone. */
  lemma {:induction false} CleanColumnsShape(t: Table, names: seq<string>, stop: set<string>, lem: string -> string)
    requires FirstMissing(t, names) == |names|
    ensures var r := CleanColumns(t, names, stop, lem);
      && r.Ok? && |r.value| == |t|
      && (forall k :: 0 <= k < |t| ==> r.value[k].name == t[k].name && |r.value[k].cells| == |t[k].cells|)
      && (forall k :: 0 <= k < |t| && t[k].name !in names ==> r.value[k] == t[k])
    decreases |names|
  {
    if |names| > 0 {
      var next := CleanNamed(t, names[0], stop, lem);
      SameColumns(t, next, names[0], stop, lem);
      var rest := names[1..];
      CleanColumnsShape(next, rest, stop, lem);
      var r := CleanColumns(t, names, stop, lem);
      assert r == CleanColumns(next, rest, stop, lem);
      forall k | 0 <= k < |t| && t[k].name !in names ensures r.value[k] == t[k] {
        assert t[k].name !in rest;
      }
    }
  }

  /** With no name listed twice, each selected column ends up cleaned
      exactly once. */
  lemma {:induction false} CleanColumnsCleans(t: Table, names: seq<string>, stop: set<string>, lem: string -> string)
    requires FirstMissing(t, names) == |names| && NoDuplicates(names)
    ensures var r := CleanColumns(t, names, stop, lem);
      r.Ok? && |r.value| == |t| &&
      forall k :: 0 <= k < |t| && t[k].name in names ==> r.value[k] == CleanColumn(t[k], stop, lem)
    decreases |names|
  {
    CleanColumnsShape(t, names, stop, lem);
    if |names| > 0 {
      var next := CleanNamed(t, names[0], stop, lem);
      SameColumns(t, next, names[0], stop, lem);
      var rest := names[1..];
      NoDuplicatesTail(names);
      CleanColumnsShape(next, rest, stop, lem);
      CleanColumnsCleans(next, rest, stop, lem);
      var r := CleanColumns(t, names, stop, lem);
      assert r == CleanColumns(next, rest, stop, lem);
      forall k | 0 <= k < |t| && t[k].name in names ensures r.value[k] == CleanColumn(t[k], stop, lem) {
        if t[k].name == names[0] {
          assert next[k] == CleanColumn(t[k], stop, lem);
          assert next[k].name !in rest;
        } else {
          assert t[k].name in rest;
        }
      }
    }
  }

  /** Cleaning a column by name keeps the set of column names, so the same
      names are found in the cleaned table. */
  lemma SameColumns(t: Table, next: Table, name: string, stop: set<string>, lem: string -> string)
    requires next == CleanNamed(t, name, stop, lem)
    ensures forall n :: HasColumn(next, n) <==> HasColumn(t, n)
    ensures forall names :: FirstMissing(next, names) == FirstMissing(t, names)
  {
    forall n ensures HasColumn(next, n) <==> HasColumn(t, n) {
      if HasColumn(t, n) {
        var k :| 0 <= k < |t| && t[k].name == n;
        assert next[k].name == n;
      }
      if HasColumn(next, n) {
        var k :| 0 <= k < |next| && next[k].name == n;
        assert t[k].name == n;
      }
    }
    forall names ensures FirstMissing(next, names) == FirstMissing(t, names) {
      FirstMissingSame(t, next, names);
    }
  }

  lemma {:induction false} FirstMissingSame(t: Table, u: Table, names: seq<string>)
    requires forall n :: HasColumn(u, n) <==> HasColumn(t, n)
    ensures FirstMissing(u, names) == FirstMissing(t, names)
    decreases |names|
  {
    if |names| > 0 {
      FirstMissingSame(t, u, names[1..]);
    }
  }

  // ---------------------------------------------------------------------
  // preprocess_text
  // ---------------------------------------------------------------------

  /** What `preprocess_text` hands back on success. */
  datatype Processed = CleanedText(text: string) | CleanedTable(table: Table)

  const ErrorPrefix := "Preprocessing error: "
  const Unsupported := "Unsupported file type."

  predicate IsTextType(fileType: Option<string>) {
    fileType == Some("txt") || fileType == Some("pdf")
  }

  /** `preprocess_text(text, file_type, df, csv_text_columns)`, returning the
      pair (processed data, error message). Absent arguments are `None`.
      The exceptions the body can raise on absent arguments are caught and
      reported with their Python messages. */
  function PreprocessText(text: Option<string>, fileType: Option<string>, df: Option<Table>,
                          columns: Option<seq<string>>, stop: set<string>, lem: string -> string)
    : (r: (Option<Processed>, Option<string>))
    ensures IsTextType(fileType) && text.Some? ==>
      r == (Some(CleanedText(CleanText(text.value, stop, lem))), None)
    ensures IsTextType(fileType) && text.None? ==>
      r == (None, Some(ErrorPrefix + "'NoneType' object has no attribute 'lower'"))
    ensures !IsTextType(fileType) && fileType != Some("csv") ==> r == (None, Some(Unsupported))
    ensures r.1.Some? ==> r.0.None?
    ensures fileType == Some("csv") && r.1.Some? ==>
      |r.1.value| >= |ErrorPrefix| && r.1.value[..|ErrorPrefix|] == ErrorPrefix
    ensures fileType == Some("csv") && df.Some? ==>
      var names := if columns.None? then ObjectColumns(df.value) else columns.value;
      var j := FirstMissing(df.value, names);
      && (j < |names| ==> r == (None, Some(ErrorPrefix + KeyMessage(names[j]))))
      && (j == |names| ==> r.0.Some? && r.0.value.CleanedTable? && r.1.None?)
  {
    if IsTextType(fileType) then
      if text.None? then (None, Some(ErrorPrefix + "'NoneType' object has no attribute 'lower'"))
      else (Some(CleanedText(CleanText(text.value, stop, lem))), None)
    else if fileType == Some("csv") then
      if df.None? then
        if columns.None? then (None, Some(ErrorPrefix + "'NoneType' object has no attribute 'select_dtypes'"))
        else if |columns.value| == 0 then (None, None)
        else (None, Some(ErrorPrefix + "'NoneType' object is not subscriptable"))
      else
        var names := if columns.None? then ObjectColumns(df.value) else columns.value;
        match CleanColumns(df.value, names, stop, lem)
        case Ok(table) => (Some(CleanedTable(table)), None)
        case Err(message) => (None, Some(ErrorPrefix + message))
    else (None, Some(Unsupported))
  }

  /** Exactly one half of the pair is present, except for a CSV call with
      no data frame and an empty column list, which returns neither. */
  lemma PreprocessTextExactlyOne(text: Option<string>, fileType: Option<string>, df: Option<Table>,
                                 columns: Option<seq<string>>, stop: set<string>, lem: string -> string)
    ensures var r := PreprocessText(text, fileType, df, columns, stop, lem);
      (r.0.Some? != r.1.Some?) <==> !(fileType == Some("csv") && df.None? && columns == Some([]))
  {
  }

  /** The exception: a CSV call without a data frame and with an empty
      column list loops over nothing and returns (None, None). */
  lemma PreprocessTextNeither(stop: set<string>, lem: string -> string)
    ensures PreprocessText(None, Some("csv"), None, Some([]), stop, lem) == (None, None)
  {
  }

  /** The CSV branch on a data frame with distinct column names, every
      requested column present and each requested once: the row count and
      column order are kept, the requested columns (the object columns when
      none are given) are cleaned cell by cell, the rest are unchanged. */
  lemma PreprocessCsv(df: Table, columns: Option<seq<string>>, stop: set<string>, lem: string -> string)
    requires var names := if columns.None? then ObjectColumns(df) else columns.value;
      FirstMissing(df, names) == |names| && NoDuplicates(names)
    ensures var r := PreprocessText(None, Some("csv"), Some(df), columns, stop, lem);
      var names := if columns.None? then ObjectColumns(df) else columns.value;
      && r.1.None? && r.0.Some? && r.0.value.CleanedTable?
      && var t := r.0.value.table;
      && |t| == |df|
      && (forall k :: 0 <= k < |df| ==> t[k].name == df[k].name && |t[k].cells| == |df[k].cells|)
      && (forall k :: 0 <= k < |df| && df[k].name !in names ==> t[k] == df[k])
      && (forall k, i :: 0 <= k < |df| && df[k].name in names && 0 <= i < |df[k].cells| ==>
            t[k].cells[i] == StrCell(CleanText(Str(df[k].cells[i]), stop, lem)))
  {
    var names := if columns.None? then ObjectColumns(df) else columns.value;
    var c := CleanColumns(df, names, stop, lem);
    CleanColumnsKeeps(df, names, stop, lem);
    forall k, i | 0 <= k < |df| && df[k].name in names && 0 <= i < |df[k].cells|
      ensures c.value[k].cells[i] == StrCell(CleanText(Str(df[k].cells[i]), stop, lem))
    {
      assert c.value[k] == CleanColumn(df[k], stop, lem);
    }
  }

  /** By default every object column is cleaned: with distinct column
      names, no name is missing and none is selected twice. */
  lemma ObjectColumnsSelectable(df: Table)
    requires forall i, j :: 0 <= i < j < |df| ==> df[i].name != df[j].name
    ensures FirstMissing(df, ObjectColumns(df)) == |ObjectColumns(df)|
    ensures NoDuplicates(ObjectColumns(df))
  {
    var names := ObjectColumns(df);
    assert forall i :: 0 <= i < |names| ==> HasColumn(df, names[i]) by {
      forall i | 0 <= i < |names| ensures HasColumn(df, names[i]) {
        assert names[i] in names;
      }
    }
    ObjectColumnsNoDuplicates(df);
  }

  lemma {:induction false} ObjectColumnsNoDuplicates(df: Table)
    requires forall i, j :: 0 <= i < j < |df| ==> df[i].name != df[j].name
    ensures NoDuplicates(ObjectColumns(df))
    decreases |df|
  {
    if |df| > 0 {
      var tail := df[1..];
      ObjectColumnsNoDuplicates(tail);
      var rest := ObjectColumns(tail);
      forall n | n in rest ensures n != df[0].name {
        var k :| 0 <= k < |tail| && tail[k].name == n && tail[k].dtype == ObjectDType;
        assert tail[k] == df[k + 1];
      }
      if df[0].dtype == ObjectDType {
        var names := [df[0].name] + rest;
        forall i, j | 0 <= i < j < |names| ensures names[i] != names[j] {
          assert names[j] == rest[j - 1] && names[j] in rest;
          if i > 0 {
            assert names[i] == rest[i - 1];
          }
        }
      }
    }
  }
}
