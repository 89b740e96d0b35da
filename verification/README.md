# NarrativeNexus analytics in Dafny

A model of the analytics core of NarrativeNexus, a Streamlit text-analysis
application. The model covers:

- the text normaliser of `data_preprocessing.py`:
  - `clean_text`: lower-case, replace every character outside
    `[a-zA-Z0-9.\s]` with a space, split on whitespace, drop stopwords,
    lemmatise, and rejoin with single spaces;
  - `preprocess_text`: the dispatch on file type, including the CSV branch
    over a data frame.
- the metrics of `metrics.py`:
  - word and sentence counts;
  - the sentiment bucketing and the sentiment distribution;
  - `top_tokens` (`Counter.most_common`);
  - the extractive and the templated summaries;
  - the readability grade;
  - the deterministic scaffolding of `extract_topics`.
- from `UI/analysis.py`:
  - the plain-text report of `generate_text_report`;
  - the bucketing of the readability grade into school levels.

External resources are parameters:

- the stopword list is a `set<string>`;
- the lemmatiser is a `string -> string` function;
- the VADER sentiment scores are a `map<string, real>`;
- the TF-IDF vectoriser and the LDA fit are functions that may fail;
- the report's generation time is a string.

Scores are exact `real`s.

Files (one module each):

| file | module | contents |
|---|---|---|
| text.dfy | Text | the Python string built-ins the code uses: `str.split()`, `str.split(sep)`, `sep.join`, `str.strip()`, ASCII case mapping, and substring occurrence |
| format.dfy | Format | decimal rendering, padding, `{:,}`, half-even rounding, `{:.Nf}` and `str(round(x, 2))` |
| results.dfy | Results | `Option` and `Result` |
| preprocessing.dfy | Preprocessing | `clean_text`, `preprocess_text`, data frames |
| metrics.dfy | Metrics | `word_count`, `sentence_count`, `readability_score` |
| sentiment.dfy | Sentiment | `sentiment_to_emoji`, `sentiment_distribution` |
| keywords.dfy | Keywords | `Counter`, `most_common`, `top_tokens` |
| summary.dfy | Summary | `simple_summary`, `comprehensive_summary` |
| topics.dfy | Topics | `extract_topics` |
| report.dfy | Report | `generate_text_report`, readability levels |

## Model

| member | source | states |
|---|---|---|
| Preprocessing.Scrub | data_preprocessing.py:23 | The substitution keeps the length. It keeps a character exactly when it is an ASCII letter, a digit, a period or whitespace, and turns every other character into a space. |
| Preprocessing.Unstopped | data_preprocessing.py:25 | The filtered list is no longer than the input. Every token it keeps comes from the input and is not a stopword. Every input token that is not a stopword is kept. A single token is kept exactly when it is not a stopword. |
| Preprocessing.UnstoppedAppend | data_preprocessing.py:25 | Filtering a concatenation is filtering each part and concatenating. With the single-token case, this fixes the result as the input with the stopwords removed, in order and with repeats. |
| Preprocessing.TokensCharacters | data_preprocessing.py:22-25 | Every token that reaches the lemmatiser is non-empty, holds no whitespace, and is not a stopword. It consists only of lower-case ASCII letters, digits and periods. |
| Preprocessing.CleanTextNoContent | data_preprocessing.py:21-27 | Text with no ASCII letter, digit or period cleans to "". This covers the empty text and punctuation-only text. |
| Preprocessing.CleanTextEmpty | data_preprocessing.py:24-27 | Text whose every token is a stopword cleans to "". When the lemmatiser never returns "", these are the only texts that clean to "" (both directions). |
| Preprocessing.CleanTextTokens | data_preprocessing.py:24-27 | Assume the lemmatiser returns single words. Then splitting the cleaned text gives back exactly the lemmas of the surviving tokens, in order. The text is the single-space join of its own tokens, so it has no leading, trailing or doubled spaces. It has no more tokens than the substituted text. |
| Preprocessing.CleanTextIdempotent | data_preprocessing.py:21-27 | With the identity lemmatiser, cleaning cleaned text changes nothing. |
| Preprocessing.StrReadsBack | data_preprocessing.py:47 | `str` of a text cell is the text. `str` of an integer cell starts with '-' exactly when the integer is negative. The rest is canonical decimal (digits only, no leading zero unless it is "0") and spells the integer's magnitude. |
| Preprocessing.CleanColumn | data_preprocessing.py:47 | `astype(str).apply(clean_text)` keeps the column name and row count and yields an object column. Cell i becomes the cleaned rendering of cell i. |
| Preprocessing.ObjectColumns | data_preprocessing.py:43-44 | The default selection names every object-typed column, and names nothing else. |
| Preprocessing.CleanColumns | data_preprocessing.py:46-47 | The loop succeeds exactly when every requested column exists. Otherwise it fails with the `KeyError` message of the first missing one. |
| Preprocessing.CleanColumnsKeeps | data_preprocessing.py:46-49 | When the loop succeeds, the table keeps its columns in order, with their names and row counts. Columns not requested are unchanged. Each column requested once is cleaned cell by cell. |
| Preprocessing.PreprocessText | data_preprocessing.py:30-54 | txt/pdf input gives the cleaned text and no error. txt/pdf without text gives the `AttributeError` message. Any other type except csv gives "Unsupported file type.". An error never comes with data. Every csv error starts with "Preprocessing error: ". A csv call on a frame gives the `KeyError` of the first missing column, or a table. |
| Preprocessing.PreprocessTextExactlyOne | data_preprocessing.py:35-54 | Exactly one half of the returned pair is present, unless the call is csv with no frame and an empty column list (both directions). |
| Preprocessing.PreprocessTextNeither | data_preprocessing.py:42-49 | A csv call with no frame and an empty column list returns (None, None). |
| Preprocessing.PreprocessCsv | data_preprocessing.py:42-49 | Take a frame whose requested columns (by default its object columns) all exist and are requested once. The csv branch then returns a table with the same row count and column order. The requested columns are cleaned cell by cell and the others are unchanged. |
| Preprocessing.ObjectColumnsSelectable | data_preprocessing.py:43-47 | On a frame with distinct column names, the default selection has no missing and no repeated name. |
| Metrics.WordCount | metrics.py:21-22 | The word count is the number of maximal runs of non-whitespace characters. It is at most the length of the text. |
| Metrics.NonBlank | metrics.py:26 | The non-blank segments are non-blank segments of the input, and there are no more of them than segments. There are none exactly when every segment is blank. A single segment is kept exactly when it is not blank. |
| Metrics.NonBlankAppend | metrics.py:26 | Filtering a concatenation is filtering each part and concatenating. With the single-segment case, this fixes the result as the segments with the blank ones removed, in order and with repeats. |
| Metrics.SentenceCount | metrics.py:25-26 | The sentence count is at most the number of periods plus one. It is 0 exactly when the text holds only whitespace and periods. |
| Metrics.BlankSegments | metrics.py:26 | Every segment of `text.split(".")` is blank exactly when the text holds only whitespace and periods. |
| Metrics.Round1 | metrics.py:188 | `round(x, 1)` lies within 0.05 of x and is a whole number of tenths. At a tie it is the even number of tenths. |
| Metrics.Round1Unique | metrics.py:188 | Those three properties determine `round(x, 1)`: any value that has them is Round1(x). |
| Metrics.ReadabilityScore | metrics.py:175-188 | The score is never negative and is a whole number of tenths. It is 0 without sentences and 0 when the grade formula is not positive. Otherwise it is within 0.05 of the formula, and at a tie it is the even number of tenths. |
| Sentiment.Score | metrics.py:35-37 | `dict.get(key, 0)`: the stored value when the key is present, otherwise 0. |
| Sentiment.ToneOf | metrics.py:85-90 | Positive exactly above 0.2, negative exactly below -0.2, neutral in between with both bounds included. |
| Sentiment.SentimentToEmoji | metrics.py:41-47 | " Positive" exactly above 0.2, " Negative " exactly below -0.2, " Neutral" otherwise. |
| Sentiment.SentimentDistribution | metrics.py:33-38 | The result has exactly the keys Positive, Negative and Neutral. Each value is the oracle's pos/neg/neu proportion, or 0 when that proportion is missing. |
| Keywords.Distinct | metrics.py:66 | The key order of `Counter`: exactly the tokens of the input, in order of first occurrence. |
| Keywords.SortedTally | metrics.py:66 | The fully sorted tally has one entry per distinct token, each with its exact positive count. It is in `most_common` order, and every token of the input appears in it. |
| Keywords.MostCommonLength | metrics.py:64-66 | `most_common(n)` has min(n, number of distinct tokens) entries, and none when n is not positive. It is a prefix of the sorted tally. |
| Keywords.MostCommonCounted | metrics.py:64-66 | Every reported entry is a token of the text with its exact count. |
| Keywords.MostCommonRanked | metrics.py:66 | Counts never increase along the report. Equal counts appear in order of first occurrence. |
| Keywords.MostCommonDistinct | metrics.py:66 | No token is reported twice. |
| Keywords.MostCommonComplete | metrics.py:66 | A token left out of the report ranks after every reported one. |
| Keywords.MostCommonCountsBounded | metrics.py:64-66 | The reported counts add up to at most the number of tokens. |
| Summary.SimpleSummaryShort | metrics.py:74-75 | With fewer than two periods, the summary is the first min(len, 1000) characters of the text followed by "...". |
| Summary.SimpleSummaryLead | metrics.py:71-73 | With at least two periods, the summary starts with the text before the first period, stripped, then ". ". |
| Summary.SimpleSummaryLast | metrics.py:71-73 | With at least two periods, the summary ends with the text between the last two periods, stripped, then ".". |
| Summary.SimpleSummaryExact | metrics.py:71-73 | With at least two periods, the summary is exactly the stripped text before the first period, ". ", the stripped text between the last two periods, and ".". |
| Summary.ToneDescription | metrics.py:85-90 | Each tone phrase is given for exactly its tone bucket. |
| Summary.ComplexityDescription | metrics.py:93-99 | "sophisticated" exactly when characters per word exceed 6. "moderate" exactly when the ratio lies in (4.5, 6]. "simple" exactly when it is at most 4.5. Each is stated as integer cross-products. |
| Summary.Terms | metrics.py:102 | The key terms are the lower-cased tokens of the first five entries, in order. |
| Summary.KeyTermsReadBack | metrics.py:102 | Take tokens without commas. Splitting the key-term list on ',' then gives the first lower-cased token, and each following one behind one space. |
| Summary.ComprehensiveSummary | metrics.py:78-107 | The paragraph opens with "This text contains {wc} words organized across {sc} sentences, maintaining a {tone}. ", where the tone is that of the compound score (0 when missing). It names the complexity phrase right after "The content demonstrates ". It ends with " including ", the key-term list, ". " and the fixed closing sentence. |
| Summary.ComprehensiveSummaryCounts | metrics.py:80-105 | Any digit strings that fill the two slots of "This text contains _ words organized across _ " in the paragraph are exactly the decimal word and sentence counts, and read back as them. |
| Topics.TopicSentences | metrics.py:146 | There is one sentence per non-blank segment, as many as `sentence_count`. Sentence k is the k-th non-blank segment, stripped. Each is non-empty, period-free and has no surrounding whitespace. |
| Topics.Documents | metrics.py:152 | The vectoriser sees the first min(n, 100) sentences. |
| Topics.TopicCount | metrics.py:147-156 | Every case of the two steps: a non-positive request is kept. A request of at most min(n, 100) is kept. A request above 100 with at least that many sentences becomes 100. With fewer sentences than requested, the count is 0 for no sentences, 1 for one, n - 1 for 2 to 101, and 100 above. It never exceeds min(n, 100) or a positive request. |
| Topics.SortIndices | metrics.py:166 | The sorted indices are a permutation of 0..n-1, ordered by non-increasing weight. |
| Topics.TopIndicesSpec | metrics.py:166 | The top indices are min(5, len) distinct indices in non-increasing weight. No index left out outweighs a chosen one. |
| Topics.Label | metrics.py:168 | Topic i is labelled "Topic " followed only by digits, with no leading zero, that spell i + 1. |
| Topics.LookUp | metrics.py:167 | The look-up succeeds exactly when every index is inside the vocabulary, and then yields the terms at those indices. |
| Topics.TopTerms | metrics.py:166-167 | A topic's terms are found exactly when its top indices fit the vocabulary, and always when the row is no longer than the vocabulary. There are min(5, len) of them. Term a is the vocabulary word at the a-th heaviest index, so terms come in non-increasing weight. |
| Topics.LabelTopics | metrics.py:165-168 | There is one topic per weight row. Each is labelled by its position and holds that row's top terms. |
| Topics.ExtractTopics | metrics.py:143-172 | A vectoriser, fit or look-up failure gives the single Error entry with its message. On success there is one topic per fitted row. Topic i is labelled "Topic i+1" and its terms are that row's top terms: at most five vocabulary words, heaviest first. |
| Report.ReportLabel | UI/analysis.py:18-23 | POSITIVE exactly above 0.2, NEGATIVE exactly below -0.2, NEUTRAL in [-0.2, 0.2]. |
| Report.ReportLabelAgrees | UI/analysis.py:18-23 | The report label and the emoji label bucket every score alike. |
| Report.AvgWordLength | UI/analysis.py:39 | The average times max(wc, 1) is the character count. It is defined (the length itself) when there are no words. |
| Report.PercentagesOfScores | UI/analysis.py:47-49 | Each percentage is the oracle's proportion times 100, and 0 when the proportion is missing. |
| Report.KeywordLinesSplit | UI/analysis.py:56-57 | Take tokens without newlines. The keyword section then has exactly one line per entry, in input order, numbered from 1, followed by the empty remainder after the last newline. |
| Report.KeywordLineLayout | UI/analysis.py:57 | The line is laid out in columns. First come spaces, then the digits of i, right-aligned in at least two columns; they read back as i. Then come ". " and the upper-cased token, space-filled to at least 20 columns. The line ends with " (frequency: count)", and the count reads back. |
| Report.TitleSection | UI/analysis.py:27-32 | The title block carries "Generated: ", the generation time and a newline. |
| Report.MetricsSection | UI/analysis.py:34-40 | Each metric value sits between its caption and the end of its line: word count, sentence count, average word length and character count. |
| Report.SentimentSection | UI/analysis.py:42-49 | Each sentiment value sits between its caption and the end of its line: the overall label and the compound score, then the three percentages, each followed by '%'. |
| Report.Render | UI/analysis.py:27-68 | For any rendered values, the report carries the generation time and every value between its caption and the end of its line. It ends with the TOP KEYWORDS heading, then exactly the keyword lines, then the SUMMARY heading, the summary verbatim and the END OF REPORT banner. |
| Report.ReportText | UI/analysis.py:27-49 | The same captioned lines for the values the report computes: `str` of the word and sentence counts, `str(round(avg, 2))`, the comma-grouped character count, the label, the compound score to four places and the percentages to one place. |
| Report.ReportTextEnding | UI/analysis.py:50-68 | The report ends with the TOP KEYWORDS heading, then exactly the numbered keyword lines, then the SUMMARY heading, the summary verbatim and the END OF REPORT banner. |
| Report.GenerateTextReport | UI/analysis.py:12-69 | The report exists exactly when the compound score does. A missing score raises `KeyError('compound')`. |
| Report.ReadabilityLevel | UI/analysis.py:257-271 | Elementary below 6, Middle in [6, 9), High in [9, 13), College in [13, 16), Graduate from 16 up (each an if-and-only-if). |
| Report.LevelMonotone | UI/analysis.py:257-271 | A higher grade never shows a lower level. |
| Format.GroupThousandsValue | UI/analysis.py:40 | The digits of the comma-grouped rendering `{:,}` spell the number back. |
| Format.GroupThousandsLayout | UI/analysis.py:40 | The comma-grouped rendering `{:,}` is digits with a comma before every third digit from the right and nowhere else. It starts with '0' only for 0. |
| Format.CanonicalUnique | UI/analysis.py:37 | A canonical decimal string (digits only, no leading zero unless it is "0") is `str` of the number it spells. So "canonical and spells n" pins the rendering of n. |
| Format.FormatFixedReadsBack | UI/analysis.py:46-49 | `{x:.Nf}` starts with a minus sign exactly for negative x. Its digits spell abs(x)·10^N rounded half-to-even. When N > 0, the point is followed by exactly N digits. Between the sign and the point is the canonical integer part. |
| Format.Repr2ReadsBack | UI/analysis.py:39 | `str(round(x, 2))` has one or two digits after the point, and no trailing zero when it has two. Before the point is the canonical integer part. Read with that many decimals, its digits spell x rounded half-to-even to hundredths. |

## Left out

- VADER scoring (`sentiment_analysis`, metrics.py:29-30): the score map is an input.
- TF-IDF vectorisation and the LDA fit (metrics.py:151-159): they are function parameters. Their numerics, `max_features` and the English stop list are not modelled.
- Topics.SortIndices: numpy leaves the order of equal weights open, and the model picks the higher index first. Topics.TopIndicesSpec states only what holds for every tie order.
- Topics.ExtractTopics: a weight row longer than the vocabulary gives numpy's index error. sklearn never produces one.
- The NLTK downloads, the stopword list and the WordNet lemmatiser: they are parameters.
- `load_processed_text` (file I/O), `sentiment_distribution_chart` (plotting), the Streamlit pages, session state and exports: presentation and I/O.
- `datetime.now()` in the report: the formatted time is a parameter.
- Floating point: scores are exact reals, and rounding is half-to-even on the exact value. Binary representation effects are not modelled. `repr` of floats with an exponent (at least 1e16, or below 1e-4) is not modelled either.
- Format.Repr2: requires a non-negative value. Average word length is never negative.
- Case mapping is ASCII only. Python's `str.lower()`/`str.upper()` also map non-ASCII letters, and some map to ASCII (KELVIN SIGN to 'k', and 'İ' to "i̇"). Those characters are not modelled.
- Preprocessing data frames: cells are text, integers, booleans or NaN. Float columns (and NaN in an integer column, which makes it float) are not modelled.
- Preprocessing.CleanColumnsKeeps: states the exact cleaned contents only for columns requested once. A column requested twice is cleaned twice. With duplicate column labels, pandas returns a sub-frame; that is not modelled.
- Preprocessing.PreprocessCsv: requires distinct requested names that all exist. The error cases are stated by Preprocessing.PreprocessText.
- Preprocessing.PreprocessText: when a later column is missing, the caller's frame has already been mutated in place for the earlier columns. That is not modelled. The `KeyError` message is modelled as the name in single quotes. That is Python's `repr` only for names without quotes, backslashes or non-printable characters.
- Preprocessing.PreprocessTextExactlyOne: "exactly one half of the pair is present" fails for a csv call with no frame and an empty column list, which returns (None, None). The lemma states the exception, and Preprocessing.PreprocessTextNeither exhibits it.
- Summary.SimpleSummary: carries no contract of its own. Its properties are the lemmas Summary.SimpleSummaryShort, Summary.SimpleSummaryLead, Summary.SimpleSummaryLast and Summary.SimpleSummaryExact.
- Summary.ComprehensiveSummary: states the opening sentence exactly, and the key terms and closing sentence as the exact ending. The complexity phrase is stated only as following "The content demonstrates ". The fixed words " primary focus on topics" in between are not stated.
- Report.ReportText: states each captioned line and the exact ending from the TOP KEYWORDS heading on. The title banner and the rules and blank lines between the sections are not stated character by character.
- Keywords.TopTokens: carries no contract of its own. It is `most_common` over `str.split()`, and the Keywords.MostCommon lemmas describe it.
