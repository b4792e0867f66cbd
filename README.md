# twitter-sentiment-analysis, the bucketing core in Dafny

The program fetches a user's posts, scores each post's text for sentiment,
and draws one scatter plot per year. Each plot has 48 x-axis positions:
the twelve months, each cut into four "quarters of the month" (days 1–8,
9–16, 17–24 and 25–32).

This project models the part of `sentiment_analysis.py` that decides where a
score goes:

- `__split_days` classifies a day of the month into its quarter.
- `get_data_dict` groups `(timestamp, score)` pairs into buckets keyed
  `year-month-(quarter)`.
- `get_keys` lists the buckets: sorted, or filled out to the full grid of
  48 keys for every year between the smallest and the largest key.
- `get_alpha` chooses the transparency of a point from the largest bucket.
- `save_plot` picks the x-axis label of a key with the rule on lines 73–75.
- The emoji filter (`__filter_sentence`) and `__key_equals` are the two
  text helpers of `SentimentAnalysis`.

Modules, one per file:

- `Failures` (`failures.dfy`): the exceptions the core can raise, and a
  `Result` type.
  - `UnpackMismatch` is a tuple unpacking of a split with the wrong number of
    parts.
  - `InvalidLiteral` is a failing `int()`.
  - `DayOutOfRange` is the `ValueError` of `__split_days`.
  - `IndexOutOfRange` is `keys[0]` on an empty list, or `key[-2]` on a short key.
- `PyStr` (`pystr.dfy`): the Python string built-ins the core uses.
  - `str.split` with a one-character separator, and its inverse `join`.
  - `s[:-1]`.
  - `int()`, `str()` and `'{:02d}'` on integers.
  - The code-point order `<` that `list.sort()` uses on strings.
- `SentimentAnalysis` (`sentiment_analysis.dfy`): the emoji filter over code
  points, and `__key_equals`.
- `Grouping` (`grouping.dfy`): appending to a `defaultdict(list)`, and the
  grouping laws. These are stated for any key function that may raise.
- `KeySort` (`key_sort.dfy`):
  - `list(my_dict.keys())` as a method that fills a fresh array;
  - `keys.sort()` as an in-place sort of that array;
  - the smallest and the largest key.
- `PlotSentiment` (`plot_sentiment.dfy`): the operations of the
  `PlotSentiment` class.
  - `get_data_dict`, `get_keys` and `get_alpha` are methods with the loops
    of the source. Each is proved against a function that specifies it.
- `PlotSentimentLemmas` (`plot_lemmas.dfy`): properties that relate the
  operations.
  - The shape and order of the filled grid.
  - The keys that well-formed timestamps produce.
  - The coverage of the buckets by the grid.
  - The labels of grid keys.

Scores are values of a type parameter `V`: the model never looks at them.

## Model

| member | source | states |
|---|---|---|
| SentimentAnalysis.FilterSentence | sentiment_analysis.py:55-56 | Removing emoji never lengthens a text, and everything left is below U+10000 |
| SentimentAnalysis.FilterConcat | sentiment_analysis.py:23 | The one-code-point pattern acts position by position: filtering a concatenation concatenates the filtered pieces, so kept code points keep their order |
| SentimentAnalysis.FilterCounts | sentiment_analysis.py:55-56 | Every code point below U+10000 is kept exactly as often as it occurs, and every supplementary code point is removed |
| SentimentAnalysis.FilterIdentity | sentiment_analysis.py:55-56 | A text is left unchanged if and only if it contains no code point of U+10000..U+10FFFF |
| SentimentAnalysis.FilterIdempotent | sentiment_analysis.py:55-56 | Filtering twice is the same as filtering once |
| SentimentAnalysis.KeyEquals | sentiment_analysis.py:59-60 | True exactly when the (key, value) pair is one of the dictionary's items |
| PlotSentiment.SplitDays | sentiment_analysis.py:125-136 | A day text that `int()` rejects raises InvalidLiteral. Day d in 1..32 gives quarter (d-1)/8+1, which lies in 1..4. Every other integer raises DayOutOfRange(d) |
| PlotSentimentLemmas.SplitDaysRejects | sentiment_analysis.py:126-136 | Days 0 and 33 raise DayOutOfRange, and a day text that is not a number raises InvalidLiteral |
| PlotSentimentLemmas.SplitDaysFirstHalf | sentiment_analysis.py:64-65 | The range edges of the first two quarters: 1 and 08 give 1, 9 and 16 give 2 |
| PlotSentimentLemmas.SplitDaysSecondHalf | sentiment_analysis.py:66-67 | The range edges of the last two quarters: 17 and 24 give 3, 25 and 32 give 4 |
| PlotSentiment.GetDataDict | sentiment_analysis.py:92-101 | The in-place loop gives the grouping function's result. It fails exactly when some timestamp cannot be keyed. On success each bucket holds exactly the scores whose timestamp has that key, in input order. Every entry's key is present, and the buckets hold as many scores as there were entries |
| Grouping.AddScore | sentiment_analysis.py:100 | Appending adds the key if it is new, puts the value at the end of that key's list, and leaves every other list unchanged |
| Grouping.AddScoreSize | sentiment_analysis.py:100 | One append adds exactly one value to the total |
| Grouping.GroupByFailure | sentiment_analysis.py:94-99 | Grouping succeeds if and only if every key can be computed. On failure it raises the exception of the first entry whose key fails |
| Grouping.GroupByErrStays | sentiment_analysis.py:94-100 | After an exception, later entries are never looked at: the whole input fails like the prefix that failed |
| Grouping.GroupByContents | sentiment_analysis.py:93-100 | A key is present exactly when some entry has it, and its list equals the reference group: the entries with that key, in input order |
| Grouping.GroupHasEntry | sentiment_analysis.py:99-100 | Each entry's value is in the group of its own key |
| Grouping.GroupByEntries | sentiment_analysis.py:99-100 | Every entry's key is computed without error and is a key of the result |
| Grouping.GroupByKeys | sentiment_analysis.py:93-100 | Every key of the result is the key of some entry |
| Grouping.GroupByTotal | sentiment_analysis.py:92-101 | No score is lost or duplicated: the lists together hold as many values as there were entries |
| PlotSentimentLemmas.StampFieldsOf | sentiment_analysis.py:96-98 | A timestamp built from three dash-free date fields, a space and a time that splits into three fields after `[:-1]` yields exactly those date fields (the inverse of the three unpackings) |
| PlotSentimentLemmas.DateFields | sentiment_analysis.py:97 | A date joined from three dash-free fields splits back into those three fields |
| PlotSentimentLemmas.ClockFields | sentiment_analysis.py:98 | The `HH:MM:SS` part of a timestamp has no space, and still splits into three fields at the colons after its last character is dropped |
| PlotSentimentLemmas.CanonicalStampFields | sentiment_analysis.py:30 | The date fields of `str(created_at)` are the printed year, the zero-padded month and the zero-padded day |
| PlotSentimentLemmas.CanonicalStampKey | sentiment_analysis.py:96-99 | `str(created_at)` for a date in a four-digit year is keyed by its year, padded month and quarter of the month (day-1)/8+1. This is the same key `get_keys` generates |
| PlotSentimentLemmas.SameQuarterShareBucket | sentiment_analysis.py:92-101 | Two posts of one month whose days fall in the same quarter share one bucket, which holds both scores in input order |
| PlotSentimentLemmas.UnpaddedMonthOffGrid | sentiment_analysis.py:99 | The bucketizer copies the month as written. A one-digit month gives a 10-character key that is in no group of a four-digit-year grid, whose keys pad the month |
| KeySort.ListKeys | sentiment_analysis.py:104 | A fresh list of length len(d) that holds each key of d exactly once and nothing else |
| KeySort.SortKeys | sentiment_analysis.py:105 | The list is sorted in place: afterwards it is ascending under string `<` and a permutation of its old contents |
| KeySort.InsertKey | sentiment_analysis.py:105 | One pass of the sort: when the first i keys are ascending, afterwards the first i+1 are and are a permutation of the old first i+1, every key after position i is unchanged, and the list is a permutation of its old contents |
| KeySort.AscendingDistinct | sentiment_analysis.py:104-105 | A sorted list without repeated elements is strictly ascending |
| KeySort.LeastExists | sentiment_analysis.py:107 | A non-empty set of strings has a smallest element |
| KeySort.GreatestExists | sentiment_analysis.py:108 | A non-empty set of strings has a largest element |
| PlotSentiment.LeastIsFirst | sentiment_analysis.py:107 | `keys[0]` of the sorted key list is the smallest key |
| PlotSentiment.GreatestIsLast | sentiment_analysis.py:108 | `keys[-1]` of the sorted key list is the largest key |
| PlotSentiment.GetKeys | sentiment_analysis.py:103-117 | Unfilled: each key exactly once, in strictly ascending order, and nothing else. Filled: an empty dictionary raises IndexOutOfRange. Otherwise the result is the grid of years read from the first four characters of the smallest and the largest key, or the exception of `int()` |
| PlotSentiment.FillYears | sentiment_analysis.py:110-116 | The outer loop appends one group per year of range(min_year, max_year + 1) |
| PlotSentiment.FillYear | sentiment_analysis.py:111-116 | The month loop builds the 48 keys of one year |
| PlotSentiment.FillMonth | sentiment_analysis.py:114-115 | The quarter loop builds the four keys of one month |
| PlotSentiment.YearKeysAt | sentiment_analysis.py:113-115 | Position 4(month-1)+quarter-1 of a year's list holds the key of that month and quarter |
| PlotSentiment.YearGridAt | sentiment_analysis.py:110 | The grid has max_year-min_year+1 groups (none when max_year < min_year), and group i holds the keys of year min_year+i |
| PlotSentimentLemmas.GridKeyOrder | sentiment_analysis.py:113-115 | Within a year, a key of an earlier (month, quarter) is smaller as a string |
| PlotSentimentLemmas.YearKeysAscending | sentiment_analysis.py:111-116 | The 48 keys of a year are strictly ascending: the filled grid lists buckets in sorted order |
| PlotSentimentLemmas.YearKeysPrefix | sentiment_analysis.py:112-115 | Every key of a year starts with the year and a dash |
| PlotSentimentLemmas.GridKeyPrefix | sentiment_analysis.py:112-115 | A generated key is the printed year followed by a dash and the rest of the key |
| PlotSentimentLemmas.YearGridShape | sentiment_analysis.py:110-116 | Every group has 48 keys, is strictly ascending, and each of its keys starts with its own year |
| PlotSentimentLemmas.FilledKeysShape | sentiment_analysis.py:106-116 | A filled result has one group per year from the year of the smallest key to that of the largest, and each group is that year's 48 keys in ascending order |
| PlotSentimentLemmas.YearKeysBefore | sentiment_analysis.py:110-115 | With four-digit years, every key of an earlier year is smaller than every key of a later year |
| PlotSentimentLemmas.YearGridOrdered | sentiment_analysis.py:110-116 | With four-digit years, the groups read in order are strictly ascending across groups |
| PlotSentimentLemmas.YearOfGridKey | sentiment_analysis.py:107-108 | `int(key[:4])` reads back the year of a grid key of a four-digit year |
| PlotSentimentLemmas.GridKeyYearsOrdered | sentiment_analysis.py:107-108 | Of two grid keys in string order, the first has the smaller or equal year |
| PlotSentimentLemmas.InYearGrid | sentiment_analysis.py:110-115 | A grid key of a year in range lies in the group of that year |
| PlotSentimentLemmas.FilledCoversGridKeys | sentiment_analysis.py:106-116 | When every key has a four-digit year, a padded month 01..12 and a quarter 1..4, filling does not raise, and every key of year y is in group y - lo, where lo is the year of the smallest key (so every key is in some group) |
| PlotSentimentLemmas.FilledOwnYear | sentiment_analysis.py:106-116 | One such key of year y is in group y - lo of the filled grid |
| PlotSentimentLemmas.KeyYearBounds | sentiment_analysis.py:105-108 | The year of such a key lies between the years read from the smallest and the largest key |
| PlotSentimentLemmas.PostInOwnYear | sentiment_analysis.py:92-116 | The key of a post whose timestamp prints time t is in the group of t's year |
| PlotSentimentLemmas.CanonicalStampOnGrid | sentiment_analysis.py:96-99 | The key of any `str(created_at)` timestamp in a four-digit year is a grid key |
| PlotSentimentLemmas.CanonicalBucketsOnGrid | sentiment_analysis.py:92-116 | End to end: for a non-empty input of `str(created_at)` timestamps, bucketing does not raise, filling does not raise, every bucket appears in the filled grid, and the bucket of each post whose timestamp prints time t is in group t.year - lo, the group of its own year |
| PlotSentiment.GetAlpha | sentiment_analysis.py:119-123 | The result is max(0.05, 1/m) for the largest bucket size m, floored at 1. It lies in [0.05, 1] and is 1 exactly when no bucket holds more than one score (an empty map included) |
| PlotSentiment.MaxCountStep | sentiment_analysis.py:121-122 | One step of `max_count = max(max_count, len(value))` keeps max_count the maximum over the buckets seen so far |
| PlotSentiment.AlphaRange | sentiment_analysis.py:123 | max(0.05, 1/m) lies in [0.05, 1], and equals 1 exactly when every bucket holds at most one score |
| PlotSentiment.PlotLabel | sentiment_analysis.py:73-75 | Keys shorter than two characters raise IndexOutOfRange. The label is always a prefix of the key. It differs from the key exactly when `key[-2]` is '3' and the key is longer than 7, and then it has 7 characters |
| PlotSentimentLemmas.GridKeyLabel | sentiment_analysis.py:73-75 | On the grid, a third-quarter key is labelled `YYYY-MM` and every other key is its own label |
| PlotSentimentLemmas.GridKeyLength | sentiment_analysis.py:115 | A grid key of a four-digit year has 11 characters |
| PyStr.SplitParts | sentiment_analysis.py:96-98 | `split(sep)` gives one more part than there are separators, and no part contains the separator |
| PyStr.JoinSplit | sentiment_analysis.py:96-98 | Joining the parts of a split with the separator gives the string back |
| PyStr.SplitJoin | sentiment_analysis.py:96-98 | Splitting the join of separator-free parts gives the parts back |
| PyStr.SplitTwo | sentiment_analysis.py:96 | `(a + sep + b).split(sep)` is `[a, b]` for separator-free a and b |
| PyStr.SplitThree | sentiment_analysis.py:97-98 | `(a + sep + b + sep + c).split(sep)` is `[a, b, c]` for separator-free parts |
| PyStr.DropLast | sentiment_analysis.py:98 | `s[:-1]` with the last character put back is `s`; the empty string stays empty |
| PyStr.ParseInt | sentiment_analysis.py:126 | `int()` fails with InvalidLiteral of its argument, and a text starting with a digit reads as a non-negative number |
| PyStr.IntRoundTrip | sentiment_analysis.py:107-112 | `int(str(n)) == n` for every integer |
| PyStr.Pad2RoundTrip | sentiment_analysis.py:115 | `int('{:02d}'.format(n)) == n` |
| PyStr.FourDigitYear | sentiment_analysis.py:112 | `str(y)` of a year in 1000..9999 is four digits whose value is y |
| PyStr.Pad2Length | sentiment_analysis.py:115 | `'{:02d}'` of a number below 100 is two digits |
| PyStr.LexLessTotal | sentiment_analysis.py:105 | String `<` is total: of two different strings one is smaller |
| PyStr.LexLessTransitive | sentiment_analysis.py:105 | String `<` is transitive |
| PyStr.LexLessIrreflexive | sentiment_analysis.py:105 | No string is smaller than itself |
| PyStr.LexLessCommonPrefix | sentiment_analysis.py:105 | A common prefix does not change the order of two strings |
| PyStr.DigitsOrder | sentiment_analysis.py:105 | Digit strings of one length compare as strings the way their values compare as numbers |
| PyStr.YearOrder | sentiment_analysis.py:105-108 | Strings starting with different four-digit years are ordered by year, whatever follows |

## Left out

- Fetching posts (`__get_tweets`, `analyze_user`) is not modelled: it is network I/O against a third-party API.
- Scoring (`__sentiment_analysis` and the lexicon classifier it calls) is not modelled either. Scores are an opaque type parameter.
- `__timestamp_ms_to_datetime` is left out: it is floating-point division plus library calendar formatting.
- The rest of `save_plot` (figure, mean, axes, ticks, file writing), the plotting-library setup and `main` are left out: they are rendering, I/O and command-line glue.
- `get_alpha` uses exact reals rather than IEEE doubles.
- `PyStr.ParseInt` covers an optional sign followed by ASCII digits. `int()`'s acceptance of surrounding whitespace, of `_` between digits and of non-ASCII decimal digits is not modelled.
- `KeySort.SortKeys` sorts by insertion. Python's sort algorithm is not modelled; both produce the unique ascending permutation of the keys.
- Dictionary iteration order is not modelled. `KeySort.ListKeys` fills its array in an unspecified order, where Python lists the keys in insertion order. `PlotSentiment.GetAlpha` also visits the keys in an unspecified order. Neither the sorted list that `GetKeys` returns nor the maximum that `GetAlpha` computes depends on that order.
- Text is a sequence of code points (`SentimentAnalysis.CodePoint`). The regular-expression engine is not modelled: the pattern is a single character class, so a match is one code point.
- `PlotSentimentLemmas.DateTimeString` stands for `str(created_at)` only for naive times without fractional seconds in years 1000..9999. Timestamps with a UTC offset or microseconds are not covered by the timestamp lemmas. `StampKey` itself accepts any string.
- The three nested loops of the filled branch of `get_keys` are split into the methods `FillYears`, `FillYear` and `FillMonth`. They append in the same order as the source.
- The filled result is a `KeyList.Filled` value and the unfilled one a `KeyList.Flat` value, where Python returns a list of lists or a list.

Three details of the source that the model keeps as written:

- The bucket key uses the month as written in the timestamp (line 99), not a zero-padded month. `UnpaddedMonthOffGrid` shows the consequence.
- The label rule tests `key[-2] == '3'` and keeps `key[:7]` (lines 74–75).
- Timestamps are split at separators (lines 96–98), not at fixed widths.
