# YouTube analytics ETL — verified model of the core

This project models the sequential core of a small YouTube analytics ETL script and proves
properties of that model. The script pulls public video information, interval metrics and
comment threads from the YouTube APIs, then pseudonymises comment authors before export.

The model covers five pieces of that code:

- **Duration formatting** (`parse_duration`). Total seconds are split by `divmod` into
  unpadded minutes and two-digit seconds (`M:SS`). Hours fold into minutes. `'N/A'` is
  returned exactly when the ISO-8601 parse fails.
- **Comment anonymiser** (`anonymize_comments`). A mutable author mapping gives each
  distinct author `User1`, `User2`, … in first-encounter order. The official account
  `@UniversiteitvanVlaanderen` is exempt. Every comment text is then rewritten with one
  literal replace-all of `'@'+author` by `'@'+pseudonym` per mapping entry, in insertion
  order.
- **Generic video info** (`get_generic_info`). One data-API request carries every id. It
  yields one record per returned item, with shares looked up separately and a missing
  counter read as 0. The whole call yields `None` when the request raises, when it
  returns no items, or when an item's counter is not an integer.
- **Metrics over time** (`get_metrics_over_time`). This builds one wide row per video:
  `id`, `publish_date`, then all `views_*`, `likes_*`, `dislikes_*`, `shares_*` and
  `comments_*` columns, each group in interval order 24h, 1w, 2w, 1m, 2m, 3m. An interval
  is handled in one of four ways:
  - not yet elapsed: absent markers, and no query is made;
  - the query returns no rows: absent markers;
  - the query raises: the interval writes no key;
  - the query returns rows: the first row's values fill the keys.
- **Comment flattening** (`get_video_comments`). This paginates each video's comment
  threads with a continuation token and emits every top-level comment followed by its
  replies, linked to it by `parent_comment_id`. Pagination stops when no token comes
  back, and a failing page stops only that video. An empty overall result is `None`.

Every API request is a parameter of the model: a function that returns `None` when the
request raises, and otherwise the response's rows or items. Dates are integer day numbers.

Modules:

| module | file | covers |
|---|---|---|
| `Wrappers` | `Wrappers.dfy` | the `Option` datatype |
| `Decimal` | `Decimal.dfy` | Python's `str()` and `int()` on decimal digit strings |
| `Helpers` | `Helpers.dfy` | `lib/helpers.py` |
| `VideoInfo` | `VideoInfo.dfy` | `get_generic_info` |
| `Analytics` | `Analytics.dfy` | `get_metrics_over_time` |
| `Comments` | `Comments.dfy` | `get_video_comments` |

Each mutating routine of the source is an imperative method proved against a
specification function:

| method | specification function |
|---|---|
| `AuthorMapping.GetAnonymizedAuthor` | `DistinctAuthors` and `Alias` |
| `AnonymizeText` | `Rewritten` |
| `GetGenericInfo` | `GenericInfo` |
| `GetMetricsOverTime` and `VideoRow` | `RowOf` |
| `GetVideoComments` | `CommentsTable` |

The lemmas then state what the source promises about those functions.

One might expect mentions of the exempt identity never to be rewritten. The code only
guarantees that the exempt identity's own pattern is never applied, because it never enters
the mapping. The replacement has no word boundary, so an author whose name is a proper prefix
of the exempt name rewrites the head of a mention of it. `Helpers.ExemptMentionRewritten` exhibits
this. A related observation: display names already begin with `@`, so the pattern the code
looks for is `@@name`. `Helpers.DoubleAtPatterns` shows that a text without `@@` is never
changed. Both are stated as facts about the code rather than as defects, since the intended
behaviour is not certain.

## Model

| member | source | states |
|---|---|---|
| `Decimal.FromNat` | lib/helpers.py:17 | `str(n)` of a natural number is a non-empty digit string that starts with `0` only for 0 |
| `Decimal.FromInt` | lib/helpers.py:17 | `str(i)` starts with `-` exactly when `i` is negative |
| `Decimal.ParseNat` | lib/youtube.py:84-88 | reading an unsigned counter succeeds exactly on the plain digit strings the API's counters carry: non-empty and all ASCII digits |
| `Decimal.ParseInt` | lib/youtube.py:84-88 | a text without a leading `-` is read as an unsigned number |
| `Decimal.ValueOfFromNat` | lib/helpers.py:17 | the digits `str(n)` prints denote `n` |
| `Decimal.ParseFromNat` | lib/youtube.py:84-88 | `int(str(n)) == n` for every natural `n` |
| `Decimal.ParseFromInt` | lib/helpers.py:16-17 | `int(str(i)) == i` for every integer, negatives included |
| `Decimal.FromNatInjective` | lib/helpers.py:55 | two numbers print the same exactly when they are equal |
| `Helpers.SplitSeconds` | lib/helpers.py:16 | `divmod(total, 60)` gives `60*minutes + seconds == total` and `0 <= seconds < 60`; minutes are not capped |
| `Helpers.TwoDigits` | lib/helpers.py:17 | seconds are printed as exactly two digits whose value is the seconds |
| `Helpers.ClockRoundTrip` | lib/helpers.py:16-17 | reading the `M:SS` text back gives the total number of seconds |
| `Helpers.ParseDuration` | lib/helpers.py:14-20 | the result is `'N/A'` exactly when the parse fails; otherwise it is the `ClockText` of the parsed seconds and reads back to them |
| `Helpers.ClockText` | lib/helpers.py:17 | the `M:SS` text: a colon before two digits of seconds, a minus sign exactly for a negative total, and unpadded minutes (a leading `0` is the whole minute field) |
| `Helpers.ClockExamples` | lib/helpers.py:9-17 | 659 s gives `10:59`, 3900 s (one hour five) gives `65:00`, 59 s gives `0:59` |
| `Helpers.Pseudonym` | lib/helpers.py:55 | every pseudonym is `User` followed by at least one character |
| `Helpers.PseudonymInjective` | lib/helpers.py:55 | `User<j> == User<k>` exactly when `j == k` |
| `Helpers.PseudonymIsNotExempt` | lib/helpers.py:52-55 | no pseudonym equals the exempt identity |
| `Helpers.DistinctAuthorsDistinct` | lib/helpers.py:52-56 | the mapping's keys are inserted once each, and the exempt identity is never one of them |
| `Helpers.DistinctAuthorsMembers` | lib/helpers.py:52-56 | every non-exempt author of the column becomes a key, and only column authors do |
| `Helpers.DistinctAuthors` | lib/helpers.py:50-57 | defines the keys of `author_mapping` in insertion order after the author pass: the distinct non-exempt authors in order of first appearance |
| `Helpers.MappingOf` | lib/helpers.py:54-56 | defines `author_mapping` after inserting keys one by one, the k-th mapped to `User<k>` |
| `Helpers.Alias` | lib/helpers.py:50-57 | defines what `get_anonymized_author` returns: the exempt identity itself, otherwise the author's entry in the mapping |
| `Helpers.MappingKeys` | lib/helpers.py:54-55 | the keys of the mapping are exactly the inserted authors |
| `Helpers.MappingOfAt` | lib/helpers.py:54-56 | the i-th inserted author maps to `User<i+1>` |
| `Helpers.AliasPrefix` | lib/helpers.py:54-57 | stability: an author already in the mapping keeps the same pseudonym however many keys are inserted later |
| `Helpers.ReplaceAll` | lib/helpers.py:65 | defines `re.sub` of an escaped pattern: literal, left-to-right, non-overlapping replacement of every occurrence |
| `Helpers.Rewritten` | lib/helpers.py:63-66 | defines `anonymize_text`: one replace-all of `'@'+author` by `'@'+User<k>` per mapping entry, in insertion order |
| `Helpers.AnonymizedAuthors` | lib/helpers.py:60 | the author column keeps its length |
| `Helpers.AnonymizedTexts` | lib/helpers.py:68 | the text column keeps its length |
| `Helpers.AuthorMapping.constructor` | lib/helpers.py:47-48 | starts with an empty mapping and `user_count == 1` |
| `Helpers.AuthorMapping.GetAnonymizedAuthor` | lib/helpers.py:50-57 | exempt and known authors leave the mapping unchanged; a new author is appended; the returned alias is its pseudonym; the mapping stays injective with `user_count` one more than the number of keys |
| `Helpers.AuthorMapping.AnonymizeText` | lib/helpers.py:63-66 | the text after one literal replace-all per mapping entry, in insertion order |
| `Helpers.AnonymizeAuthorColumn` | lib/helpers.py:60 | the new column is the per-row alias; the keys are the distinct non-exempt authors in first-encounter order; `user_count` is one more than their number |
| `Helpers.AnonymizeTextColumn` | lib/helpers.py:68 | each text is rewritten by the final mapping, row by row |
| `Helpers.AnonymizeComments` | lib/helpers.py:38-70 | both columns are replaced by their anonymised versions, the texts using the mapping built by the author pass |
| `Helpers.AuthorAlias` | lib/helpers.py:52-60 | an exempt row keeps its identity; any other row becomes `User<k>`, where its author is the k-th distinct author and `1 <= k < user_count` |
| `Helpers.ExemptPassesThrough` | lib/helpers.py:52-53 | an output author is the exempt identity exactly when the input author is |
| `Helpers.AliasInjective` | lib/helpers.py:54-57 | two rows get the same output author exactly when they had the same input author |
| `Helpers.ExemptNeverMapped` | lib/helpers.py:52-53 | the exempt identity never enters the mapping, so its own mention pattern is never applied |
| `Helpers.FirstEncounterOrder` | lib/helpers.py:54-56 | `User<p+1>`'s author first appears before `User<q+1>`'s when `p < q` |
| `Helpers.DistinctAuthorCount` | lib/helpers.py:48-56 | the number of keys equals the number of distinct non-exempt authors |
| `Helpers.ReplaceAllAbsent` | lib/helpers.py:65 | a replace-all whose pattern does not occur leaves the text unchanged |
| `Helpers.RewrittenAbsent` | lib/helpers.py:63-66 | a text mentioning no mapped author is unchanged by the rewrite |
| `Helpers.UnmentionedTextUnchanged` | lib/helpers.py:63-68 | a comment that mentions no author of the column is left as it was |
| `Helpers.DoubleAtPatterns` | lib/helpers.py:52-65 | when every author starts with `@`, a text without `@@` is left as it was |
| `Helpers.ExemptMentionRewritten` | lib/helpers.py:63-66 | an author that is a proper prefix of the exempt name rewrites the head of a mention of the exempt identity |
| `Helpers.AuthorExample` | lib/helpers.py:50-60 | the column `@a, @b, @a, exempt` becomes `User1, User2, User1, exempt` |
| `VideoInfo.JoinIds` | lib/youtube.py:65 | defines `','.join(video_ids)` |
| `VideoInfo.Counter` | lib/youtube.py:84-88 | defines `int(statistics.get(key, 0))`: 0 for a missing counter, the parsed value of a present one, `None` when it does not parse |
| `VideoInfo.RecordOf` | lib/youtube.py:73-89 | defines the record of one item: id, title, publish date, formatted duration, the four counters and the looked-up shares; `None` when a counter raises |
| `VideoInfo.RecordsOf` | lib/youtube.py:71-89 | defines the records of all items in item order, `None` as soon as one item raises |
| `VideoInfo.GenericInfo` | lib/youtube.py:62-96 | defines the whole call: `None` when the request raises or returns no items, else the records of the items |
| `VideoInfo.JoinSplit` | lib/youtube.py:63-66 | the single request's comma-joined id parameter splits back into every id, in order |
| `VideoInfo.GetGenericInfo` | lib/youtube.py:54-99 | the returned table is `GenericInfo`: `None` on a raising or empty request, else the records of all items |
| `VideoInfo.RecordsNonePropagates` | lib/youtube.py:71-96 | an item whose record raises makes the whole call return `None` |
| `VideoInfo.RecordsInOrder` | lib/youtube.py:71-89 | one record per item, in item order, each built from its own item |
| `VideoInfo.RecordsFailOnlyOnBadItem` | lib/youtube.py:71-96 | records are produced exactly when every item can be turned into a record |
| `VideoInfo.RecordFields` | lib/youtube.py:73-88 | a record holds its item's id, title and publish date; shares as looked up (absent stays absent); `N/A` duration exactly when the parse fails; a missing counter is 0, a present one its parsed value |
| `VideoInfo.CounterReadsDigits` | lib/youtube.py:84-88 | a counter given as decimal digits is read as its value |
| `VideoInfo.GenericInfoNone` | lib/youtube.py:62-96 | the call fails exactly when the request raises, returns no items, or some item cannot be turned into a record |
| `Analytics.CellFor` | lib/youtube.py:174-213 | defines the cell a metric gets for an interval: `None` marker when not elapsed or the response has no rows, no column when the query raises or the first row lacks that metric, else the metric's value |
| `Analytics.Group` | lib/youtube.py:173-213 | defines the `temp_<metric>` dict after the first `n` intervals: one column per interval that got a cell, in interval order |
| `Analytics.RowOf` | lib/youtube.py:160-220 | defines one video's row: `id`, `publish_date`, then the views, likes, dislikes, shares and comments groups in that order |
| `Analytics.GetMetricsOverTime` | lib/youtube.py:153-223 | one row per input video, in input order, each equal to that video's `RowOf` |
| `Analytics.VideoRow` | lib/youtube.py:158-220 | the per-interval loop and the five merges build exactly `RowOf` |
| `Analytics.NullEntries` | lib/youtube.py:177-210 | an interval not yet elapsed, or one whose response has no rows, writes an absent marker under each of the five keys |
| `Analytics.RaisedEntries` | lib/youtube.py:212-213 | an interval whose query raises writes no key |
| `Analytics.FetchedEntries` | lib/youtube.py:195-203 | a non-empty response writes `row_data[0..4]` to views, likes, dislikes, shares and comments, up to the point where a short row raises |
| `Analytics.Merge` | lib/youtube.py:160-220 | `id`, `publish_date`, then the five groups merged in order, give `RowOf` |
| `Analytics.GroupKeys` | lib/youtube.py:173-210 | a metric's group holds only that metric's keys, in strictly increasing interval order |
| `Analytics.GroupLookup` | lib/youtube.py:173-213 | looking a metric's interval up in its group gives that interval's cell |
| `Analytics.RowLookup` | lib/youtube.py:160-220 | the row maps `id` to the video id, `publish_date` to the publish date, and each metric key to its interval's cell |
| `Analytics.MetricCell` | lib/youtube.py:174-213 | a cell is absent-marked when the interval ends after today; when it has elapsed, a raising query leaves no key, an empty response gives an absent marker, and rows give the metric's value |
| `Analytics.QueriedOnlyWhenElapsed` | lib/youtube.py:174-193 | two queries that agree on elapsed intervals give the same row, so no query is made for a future interval |
| `Analytics.SchemaKeyOfRank` | lib/youtube.py:144-151 | every key has its own position below 32, from which `SchemaKey` reads it back |
| `Analytics.RankOfSchemaKey` | lib/youtube.py:144-151 | every position below 32 holds the key of that rank; with `SchemaKeyOfRank`, positions and keys correspond one to one |
| `Analytics.RowKeyOrder` | lib/youtube.py:144-220 | the row's keys follow the schema order strictly, so no key repeats |
| `Analytics.FullSchema` | lib/youtube.py:144-220 | when no interval's query raises and no response row is short, the row has all 32 keys in schema order |
| `Analytics.PublishedTodayAllNull` | lib/youtube.py:174-183 | for a video published today, all 32 columns exist and every metric cell is an absent marker |
| `Comments.TopLevelRecord` | lib/youtube.py:258-272 | defines a top-level comment's record: the thread id, no parent, `is_reply` false |
| `Comments.ReplyRecord` | lib/youtube.py:275-287 | defines a reply's record: the reply id, the thread id as parent, `is_reply` true |
| `Comments.ThreadRecords` | lib/youtube.py:258-287 | defines a thread's records: its top-level record, then its replies' records when it has replies |
| `Comments.ItemRecords` | lib/youtube.py:258-287 | defines a page's records: the threads' records in item order |
| `Comments.HasNext` | lib/youtube.py:290-291 | defines when the loop goes on: a token that is present and non-empty |
| `Comments.VideoRecords` | lib/youtube.py:246-296 | defines one video's records: each page's records, then the next page while a token comes back; a raising request ends the video |
| `Comments.AllRecords` | lib/youtube.py:242-296 | defines the records of all videos, in video order |
| `Comments.CommentsTable` | lib/youtube.py:242-300 | defines the returned table: `None` when there are no records |
| `Comments.GetVideoComments` | lib/youtube.py:230-300 | the result is `CommentsTable`: every video's records in video order, or `None` when there are none |
| `Comments.AppendItems` | lib/youtube.py:258-287 | appends each thread's top-level record followed by its replies, thread by thread |
| `Comments.ReplyRecordsLinked` | lib/youtube.py:275-287 | every reply record of a thread is a reply whose parent is the thread's id |
| `Comments.ThreadLinked` | lib/youtube.py:259-287 | a thread's first record is its top-level comment (no parent, not a reply), and every later one is a reply to it |
| `Comments.ItemRecordsLinked` | lib/youtube.py:258-287 | a page's records are linked: each reply follows its parent or a sibling reply |
| `Comments.VideoRecordsLinked` | lib/youtube.py:246-292 | a video's records over all pages are linked |
| `Comments.AllRecordsLinked` | lib/youtube.py:242-296 | the records of all videos together are linked |
| `Comments.ParentOf` | lib/youtube.py:263-287 | every reply has its parent top-level comment earlier in the output, of the same video, with only its sibling replies in between |
| `Comments.TableParents` | lib/youtube.py:263-300 | in the returned table, every reply's parent id names an earlier top-level record of the same video |
| `Comments.PageTopLevel` | lib/youtube.py:258-272 | the top-level ids of a page's records are the page's thread ids, in order |
| `Comments.VideoRecordsOfVideo` | lib/youtube.py:242-287 | every record emitted for a video carries that video's id |
| `Comments.AllRecordsAppend` | lib/youtube.py:242-296 | videos are processed independently: the output for `a + b` is the output for `a` followed by that for `b` |
| `Comments.FuelIndependent` | lib/youtube.py:246-292 | once the token chain has ended, following more pages changes nothing |
| `Comments.FailureKeepsEarlierPages` | lib/youtube.py:290-296 | a page that raises stops only that video, and the records of earlier pages are kept |

## Left out

- OAuth flow, token pickle file and client construction (`lib/youtube.py:25-50`): file I/O and a third-party authentication library.
- `get_shares` (`lib/youtube.py:102-130`): one Analytics call that uses the wall clock. It is a parameter of `VideoInfo`, returning an optional integer.
- `translate_to_english` (`lib/helpers.py:23-35`): a thin wrapper over an external translator.
- `isodate.parse_duration` and the float `total_seconds()` are a parameter returning optional whole seconds. Parsing ISO 8601 and float truncation are not modelled.
- API request objects, `.execute()`, `os.getenv('YT_CHANNEL_ID')` and the `print` diagnostics are not modelled. Each request is a function parameter that returns `None` for a raising call.
- pandas `DataFrame` construction, `set_index`, `iterrows` and the NaN filling of keys missing from some rows: a table is a sequence of records or of ordered key/value columns.
- `pd.to_datetime` and `datetime.date.today()`: dates are integer day numbers. Each video carries both its publish-date text and its day number, and `today` is a parameter.
- The regex engine: `re.escape` plus `re.sub` is modelled as a literal, non-overlapping, left-to-right replace-all.
- The id-column selection heuristic (`lib/youtube.py:240`): the model takes the list of video ids directly, as strings (so `str(video_id)` is the identity).
- `Decimal.ParseNat` and `Decimal.ParseInt`: accept only ASCII decimal digits, `ParseInt` after an optional `-`. Python's `int()` also accepts surrounding whitespace, a `+` sign, digit-group underscores and non-ASCII digits, and takes non-string numbers directly.
- `Comments.GetVideoComments`: requires every video's token chain to end within a ghost page bound `pages`. The source's `while True` loops forever if the API keeps returning tokens, and the model does not cover that case.
- `VideoInfo.GetGenericInfo`: items are well-formed values. A `KeyError` on a missing `snippet` or `contentDetails` field, which the source turns into `None`, is not modelled.
- `Comments.GetVideoComments`: thread items are well-formed values. A `KeyError` in the middle of a page, which the source turns into a stop after that page's earlier records, is not modelled.
- `Analytics.VideoRow`: metric values are integers. The source stores whatever the Analytics response holds.
- `Helpers.AnonymizeComments`: the comments frame is modelled by its two affected columns only, `author` and `comment_nl`. The other columns and the returned alias of the frame are not modelled.
