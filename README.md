# Goodreads dataset preparation, modelled in Dafny

The book recommender trains on Goodreads interactions, which are prepared by four scripts
under `helpers/`:

- `preprocess_goodreads.py` and `preprocess_goodreads_ratings.py` clean the interactions
  and split each user's ratings in time. The most recent share of each user's rows becomes
  test data. They then drop the test-only books, label-encode the user and book ids, and
  write `book_ratings_train.csv` / `book_ratings_test.csv`.
- `preprocess_goodreads_bookinfo.py` builds `book_titles.csv`. It starts from the distinct
  books of the train ratings and fills each one in from the Goodreads catalogue lines.
- `preprocess_goodreads_unread.py` overwrites every user's rows with books that user has
  not read, drawn from the title table without replacement, with rating 0. This writes
  `book_unreads_{train,test}.csv`.

The model follows those steps one module at a time:

| module | file | what it models |
|---|---|---|
| `Tables` | tables.dfy | the rows passed between the steps |
| `Cleanup` | cleanup.dfy | read/rated filter, `read_at`/`date_added` fallback, and the year filter on the last column of `str.split(' ', expand=True)` |
| `Ordering` | ordering.dfy | sorted permutations under a total preorder, which stand in for `sort_values` |
| `Split` | split.dfy | run rank, user count and the two test rules, on the sorted table |
| `Prune` | prune.dfy | removal of the books that occur only in test rows |
| `Encoding` | encoding.dfy | `LabelEncoder.fit_transform` as the position among the sorted distinct ids |
| `Pipeline` | pipeline.dfy | the two split scripts end to end, and the train/test outputs |
| `BookInfo` | bookinfo.dfy | the title table. The preallocated frame is an `array` filled by a loop over the catalogue lines |
| `Unread` | unread.dfy | the negative sampler. The ratings table is an `array` that a per-user loop overwrites in place |

Other modelling choices:

- Ids and read dates are integers. Converting the date text to a point in time is a
  parameter `parse`.
- The current year is a parameter.
- The sort and the random draw are choices of any result that meets their contracts.
- `perc` is compared exactly, by cross-multiplication.
- The unread sampler takes its pool rule as a parameter. `ByCode` is the script as
  written; `ByBook` is the corrected rule described under "## Findings".

## Model

| member | source | states |
|---|---|---|
| Cleanup.Cleanup | helpers/preprocess_goodreads_ratings.py:44-56 | the cleanup of both scripts (also helpers/preprocess_goodreads.py:27-39). CleanupCharacterized says when it fails, including a year outside the int64 range, and that it otherwise keeps exactly the Retained records. CleanupKeepsOnlyRetained says what each kept row holds |
| Cleanup.DateRead | helpers/preprocess_goodreads_ratings.py:49-50 | `read_at`, or `date_added` when `read_at` is empty. CleanupKeepsOnlyRetained states that every cleaned row carries this date |
| Cleanup.ReadAndRated | helpers/preprocess_goodreads_ratings.py:44-46 | a record is kept iff it was read and its rating is positive |
| Cleanup.SplitSpace | helpers/preprocess_goodreads_ratings.py:51 | `str.split(' ')` yields at least one token and no token contains a space |
| Cleanup.JoinSplit | helpers/preprocess_goodreads_ratings.py:51 | joining the tokens with single spaces gives back the original string |
| Cleanup.SplitJoin | helpers/preprocess_goodreads_ratings.py:51 | splitting a join of space-free tokens gives back the tokens |
| Cleanup.LastTokenOfJoin | helpers/preprocess_goodreads_ratings.py:51-52 | the last token of a date whose last word is the year is that year |
| Cleanup.ParseInt | helpers/preprocess_goodreads_ratings.py:52 | one cell of `astype(int)`: present iff `int()` reads the token and the value lies in the int64 range, and then it is that value |
| Cleanup.ParseIntOfDecimal | helpers/preprocess_goodreads_ratings.py:52 | `astype(int)` reads back every int64 written in decimal, with its sign, and raises on every integer outside the int64 range |
| Cleanup.Width | helpers/preprocess_goodreads_ratings.py:51 | the frame from `expand=True` is as wide as the longest split, and some row reaches that width |
| Cleanup.ParseColumn | helpers/preprocess_goodreads_ratings.py:52 | the cast succeeds iff every entry of the column is present and an integer within the int64 range, and it then returns those integers in order |
| Cleanup.CleanupCharacterized | helpers/preprocess_goodreads_ratings.py:44-52 | the cleanup fails iff the dates of the kept records split into different numbers of tokens or some last token is not an integer within the int64 range; otherwise it returns exactly the records passing `Retained` (read, rated, year at most the current year), in order |
| Cleanup.RaggedDatesFail | helpers/preprocess_goodreads_ratings.py:51-52 | two kept dates with different token counts make the cast fail, because the shorter one has no last column |
| Cleanup.UniformColumn | helpers/preprocess_goodreads_ratings.py:51 | when all kept dates have the same token count, the last column is each date's last token |
| Cleanup.CleanupKeepsOnlyRetained | helpers/preprocess_goodreads.py:27-35 | every cleaned row comes from a read record with positive rating. Its date is `read_at`, or `date_added` when `read_at` is empty, and its year is an integer no later than the current year |
| Ordering.SortByProperties | helpers/preprocess_goodreads_ratings.py:63 | under a total preorder every table has a sorted permutation |
| Ordering.InsertByProperties | helpers/preprocess_goodreads_ratings.py:63 | inserting into a sorted table keeps it sorted and adds exactly the new row |
| Split.IsTest | helpers/preprocess_goodreads.py:54 | the two test rules on exact fractions (PolicyB is helpers/preprocess_goodreads_ratings.py:74). PolicyAIsOneThreshold, TestIsMonotone and FewRowsNoTest state what they mean |
| Split.RunRank | helpers/preprocess_goodreads_ratings.py:69 | the 1-based position in the run of the user's consecutive rows, between 1 and i + 1. RankIsPosition makes it the position among all the user's rows on the sorted table |
| Split.CountOf | helpers/preprocess_goodreads_ratings.py:67-68 | the user's row count, at most the table's length and positive iff the user occurs. RunEndIsLast ties it to the rank of the user's last row |
| Split.Annotate | helpers/preprocess_goodreads_ratings.py:66-74 | one annotated row per row. AnnotateAt, RankWithinCount and RecencyPrefix state what each annotation holds |
| Split.PolicyAIsOneThreshold | helpers/preprocess_goodreads.py:54 | the second disjunct implies the first, so the rule is `100 * rank < 34 * count` |
| Split.TestIsMonotone | helpers/preprocess_goodreads_ratings.py:74 | under either rule, a smaller rank with the same count is test whenever a larger one is |
| Split.FewRowsNoTest | helpers/preprocess_goodreads.py:54 | a user with fewer than 3 rows has no test row, and a user's last row is never test |
| Split.SortedPermutationExists | helpers/preprocess_goodreads_ratings.py:63 | the descending sort by (user, date) has a result for every table |
| Split.Users | helpers/preprocess_goodreads_ratings.py:67 | the user column, row for row |
| Split.AnnotateAt | helpers/preprocess_goodreads_ratings.py:67-74 | each annotated row keeps its row and carries its run rank, its user's row count, and the policy's test flag |
| Split.RankWithinCount | helpers/preprocess_goodreads_ratings.py:66-70 | `1 <= rank <= count` on every row, sorted or not |
| Split.RankIsPosition | helpers/preprocess_goodreads_ratings.py:69 | on the sorted table, a row's rank is the number of that user's rows up to and including it |
| Split.RunStartIsFirst | helpers/preprocess_goodreads_ratings.py:69 | on the sorted table, a row that starts a run is its user's first row |
| Split.RankOrder | helpers/preprocess_goodreads.py:50 | on the sorted table, a more recent row of a user has a strictly smaller rank |
| Split.RecencyPrefix | helpers/preprocess_goodreads_ratings.py:74 | if a user's row is test, every more recent row of that user is test |
| Split.TestNotOlderThanTrain | helpers/preprocess_goodreads_ratings.py:74 | a user's test row is no older than any of its train rows |
| Split.RunEnd | helpers/preprocess_goodreads_ratings.py:69 | the last row of the run containing row i: all rows between belong to the user, and the next row does not |
| Split.RunEndIsLast | helpers/preprocess_goodreads_ratings.py:67-69 | on the sorted table, the rank of a run's last row equals the user's row count |
| Split.TestUserHasTrainRow | helpers/preprocess_goodreads_ratings.py:74 | every user with a test row also has a train row |
| Split.SmallUserTrainOnly | helpers/preprocess_goodreads.py:54 | a user with fewer than 3 rows gets no test row, under either rule |
| Prune.NewBooks | helpers/preprocess_goodreads_ratings.py:80 | the test books that are not train books. PruneTestRows and NoTestOnlyBooks state the effect of dropping them |
| Prune.PruneNewBooks | helpers/preprocess_goodreads_ratings.py:80-81 | the pruning of both scripts (also helpers/preprocess_goodreads.py:62-63). PruneKeepsTrain, PruneTestRows and NoTestOnlyBooks state what it keeps |
| Prune.DropBooks | helpers/preprocess_goodreads_ratings.py:81 | a row is kept iff its book is not dropped, and the result is no longer than the input |
| Prune.TrainRows | helpers/preprocess_goodreads_ratings.py:80 | exactly the rows flagged train |
| Prune.TestRows | helpers/preprocess_goodreads_ratings.py:80 | exactly the rows flagged test |
| Prune.PruneKeepsTrain | helpers/preprocess_goodreads_ratings.py:80-81 | pruning removes no train row: the train rows, in order, are the same before and after |
| Prune.PruneTestRows | helpers/preprocess_goodreads_ratings.py:80-81 | a test row is removed exactly when its book occurs in no train row |
| Prune.NoTestOnlyBooks | helpers/preprocess_goodreads.py:62-63 | after pruning, every test book is a train book, and the train books are unchanged |
| Prune.TrainOfDrop | helpers/preprocess_goodreads_ratings.py:80-81 | taking the train rows commutes with dropping books |
| Prune.TestOfDrop | helpers/preprocess_goodreads_ratings.py:80-81 | taking the test rows commutes with dropping books |
| Encoding.Encode | helpers/preprocess_goodreads_ratings.py:88-89 | one code per id. DecodeEncode, EncodeDecode, EncodeOrder and EncodeOnto state that it is the order-preserving bijection onto `{0, ..., n-1}` |
| Encoding.Classes | helpers/preprocess_goodreads_ratings.py:88 | the fitted classes are strictly increasing and are exactly the distinct ids |
| Encoding.DecodeEncode | helpers/preprocess_goodreads_ratings.py:88-89 | every code lies below the number of classes and decodes back to its id |
| Encoding.EncodeDecode | helpers/preprocess_goodreads_ratings.py:88-89 | every code below the number of classes is the code of some id that decodes to it |
| Encoding.EncodeOrder | helpers/preprocess_goodreads.py:67-68 | two ids are equal iff their codes are equal, and less iff their codes are less |
| Encoding.ClassesCount | helpers/preprocess_goodreads_ratings.py:88 | the number of classes is the number of distinct ids |
| Encoding.EncodeOnto | helpers/preprocess_goodreads_ratings.py:88-89 | the codes used are exactly `{0, ..., n-1}`, where n is the number of distinct ids |
| Pipeline.EncodeTable | helpers/preprocess_goodreads_ratings.py:86-91 | one encoded row per pruned row (also helpers/preprocess_goodreads.py:66-70). EncodeTableAt and EncodedTableDense state its contents |
| Pipeline.TrainOut | helpers/preprocess_goodreads_ratings.py:105 | the rows written to the train file. TrainOutMembers and OutputsPartition state which rows they are |
| Pipeline.TestOut | helpers/preprocess_goodreads_ratings.py:106 | the rows written to the test file. TestOutMembers and OutputsPartition state which rows they are |
| Pipeline.EncodeTableAt | helpers/preprocess_goodreads_ratings.py:87-91 | each encoded row keeps the ids, rating, date and flag of its pruned row, with book and user codes from encoders fitted on the pruned table |
| Pipeline.EncodedTableDense | helpers/preprocess_goodreads.py:66-70 | the encoded table's book and user codes each cover `[0, distinct count)` and keep the order of the raw ids |
| Pipeline.OutputsPartition | helpers/preprocess_goodreads_ratings.py:105-106 | the train and test outputs together are the encoded table, as multisets |
| Pipeline.TrainOutMembers | helpers/preprocess_goodreads_ratings.py:105 | a row is in the train output iff it is in the table flagged train |
| Pipeline.TestOutMembers | helpers/preprocess_goodreads_ratings.py:106 | a row is in the test output iff it is in the table flagged test |
| Pipeline.TestBookInTrain | helpers/preprocess_goodreads_ratings.py:79-81 | every book of the test output occurs in the train output |
| Pipeline.TestUserInTrain | helpers/preprocess_goodreads_ratings.py:74 | every user of the test output occurs in the train output |
| Pipeline.TrainNotAfterTest | helpers/preprocess_goodreads_ratings.py:73-74 | for one user, every test row is at least as recent as every train row |
| Pipeline.SplitTableProperties | helpers/preprocess_goodreads_ratings.py:62-106 | the outputs of a sorted table are leak-free, and their codes are dense and order-preserving |
| Pipeline.SplitTableRows | helpers/preprocess_goodreads_ratings.py:63-91 | every output row is a row of the sorted table, with its ids, rating and date unchanged |
| Pipeline.SplitAndEncode | helpers/preprocess_goodreads.py:44-70 | the table comes from some sorted permutation of the rows. Its outputs are leak-free and densely encoded, and every output row is an input row |
| Pipeline.PrepareGoodreads | helpers/preprocess_goodreads.py:27-79 | fails iff the cleanup fails. Otherwise train and test are exactly the train-flagged and test-flagged rows of the pruned, encoded table of some sorted permutation of the parsed cleaned rows. They are leak-free and densely encoded, and every row comes from a cleaned record with its parsed date |
| Pipeline.PrepareRatings | helpers/preprocess_goodreads_ratings.py:37-106 | the same for the two concatenated genre files under the other rule. Train and test hold, as multisets, exactly the train-flagged and test-flagged rows of that table, and each output is ordered by encoded user |
| Pipeline.DenseCodesBySet | helpers/preprocess_goodreads_ratings.py:92 | reordering the rows keeps the encoding dense and order-preserving |
| BookInfo.DenseIsConsistent | helpers/preprocess_goodreads_bookinfo.py:20-23 | in an encoded train file, two rows share a book iff they share a book code |
| BookInfo.DedupByEncoded | helpers/preprocess_goodreads_bookinfo.py:22 | keeps rows of the input only, one per book code, and covers every code |
| BookInfo.DedupByEncodedKeepsFirst | helpers/preprocess_goodreads_bookinfo.py:22 | each kept row is the first row with its book code |
| BookInfo.TitleIndex | helpers/preprocess_goodreads_bookinfo.py:23-30 | the index is strictly increasing and holds exactly the distinct books of the ratings |
| BookInfo.EncOf | helpers/preprocess_goodreads_bookinfo.py:43 | the code looked up for a book is the code of one of its rows |
| BookInfo.LastLine | helpers/preprocess_goodreads_bookinfo.py:37-42 | None iff no line has the book; otherwise a line with the book after which no line has it |
| BookInfo.Apply | helpers/preprocess_goodreads_bookinfo.py:37-43 | one book's cells after a run of catalogue lines. ApplyStep and ApplyConcat state its effect |
| BookInfo.TitleFor | helpers/preprocess_goodreads_bookinfo.py:29-43 | a book's title row after both genre files. TitleForMeaning states its contents |
| BookInfo.LastLineConcat | helpers/preprocess_goodreads_bookinfo.py:34-42 | over two files, the last match is the second file's when it has one, else the first's |
| BookInfo.ApplyConcat | helpers/preprocess_goodreads_bookinfo.py:34-43 | loading one genre file and then the next is loading their concatenation |
| BookInfo.TitleForMeaning | helpers/preprocess_goodreads_bookinfo.py:29-43 | a book without a catalogue line keeps empty fields. Otherwise its work id and title come from its last catalogue line and its code from the ratings |
| BookInfo.ApplyStep | helpers/preprocess_goodreads_bookinfo.py:39-43 | one line overwrites the book's three fields iff it names that book |
| BookInfo.LoadGenre | helpers/preprocess_goodreads_bookinfo.py:34-43 | after one genre file, each frame row is its old value with that file's lines applied, and its book is unchanged |
| BookInfo.BuildTitles | helpers/preprocess_goodreads_bookinfo.py:20-47 | one row per distinct train book, ordered by book. Each row is that book's entry in the left join against both genre files, with its code from the ratings |
| BookInfo.TitlesMeetSpec | helpers/preprocess_goodreads_bookinfo.py:29-43 | the frame after both genre loops is the title table of the left join |
| Unread.ReadSet | helpers/preprocess_goodreads_unread.py:38 | the book codes a user has read in the same file. NegativeIsUnread states that no drawn title's code is in it |
| Unread.Sampled | helpers/preprocess_goodreads_unread.py:45-47 | a row overwritten with a drawn title. OverwriteUser and NegativeIsUnread state what it keeps and what it changes |
| Unread.UniqueUsers | helpers/preprocess_goodreads_unread.py:37 | each user of the table once |
| Unread.Pool | helpers/preprocess_goodreads_unread.py:41 | the title positions the rule leaves in the pool, in increasing order. Under the script's rule these are the titles without a code or with a code not among the read codes |
| Unread.SampleExistsIff | helpers/preprocess_goodreads_unread.py:41-42 | a draw without replacement of n titles from the pool exists iff the pool holds at least n titles |
| Unread.OccBound | helpers/preprocess_goodreads_unread.py:45 | a row's occurrence number among its user's rows is below the user's row count |
| Unread.OccGrows | helpers/preprocess_goodreads_unread.py:45 | later rows of a user have larger occurrence numbers |
| Unread.OverwriteUser | helpers/preprocess_goodreads_unread.py:45-47 | the user's j-th row takes the j-th drawn title's book and code with rating 0; all other rows are unchanged |
| Unread.SampleUnread | helpers/preprocess_goodreads_unread.py:37-47 | for a given pool rule (the script's is `ByCode`), succeeds iff every user's pool holds at least as many titles as the user has rows. It then overwrites every row with a valid draw for its user, and user, encoded user and date are always kept |
| Unread.NegativeIsUnread | helpers/preprocess_goodreads_unread.py:41-47 | under the script's rule, every output row has rating 0 and the input's user and date, and names a title of the title table. When that title has a code, the code is not one the user read in the same file |
| Unread.ReadBookDrawnAsNegative | helpers/preprocess_goodreads_unread.py:41 | under the script's rule, a user who read a book whose title row has no code can be given that same book as a negative |
| Unread.NegativeBookIsUnread | helpers/preprocess_goodreads_unread.py:41-47 | under the corrected rule, every output row has rating 0, the input's user and date, and a book the user did not read in the same file |
| Unread.RulesAgreeOnCodedTitles | helpers/preprocess_goodreads_unread.py:41 | the two rules agree on a title that has a code, when the user's rows match codes and books one to one |
| Unread.NegativesDistinct | helpers/preprocess_goodreads_unread.py:42 | under either rule, two rows of one user get different books when the title table is in ascending book order |
| Unread.NegativeCounts | helpers/preprocess_goodreads_unread.py:38-45 | each user has as many output rows as input rows |
| Unread.ProcessMode | helpers/preprocess_goodreads_unread.py:28-53 | one ratings file under a given rule: a sampled table exists iff all pools suffice, and it is then a valid sample |
| Unread.SampleBothModes | helpers/preprocess_goodreads_unread.py:24-53 | train is processed first, and test only if train succeeded; each result is a valid sample of its own file under the given rule |

## Left out

- Reading and writing JSON and CSV files, `print` logging, the index column added by
  `reset_index`, and the `json.loads`/`int(...)` of catalogue lines. Catalogue lines are
  given already parsed.
- `data.py` is not part of this model. It covers download, extraction and tensor wrapping.
- `pd.to_datetime` with its format string is the parameter `parse`, taken to be total.
  A date text that fails to parse is not modelled.
- `datetime.date.today().year` is the parameter `currentYear`.
- User and book ids are integers that keep their order. The string ids of the JSON files
  are not modelled.
- Python's `int()` is modelled as an optional `+` or `-` followed by ASCII digits.
  Surrounding whitespace, `_` separators and non-ASCII digits are not accepted. The int64
  range check of `astype(int)` is modelled; the 32-bit `int` of some platforms is not.
- `perc` is compared as the exact fraction rank / count, by cross-multiplication. Rounding
  of the floating-point division near 0.2, 0.3, 0.34 or 0.4 is not modelled.
- The order in which `sort_values` leaves rows with equal keys is not fixed. Any sorted
  permutation may be chosen.
- `sample` is modelled as a choice of any valid draw, not as a random generator.
- A cleaned table with no rows is modelled as an empty success. What pandas does with the
  last column of a zero-column split frame is not modelled.
- When a user's pool is too small, `sample` raises before that file's `to_csv`, so that
  file and any later one are not written. Only the in-memory table is left partly
  overwritten. The model returns failure and says nothing about that partly overwritten
  table.
- The title table's `encoded_book_id` column is an `Option`. A missing value, pandas' NaN,
  is always in the pool under the script's rule, because `isin` never matches it. The
  column's float dtype is not modelled.
- NegativeIsUnread: under the script's rule it promises an unread code only for drawn
  titles that have a code. A title without a code may name a book the user read, as
  ReadBookDrawnAsNegative shows; NegativeBookIsUnread states the full promise for the
  corrected rule.
- BuildTitles: requires that the ratings' book and book-code columns agree, which
  DenseIsConsistent proves for the split scripts' output. What pandas does with a
  duplicated `book_id` index on other input is not modelled.
- DedupByEncoded: its contract does not say which row of a code is kept. That is stated by
  the separate lemma DedupByEncodedKeepsFirst.
- Encoding.Encode: its contract states only the length. Its meaning is stated by
  DecodeEncode, EncodeDecode, EncodeOrder and EncodeOnto.

## Findings

| source | as written | input that shows it | evidently intended | confidence | as-written member | corrected member |
|---|---|---|---|---|---|---|
| helpers/preprocess_goodreads_unread.py:41 (with helpers/preprocess_goodreads_bookinfo.py:29,40) | the pool keeps every title whose `encoded_book_id` index is not among the user's read codes. A train book with no catalogue line keeps a NaN code in the title table, and `isin` never matches NaN, so that title is always in the pool | user 0 read book 5 with code 0; book 5 has no catalogue line, so its title row is (book 5, NaN); the draw may give user 0 book 5 as a negative | a negative is a book the user has not read: match the title's `book_id` against the user's read books | high (not executed) | Unread.ReadBookDrawnAsNegative | Unread.NegativeBookIsUnread |
