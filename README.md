# IMDb movie recommender — a Dafny model of its ranking rule and cleaning helpers

The repository trains a content-based movie recommender. A script cleans an
IMDb table and builds a TF-IDF cosine-similarity matrix over the movie
descriptions. It also builds a title-to-row index. A Flask endpoint
`/recommend?title=...` then answers with the ten movies most similar to the
given one.

This project models the logic of that pipeline that does not depend on
libraries. The similarity matrix is taken as input.

- **Cleaning** (`model_training/train.py`). The four per-cell helpers:
  - `extract_year`: the leftmost four digits of `str(cell)`.
  - `clean_watch_time`: drop the last four characters.
  - `clean_meatscore`: the `"****"` sentinel gives NaN, anything else is `strip()`.
  - `parse_gross`: `$` amounts in millions, where a `B` means billions.

  Each helper maps a cell to an `Outcome`: a value, NaN, or the exception
  Python would raise.
- **Ranking**. `sorted(enumerate(row), key=score, reverse=True)[1:top_n+1]`
  is defined as an insertion sort that compares scores only (a stable sort).
  It is then characterised without any sorting: the element at position `k`
  is the row of rank `k`. A row's rank (`RankOf`) is the number of rows with
  a higher score, or with an equal score and a lower row number.
- **Title index** (`train.py:62`): a series that pairs each title with its
  row position. The model proves that `drop_duplicates()` drops nothing,
  because it compares the row positions, which are distinct.
- **get_recommendations** (`train.py:66-73`) and the **`recommend()`
  handler** (`api.py:28-46`):
  - validation (400);
  - lookup (404);
  - ranks 1 to 10;
  - projection onto the display columns that exist.

  `top_n` is an explicit argument of `Recommender.GetRecommendations`. Its
  default of 10 (`train.py:66`) is the constant `Recommender.DefaultTopN`.
  A lemma shows that the handler's titles are exactly what
  `get_recommendations` returns with that default.

Modules:
- `Py`: Python and pandas building blocks, namely `str()`, `int()` of digits, `strip()` and slicing.
- `Table`: the DataFrame operations.
- `Cleaning`, `Ranking`, `TitleIndex` and `Recommender`: the parts listed above.
- `Api`: the handler.

The code does two things that a reader of its intent might not expect. The model follows the code:
- The first-ranked row is dropped, whichever row that is. The query row is
  excluded only when its self-score is strictly the largest score in its row
  (`Ranking.StrictMaximumExcluded`). When another row ties with it, the query
  itself can be recommended (`Ranking.TiedSelfIsRecommended`).
- Duplicate titles are not collapsed into their first occurrence. The index
  keeps every row (`TitleIndex.BuildIndex`), and a repeated title is
  ambiguous (`TitleIndex.RepeatedTitleAmbiguous`).

## Model

| member | source | states |
|---|---|---|
| Py.NatToDecimal | model_training/train.py:33 | `str(n)` of a natural number is a non-empty digit string that reads back as `n`, one digit for `n < 10` |
| Py.Strip | model_training/train.py:44 | `strip()` returns the contiguous part of the string between its leading and trailing whitespace, and that part neither starts nor ends with whitespace |
| Py.StripIdempotent | model_training/train.py:44 | stripping a stripped string changes nothing |
| Cleaning.FindYearRun | model_training/train.py:33 | the scan finds a four-digit run at or after the start position, with no run between the start and the result; the result is absent only when no run exists from the start on |
| Cleaning.ExtractYear | model_training/train.py:32-34 | never raises; NaN exactly when `str(cell)` has no four consecutive digits; otherwise the value is in 0..9999 and is `int()` of the leftmost run |
| Cleaning.ExtractYearFiveDigits | model_training/train.py:33-34 | "12345" yields 1234: the leftmost four digits, not the whole number |
| Cleaning.ExtractYearOfNumber | model_training/train.py:33-34 | an integer cell from 1000 to 9999 yields itself |
| Cleaning.ExtractYearOfMissing | model_training/train.py:33-34 | a missing cell prints as "nan" and yields NaN |
| Cleaning.CleanWatchTime | model_training/train.py:37-38 | a string yields its prefix of length max(0, len-4); any other cell yields NaN; never raises |
| Cleaning.CleanMeatscore | model_training/train.py:41-44 | NaN exactly for `"****"` and missing cells; an integer cell raises AttributeError; any other string yields its stripped form |
| Cleaning.CleanMeatscoreNotIdempotent | model_training/train.py:42-44 | `" **** "` yields `"****"`, which yields NaN when cleaned again |
| Cleaning.KeepNumeric | model_training/train.py:52 | the filtered string holds only digits and dots |
| Cleaning.KeepNumericCounts | model_training/train.py:52 | every digit and dot of the input is kept as often as it occurs, and nothing else is kept |
| Cleaning.KeepNumericInOrder | model_training/train.py:52 | the filtered string is a subsequence of the input: characters keep their original order |
| Cleaning.KeepNumericConcat | model_training/train.py:52 | filtering a concatenation is concatenating the filtered parts |
| Cleaning.KeepNumericOfNumeric | model_training/train.py:52 | a string of digits and dots passes the filter unchanged |
| Cleaning.Thousandfold | model_training/train.py:52 | the scaled amount is 1000 times the original as a real number |
| Cleaning.FloatOfNumeric | model_training/train.py:52-54 | `float()` of digits and dots succeeds exactly when there is at most one dot and at least one digit; the value is the digits read as an integer, with as many decimal places as digits after the dot |
| Cleaning.FloatOfPointed | model_training/train.py:52-54 | `float("whole.frac")` is the digits of both sides over ten to the power of the fraction's length |
| Cleaning.ParseGross | model_training/train.py:47-55 | NaN exactly when the cell is not a string starting with `$` and containing B or M; ValueError exactly when such a string's filtered digits are not a float; the value is a thousandfold of the digits when B occurs, otherwise the digits themselves |
| Cleaning.ParseGrossMillionsBranch | model_training/train.py:53-54 | a `$` string with M and no B is read in millions |
| Cleaning.ParseGrossBillionsBranch | model_training/train.py:51-52 | a `$` string containing B is read in billions, whether or not it also holds an M |
| Cleaning.GrossBillionsAreThousandMillions | model_training/train.py:51-54 | with the same digits, the B reading is exactly 1000 times the M reading, and one raises exactly when the other does |
| Cleaning.ParseGrossMillions | model_training/train.py:53-54 | "$28.34M" yields the decimal 2834 at two places, whose real value is exactly 28.34 |
| Cleaning.MillionsAmount | model_training/train.py:54 | the decimal 2834 at two places is the real 28.34 |
| Cleaning.ParseGrossBillions | model_training/train.py:51-52 | "$1.2B" yields the decimal 12000 at one place, whose real value is exactly 1200.0 |
| Cleaning.BillionsAmount | model_training/train.py:52 | the decimal 12000 at one place is the real 1200.0 |
| Cleaning.ParseGrossNoDigits | model_training/train.py:53-54 | "$M" raises ValueError, because `float("")` fails |
| Cleaning.ParseGrossNaNCases | model_training/train.py:48-55 | no `$` prefix, neither B nor M, a missing cell and an integer cell each yield NaN |
| Ranking.Insert | model_training/train.py:71 | insertion adds exactly the one pair: the result is a permutation of the input plus it |
| Ranking.SortByScore | model_training/train.py:71 | the sort is a permutation of its input |
| Ranking.InsertRanked | model_training/train.py:71 | a pair whose row is below every row of a ranked list keeps the list ranked when inserted: that is the stability of the sort |
| Ranking.SortRanked | model_training/train.py:70-71 | sorting pairs given in ascending row order yields scores in descending order, with tied scores in ascending row order |
| Ranking.SortedEnumeration | model_training/train.py:70-71 | the sorted enumeration holds every row exactly once with its own score, in ranked order |
| Ranking.RankAtPosition | model_training/train.py:70-71 | the pair at position k of the ranked enumeration is the row of rank k |
| Ranking.SortedRows | model_training/train.py:70-72 | the sorted rows are all n rows, in order of rank 0, 1, 2, ... |
| Ranking.SliceAfterFirst | model_training/train.py:71 | `s[1:top_n+1]` of a non-empty list is the run starting at position 1, of length min(top_n, len-1) for top_n >= 0 |
| Ranking.TopAfterFirst | model_training/train.py:70-72 | for n scores the result has min(top_n, n-1) rows; position k holds the row of rank k+1, so the first-ranked row is always dropped; the rows are distinct, valid, with non-increasing scores and ties in ascending row order |
| Ranking.StrictMaximumExcluded | model_training/train.py:70-72 | a row whose self-score is strictly above every other score of its row is never in its own result |
| Ranking.TiedRank | model_training/train.py:71 | when all scores tie, the rank of a row is its position |
| Ranking.AllTiedGivesLeadingRows | model_training/train.py:70-72 | when all scores tie, the result is rows 1, 2, 3, ...: row 0 is dropped, not the query row |
| Ranking.TiedSelfIsRecommended | model_training/train.py:70-72 | with scores [1.0, 1.0] for query row 1, the result is [1]: the query itself is recommended |
| TitleIndex.DropDuplicates | model_training/train.py:62 | `drop_duplicates()` (keep first) keeps the first entry of every value not seen before, keeps only entries of the input with unseen values, and keeps no value twice |
| TitleIndex.DropDuplicatesInOrder | model_training/train.py:62 | the kept entries appear in their original order |
| TitleIndex.DropDuplicatesOfDistinct | model_training/train.py:62 | on distinct and unseen values, `drop_duplicates()` removes nothing |
| TitleIndex.BuildIndex | model_training/train.py:62 | the index has one entry per row, pairing the title of row i with i: duplicate titles are kept |
| TitleIndex.RowsTitled | model_training/train.py:67-69 | a row is listed for a title exactly when the index pairs that title with it |
| TitleIndex.Find | model_training/train.py:67-69 | not found exactly when no label equals the title; ambiguous (a series of rows) exactly when two or more entries carry the label; otherwise the one row paired with the title |
| TitleIndex.RowsTitledTwice | model_training/train.py:69 | two or more rows are listed for a title exactly when two or more entries carry it as their label |
| TitleIndex.RowsTitledInBuiltIndex | model_training/train.py:62 | in the built index, the rows listed for a title are exactly the rows carrying that title |
| TitleIndex.FindInBuiltIndex | model_training/train.py:62-69 | in the built index a title is found exactly when some row carries it, and the found row carries it |
| TitleIndex.FindUniqueTitle | model_training/train.py:62-69 | a title carried by exactly one row finds that row |
| TitleIndex.RepeatedTitleAmbiguous | model_training/train.py:62 | a title carried by two rows is ambiguous |
| Table.RecordsAgreeWithColumn | api.py:43-44 | one column of the records equals the column read directly |
| Recommender.TrainedModelConsistent | model_training/train.py:58-63 | the index built from the title column, with a square matrix over the rows, satisfies the consistency the recommender requires |
| Recommender.GetRecommendations | model_training/train.py:66-73 | an unknown title yields `["Title not found in dataset."]`; a known title yields min(top_n, n-1) titles, the one at position k being the title of the row of rank k+1; a frame without the title column raises KeyError |
| Api.Present | api.py:43 | the kept columns are exactly the wanted ones that exist, in the wanted order |
| Api.ColumnsToShowOrder | api.py:43 | "Movie Name" comes first whenever it exists, and no column appears twice |
| Api.Recommend | api.py:29-46 | status 400 exactly for an absent or empty title (a whitespace title is looked up), with the missing-title message; 404 exactly for a non-empty title the index lacks, with the message naming it; otherwise 200 with min(10, n-1) records, the one at position k being the display columns of the row of rank k+1, or 200 with no records when the data has none of the display columns |
| Api.HandlerAgreesWithTraining | api.py:37-44 | for a known title, when the data has the title column, the titles in the handler's records are exactly `get_recommendations(title, ...)` with the default `top_n` of 10 |

## Left out

- TF-IDF vectorisation and cosine similarity (`train.py:59-61`) are library numerics. The matrix is an input: a square `seq<seq<real>>` with one row per data row.
- `process_imdb` (`train.py:76-110`) is not modelled: CSV loading, the in-place column drops, `fillna(method='bfill')`, `astype` and the joblib dump. The model relies on one thing it preserves: row labels are the positions 0..n-1.
- Loading the model with joblib, environment checks, Flask routing, the ngrok tunnel and `app.run` (`api.py:1-27`, `api.py:48-53`) are I/O. So is JSON serialisation of the response (`jsonify`, including any key sorting); a body is modelled as an error message or a list of (column, cell) records.
- The Streamlit front end `app.py` and the plotting setup are not part of this model.
- Cleaning.ExtractYear: `\d` is taken as the ASCII digits 0-9, while Python's `re` also matches other Unicode decimal digits. Non-integer numeric cells are not modelled; a cell is a string, a missing value or an integer.
- Cleaning.KeepNumeric: the same restriction to ASCII digits applies to the `[^\d.]` filter.
- Cleaning.FloatOfNumeric: the value is the exact decimal the string denotes. The rounding of `float()` to binary floating point is not modelled, so "1000 times" is exact in the model and may be off by rounding in the program.
- TitleIndex.Find: for a title carried by several rows, the lookup only reports that it is ambiguous, and the model leaves that case out. In the program, `index_map[title]` then returns a series, and `cosine_sim[idx]` is a matrix of several rows. `sorted` (`train.py:71`, `api.py:39`) then compares numpy rows and raises ValueError, which Flask answers with status 500.
- Recommender.GetRecommendations: requires the title not to be ambiguous, for the reason above. It also requires `Consistent`: a square matrix over the data rows and an index whose rows lie inside it. The saved model meets this requirement (`Recommender.TrainedModelConsistent`).
- Api.Recommend: requires a non-empty title not to be ambiguous, for the reason above. Absent and empty titles are answered with 400 before any lookup, whatever the index holds.
- The handler's purity holds by construction in this model, because every operation is a function of its inputs: it does not modify the matrix, the data or the index, and identical requests get identical responses.
