# Game analytics queries, modelled in Dafny

The service answers five read-only queries over tables loaded once at start-up and never
changed afterwards:

- **PlayTimeGenre(genre)**: the year with the most hours played for a genre.
- **UserForGenre(genre)**: the user with the most hours in a genre, and that user's hours per year.
- **UsersRecommend(year)** and **UsersNotRecommend(year)**: the three games of a year ranked
  highest by a score column, labelled `"Puesto 1"`, `"Puesto 2"` and `"Puesto 3"`.
- **sentiment_analysis(year)**: the Negative / Neutral / Positive review counts of a year.

Each table is a sequence of immutable rows (`Tables`). Each query is a function of a table
and its one parameter. The exception is `sentiment_analysis`, which works by overwriting
dictionary entries inside a loop, so it is a method with a loop and a map variable. Module
by module:

- `Tables`: row types, `Option`, and `Result` with the two ways a query fails:
  `GenreNotFound` (idxmax or `iloc[0]` on an empty frame) and `MissingGenres` (see below).
- `Sequences`: boolean-mask row selection (`Filter`) and the positions a mask keeps (`Positions`).
- `Ranking`: sorting by descending score and keeping the first `k`. pandas sorts with an
  unstable quicksort, so the model's insertion sort is one admissible order only. Every
  property is stated through `IsTopSelection`, which holds for *any* valid order: the
  result is a sub-multiset of the input, its length is `min(k, n)`, its scores never
  increase, and every row left out scores at most every row kept.
- `GenreYear`, `UserGenre`, `Recommendations`, `SentimentDistribution`: one module per query.

Modelling choices:

- Genres are `Option<seq<string>>`, and `genre in x` is element membership. A missing list
  is `None`. `PlayTimeGenre` drops such rows (`dropna`). `UserForGenre` does not drop them,
  and `genre in NaN` raises in Python. So any missing list makes `UserForGenre` fail with
  `MissingGenres`, even when other rows match.
- Rows are identified by their position in the table, which plays the role of pandas'
  unique index label. `idxmax` followed by `.loc` is "the first position holding the maximum".
- In the playtime tables, years are integers, because `groupby('year')` orders its keys.
  A missing year in `user_total_playtime_general` is `None`; `groupby` drops those rows.
  In the ranking and sentiment tables, years are strings, compared with the query's string.
- Both ranking tables use one row type, `YearGame(year, appName, sentimentAnalysis, count)`.
  `UsersRecommend` reads only `sentimentAnalysis` and `UsersNotRecommend` only `count`.
  Both are the same function, `TopOfYear`, instantiated with a different score.
- `groupby('user_id')` is modelled as one `(user, total)` entry per distinct user, in order
  of first appearance rather than sorted by id. That order can only decide which of several
  tied users wins, and neither the source nor the model promises a winner among ties.
- Playtime is `nat`. Scores and counts are `int`.

Behaviour at the edges, as main.py implements it:

- For a year with no rows, UsersRecommend and UsersNotRecommend return an empty list and
  sentiment_analysis returns three zeros; no "year not found" condition is raised.
- A genre without rows makes PlayTimeGenre and UserForGenre raise, which the model writes
  as a failed result. PlayTimeGenre gives `Failure(GenreNotFound)` in exactly those cases.
  UserForGenre gives it when no row has the genre and every genre list is present; when
  some genre list is missing it gives `Failure(MissingGenres)` instead, whether or not the
  genre has rows.
- UserForGenre sorts the per-user totals with pandas' default quicksort, which is not
  stable, so no winner among tied users is promised.
- sentiment_analysis does not add reviews up per sentiment category: it copies the `count`
  of the last row of the year that carries each code.

## Model

| member | source | states |
|---|---|---|
| `Sequences.Filter` | main.py:19 | a mask keeps only rows of the table that satisfy it, keeps every such row, and is a sub-multiset of the table |
| `Sequences.FilterIsPositions` | main.py:19 | the k-th row a mask keeps is the table row at the k-th selected position: every copy is kept, in table order |
| `Sequences.Positions` | main.py:18-19 | the labels kept by a mask are ascending, in range, satisfy the mask, and include every satisfying position |
| `Sequences.FilterNone` | main.py:58 | a mask that matches no row gives an empty frame |
| `GenreYear.GenreRows` | main.py:18-19 | positions of the rows whose genre list is present and contains the genre, ascending and complete |
| `GenreYear.FirstMax` | main.py:22 | `idxmax`: the index of a maximum, before which every value is strictly smaller |
| `GenreYear.FirstMaxIsPeakRow` | main.py:22 | the first maximum over the matching positions is the peak row of the whole table |
| `GenreYear.PlayTimeGenre` | main.py:14-24 | fails with GenreNotFound iff no row matches; otherwise returns the year of a matching row whose playtime is ≥ every matching row's and > every earlier matching row's |
| `GenreYear.PeakRowIsUnique` | main.py:22 | at most one row is the peak row, so the returned year is determined |
| `GenreYear.PeakYearExample` | main.py:18-22 | rows of 2015 and 2017 with the most playtime in 2017 give 2017; a row without genres is dropped |
| `GenreYear.TieGoesToFirstRowExample` | main.py:22 | of two rows tied for the most playtime, the earlier one's year is returned |
| `UserGenre.WithGenre` | main.py:30 | every selected row is a table row containing the genre, and every such table row is selected |
| `UserGenre.WithGenreInOrder` | main.py:30 | the genre rows are kept with every copy, in table order |
| `UserGenre.OfUser` | main.py:45 | every selected row is a row of that user, and every row of that user is selected |
| `UserGenre.OfUserInOrder` | main.py:45 | a user's rows are kept with every copy, in order |
| `UserGenre.TotalPlaytimeOfConcat` | main.py:33 | the playtime sum of two parts put together is the sum of their sums |
| `UserGenre.RowWithinTotal` | main.py:33 | every row's playtime is counted in the sum |
| `UserGenre.DatedPlaytime` | main.py:48 | the playtime the year groupby keeps is at most the whole playtime |
| `UserGenre.YearPlaytime` | main.py:48 | a year's summed playtime is part of the dated playtime, and is 0 for a year no row has |
| `UserGenre.GenreTotal` | main.py:30-34 | a user's summed genre playtime covers each of that user's genre rows, and is 0 for a user without such rows |
| `UserGenre.Years` | main.py:48 | a year is in the set exactly when some row has that year |
| `UserGenre.Users` | main.py:33 | groupby keys: every user of the rows is listed, only users of the rows, each once |
| `UserGenre.UserTotals` | main.py:33-34 | the keys are distinct and are exactly the users of the rows; each key is paired with the sum of that user's playtime |
| `UserGenre.AbsentUserHasNoPlaytime` | main.py:33 | a user without rows has no rows selected, so a zero total |
| `UserGenre.SortedHeadIsTopUser` | main.py:37-42 | the first entry after any descending sort of the totals names a user of the rows whose total is ≥ every user's |
| `UserGenre.TopUser` | main.py:36-42 | the chosen user occurs in the rows and no user has a larger summed playtime |
| `UserGenre.Accumulate` | main.py:48 | adding a row's playtime to its year keeps years strictly ascending, adds the year, grows only that year's total, and grows the sum by the playtime |
| `UserGenre.GroupByYear` | main.py:48-51 | per-year sums: years strictly ascending, exactly the rows' years, each total that year's playtime, grand total the dated playtime |
| `UserGenre.LookupAt` | main.py:48-51 | in ascending pairs, each pair is the one found for its year |
| `UserGenre.GroupByYearIsBreakdown` | main.py:45-51 | the grouped list lists each year of the user's rows once, ascending, with that year's summed playtime |
| `UserGenre.UserForGenre` | main.py:26-53 | fails with MissingGenres if any genre list is missing, else with GenreNotFound iff no row has the genre; otherwise a top user and that user's year breakdown |
| `UserGenre.TopUserOfGenreIsTop` | main.py:30-42 | the user chosen from the genre rows has matching rows and the largest summed genre playtime |
| `UserGenre.DatedPlaytimeIsTotal` | main.py:48 | when every row has a year, no playtime is dropped by the groupby |
| `UserGenre.BreakdownAddsUpToGenreTotal` | main.py:45-51 | when every row has a year, the breakdown's totals add up to the chosen user's genre total |
| `Ranking.InsertDescending` | main.py:61 | inserting into a non-increasing sequence keeps it non-increasing and adds exactly that row |
| `Ranking.SortDescending` | main.py:37 | the sort gives a permutation whose scores never increase |
| `Ranking.HeadOfDescendingIsTopSelection` | main.py:61 | the first k rows of any descending permutation are a top selection |
| `Ranking.TopByScore` | main.py:61 | a descending sort followed by the first k rows is a top selection |
| `Ranking.SmallInputIsKeptWhole` | main.py:61 | with at most k rows, a top selection keeps all of them |
| `Ranking.LeftOutScoresAtMostLastKept` | main.py:79 | a row left out scores no more than the last row kept |
| `Recommendations.YearRows` | main.py:58 | every selected row is a table row of the year, every such row is selected, as a sub-multiset of the table |
| `Recommendations.YearRowsInOrder` | main.py:58 | the year's rows are kept with every copy, in table order |
| `Recommendations.Decimal` | main.py:67 | `str(n)`: decimal digits only, no leading zero for n > 0, and `"0"` for 0 |
| `Recommendations.ParseDecimalInvertsDecimal` | main.py:67 | reading back the decimal numeral of n gives n |
| `Recommendations.RankKey` | main.py:67 | the label of position i is `"Puesto "` followed by decimal digits without a leading zero that read back as rank i + 1, i.e. `"Puesto " + str(i + 1)` |
| `Recommendations.RankKeyIsInjective` | main.py:67 | distinct positions get distinct labels |
| `Recommendations.RankLabels` | main.py:67 | one single-key entry per name, in order; entry i's only key is the label of position i and its value is the i-th name |
| `Recommendations.Names` | main.py:64 | the names column, same length and order as the selected rows |
| `Recommendations.TopOfYear` | main.py:58-61 | the year's rows, sorted by descending score, first three kept: a top selection |
| `Recommendations.UsersRecommend` | main.py:55-69 | the labelled names of a top-3 selection of the year's rows by `sentiment_analysis` |
| `Recommendations.UsersNotRecommend` | main.py:72-87 | the labelled names of a top-3 selection of the year's rows by `count` |
| `Recommendations.LabelledEntry` | main.py:58-67 | entry i of a ranking maps the rank-(i+1) label to the name of a row of that year |
| `Recommendations.RankingEntriesComeFromYear` | main.py:58-67 | at most three entries, each labelled with its rank and naming a game of the requested year |
| `Recommendations.RankingOfAbsentYearIsEmpty` | main.py:58-61 | a year without rows gives an empty list, not an error |
| `Recommendations.RankingOfSmallYearListsAll` | main.py:61-67 | a year with at most three rows has every one of them ranked |
| `SentimentDistribution.ReviewsOfYear` | main.py:92 | every selected row is a table row of the year, and every such row is selected |
| `SentimentDistribution.ReviewsOfYearInOrder` | main.py:92 | the year's rows are kept with every copy, in table order, which decides the last row of each code |
| `SentimentDistribution.LastCount` | main.py:98-105 | the value kept for a code is 0 or the `count` of a row with that code |
| `SentimentDistribution.Tally` | main.py:95-105 | the dictionary has exactly the keys Negative, Neutral and Positive |
| `SentimentDistribution.TallyAppend` | main.py:98-105 | one more row overwrites the entry of its code 0, 1 or 2 with its `count`, and changes nothing for any other code |
| `SentimentDistribution.SentimentAnalysis` | main.py:89-107 | the loop leaves exactly the three keys, each holding the count of the last row of the year with its code, or 0 |
| `SentimentDistribution.TallyIsLastRowOfYear` | main.py:98-105 | the entry of code 0/1/2 is the `count` of the last row of the year with that code |
| `SentimentDistribution.LastRowOfYear` | main.py:98-105 | the last row of the year with a code decides that code's count |
| `SentimentDistribution.NoRowOfYearGivesZero` | main.py:95 | a code with no row in the year keeps its default 0 |
| `SentimentDistribution.AbsentYearGivesZeros` | main.py:92-95 | a year without rows gives three zeros |
| `SentimentDistribution.IgnoredRowChangesNothing` | main.py:98-105 | a row of another year, or with a code other than 0, 1 or 2, changes no entry |

## Left out

- Content-based "similar games" recommendation: main.py defines no such query, and the
  similarity data it would read is not loaded.
- FastAPI app creation and route decorators: HTTP plumbing outside the query logic.
- Loading the parquet files with pyarrow: I/O. The tables are parameters of the queries.
- The message string PlayTimeGenre formats: the model returns the year it reports.
- pandas index bookkeeping (`reset_index`, the in-place `drop('index')`): it only renumbers
  local frames and does not affect any result. Rows are identified by position.
- NaN semantics of pandas aggregations beyond missing genres and missing years: playtime,
  scores and counts are never missing in the model, and no other column can be NaN.
- Non-list genre values: a genre stored as a plain string would make `genre in x` a
  substring test. The model uses element membership only.
- Filter: its own contract states membership both ways and a sub-multiset; that every copy
  is kept in table order is the separate lemma FilterIsPositions, so that the many proofs
  that only need membership do not carry the stronger fact.
- WithGenre: keeping every copy in table order is stated by WithGenreInOrder, for the same reason.
- OfUser: keeping every copy in order is stated by OfUserInOrder, for the same reason.
- YearRows: keeping every copy in table order is stated by YearRowsInOrder, for the same reason.
- ReviewsOfYear: keeping every copy in table order is stated by ReviewsOfYearInOrder, for the same reason.
- UserForGenre: which of several tied users is chosen is not specified, matching the
  unstable sort; the contract promises only a user with the largest total.
- UsersRecommend and UsersNotRecommend: the order among games with equal scores is not
  specified, matching the unstable sort; the contract admits every such order.
