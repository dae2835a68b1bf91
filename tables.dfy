/** The in-memory tables the queries read. Each table is loaded once and never changed,
    so every table is a sequence of immutable rows and each query is a function of a table. */
module Tables {

  datatype Option<+T> = None | Some(value: T)

  /** Why a query has no answer: the exception the pandas pipeline raises. */
  datatype QueryError =
    | GenreNotFound   // idxmax or iloc[0] on an empty frame
    | MissingGenres   // `genre in x` evaluated on a row whose genre list is missing

  datatype Result<+T> = Success(value: T) | Failure(error: QueryError)

  /** A row of max_playtime_per_genre. */
  datatype GenrePlaytime = GenrePlaytime(genres: Option<seq<string>>, year: int, playtimeForever: nat)

  /** A row of user_total_playtime_general; a missing year is a NaN key that groupby drops. */
  datatype UserPlaytime =
    UserPlaytime(userId: string, genres: Option<seq<string>>, year: Option<int>, playtimeForever: nat)

  /** A row of top_3_games_per_year or bottom_3_games_per_year. UsersRecommend ranks by
      `sentimentAnalysis`, UsersNotRecommend by `count`; each reads only its own column. */
  datatype YearGame = YearGame(year: string, appName: string, sentimentAnalysis: int, count: int)

  /** A row of sentiment_counts_sorted: how many reviews of a year carry a sentiment code. */
  datatype SentimentCount = SentimentCount(year: string, sentimentAnalysis: int, count: int)

  /** `genre in x` on a present genre list: element membership. */
  predicate HasGenre(genres: Option<seq<string>>, genre: string) {
    genres.Some? && genre in genres.value
  }
}
