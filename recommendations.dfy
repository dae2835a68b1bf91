/** UsersRecommend and UsersNotRecommend: the three best games of a year, labelled
    "Puesto 1", "Puesto 2", "Puesto 3". Both run one algorithm; UsersRecommend ranks
    top_3_games_per_year by `sentiment_analysis`, UsersNotRecommend ranks
    bottom_3_games_per_year by `count`. */
module Recommendations {
  import opened Tables
  import opened Sequences
  import opened Ranking

  /** How many games each ranking keeps. */
  const Podium: nat := 3

  /** The rows whose year column equals the requested year. */
  function YearRows(table: seq<YearGame>, year: string): (rows: seq<YearGame>)
    ensures forall k :: 0 <= k < |rows| ==> rows[k] in table && rows[k].year == year
    ensures forall i :: 0 <= i < |table| && table[i].year == year ==> table[i] in rows
    ensures multiset(rows) <= multiset(table)
  {
    Filter(table, (g: YearGame) => g.year == year)
  }

  /** The rows of the year are kept with every copy, in table order: the `k`-th of them is
      the table row at the `k`-th position whose year matches. */
  lemma YearRowsInOrder(table: seq<YearGame>, year: string)
    ensures var at := Positions(table, (g: YearGame) => g.year == year);
      && |YearRows(table, year)| == |at|
      && forall k :: 0 <= k < |at| ==> YearRows(table, year)[k] == table[at[k]]
  {
    FilterIsPositions(table, (g: YearGame) => g.year == year);
  }

  /** The ranking column of top_3_games_per_year. */
  function SentimentScore(g: YearGame): int {
    g.sentimentAnalysis
  }

  /** The ranking column of bottom_3_games_per_year. */
  function CountScore(g: YearGame): int {
    g.count
  }

  // ---------------------------------------------------------------------------------------
  // Rank labels: "Puesto " followed by the 1-based position in decimal.

  function DigitChar(d: nat): char
    requires d < 10
  {
    ('0' as int + d) as char
  }

  function DigitValue(c: char): nat {
    if '0' <= c <= '9' then c as int - '0' as int else 0
  }

  /** The decimal numeral of `n`, without leading zeros. */
  function Decimal(n: nat): (s: string)
    ensures |s| >= 1
    ensures forall j :: 0 <= j < |s| ==> '0' <= s[j] <= '9'
    ensures n > 0 ==> s[0] != '0'
    ensures n == 0 ==> s == "0"
  {
    if n < 10 then [DigitChar(n)] else Decimal(n / 10) + [DigitChar(n % 10)]
  }

  /** The value of a decimal numeral. */
  function ParseDecimal(s: string): nat {
    if s == [] then 0 else ParseDecimal(s[..|s| - 1]) * 10 + DigitValue(s[|s| - 1])
  }

  lemma {:induction false} ParseDecimalInvertsDecimal(n: nat)
    ensures ParseDecimal(Decimal(n)) == n
  {
    if n >= 10 {
      ParseDecimalInvertsDecimal(n / 10);
      var s := Decimal(n);
      assert s[..|s| - 1] == Decimal(n / 10);
    }
  }

  const RankPrefix: string := "Puesto "

  /** The label of the entry at 0-based position `i`: the prefix followed by the decimal
      digits of `i + 1`, which read back as rank `i + 1`. */
  function RankKey(i: nat): (key: string)
    ensures |RankPrefix| < |key| && key[..|RankPrefix|] == RankPrefix
    ensures forall j :: |RankPrefix| <= j < |key| ==> '0' <= key[j] <= '9'
    ensures key[|RankPrefix|] != '0'
    ensures RankOf(key) == i + 1
  {
    var key := RankPrefix + Decimal(i + 1);
    assert key[|RankPrefix|..] == Decimal(i + 1);
    ParseDecimalInvertsDecimal(i + 1);
    key
  }

  /** The rank a label names, or 0 for a string that is not a label. */
  function RankOf(key: string): nat {
    if |RankPrefix| <= |key| && key[..|RankPrefix|] == RankPrefix
    then ParseDecimal(key[|RankPrefix|..])
    else 0
  }

  /** Distinct positions get distinct labels. */
  lemma RankKeyIsInjective(i: nat, j: nat)
    requires i != j
    ensures RankKey(i) != RankKey(j)
  {
  }

  /** One single-key entry per name, in order, whose key reads as rank i + 1 and whose value is the i-th name. */
  function RankLabels(names: seq<string>): (entries: seq<map<string, string>>)
    ensures |entries| == |names|
    ensures forall i :: 0 <= i < |entries| ==>
      && entries[i].Keys == {RankKey(i)}
      && |entries[i]| == 1
      && forall key :: key in entries[i] ==> RankOf(key) == i + 1 && entries[i][key] == names[i]
  {
    var entries := seq(|names|, i requires 0 <= i < |names| => map[RankKey(i) := names[i]]);
    forall i | 0 <= i < |names| ensures |entries[i]| == 1 {
      assert entries[i].Keys == {RankKey(i)};
    }
    entries
  }

  /** The `app_name` column, in order. */
  function Names(games: seq<YearGame>): (names: seq<string>)
    ensures |names| == |games|
    ensures forall i :: 0 <= i < |games| ==> names[i] == games[i].appName
  {
    seq(|games|, i requires 0 <= i < |games| => games[i].appName)
  }

  // ---------------------------------------------------------------------------------------
  // The two queries.

  /** The rows of `year` sorted by descending `score`, first three kept. */
  function TopOfYear(table: seq<YearGame>, year: string, score: YearGame -> int): (chosen: seq<YearGame>)
    ensures IsTopSelection(YearRows(table, year), score, Podium, chosen)
  {
    TopByScore(YearRows(table, year), score, Podium)
  }

  /** `result` labels the names of some top-3 selection of the year's rows by `score`. */
  ghost predicate IsRankingOfYear(table: seq<YearGame>, year: string, score: YearGame -> int,
                                  result: seq<map<string, string>>) {
    exists chosen: seq<YearGame> :: IsTopSelection(YearRows(table, year), score, Podium, chosen)
                     && result == RankLabels(Names(chosen))
  }

  function UsersRecommend(table: seq<YearGame>, year: string): (result: seq<map<string, string>>)
    ensures IsRankingOfYear(table, year, SentimentScore, result)
  {
    RankLabels(Names(TopOfYear(table, year, SentimentScore)))
  }

  function UsersNotRecommend(table: seq<YearGame>, year: string): (result: seq<map<string, string>>)
    ensures IsRankingOfYear(table, year, CountScore, result)
  {
    RankLabels(Names(TopOfYear(table, year, CountScore)))
  }

  /** A labelled entry of `chosen` names a row of the year. */
  lemma LabelledEntry(table: seq<YearGame>, year: string, score: YearGame -> int,
                      chosen: seq<YearGame>, i: nat)
    requires IsTopSelection(YearRows(table, year), score, Podium, chosen)
    requires i < |chosen|
    ensures chosen[i] in table && chosen[i].year == year
    ensures RankLabels(Names(chosen))[i] == map[RankKey(i) := chosen[i].appName]
  {
    var rows := YearRows(table, year);
    assert chosen[i] in multiset(rows);
    assert chosen[i] in rows;
    var k :| 0 <= k < |rows| && rows[k] == chosen[i];
    var entry := RankLabels(Names(chosen))[i];
    assert entry.Keys == {RankKey(i)} by {
      forall key | key in entry ensures key == RankKey(i) {
        assert |entry| == 1;
      }
    }
  }

  /** `entry` is the single-key map from the label of rank i + 1 to the name of a game of `year`. */
  ghost predicate IsEntryOfYear(table: seq<YearGame>, year: string, i: nat, entry: map<string, string>) {
    exists g :: g in table && g.year == year && entry == map[RankKey(i) := g.appName]
  }

  /** A ranking of a year has at most three entries, each labelled with its rank and naming
      a game of that year. */
  lemma RankingEntriesComeFromYear(table: seq<YearGame>, year: string, score: YearGame -> int,
                                   result: seq<map<string, string>>)
    requires IsRankingOfYear(table, year, score, result)
    ensures |result| <= Podium
    ensures forall i :: 0 <= i < |result| ==> IsEntryOfYear(table, year, i, result[i])
  {
    var chosen: seq<YearGame> :| IsTopSelection(YearRows(table, year), score, Podium, chosen)
                                 && result == RankLabels(Names(chosen));
    assert |result| == |chosen| <= Podium;
    forall i | 0 <= i < |result| ensures IsEntryOfYear(table, year, i, result[i]) {
      LabelledEntry(table, year, score, chosen, i);
      var g := chosen[i];
      assert result[i] == RankLabels(Names(chosen))[i];
      assert g in table && g.year == year && result[i] == map[RankKey(i) := g.appName];
    }
  }

  /** A year without rows gives an empty ranking, not a failure. */
  lemma RankingOfAbsentYearIsEmpty(table: seq<YearGame>, year: string, score: YearGame -> int,
                                   result: seq<map<string, string>>)
    requires IsRankingOfYear(table, year, score, result)
    requires forall i :: 0 <= i < |table| ==> table[i].year != year
    ensures result == []
  {
    FilterNone(table, (g: YearGame) => g.year == year);
  }

  /** A year with at most three rows has each of them ranked. */
  lemma RankingOfSmallYearListsAll(table: seq<YearGame>, year: string, score: YearGame -> int,
                                   result: seq<map<string, string>>)
    requires IsRankingOfYear(table, year, score, result)
    requires |YearRows(table, year)| <= Podium
    ensures |result| == |YearRows(table, year)|
    ensures forall g :: g in YearRows(table, year) ==>
      exists i :: 0 <= i < |result| && result[i] == map[RankKey(i) := g.appName]
  {
    var rows := YearRows(table, year);
    var chosen: seq<YearGame> :| IsTopSelection(rows, score, Podium, chosen)
                                 && result == RankLabels(Names(chosen));
    SmallInputIsKeptWhole(rows, score, Podium, chosen);
    forall g | g in rows ensures exists i :: 0 <= i < |result| && result[i] == map[RankKey(i) := g.appName] {
      assert g in multiset(chosen);
      var i :| 0 <= i < |chosen| && chosen[i] == g;
      LabelledEntry(table, year, score, chosen, i);
    }
  }
}
