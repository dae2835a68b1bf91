/** sentiment_analysis: how many reviews of a year are negative, neutral and positive,
    read from sentiment_counts_sorted. The query starts from a dictionary with the three
    keys set to 0 and overwrites an entry for every row of the year whose sentiment code is
    0, 1 or 2, so when several rows carry the same code the last one wins. */
module SentimentDistribution {
  import opened Tables
  import opened Sequences

  /** The dictionary key of sentiment code 0, 1 or 2. */
  function SentimentKey(code: int): string
    requires 0 <= code <= 2
  {
    if code == 0 then "Negative" else if code == 1 then "Neutral" else "Positive"
  }

  /** The rows whose year column equals the requested year. */
  function ReviewsOfYear(table: seq<SentimentCount>, year: string): (reviews: seq<SentimentCount>)
    ensures forall k :: 0 <= k < |reviews| ==> reviews[k] in table && reviews[k].year == year
    ensures forall i :: 0 <= i < |table| && table[i].year == year ==> table[i] in reviews
  {
    Filter(table, (row: SentimentCount) => row.year == year)
  }

  /** The rows of the year are kept with every copy, in table order: the `k`-th of them is
      the table row at the `k`-th position whose year matches. */
  lemma ReviewsOfYearInOrder(table: seq<SentimentCount>, year: string)
    ensures var at := Positions(table, (row: SentimentCount) => row.year == year);
      && |ReviewsOfYear(table, year)| == |at|
      && forall k :: 0 <= k < |at| ==> ReviewsOfYear(table, year)[k] == table[at[k]]
  {
    FilterIsPositions(table, (row: SentimentCount) => row.year == year);
  }

  /** Some row of `reviews` has sentiment code `code` and `count` equal to `count`. */
  ghost predicate IsCountOfCode(reviews: seq<SentimentCount>, code: int, count: int) {
    exists j :: 0 <= j < |reviews| && reviews[j].sentimentAnalysis == code && reviews[j].count == count
  }

  /** The `count` of the last row of `reviews` with sentiment code `code`, or 0 when there is none. */
  function LastCount(reviews: seq<SentimentCount>, code: int): (count: int)
    ensures count == 0 || IsCountOfCode(reviews, code, count)
  {
    if reviews == [] then 0
    else if reviews[|reviews| - 1].sentimentAnalysis == code then reviews[|reviews| - 1].count
    else
      var init := reviews[..|reviews| - 1];
      assert forall j :: 0 <= j < |init| ==> init[j] == reviews[j];
      var count := LastCount(init, code);
      assert count == 0 || IsCountOfCode(reviews, code, count) by {
        if count != 0 {
          var j :| 0 <= j < |init| && init[j].sentimentAnalysis == code && init[j].count == count;
          assert reviews[j] == init[j];
        }
      }
      count
  }

  /** The dictionary the loop leaves after visiting `reviews`. */
  function Tally(reviews: seq<SentimentCount>): (tally: map<string, int>)
    ensures tally.Keys == {"Negative", "Neutral", "Positive"}
  {
    map["Negative" := LastCount(reviews, 0), "Neutral" := LastCount(reviews, 1), "Positive" := LastCount(reviews, 2)]
  }

  /** Visiting one more row overwrites the entry of its sentiment code, if it has one of the
      three codes, and leaves the dictionary unchanged otherwise. */
  lemma TallyAppend(reviews: seq<SentimentCount>, row: SentimentCount)
    ensures Tally(reviews + [row]) ==
      if row.sentimentAnalysis == 0 then Tally(reviews)["Negative" := row.count]
      else if row.sentimentAnalysis == 1 then Tally(reviews)["Neutral" := row.count]
      else if row.sentimentAnalysis == 2 then Tally(reviews)["Positive" := row.count]
      else Tally(reviews)
  {
    assert (reviews + [row])[..|reviews|] == reviews;
  }

  /** The query, as the loop over the rows of the year. */
  method SentimentAnalysis(table: seq<SentimentCount>, year: string) returns (tally: map<string, int>)
    ensures tally.Keys == {"Negative", "Neutral", "Positive"}
    ensures tally == Tally(ReviewsOfYear(table, year))
  {
    var reviews := ReviewsOfYear(table, year);
    tally := map["Negative" := 0, "Neutral" := 0, "Positive" := 0];
    for i := 0 to |reviews|
      invariant tally == Tally(reviews[..i])
    {
      assert reviews[..i + 1] == reviews[..i] + [reviews[i]];
      TallyAppend(reviews[..i], reviews[i]);
      var sentiment := reviews[i].sentimentAnalysis;
      if sentiment == 0 {
        tally := tally["Negative" := reviews[i].count];
      } else if sentiment == 1 {
        tally := tally["Neutral" := reviews[i].count];
      } else if sentiment == 2 {
        tally := tally["Positive" := reviews[i].count];
      }
    }
    assert reviews[..|reviews|] == reviews;
  }

  /** Row `i` is the last row of `year` with sentiment code `code`. */
  ghost predicate IsLastOfYear(table: seq<SentimentCount>, year: string, code: int, i: int) {
    && 0 <= i < |table|
    && table[i].year == year && table[i].sentimentAnalysis == code
    && forall j :: i < j < |table| ==> !(table[j].year == year && table[j].sentimentAnalysis == code)
  }

  /** The entry of a sentiment code is the `count` of the last row of the year with that code. */
  lemma {:induction false} TallyIsLastRowOfYear(table: seq<SentimentCount>, year: string, code: int, i: int)
    requires 0 <= code <= 2
    requires IsLastOfYear(table, year, code, i)
    ensures Tally(ReviewsOfYear(table, year))[SentimentKey(code)] == table[i].count
  {
    LastRowOfYear(table, year, code, i);
  }

  lemma {:induction false} LastRowOfYear(table: seq<SentimentCount>, year: string, code: int, i: int)
    requires IsLastOfYear(table, year, code, i)
    ensures LastCount(ReviewsOfYear(table, year), code) == table[i].count
  {
    var n := |table| - 1;
    var init := table[..n];
    assert table == init + [table[n]];
    if i < n {
      assert IsLastOfYear(init, year, code, i);
      LastRowOfYear(init, year, code, i);
    }
  }

  /** A sentiment code with no row in the year keeps its default 0. */
  lemma {:induction false} NoRowOfYearGivesZero(table: seq<SentimentCount>, year: string, code: int)
    requires forall j :: 0 <= j < |table| ==> !(table[j].year == year && table[j].sentimentAnalysis == code)
    ensures LastCount(ReviewsOfYear(table, year), code) == 0
  {
    if table != [] {
      var n := |table| - 1;
      NoRowOfYearGivesZero(table[..n], year, code);
    }
  }

  /** A year without rows gives three zeros, not a failure. */
  lemma AbsentYearGivesZeros(table: seq<SentimentCount>, year: string)
    requires forall j :: 0 <= j < |table| ==> table[j].year != year
    ensures Tally(ReviewsOfYear(table, year)) == map["Negative" := 0, "Neutral" := 0, "Positive" := 0]
  {
    NoRowOfYearGivesZero(table, year, 0);
    NoRowOfYearGivesZero(table, year, 1);
    NoRowOfYearGivesZero(table, year, 2);
  }

  /** A row of another year, or with a code other than 0, 1 and 2, changes nothing. */
  lemma IgnoredRowChangesNothing(table: seq<SentimentCount>, row: SentimentCount, year: string)
    requires row.year != year || !(0 <= row.sentimentAnalysis <= 2)
    ensures Tally(ReviewsOfYear(table + [row], year)) == Tally(ReviewsOfYear(table, year))
  {
    assert (table + [row])[..|table|] == table;
  }
}
