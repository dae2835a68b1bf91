/** UserForGenre: the user with the most hours played in a genre, and that user's hours
    per year, read from user_total_playtime_general. */
module UserGenre {
  import opened Tables
  import opened Sequences
  import opened Ranking

  /** The row's genre list contains `genre`. */
  predicate Matches(row: UserPlaytime, genre: string) {
    HasGenre(row.genres, genre)
  }

  /** Some row has no genre list. The query does not drop such rows first, so evaluating
      `genre in x` on one of them raises. */
  predicate SomeGenresMissing(table: seq<UserPlaytime>) {
    exists i :: 0 <= i < |table| && table[i].genres.None?
  }

  /** The rows whose genre list contains `genre`. */
  function WithGenre(table: seq<UserPlaytime>, genre: string): (rows: seq<UserPlaytime>)
    ensures forall k :: 0 <= k < |rows| ==> rows[k] in table && Matches(rows[k], genre)
    ensures forall i :: 0 <= i < |table| && Matches(table[i], genre) ==> table[i] in rows
  {
    Filter(table, (row: UserPlaytime) => Matches(row, genre))
  }

  /** The rows of `user`. */
  function OfUser(rows: seq<UserPlaytime>, user: string): (mine: seq<UserPlaytime>)
    ensures forall k :: 0 <= k < |mine| ==> mine[k] in rows && mine[k].userId == user
    ensures forall i :: 0 <= i < |rows| && rows[i].userId == user ==> rows[i] in mine
  {
    Filter(rows, (row: UserPlaytime) => row.userId == user)
  }

  /** The genre rows are kept with every copy, in table order: the `k`-th of them is the
      table row at the `k`-th position whose genre list contains `genre`. */
  lemma WithGenreInOrder(table: seq<UserPlaytime>, genre: string)
    ensures var at := Positions(table, (row: UserPlaytime) => Matches(row, genre));
      && |WithGenre(table, genre)| == |at|
      && forall k :: 0 <= k < |at| ==> WithGenre(table, genre)[k] == table[at[k]]
  {
    FilterIsPositions(table, (row: UserPlaytime) => Matches(row, genre));
  }

  /** The rows of a user are kept with every copy, in order: the `k`-th of them is the row
      at the `k`-th position holding that user. */
  lemma OfUserInOrder(rows: seq<UserPlaytime>, user: string)
    ensures var at := Positions(rows, (row: UserPlaytime) => row.userId == user);
      && |OfUser(rows, user)| == |at|
      && forall k :: 0 <= k < |at| ==> OfUser(rows, user)[k] == rows[at[k]]
  {
    FilterIsPositions(rows, (row: UserPlaytime) => row.userId == user);
  }

  /** Sum of `playtime_forever` over `rows`. */
  function TotalPlaytime(rows: seq<UserPlaytime>): nat {
    if rows == [] then 0
    else TotalPlaytime(rows[..|rows| - 1]) + rows[|rows| - 1].playtimeForever
  }

  /** The sum does not depend on how the rows are split: summing two parts and adding
      the results gives the sum of the whole. */
  lemma {:induction false} TotalPlaytimeOfConcat(a: seq<UserPlaytime>, b: seq<UserPlaytime>)
    ensures TotalPlaytime(a + b) == TotalPlaytime(a) + TotalPlaytime(b)
  {
    if b != [] {
      var n := |b| - 1;
      assert (a + b)[..|a + b| - 1] == a + b[..n];
      TotalPlaytimeOfConcat(a, b[..n]);
    } else {
      assert a + b == a;
    }
  }

  /** Every row contributes its whole playtime to the sum. */
  lemma {:induction false} RowWithinTotal(rows: seq<UserPlaytime>, i: nat)
    requires i < |rows|
    ensures rows[i].playtimeForever <= TotalPlaytime(rows)
  {
    if i < |rows| - 1 {
      assert rows[..|rows| - 1][i] == rows[i];
      RowWithinTotal(rows[..|rows| - 1], i);
    }
  }

  /** Sum of `playtime_forever` over the rows that have a year: what survives a groupby on year. */
  function DatedPlaytime(rows: seq<UserPlaytime>): (dated: nat)
    ensures dated <= TotalPlaytime(rows)
  {
    if rows == [] then 0
    else
      var last := rows[|rows| - 1];
      DatedPlaytime(rows[..|rows| - 1]) + if last.year.Some? then last.playtimeForever else 0
  }

  /** Sum of `playtime_forever` over the rows of year `y`. */
  function YearPlaytime(rows: seq<UserPlaytime>, y: int): (total: nat)
    ensures total <= DatedPlaytime(rows)
    ensures (forall i :: 0 <= i < |rows| ==> rows[i].year != Some(y)) ==> total == 0
  {
    if rows == [] then 0
    else
      var last := rows[|rows| - 1];
      assert forall i :: 0 <= i < |rows| - 1 ==> rows[..|rows| - 1][i] == rows[i];
      YearPlaytime(rows[..|rows| - 1], y) + if last.year == Some(y) then last.playtimeForever else 0
  }

  /** The years present in `rows`. */
  function Years(rows: seq<UserPlaytime>): (years: set<int>)
    ensures forall y :: y in years <==> exists i :: 0 <= i < |rows| && rows[i].year == Some(y)
  {
    if rows == [] then {}
    else
      var last := rows[|rows| - 1];
      var init := Years(rows[..|rows| - 1]);
      assert forall i :: 0 <= i < |rows| - 1 ==> rows[..|rows| - 1][i] == rows[i];
      if last.year.Some? then init + {last.year.value} else init
  }

  /** The summed genre playtime of `user`: that user's entry of the first groupby. */
  function GenreTotal(table: seq<UserPlaytime>, genre: string, user: string): (total: nat)
    ensures forall i :: 0 <= i < |table| && Matches(table[i], genre) && table[i].userId == user ==>
      table[i].playtimeForever <= total
    ensures (forall i :: 0 <= i < |table| ==> !(Matches(table[i], genre) && table[i].userId == user)) ==> total == 0
  {
    var rows := WithGenre(table, genre);
    forall i | 0 <= i < |table| && Matches(table[i], genre) && table[i].userId == user
      ensures table[i].playtimeForever <= TotalPlaytime(OfUser(rows, user))
    {
      var mine := OfUser(rows, user);
      var k :| 0 <= k < |rows| && rows[k] == table[i];
      var j :| 0 <= j < |mine| && mine[j] == rows[k];
      RowWithinTotal(mine, j);
    }
    if forall i :: 0 <= i < |table| ==> !(Matches(table[i], genre) && table[i].userId == user) then
      forall k | 0 <= k < |rows| ensures rows[k].userId != user {
        var i :| 0 <= i < |table| && table[i] == rows[k];
      }
      AbsentUserHasNoPlaytime(rows, user);
      TotalPlaytime(OfUser(rows, user))
    else
      TotalPlaytime(OfUser(rows, user))
  }

  // ---------------------------------------------------------------------------------------
  // Group by user, then pick a user with the largest total.

  /** The distinct users of `rows`, in order of first appearance. */
  function Users(rows: seq<UserPlaytime>): (users: seq<string>)
    ensures forall k :: 0 <= k < |users| ==> exists i :: 0 <= i < |rows| && rows[i].userId == users[k]
    ensures forall i :: 0 <= i < |rows| ==> rows[i].userId in users
    ensures forall a, b :: 0 <= a < b < |users| ==> users[a] != users[b]
  {
    if rows == [] then []
    else
      var init := Users(rows[..|rows| - 1]);
      assert forall i :: 0 <= i < |rows| - 1 ==> rows[..|rows| - 1][i] == rows[i];
      if rows[|rows| - 1].userId in init then init else init + [rows[|rows| - 1].userId]
  }

  /** `user` has at least one row in `rows`. */
  ghost predicate HasRowsOf(rows: seq<UserPlaytime>, user: string) {
    exists i :: 0 <= i < |rows| && rows[i].userId == user
  }

  /** Some entry of `totals` has key `user`. */
  ghost predicate IsKeyOf(totals: seq<(string, nat)>, user: string) {
    exists k :: 0 <= k < |totals| && totals[k].0 == user
  }

  /** The groupby on user: one entry per distinct user of `rows`, each paired with the
      summed playtime of that user's rows. */
  function UserTotals(rows: seq<UserPlaytime>): (totals: seq<(string, nat)>)
    ensures forall a, b :: 0 <= a < b < |totals| ==> totals[a].0 != totals[b].0
    ensures forall k :: 0 <= k < |totals| ==> HasRowsOf(rows, totals[k].0)
    ensures forall i :: 0 <= i < |rows| ==> IsKeyOf(totals, rows[i].userId)
    ensures forall k :: 0 <= k < |totals| ==> totals[k].1 == TotalPlaytime(OfUser(rows, totals[k].0))
  {
    var users := Users(rows);
    var totals := seq(|users|, k requires 0 <= k < |users| => (users[k], TotalPlaytime(OfUser(rows, users[k]))));
    forall k | 0 <= k < |totals| ensures HasRowsOf(rows, totals[k].0) {
      assert totals[k].0 == users[k];
    }
    forall i | 0 <= i < |rows| ensures IsKeyOf(totals, rows[i].userId) {
      var k :| 0 <= k < |users| && users[k] == rows[i].userId;
      assert totals[k].0 == rows[i].userId;
    }
    totals
  }

  /** The sort key of a user entry: its summed playtime. */
  function Hours(entry: (string, nat)): int {
    entry.1
  }

  /** A user with no rows has played nothing. */
  lemma AbsentUserHasNoPlaytime(rows: seq<UserPlaytime>, user: string)
    requires forall i :: 0 <= i < |rows| ==> rows[i].userId != user
    ensures OfUser(rows, user) == []
  {
    FilterNone(rows, (row: UserPlaytime) => row.userId == user);
  }

  /** An entry of the sorted user totals scores no more than the first entry. */
  lemma SortedHeadBoundsUser(rows: seq<UserPlaytime>, sorted: seq<(string, nat)>, top: nat, other: string)
    requires sorted != []
    requires multiset(sorted) == multiset(UserTotals(rows))
    requires NonIncreasing(sorted, Hours)
    requires top < |UserTotals(rows)| && UserTotals(rows)[top] == sorted[0]
    ensures TotalPlaytime(OfUser(rows, other)) <= TotalPlaytime(OfUser(rows, sorted[0].0))
  {
    var totals := UserTotals(rows);
    assert sorted[0].1 == TotalPlaytime(OfUser(rows, sorted[0].0));
    if HasRowsOf(rows, other) {
      var k := EntryOfUser(rows, other);
      EntryBelowHead(totals, sorted, k);
    } else {
      AbsentUserHasNoPlaytime(rows, other);
    }
  }

  /** Every entry of a list scores at most the head of a non-increasing permutation of it. */
  lemma EntryBelowHead(totals: seq<(string, nat)>, sorted: seq<(string, nat)>, k: nat)
    requires multiset(sorted) == multiset(totals)
    requires NonIncreasing(sorted, Hours)
    requires k < |totals|
    ensures sorted != [] && totals[k].1 <= sorted[0].1
  {
    assert totals[k] in multiset(sorted);
    var a :| 0 <= a < |sorted| && sorted[a] == totals[k];
    assert Hours(sorted[0]) >= Hours(sorted[a]);
  }

  /** A user with rows has an entry in the user totals. */
  lemma EntryOfUser(rows: seq<UserPlaytime>, user: string) returns (k: nat)
    requires HasRowsOf(rows, user)
    ensures k < |UserTotals(rows)| && UserTotals(rows)[k].0 == user
  {
    var i :| 0 <= i < |rows| && rows[i].userId == user;
    assert IsKeyOf(UserTotals(rows), rows[i].userId);
    k :| 0 <= k < |UserTotals(rows)| && UserTotals(rows)[k].0 == user;
  }

  /** The first entry of the sorted user totals is the entry of some user of `rows`. */
  lemma SortedHeadIsUserEntry(rows: seq<UserPlaytime>, sorted: seq<(string, nat)>) returns (top: nat)
    requires sorted != []
    requires multiset(sorted) == multiset(UserTotals(rows))
    ensures top < |UserTotals(rows)| && UserTotals(rows)[top] == sorted[0]
    ensures exists i :: 0 <= i < |rows| && rows[i].userId == sorted[0].0
  {
    var totals := UserTotals(rows);
    assert sorted[0] in multiset(totals);
    assert sorted[0] in totals;
    top :| 0 <= top < |totals| && totals[top] == sorted[0];
    assert HasRowsOf(rows, totals[top].0);
  }

  /** The first entry of the user totals sorted by descending hours names a user of `rows`
      whose total is at least every user's total. */
  lemma SortedHeadIsTopUser(rows: seq<UserPlaytime>, sorted: seq<(string, nat)>)
    requires sorted != []
    requires multiset(sorted) == multiset(UserTotals(rows))
    requires NonIncreasing(sorted, Hours)
    ensures exists i :: 0 <= i < |rows| && rows[i].userId == sorted[0].0
    ensures forall other: string :: TotalPlaytime(OfUser(rows, other)) <= TotalPlaytime(OfUser(rows, sorted[0].0))
  {
    var top := SortedHeadIsUserEntry(rows, sorted);
    forall other: string
      ensures TotalPlaytime(OfUser(rows, other)) <= TotalPlaytime(OfUser(rows, sorted[0].0))
    {
      SortedHeadBoundsUser(rows, sorted, top, other);
    }
  }

  /** A user of `rows` with the largest summed playtime: the first row after
      a descending sort of the per-user totals. Which of several tied users
      comes first is not specified. */
  function TopUser(rows: seq<UserPlaytime>): (user: string)
    requires rows != []
    ensures exists i :: 0 <= i < |rows| && rows[i].userId == user
    ensures forall other: string :: TotalPlaytime(OfUser(rows, other)) <= TotalPlaytime(OfUser(rows, user))
  {
    var sorted := SortDescending(UserTotals(rows), Hours);
    assert IsKeyOf(UserTotals(rows), rows[0].userId);
    SortedHeadIsTopUser(rows, sorted);
    sorted[0].0
  }

  // ---------------------------------------------------------------------------------------
  // Group by year: `(year, total)` pairs kept in ascending year order, as groupby sorts its keys.

  /** Years strictly increase along `groups`. */
  ghost predicate StrictlyAscending(groups: seq<(int, nat)>) {
    forall a, b :: 0 <= a < b < |groups| ==> groups[a].0 < groups[b].0
  }

  /** The years of the pairs. */
  function GroupYears(groups: seq<(int, nat)>): set<int> {
    set k | 0 <= k < |groups| :: groups[k].0
  }

  lemma GroupYearsCons(h: (int, nat), t: seq<(int, nat)>)
    ensures GroupYears([h] + t) == {h.0} + GroupYears(t)
  {
    var r := [h] + t;
    forall z | z in GroupYears(r) ensures z == h.0 || z in GroupYears(t) {
      var k :| 0 <= k < |r| && r[k].0 == z;
      if k > 0 { assert t[k - 1].0 == z; }
    }
    forall z | z in GroupYears(t) ensures z in GroupYears(r) {
      var k :| 0 <= k < |t| && t[k].0 == z;
      assert r[k + 1].0 == z;
    }
    assert r[0].0 == h.0;
  }

  /** The total paired with year `y`, or 0 when there is none. */
  function Lookup(groups: seq<(int, nat)>, y: int): (total: nat)
    ensures y !in GroupYears(groups) ==> total == 0
  {
    if groups == [] then 0
    else if groups[0].0 == y then groups[0].1
    else
      assert GroupYears(groups[1..]) <= GroupYears(groups) by {
        forall z | z in GroupYears(groups[1..]) ensures z in GroupYears(groups) {
          var k :| 0 <= k < |groups[1..]| && groups[1..][k].0 == z;
          assert groups[k + 1].0 == z;
        }
      }
      Lookup(groups[1..], y)
  }

  /** Sum of the totals of the pairs. */
  function GroupSum(groups: seq<(int, nat)>): nat {
    if groups == [] then 0 else groups[0].1 + GroupSum(groups[1..])
  }

  /** `r` is `groups` with playtime `p` added to year `y`, still in ascending year order. */
  ghost predicate Accumulated(groups: seq<(int, nat)>, y: int, p: nat, r: seq<(int, nat)>) {
    && StrictlyAscending(r)
    && GroupYears(r) == GroupYears(groups) + {y}
    && (forall z :: Lookup(r, z) == Lookup(groups, z) + (if z == y then p else 0))
    && GroupSum(r) == GroupSum(groups) + p
  }

  /** Adds playtime `p` of year `y`: the year's pair grows by `p`, or a new pair is placed in order. */
  function Accumulate(groups: seq<(int, nat)>, y: int, p: nat): (r: seq<(int, nat)>)
    requires StrictlyAscending(groups)
    ensures Accumulated(groups, y, p, r)
  {
    if groups == [] then
      GroupYearsCons((y, p), []);
      assert [(y, p)] + [] == [(y, p)];
      [(y, p)]
    else if y < groups[0].0 then
      AccumulateBefore(groups, y, p);
      [(y, p)] + groups
    else if y == groups[0].0 then
      AccumulateAt(groups, y, p);
      [(y, groups[0].1 + p)] + groups[1..]
    else
      var rest := Accumulate(groups[1..], y, p);
      AccumulateAfter(groups, y, p, rest);
      [groups[0]] + rest
  }

  lemma AccumulateBefore(groups: seq<(int, nat)>, y: int, p: nat)
    requires StrictlyAscending(groups) && groups != [] && y < groups[0].0
    ensures Accumulated(groups, y, p, [(y, p)] + groups)
  {
    GroupYearsCons((y, p), groups);
    forall z | z in GroupYears(groups) ensures y < z {
      var k :| 0 <= k < |groups| && groups[k].0 == z;
    }
  }

  lemma AccumulateAt(groups: seq<(int, nat)>, y: int, p: nat)
    requires StrictlyAscending(groups) && groups != [] && y == groups[0].0
    ensures Accumulated(groups, y, p, [(y, groups[0].1 + p)] + groups[1..])
  {
    assert groups == [groups[0]] + groups[1..];
    GroupYearsCons(groups[0], groups[1..]);
    GroupYearsCons((y, groups[0].1 + p), groups[1..]);
  }

  lemma AccumulateAfter(groups: seq<(int, nat)>, y: int, p: nat, rest: seq<(int, nat)>)
    requires StrictlyAscending(groups) && groups != [] && groups[0].0 < y
    requires Accumulated(groups[1..], y, p, rest)
    ensures Accumulated(groups, y, p, [groups[0]] + rest)
  {
    var r := [groups[0]] + rest;
    assert StrictlyAscending(r) by {
      HeadBelowAccumulated(groups, y, p, rest);
      PrependKeepsAscending(groups[0], rest);
    }
    assert GroupYears(r) == GroupYears(groups) + {y} by {
      assert groups == [groups[0]] + groups[1..];
      GroupYearsCons(groups[0], groups[1..]);
      GroupYearsCons(groups[0], rest);
    }
    assert GroupSum(r) == GroupSum(groups) + p by {
      assert r[1..] == rest;
    }
    LookupPastHead(groups, y, p, rest);
  }

  lemma LookupPastHead(groups: seq<(int, nat)>, y: int, p: nat, rest: seq<(int, nat)>)
    requires groups != [] && groups[0].0 < y
    requires forall z :: Lookup(rest, z) == Lookup(groups[1..], z) + (if z == y then p else 0)
    ensures forall z :: Lookup([groups[0]] + rest, z) == Lookup(groups, z) + (if z == y then p else 0)
  {
    var r := [groups[0]] + rest;
    assert r[1..] == rest;
    forall z ensures Lookup(r, z) == Lookup(groups, z) + (if z == y then p else 0) {
      if z != groups[0].0 {
        assert Lookup(r, z) == Lookup(rest, z);
        assert Lookup(groups, z) == Lookup(groups[1..], z);
      }
    }
  }

  /** The first year of `groups` lies below every year after accumulating past it. */
  lemma HeadBelowAccumulated(groups: seq<(int, nat)>, y: int, p: nat, rest: seq<(int, nat)>)
    requires StrictlyAscending(groups) && groups != [] && groups[0].0 < y
    requires GroupYears(rest) == GroupYears(groups[1..]) + {y}
    ensures forall k :: 0 <= k < |rest| ==> groups[0].0 < rest[k].0
  {
    forall k | 0 <= k < |rest| ensures groups[0].0 < rest[k].0 {
      assert rest[k].0 in GroupYears(rest);
      if rest[k].0 != y {
        var a :| 0 <= a < |groups[1..]| && groups[1..][a].0 == rest[k].0;
        assert groups[a + 1].0 == rest[k].0;
      }
    }
  }

  lemma PrependKeepsAscending(h: (int, nat), t: seq<(int, nat)>)
    requires StrictlyAscending(t)
    requires forall k :: 0 <= k < |t| ==> h.0 < t[k].0
    ensures StrictlyAscending([h] + t)
  {
    var r := [h] + t;
    forall a, b | 0 <= a < b < |r| ensures r[a].0 < r[b].0 {
      assert r[b] == t[b - 1];
      if a > 0 { assert r[a] == t[a - 1]; }
    }
  }

  /** Playtime summed per year: one pair per year present in `rows`,
      years ascending, rows without a year dropped. */
  function GroupByYear(rows: seq<UserPlaytime>): (groups: seq<(int, nat)>)
    ensures StrictlyAscending(groups)
    ensures GroupYears(groups) == Years(rows)
    ensures forall y :: Lookup(groups, y) == YearPlaytime(rows, y)
    ensures GroupSum(groups) == DatedPlaytime(rows)
  {
    if rows == [] then []
    else
      var init := GroupByYear(rows[..|rows| - 1]);
      var last := rows[|rows| - 1];
      match last.year
      case None => init
      case Some(y) => Accumulate(init, y, last.playtimeForever)
  }

  /** In ascending pairs, the pair at position `k` is the one Lookup finds. */
  lemma {:induction false} LookupAt(groups: seq<(int, nat)>, k: nat)
    requires StrictlyAscending(groups)
    requires k < |groups|
    ensures Lookup(groups, groups[k].0) == groups[k].1
  {
    if k > 0 {
      assert groups[0].0 < groups[k].0;
      LookupAt(groups[1..], k - 1);
    }
  }

  // ---------------------------------------------------------------------------------------
  // The query.

  /** `user` has matching rows and no user has a larger summed genre playtime. */
  ghost predicate IsTopUser(table: seq<UserPlaytime>, genre: string, user: string) {
    && (exists i :: 0 <= i < |table| && Matches(table[i], genre) && table[i].userId == user)
    && forall other: string :: GenreTotal(table, genre, other) <= GenreTotal(table, genre, user)
  }

  /** `groups` lists, in strictly ascending year order, every year of `rows` exactly once,
      each with the summed playtime of that year; together they hold all dated playtime. */
  ghost predicate IsYearBreakdown(rows: seq<UserPlaytime>, groups: seq<(int, nat)>) {
    && StrictlyAscending(groups)
    && (forall k :: 0 <= k < |groups| ==>
          groups[k].0 in Years(rows) && groups[k].1 == YearPlaytime(rows, groups[k].0))
    && (forall y :: y in Years(rows) ==> exists k :: 0 <= k < |groups| && groups[k].0 == y)
    && GroupSum(groups) == DatedPlaytime(rows)
  }

  lemma GroupByYearIsBreakdown(rows: seq<UserPlaytime>)
    ensures IsYearBreakdown(rows, GroupByYear(rows))
  {
    var groups := GroupByYear(rows);
    forall k | 0 <= k < |groups|
      ensures groups[k].0 in Years(rows) && groups[k].1 == YearPlaytime(rows, groups[k].0)
    {
      assert groups[k].0 in GroupYears(groups);
      LookupAt(groups, k);
    }
  }

  /** The query: Failure(MissingGenres) when some genre list is missing, Failure(GenreNotFound)
      when no row has the genre, otherwise a top user and that user's per-year breakdown. */
  function UserForGenre(table: seq<UserPlaytime>, genre: string): (r: Result<(string, seq<(int, nat)>)>)
    ensures r.Failure? <==>
      SomeGenresMissing(table) || forall i :: 0 <= i < |table| ==> !Matches(table[i], genre)
    ensures r.Failure? ==> r.error == if SomeGenresMissing(table) then MissingGenres else GenreNotFound
    ensures r.Success? ==>
      && IsTopUser(table, genre, r.value.0)
      && IsYearBreakdown(OfUser(WithGenre(table, genre), r.value.0), r.value.1)
  {
    if SomeGenresMissing(table) then Failure(MissingGenres)
    else
      var genreData := WithGenre(table, genre);
      if genreData == [] then
        assert forall i :: 0 <= i < |table| ==> !Matches(table[i], genre);
        Failure(GenreNotFound)
      else
        var user := TopUser(genreData);
        var groups := GroupByYear(OfUser(genreData, user));
        TopUserOfGenreIsTop(table, genre);
        GroupByYearIsBreakdown(OfUser(genreData, user));
        Success((user, groups))
  }

  lemma TopUserOfGenreIsTop(table: seq<UserPlaytime>, genre: string)
    requires WithGenre(table, genre) != []
    ensures IsTopUser(table, genre, TopUser(WithGenre(table, genre)))
  {
    var genreData := WithGenre(table, genre);
    var user := TopUser(genreData);
    var k :| 0 <= k < |genreData| && genreData[k].userId == user;
    assert genreData[k] in table;
    var i :| 0 <= i < |table| && table[i] == genreData[k];
    assert Matches(table[i], genre) && table[i].userId == user;
    forall other: string ensures GenreTotal(table, genre, other) <= GenreTotal(table, genre, user) {
      assert GenreTotal(table, genre, other) == TotalPlaytime(OfUser(genreData, other));
      assert GenreTotal(table, genre, user) == TotalPlaytime(OfUser(genreData, user));
    }
  }

  /** When every row has a year, all dated playtime is all playtime. */
  lemma {:induction false} DatedPlaytimeIsTotal(rows: seq<UserPlaytime>)
    requires forall k :: 0 <= k < |rows| ==> rows[k].year.Some?
    ensures DatedPlaytime(rows) == TotalPlaytime(rows)
  {
    if rows != [] {
      DatedPlaytimeIsTotal(rows[..|rows| - 1]);
    }
  }

  /** When every row of the table has a year, the breakdown's totals add up to the chosen
      user's summed genre playtime. */
  lemma BreakdownAddsUpToGenreTotal(table: seq<UserPlaytime>, genre: string)
    requires UserForGenre(table, genre).Success?
    requires forall i :: 0 <= i < |table| ==> table[i].year.Some?
    ensures GroupSum(UserForGenre(table, genre).value.1)
         == GenreTotal(table, genre, UserForGenre(table, genre).value.0)
  {
    var user := UserForGenre(table, genre).value.0;
    var rows := OfUser(WithGenre(table, genre), user);
    forall k | 0 <= k < |rows| ensures rows[k].year.Some? {
      assert rows[k] in WithGenre(table, genre);
      assert rows[k] in table;
    }
    DatedPlaytimeIsTotal(rows);
  }
}
