/** PlayTimeGenre: the year of the row with the most hours played for a genre, read from
    max_playtime_per_genre. */
module GenreYear {
  import opened Tables
  import opened Sequences

  /** A row keeps its genre list when rows without one are dropped, and that list contains `genre`. */
  predicate Matches(row: GenrePlaytime, genre: string) {
    HasGenre(row.genres, genre)
  }

  /** The positions of the rows that survive both selections, ascending. */
  function GenreRows(table: seq<GenrePlaytime>, genre: string): (rows: seq<nat>)
    ensures forall k :: 0 <= k < |rows| ==> rows[k] < |table| && Matches(table[rows[k]], genre)
    ensures forall k, l :: 0 <= k < l < |rows| ==> rows[k] < rows[l]
    ensures forall i :: 0 <= i < |table| && Matches(table[i], genre) ==> i in rows
  {
    Positions(table, (row: GenrePlaytime) => Matches(row, genre))
  }

  /** The index of the first maximum of `values`, as `idxmax` picks it. */
  function FirstMax(values: seq<int>): (k: nat)
    requires values != []
    ensures k < |values|
    ensures forall j :: 0 <= j < |values| ==> values[j] <= values[k]
    ensures forall j :: 0 <= j < k ==> values[j] < values[k]
  {
    if |values| == 1 then 0
    else
      var k := FirstMax(values[..|values| - 1]);
      if values[|values| - 1] > values[k] then |values| - 1 else k
  }

  /** Row `i` matches `genre`, no matching row has more playtime, and every matching
      row before it has strictly less: the row `idxmax` selects. */
  ghost predicate IsPeakRow(table: seq<GenrePlaytime>, genre: string, i: int) {
    && 0 <= i < |table|
    && Matches(table[i], genre)
    && (forall j :: 0 <= j < |table| && Matches(table[j], genre) ==>
          table[j].playtimeForever <= table[i].playtimeForever)
    && (forall j :: 0 <= j < i && Matches(table[j], genre) ==>
          table[j].playtimeForever < table[i].playtimeForever)
  }

  /** The row at position `rows[k]` is the peak row when `k` is the first maximum of the
      playtimes along `rows`. */
  lemma FirstMaxIsPeakRow(table: seq<GenrePlaytime>, genre: string, rows: seq<nat>, playtimes: seq<int>, k: nat)
    requires rows == GenreRows(table, genre)
    requires |playtimes| == |rows|
    requires forall l :: 0 <= l < |rows| ==> playtimes[l] == table[rows[l]].playtimeForever
    requires k < |rows|
    requires forall l :: 0 <= l < |rows| ==> playtimes[l] <= playtimes[k]
    requires forall l :: 0 <= l < k ==> playtimes[l] < playtimes[k]
    ensures IsPeakRow(table, genre, rows[k])
  {
    var i := rows[k];
    forall j | 0 <= j < |table| && Matches(table[j], genre)
      ensures table[j].playtimeForever <= table[i].playtimeForever
      ensures j < i ==> table[j].playtimeForever < table[i].playtimeForever
    {
      var l :| 0 <= l < |rows| && rows[l] == j;
    }
  }

  /** The query: Failure when no row matches (idxmax of an empty series), otherwise the
      year of the first row with the largest playtime among the matching rows. */
  function PlayTimeGenre(table: seq<GenrePlaytime>, genre: string): (r: Result<int>)
    ensures r.Failure? <==> forall i :: 0 <= i < |table| ==> !Matches(table[i], genre)
    ensures r.Failure? ==> r.error == GenreNotFound
    ensures r.Success? ==> exists i :: IsPeakRow(table, genre, i) && table[i].year == r.value
  {
    var rows := GenreRows(table, genre);
    if rows == [] then Failure(GenreNotFound)
    else
      var playtimes := seq(|rows|, l requires 0 <= l < |rows| => table[rows[l]].playtimeForever as int);
      var k := FirstMax(playtimes);
      FirstMaxIsPeakRow(table, genre, rows, playtimes, k);
      Success(table[rows[k]].year)
  }

  /** At most one row is the peak row, so the year PlayTimeGenre returns is determined. */
  lemma PeakRowIsUnique(table: seq<GenrePlaytime>, genre: string, i: int, j: int)
    requires IsPeakRow(table, genre, i) && IsPeakRow(table, genre, j)
    ensures i == j
  {
  }

  /** A genre whose rows fall in 2015 and 2017, with the most playtime in 2017; a row
      without genres is dropped however much it was played. */
  lemma PeakYearExample()
    ensures PlayTimeGenre([GenrePlaytime(Some(["Indie"]), 2015, 80),
                           GenrePlaytime(Some(["Action", "Indie"]), 2017, 120),
                           GenrePlaytime(None, 2016, 500)], "Indie") == Success(2017)
  {
    var table := [GenrePlaytime(Some(["Indie"]), 2015, 80),
                  GenrePlaytime(Some(["Action", "Indie"]), 2017, 120),
                  GenrePlaytime(None, 2016, 500)];
    assert IsPeakRow(table, "Indie", 1);
    var r := PlayTimeGenre(table, "Indie");
    var i :| IsPeakRow(table, "Indie", i) && table[i].year == r.value;
    PeakRowIsUnique(table, "Indie", i, 1);
  }

  /** Of two rows tied for the most playtime, the earlier one gives the year. */
  lemma TieGoesToFirstRowExample()
    ensures PlayTimeGenre([GenrePlaytime(Some(["RPG"]), 2012, 90),
                           GenrePlaytime(Some(["RPG"]), 2014, 90)], "RPG") == Success(2012)
  {
    var table := [GenrePlaytime(Some(["RPG"]), 2012, 90), GenrePlaytime(Some(["RPG"]), 2014, 90)];
    assert IsPeakRow(table, "RPG", 0);
    var r := PlayTimeGenre(table, "RPG");
    var i :| IsPeakRow(table, "RPG", i) && table[i].year == r.value;
    PeakRowIsUnique(table, "RPG", i, 0);
  }
}
