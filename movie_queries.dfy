/**
 * The row-scanning queries behind the movie API. The rows of the data file
 * are given as a parameter instead of being read from disk; each query reads
 * only the columns it needs.
 */
module MovieQueries {
  import opened Wrappers
  import opened Normalize
  import opened Calendar
  import opened ReleaseDates

  /** One row of the movie data. `popularity` and `voteCount` are the numbers
      Python's `float()` reads from their cells; the other columns are raw text. */
  datatype Movie = Movie(
    title: string,
    releaseDate: string,
    releaseYear: string,
    status: string,
    popularity: real,
    voteCount: real,
    voteAverage: string)

  /** Position of the month in `yyyy-mm-dd` once split on "-". */
  const MonthField: nat := 1
  /** Position of the day of the month in `yyyy-mm-dd` once split on "-". */
  const DayField: nat := 2

  /** The status of a movie that has come out. */
  const ReleasedStatus: string := "Released"

  /** The text reported instead of the vote average of a movie with fewer than 2000 votes. */
  const FewVotesMessage: string := "La filmación posee menos de 2000 valoraciones"

  /** The row is counted: its date component equals the looked-up number and it is released.
      An unknown name (None) equals no number. */
  predicate IsReleasedOn(movie: Movie, field: nat, target: Option<int>) {
    target.Some? && DateField(movie.releaseDate, field) == Ok(target.value) && movie.status == ReleasedStatus
  }

  /** Row i is the first row whose date component cannot be read. */
  predicate FirstUnreadable(rows: seq<Movie>, field: nat, i: int) {
    && 0 <= i < |rows|
    && DateField(rows[i].releaseDate, field).Err?
    && forall j :: 0 <= j < i ==> DateField(rows[j].releaseDate, field).Ok?
  }

  /** What a count query gives: the number of counted rows, or the error raised
      by the first row whose date component cannot be read. */
  function CountReleased(rows: seq<Movie>, field: nat, target: Option<int>): Result<nat, DateError>
    decreases |rows|
  {
    if rows == [] then Ok(0)
    else
      var prefix, last := rows[..|rows| - 1], rows[|rows| - 1];
      match CountReleased(prefix, field, target)
      case Err(e) => Err(e)
      case Ok(n) =>
        match DateField(last.releaseDate, field)
        case Err(e) => Err(e)
        case Ok(_) => Ok(if IsReleasedOn(last, field, target) then n + 1 else n)
  }

  /** A count query succeeds exactly when every row's date component can be read. */
  lemma {:induction false} CountSucceedsIffReadable(rows: seq<Movie>, field: nat, target: Option<int>)
    ensures CountReleased(rows, field, target).Ok?
        <==> forall i :: 0 <= i < |rows| ==> DateField(rows[i].releaseDate, field).Ok?
    decreases |rows|
  {
    if rows != [] {
      var n := |rows| - 1;
      CountSucceedsIffReadable(rows[..n], field, target);
      assert forall i :: 0 <= i < n ==> rows[..n][i] == rows[i];
    }
  }

  /** A failing count query raises the error of the first unreadable row. */
  lemma CountFailsAtFirstUnreadable(rows: seq<Movie>, field: nat, target: Option<int>, i: int)
    requires FirstUnreadable(rows, field, i)
    ensures CountReleased(rows, field, target) == Err(DateField(rows[i].releaseDate, field).error)
  {
    var prefix := rows[..i];
    assert forall j :: 0 <= j < i ==> prefix[j] == rows[j];
    CountSucceedsIffReadable(prefix, field, target);
    assert rows[..i + 1][..i] == prefix;
    ErrorStops(rows, i + 1, field, target);
  }

  /** Once a prefix of the rows fails, the whole scan fails with the same error:
      the rows after it are never counted. */
  lemma {:induction false} ErrorStops(rows: seq<Movie>, m: nat, field: nat, target: Option<int>)
    requires m <= |rows| && CountReleased(rows[..m], field, target).Err?
    ensures CountReleased(rows, field, target) == CountReleased(rows[..m], field, target)
    decreases |rows| - m
  {
    if m < |rows| {
      assert rows[..m + 1][..m] == rows[..m];
      ErrorStops(rows, m + 1, field, target);
    } else {
      assert rows[..m] == rows;
    }
  }

  /** For each row, whether a count query counts it. */
  function ReleasedFlags(rows: seq<Movie>, field: nat, target: Option<int>): (flags: seq<bool>)
    ensures |flags| == |rows|
    ensures forall i :: 0 <= i < |rows| ==> flags[i] == IsReleasedOn(rows[i], field, target)
  {
    seq(|rows|, i requires 0 <= i < |rows| => IsReleasedOn(rows[i], field, target))
  }

  /** A successful count is the number of rows released on the looked-up month or
      day: at most the number of rows, and none at all for an unknown name. */
  lemma {:induction false} CountIsReleasedRows(rows: seq<Movie>, field: nat, target: Option<int>)
    requires CountReleased(rows, field, target).Ok?
    ensures CountReleased(rows, field, target).value == |Positions(ReleasedFlags(rows, field, target))|
    ensures CountReleased(rows, field, target).value <= |rows|
    ensures target.None? ==> CountReleased(rows, field, target).value == 0
    decreases |rows|
  {
    var flags := ReleasedFlags(rows, field, target);
    if rows != [] {
      var n := |rows| - 1;
      CountIsReleasedRows(rows[..n], field, target);
      assert flags[..n] == ReleasedFlags(rows[..n], field, target);
    }
  }

  /** Scanning the last row after a successful scan of the rows before it. */
  lemma CountLastRow(rows: seq<Movie>, field: nat, target: Option<int>, n: nat)
    requires rows != [] && CountReleased(rows[..|rows| - 1], field, target) == Ok(n)
    ensures var last := rows[|rows| - 1];
      && (DateField(last.releaseDate, field).Err? ==>
           CountReleased(rows, field, target) == Err(DateField(last.releaseDate, field).error))
      && (DateField(last.releaseDate, field).Ok? ==>
           CountReleased(rows, field, target) == Ok(if IsReleasedOn(last, field, target) then n + 1 else n))
  {
  }

  /** The loop shared by the month and day queries: scan the rows in order,
      reading component `field` of each release date, and count the released
      rows whose component equals `target`. */
  method CountReleasedRows(rows: seq<Movie>, field: nat, target: Option<int>) returns (r: Result<nat, DateError>)
    ensures r == CountReleased(rows, field, target)
  {
    var count := 0;
    for i := 0 to |rows|
      invariant CountReleased(rows[..i], field, target) == Ok(count)
    {
      assert rows[..i + 1][..i] == rows[..i] && rows[..i + 1][i] == rows[i];
      CountLastRow(rows[..i + 1], field, target, count);
      var movieField := DateField(rows[i].releaseDate, field);
      if movieField.Err? {
        ErrorStops(rows, i + 1, field, target);
        return Err(movieField.error);
      }
      if Some(movieField.value) == target && rows[i].status == ReleasedStatus {
        count := count + 1;
      }
    }
    assert rows[..|rows|] == rows;
    return Ok(count);
  }

  /** `count_movies_released_month`: how many released movies came out in the named month. */
  method CountMoviesReleasedMonth(rows: seq<Movie>, month: string) returns (count: Result<nat, DateError>)
    ensures count == CountReleased(rows, MonthField, ConvertMonthToNumber(month))
    ensures ConvertMonthToNumber(month).None? ==> count.Err? || count == Ok(0)
  {
    var monthNumber := ConvertMonthToNumber(month);
    count := CountReleasedRows(rows, MonthField, monthNumber);
    if count.Ok? {
      CountIsReleasedRows(rows, MonthField, monthNumber);
    }
  }

  /** `count_movies_released_day`: the weekday's number 1..7 is compared with
      the day of the month, so only movies released on the 1st to the 7th of a
      month can be counted. */
  method CountMoviesReleasedDay(rows: seq<Movie>, day: string) returns (count: Result<nat, DateError>)
    ensures count == CountReleased(rows, DayField, ConvertDayToNumber(day))
    ensures ConvertDayToNumber(day).None? ==> count.Err? || count == Ok(0)
  {
    var dayNumber := ConvertDayToNumber(day);
    count := CountReleasedRows(rows, DayField, dayNumber);
    if count.Ok? {
      CountIsReleasedRows(rows, DayField, dayNumber);
    }
  }

  /** Every row the day query counts was released on one of the first seven days of its month. */
  lemma DayQueryCountsEarlyDays(movie: Movie, day: string)
    requires IsReleasedOn(movie, DayField, ConvertDayToNumber(day))
    ensures DateField(movie.releaseDate, DayField).Ok?
    ensures 1 <= DateField(movie.releaseDate, DayField).value <= 7
  {
  }

  /** A Monday query counts a released movie dated the first of any month,
      whatever weekday that date fell on. */
  lemma MondayCountsTheFirst(movie: Movie, day: string, year: nat, month: nat)
    requires ConvertDayToNumber(day) == Some(1)
    requires 1 <= month <= 12
    requires movie.releaseDate == Decimal(year) + "-" + Padded(month) + "-" + Padded(1)
    requires movie.status == ReleasedStatus
    ensures CountReleased([movie], DayField, ConvertDayToNumber(day)) == Ok(1)
  {
    ReadPaddedDate(year, month, 1);
    assert [movie][..0] == [];
  }

  /** The movie's title normalises to `name`. */
  predicate TitleIs(movie: Movie, name: string) {
    NormalizeString(movie.title) == name
  }

  /** The positions that hold true, in increasing order. */
  function Positions(flags: seq<bool>): (idx: seq<nat>)
    ensures |idx| <= |flags|
    ensures forall k :: 0 <= k < |idx| ==> idx[k] < |flags| && flags[idx[k]]
    decreases |flags|
  {
    if flags == [] then []
    else
      var n := |flags| - 1;
      var before := Positions(flags[..n]);
      if flags[n] then before + [n] else before
  }

  /** The positions are increasing and include every position that holds true. */
  lemma {:induction false} PositionsOrderedAndComplete(flags: seq<bool>)
    ensures var idx := Positions(flags);
      && (forall k, l :: 0 <= k < l < |idx| ==> idx[k] < idx[l])
      && (forall i :: 0 <= i < |flags| && flags[i] ==> i in idx)
    decreases |flags|
  {
    if flags != [] {
      var n := |flags| - 1;
      PositionsOrderedAndComplete(flags[..n]);
      var before, idx := Positions(flags[..n]), Positions(flags);
      forall i | 0 <= i < |flags| && flags[i] ensures i in idx {
        if i < n {
          assert flags[..n][i];
        }
      }
      if flags[n] {
        forall k, l | 0 <= k < l < |idx| ensures idx[k] < idx[l] {
          if l < |before| {
            assert idx[k] == before[k] && idx[l] == before[l];
          } else {
            assert idx[k] == before[k] < n;
          }
        }
      }
    }
  }

  /** For each row, whether its title normalises to `name`. */
  function TitleFlags(rows: seq<Movie>, name: string): (flags: seq<bool>)
    ensures |flags| == |rows|
  {
    seq(|rows|, i requires 0 <= i < |rows| => TitleIs(rows[i], name))
  }

  /** The positions of the rows whose title normalises to `name`. */
  function TitleMatches(rows: seq<Movie>, name: string): seq<nat> {
    Positions(TitleFlags(rows, name))
  }

  /** The title matches are exactly the rows whose title normalises to `name`, in row order. */
  lemma TitleMatchesExact(rows: seq<Movie>, name: string)
    ensures var idx := TitleMatches(rows, name);
      && (forall k :: 0 <= k < |idx| ==> idx[k] < |rows| && TitleIs(rows[idx[k]], name))
      && (forall k, l :: 0 <= k < l < |idx| ==> idx[k] < idx[l])
      && (forall i :: 0 <= i < |rows| && TitleIs(rows[i], name) ==> i in idx)
  {
    var flags := TitleFlags(rows, name);
    PositionsOrderedAndComplete(flags);
    assert forall i :: 0 <= i < |rows| ==> flags[i] == TitleIs(rows[i], name);
  }

  /** The three parallel lists of `movie_popularity`. */
  datatype PopularityInfo = PopularityInfo(title: seq<string>, year: seq<string>, popularity: seq<real>)

  /** The four parallel lists of `movie_vote`. */
  datatype VoteInfo = VoteInfo(title: seq<string>, year: seq<string>, voteTotal: seq<real>, voteAverage: seq<string>)

  /** What `movie_popularity` collects from the rows for the normalised query `name`. */
  function PopularityOf(rows: seq<Movie>, name: string): PopularityInfo
    decreases |rows|
  {
    if rows == [] then PopularityInfo([], [], [])
    else
      var info, row := PopularityOf(rows[..|rows| - 1], name), rows[|rows| - 1];
      if TitleIs(row, name) then
        PopularityInfo(info.title + [row.title], info.year + [row.releaseYear], info.popularity + [row.popularity])
      else info
  }

  /** The vote average `movie_vote` reports for a movie: its raw average when it has
      at least 2000 votes, the fixed notice otherwise. */
  function ReportedAverage(movie: Movie): string {
    if movie.voteCount >= 2000.0 then movie.voteAverage else FewVotesMessage
  }

  /** What `movie_vote` collects from the rows for the normalised query `name`. */
  function VotesOf(rows: seq<Movie>, name: string): VoteInfo
    decreases |rows|
  {
    if rows == [] then VoteInfo([], [], [], [])
    else
      var info, row := VotesOf(rows[..|rows| - 1], name), rows[|rows| - 1];
      if TitleIs(row, name) then
        VoteInfo(info.title + [row.title], info.year + [row.releaseYear],
                 info.voteTotal + [row.voteCount], info.voteAverage + [ReportedAverage(row)])
      else info
  }

  /** The rows whose title normalises to `name`, in row order. */
  function MatchingRows(rows: seq<Movie>, name: string): seq<Movie>
    decreases |rows|
  {
    if rows == [] then []
    else
      var before, row := MatchingRows(rows[..|rows| - 1], name), rows[|rows| - 1];
      if TitleIs(row, name) then before + [row] else before
  }

  /** The elements of xs whose flag is set, in order. */
  function Filter<T>(xs: seq<T>, flags: seq<bool>): seq<T>
    requires |flags| == |xs|
    decreases |xs|
  {
    if xs == [] then []
    else
      var n := |xs| - 1;
      Filter(xs[..n], flags[..n]) + if flags[n] then [xs[n]] else []
  }

  /** Filtering keeps exactly the elements at the set positions. */
  lemma {:induction false} FilterAtPositions<T>(xs: seq<T>, flags: seq<bool>)
    requires |flags| == |xs|
    ensures var f, idx := Filter(xs, flags), Positions(flags);
      |f| == |idx| && forall k :: 0 <= k < |idx| ==> f[k] == xs[idx[k]]
    decreases |xs|
  {
    if xs != [] {
      var n := |xs| - 1;
      FilterAtPositions(xs[..n], flags[..n]);
      var f0, idx0 := Filter(xs[..n], flags[..n]), Positions(flags[..n]);
      forall k | 0 <= k < |idx0| ensures xs[..n][idx0[k]] == xs[idx0[k]] {
      }
    }
  }

  /** The matching rows are the rows at the title matches, one for one. */
  lemma {:induction false} MatchingRowsAtMatches(rows: seq<Movie>, name: string)
    ensures var m, idx := MatchingRows(rows, name), TitleMatches(rows, name);
      |m| == |idx| && forall k :: 0 <= k < |idx| ==> m[k] == rows[idx[k]]
  {
    MatchingRowsFilter(rows, name);
    FilterAtPositions(rows, TitleFlags(rows, name));
  }

  lemma {:induction false} MatchingRowsFilter(rows: seq<Movie>, name: string)
    ensures MatchingRows(rows, name) == Filter(rows, TitleFlags(rows, name))
    decreases |rows|
  {
    if rows != [] {
      var n := |rows| - 1;
      MatchingRowsFilter(rows[..n], name);
      assert TitleFlags(rows, name)[..n] == TitleFlags(rows[..n], name);
    }
  }

  /** The popularity lists are the columns of the matching rows. */
  lemma {:induction false} PopularityColumns(rows: seq<Movie>, name: string)
    ensures var info, m := PopularityOf(rows, name), MatchingRows(rows, name);
      && |info.title| == |m| && |info.year| == |m| && |info.popularity| == |m|
      && forall k :: 0 <= k < |m| ==>
           info.title[k] == m[k].title && info.year[k] == m[k].releaseYear && info.popularity[k] == m[k].popularity
    decreases |rows|
  {
    if rows != [] {
      PopularityColumns(rows[..|rows| - 1], name);
    }
  }

  /** The vote lists are the columns of the matching rows, the average as reported. */
  lemma {:induction false} VoteColumns(rows: seq<Movie>, name: string)
    ensures var info, m := VotesOf(rows, name), MatchingRows(rows, name);
      && |info.title| == |m| && |info.year| == |m| && |info.voteTotal| == |m| && |info.voteAverage| == |m|
      && forall k :: 0 <= k < |m| ==>
           && info.title[k] == m[k].title && info.year[k] == m[k].releaseYear
           && info.voteTotal[k] == m[k].voteCount && info.voteAverage[k] == ReportedAverage(m[k])
    decreases |rows|
  {
    if rows != [] {
      VoteColumns(rows[..|rows| - 1], name);
    }
  }

  /** `movie_popularity` reports, as parallel lists in row order, the title, year
      and popularity of exactly the rows whose title normalises to the query. */
  lemma PopularityOfMatches(rows: seq<Movie>, name: string)
    ensures var info, idx := PopularityOf(rows, name), TitleMatches(rows, name);
      && |info.title| == |idx| && |info.year| == |idx| && |info.popularity| == |idx|
      && forall k :: 0 <= k < |idx| ==>
           && info.title[k] == rows[idx[k]].title
           && info.year[k] == rows[idx[k]].releaseYear
           && info.popularity[k] == rows[idx[k]].popularity
  {
    PopularityColumns(rows, name);
    MatchingRowsAtMatches(rows, name);
  }

  /** `movie_vote` reports, as parallel lists in row order, the title, year, vote
      count and vote average of exactly the rows whose title normalises to the
      query; the average is the row's own only when it has at least 2000 votes. */
  lemma VotesOfMatches(rows: seq<Movie>, name: string)
    ensures var info, idx := VotesOf(rows, name), TitleMatches(rows, name);
      && |info.title| == |idx| && |info.year| == |idx| && |info.voteTotal| == |idx| && |info.voteAverage| == |idx|
      && forall k :: 0 <= k < |idx| ==>
           && info.title[k] == rows[idx[k]].title
           && info.year[k] == rows[idx[k]].releaseYear
           && info.voteTotal[k] == rows[idx[k]].voteCount
           && info.voteAverage[k] == if rows[idx[k]].voteCount >= 2000.0 then rows[idx[k]].voteAverage else FewVotesMessage
  {
    VoteColumns(rows, name);
    MatchingRowsAtMatches(rows, name);
  }

  /** Every title a title query reports normalises like the query. */
  lemma ReportedTitlesMatch(rows: seq<Movie>, movie: string)
    ensures forall k :: 0 <= k < |PopularityOf(rows, NormalizeString(movie)).title| ==>
      NormalizeString(PopularityOf(rows, NormalizeString(movie)).title[k]) == NormalizeString(movie)
    ensures forall k :: 0 <= k < |VotesOf(rows, NormalizeString(movie)).title| ==>
      NormalizeString(VotesOf(rows, NormalizeString(movie)).title[k]) == NormalizeString(movie)
  {
    PopularityOfMatches(rows, NormalizeString(movie));
    VotesOfMatches(rows, NormalizeString(movie));
    TitleMatchesExact(rows, NormalizeString(movie));
  }

  /** Case and acute accents in the query do not matter to either title query. */
  lemma TitleQueriesIgnoreCaseAndAccents(rows: seq<Movie>, a: string, b: string)
    requires SameUpToCaseAndAccents(a, b)
    ensures PopularityOf(rows, NormalizeString(a)) == PopularityOf(rows, NormalizeString(b))
    ensures VotesOf(rows, NormalizeString(a)) == VotesOf(rows, NormalizeString(b))
  {
    CaseAndAccentsDoNotMatter(a, b);
  }

  /** Case and acute accents in a row's title do not matter to whether it matches. */
  lemma TitleMatchIgnoresCaseAndAccents(movie: Movie, title: string, name: string)
    requires SameUpToCaseAndAccents(movie.title, title)
    ensures TitleIs(movie, name) <==> TitleIs(movie.(title := title), name)
  {
    CaseAndAccentsDoNotMatter(movie.title, title);
  }

  /** `movie_popularity`: scan the rows in order and append title, year and
      popularity of each row whose title normalises like the query. */
  method MoviePopularity(rows: seq<Movie>, movie: string) returns (info: PopularityInfo)
    ensures info == PopularityOf(rows, NormalizeString(movie))
  {
    var movieName := NormalizeString(movie);
    info := PopularityInfo([], [], []);
    for i := 0 to |rows|
      invariant info == PopularityOf(rows[..i], movieName)
    {
      assert rows[..i + 1][..i] == rows[..i];
      var row := rows[i];
      if TitleIs(row, movieName) {
        info := info.(title := info.title + [row.title],
                      year := info.year + [row.releaseYear],
                      popularity := info.popularity + [row.popularity]);
      }
    }
    assert rows[..|rows|] == rows;
  }

  /** `movie_vote`: scan the rows in order and append title, year, vote count and
      reported average of each row whose title normalises like the query. */
  method MovieVote(rows: seq<Movie>, movie: string) returns (info: VoteInfo)
    ensures info == VotesOf(rows, NormalizeString(movie))
  {
    var movieName := NormalizeString(movie);
    info := VoteInfo([], [], [], []);
    for i := 0 to |rows|
      invariant info == VotesOf(rows[..i], movieName)
    {
      assert rows[..i + 1][..i] == rows[..i];
      var row := rows[i];
      if TitleIs(row, movieName) {
        var average := if row.voteCount >= 2000.0 then row.voteAverage else FewVotesMessage;
        info := info.(title := info.title + [row.title],
                      year := info.year + [row.releaseYear],
                      voteTotal := info.voteTotal + [row.voteCount],
                      voteAverage := info.voteAverage + [average]);
      }
    }
    assert rows[..|rows|] == rows;
  }
}
