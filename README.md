# Movie API helpers in Dafny

This project models the query helpers behind a small movie API and one row-editing helper from
its exploratory data analysis, and proves what they compute.

- **Title normalisation** (`normalize_string`): lower-case the text, strip the accents from
  á, é, í, ó and ú, and turn spaces into hyphens.
- **Spanish month and weekday names** (`convert_month_to_number`, `convert_day_to_number`):
  looked up after normalisation. The lookup gives 1..12 or 1..7, or nothing for an unknown name.
- **Count queries** (`count_movies_released_month`, `count_movies_released_day`): scan every
  row of the movie table and count the released movies whose release date (`yyyy-mm-dd`) has
  the looked-up number in its month or day component.
  - A row whose date lacks that component, or whose component is not an integer, stops the
    scan with an error. This is the `IndexError` or `ValueError` the helper raises.
  - The day query compares the weekday number (Monday = 1 … Sunday = 7) with the day of the
    month. As written, it can only count movies released on the 1st to the 7th of a month,
    whatever weekday that was. The model keeps this behaviour, and two lemmas state it.
- **Title queries** (`movie_popularity`, `movie_vote`): collect, as parallel lists in row order,
  columns of every row whose normalised title equals the normalised query.
  - `movie_vote` reports a movie's vote average only when it has at least 2000 votes.
    Otherwise it reports the notice "La filmación posee menos de 2000 valoraciones".
- **Row deletion** (`delete_rows`): delete, in place, the rows of a list at the given positions.
  It works from the highest position down, so every deletion still finds its row where it was,
  and it returns the same list object.

The rows of the movie table are a parameter of each query (`seq<Movie>`). Reading the CSV file
is not part of this model.

Files:
- `wrappers.dfy`: `Option` and `Result`.
- `normalize.dfy`: `normalize_string`.
- `calendar.dfy`: the name tables.
- `release_dates.dfy`: `date.split("-")` and `int()` on a date component.
- `movie_queries.dfy`: the four queries.
- `delete_rows.dfy`: the list as a class with an in-place `del`, and the deletion loop.

## Model

| member | source | states |
|---|---|---|
| Normalize.LowerChar | api/utils/helpers.py:26 | `str.lower` on one character sends each ASCII or Latin-1 capital to its own lower-case letter (code point + 32, so A→a and Á→á), leaves every other character unchanged, and never returns a capital |
| Normalize.Lower | api/utils/helpers.py:26 | `str.lower` keeps the length and lowers each character |
| Normalize.Replace | api/utils/helpers.py:26-27 | `str.replace` of one character keeps the length, replaces exactly the occurrences of `from`, and leaves none of them |
| Normalize.NormalizeString | api/utils/helpers.py:24-28 | normalisation keeps the length and acts character by character |
| Normalize.ChainIsCharwise | api/utils/helpers.py:24-28 | the chain as written (`lower` then the six `replace` calls) equals the character-wise normalisation |
| Normalize.NormalizedAlphabet | api/utils/helpers.py:26-27 | a normalised string holds no space, no á/é/í/ó/ú and no upper-case ASCII or Latin-1 letter |
| Normalize.NormalizeIdempotent | api/utils/helpers.py:24-28 | normalising twice is normalising once |
| Normalize.NormalizedIsFixed | api/utils/helpers.py:24-28 | normalisation leaves a string unchanged exactly when it holds no space, no á/é/í/ó/ú and no ASCII or Latin-1 capital |
| Normalize.NormalCharIsFixed | api/utils/helpers.py:26-27 | normalisation leaves a character unchanged exactly when it is not a space, an accented vowel or a capital |
| Normalize.NormalizeCharRange | api/utils/helpers.py:26-27 | one normalised character is never a space, an accented vowel or an upper-case letter |
| Normalize.NormalizeCharIdempotent | api/utils/helpers.py:26-27 | normalising a normalised character changes nothing |
| Normalize.CaseDoesNotMatter | api/utils/helpers.py:26 | lower-casing any text first does not change its normal form |
| Normalize.AccentsDoNotMatter | api/utils/helpers.py:26 | removing the acute accents of any text's vowels (lower or upper case) first does not change its normal form |
| Normalize.AccentCharDoesNotMatter | api/utils/helpers.py:26 | one character and its unaccented vowel have the same normal form |
| Normalize.CaseAndAccentsDoNotMatter | api/utils/helpers.py:24-28 | any two spellings that differ only in case and acute accents have the same normal form |
| Normalize.LowerAsciiWordIsNormalized | api/utils/helpers.py:33-46 | words of lower-case ASCII letters and hyphens, like the dictionary keys, are their own normal form |
| Calendar.ConvertMonthToNumber | api/utils/helpers.py:31-48 | the result is a month 1..12 whose name is the normalised input, or None when no month has that name |
| Calendar.ConvertDayToNumber | api/utils/helpers.py:51-63 | the result is a weekday 1..7 whose name is the normalised input, or None when no weekday has that name |
| Calendar.MonthLookupComplete | api/utils/helpers.py:47-48 | every spelling that normalises to the name of month k gives k |
| Calendar.DayLookupComplete | api/utils/helpers.py:62-63 | every spelling that normalises to the name of weekday k gives k |
| Calendar.MonthNamesRoundTrip | api/utils/helpers.py:33-48 | looking up the name of month k gives k, for every k in 1..12 |
| Calendar.DayNamesRoundTrip | api/utils/helpers.py:53-63 | looking up the name of weekday k gives k, for every k in 1..7 |
| Calendar.NamesAreNormalized | api/utils/helpers.py:33-61 | every month and weekday key is already in normal form, so each is reachable |
| Calendar.MonthNamesDistinct | api/utils/helpers.py:33-46 | the twelve month keys are pairwise distinct |
| Calendar.DayNamesDistinct | api/utils/helpers.py:53-61 | the seven weekday keys are pairwise distinct |
| Calendar.MonthLookupInjective | api/utils/helpers.py:31-48 | two inputs that give the same month have the same normal form |
| Calendar.MonthLookupIgnoresCaseAndAccents | api/utils/helpers.py:31-48 | any two spellings that differ only in case and acute accents give the same month, or both give None |
| Calendar.DayLookupIgnoresCaseAndAccents | api/utils/helpers.py:51-63 | any two spellings that differ only in case and acute accents give the same weekday, or both give None |
| Calendar.UpperCaseMonthFound | api/utils/helpers.py:47-48 | the example "SEPTIEMBRE" gives 9 |
| Calendar.PaddedMonthNotFound | api/utils/helpers.py:27 | the example "septiembre " gives None, because the trailing space becomes a hyphen |
| Calendar.AccentedWednesdayFound | api/utils/helpers.py:62-63 | the example "miércoles" gives 3 |
| Calendar.AccentedSaturdayFound | api/utils/helpers.py:62-63 | the example "Sábado" gives 6 |
| ReleaseDates.Split | api/utils/helpers.py:75 | `str.split` gives at least one piece |
| ReleaseDates.JoinSplit | api/utils/helpers.py:75 | joining the pieces of a split with the separator gives the text back |
| ReleaseDates.SplitJoin | api/utils/helpers.py:75 | splitting separator-free pieces joined by the separator gives the pieces back |
| ReleaseDates.ParseDecimal | api/utils/helpers.py:76 | `int` reads back the decimal digits of every natural number |
| ReleaseDates.LeadingZero | api/utils/helpers.py:76 | a leading zero does not change the value `int` reads, so "09" is 9 |
| ReleaseDates.ReadJoinedField | api/utils/helpers.py:75-76 | component k of digit strings joined by "-" is read as the value of those digits |
| ReleaseDates.ReadPaddedDate | api/utils/helpers.py:75-76 | a zero-padded `yyyy-mm-dd` date yields its year, month and day as components 0, 1 and 2 |
| MovieQueries.CountSucceedsIffReadable | api/utils/helpers.py:74-78 | a count query succeeds exactly when every row's date component can be read |
| MovieQueries.CountFailsAtFirstUnreadable | api/utils/helpers.py:74-76 | a failing count query raises the error of the first row whose component cannot be read |
| MovieQueries.ErrorStops | api/utils/helpers.py:74-76 | once a row fails, the rows after it change nothing |
| MovieQueries.CountIsReleasedRows | api/utils/helpers.py:77-78 | a successful count is the number of released rows whose component equals the looked-up number; it is at most the number of rows, and 0 for an unknown name |
| MovieQueries.PositionsOrderedAndComplete | api/utils/helpers.py:74-78 | the counted positions are increasing and include every counted row |
| MovieQueries.CountReleasedRows | api/utils/helpers.py:72-80 | the scan loop returns the count, or the error, that the count specification gives |
| MovieQueries.CountMoviesReleasedMonth | api/utils/helpers.py:66-80 | the month query counts on component 1 against the month's number; an unknown month counts 0 unless a row fails |
| MovieQueries.CountMoviesReleasedDay | api/utils/helpers.py:83-96 | the day query counts on component 2 against the weekday's number; an unknown day counts 0 unless a row fails |
| MovieQueries.DayQueryCountsEarlyDays | api/utils/helpers.py:91-93 | every row the day query counts has a day of the month from 1 to 7 |
| MovieQueries.MondayCountsTheFirst | api/utils/helpers.py:85-93 | a Monday query counts a released movie dated the 1st of any month, whatever weekday that was |
| MovieQueries.TitleMatchesExact | api/utils/helpers.py:105-111 | the title matches are exactly the rows whose normalised title equals the query, in increasing row order |
| MovieQueries.FilterAtPositions | api/utils/helpers.py:105-111 | keeping the flagged elements in order gives, one for one, the elements at the flagged positions |
| MovieQueries.MatchingRowsAtMatches | api/utils/helpers.py:105-111 | the matching rows are the rows at the title matches, in the same order |
| MovieQueries.PopularityColumns | api/utils/helpers.py:108-114 | the three popularity lists have one entry per matching row: its title, year and popularity |
| MovieQueries.VoteColumns | api/utils/helpers.py:130-140 | the four vote lists have one entry per matching row: its title, year, vote count and reported average |
| MovieQueries.PopularityOfMatches | api/utils/helpers.py:99-116 | `movie_popularity` gives parallel lists of equal length, in row order, with the title, year and popularity of exactly the rows whose title normalises to the query |
| MovieQueries.VotesOfMatches | api/utils/helpers.py:119-141 | `movie_vote` gives parallel lists of equal length, in row order, for exactly the matching rows; the average is the row's own when it has at least 2000 votes, and the notice otherwise |
| MovieQueries.ReportedTitlesMatch | api/utils/helpers.py:111 | every title either title query reports normalises to the normalised query |
| MovieQueries.TitleQueriesIgnoreCaseAndAccents | api/utils/helpers.py:101-111 | two queries that differ only in case and acute accents give the same popularity lists and the same vote lists |
| MovieQueries.TitleMatchIgnoresCaseAndAccents | api/utils/helpers.py:108-111 | whether a row matches does not depend on the case or acute accents of its title |
| MovieQueries.MoviePopularity | api/utils/helpers.py:99-116 | the scan loop builds exactly the lists that `PopularityOf` gives for the normalised query |
| MovieQueries.MovieVote | api/utils/helpers.py:119-141 | the scan loop builds exactly the lists that `VotesOf` gives for the normalised query, including the 2000-vote threshold |
| RowDeletion.RowList.Delete | EDA/utils/helpers.py:48 | `del` removes the element at the position, counting a negative position from the end, and keeps the rest in order |
| RowDeletion.Insert | EDA/utils/helpers.py:46 | insertion adds exactly one copy of the value to the multiset of elements |
| RowDeletion.InsertNonIncreasing | EDA/utils/helpers.py:46 | insertion keeps a non-increasing list non-increasing |
| RowDeletion.InsertStrictlyDecreasing | EDA/utils/helpers.py:46 | inserting a new value keeps a strictly decreasing list strictly decreasing |
| RowDeletion.SortDescending | EDA/utils/helpers.py:46 | `sorted(indices, reverse=True)` is a permutation of the indices |
| RowDeletion.SortDescendingOrdered | EDA/utils/helpers.py:46 | the sorted indices are non-increasing, and strictly decreasing when the indices are distinct |
| RowDeletion.KeepNone | EDA/utils/helpers.py:46-51 | deleting no position of the list keeps every row, so empty indices leave the dataset unchanged |
| RowDeletion.KeepBelow | EDA/utils/helpers.py:45-48 | the rows before every deleted position keep their place and value |
| RowDeletion.DeleteBelowDeleted | EDA/utils/helpers.py:45-48 | when every earlier deletion lies above p, deleting the row now at p removes the row originally at p |
| RowDeletion.EarlierDeletionsAbove | EDA/utils/helpers.py:46 | in descending order, every position deleted earlier lies above the one deleted now |
| RowDeletion.SamePositions | EDA/utils/helpers.py:46 | the sorted indices name the same positions as the given ones, and as many |
| RowDeletion.DeleteRows | EDA/utils/helpers.py:33-51 | returns the same list object; the survivors are exactly the rows whose position was not given, in their original order; the length drops by the number of indices |

## Left out

- Reading the movie CSV files (`read_movies_data`) and the file-path constants: the rows are a parameter instead.
- A missing column in a row (`KeyError`): every row holds every column.
- `float()` parsing of the popularity and vote-count cells: these columns are already numbers (`real`). A cell `float()` rejects is not modelled.
- Floating-point rounding: `real` is exact.
- `actor_info`, `director_info`, the machine-learning recommender, the web application entry point, `read_movies_data`, `get_column_summary` and the functions that the analysis helpers' docstring lists but the file does not define: these are not part of this model.
- Normalize.LowerChar: lowers only ASCII and Latin-1 upper-case letters. Python's `str.lower` also lowers other scripts and can map one character to two, which would change the length.
- ReleaseDates.ParseInt: reads an optional sign followed by ASCII digits. The surrounding whitespace, underscores and non-ASCII digits that Python's `int` also accepts are not modelled.
- RowDeletion.DeleteRows: requires distinct, non-negative positions within the list. With a negative or repeated index, Python deletes other rows or raises `IndexError` after some deletions have already happened; neither case is modelled.
- RowDeletion.DeleteRows: models the list form of the dataset only, not a pandas DataFrame.
