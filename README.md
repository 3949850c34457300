# Injury board: a verified model of its computations

The injury board tracks a football squad's injuries. Each row of the `players` table is one injury episode: a player name, an injury type, an injury date, an optional recovery date and a status (`injured` or `recovered`). A second table, `matches`, lists the fixtures. Four views read these tables:

- the visitor list of injured players, with each player's injury duration and number of missed matches;
- the list of players recovered this year, with the same figures for closed episodes;
- a statistics page;
- an admin dashboard that adds, edits, deletes and marks records.

This project models what those views compute once the rows have been read. It proves what each computation promises.

- **Dates** are whole day numbers since 1970-01-01 under the proleptic Gregorian calendar (`Calendar`). `YearOf` and `MonthOf` play the part of `getFullYear` and `getMonth`; months are numbered 0 to 11. A day difference is the distance `|b - a|` between two day numbers.
- **Rows** are `Records.Episode` values. A missing date is `None`, and a missing injury type is `""`, which is just as falsy as `null` to the source's tests.
- **Table reads** are inputs. A read that fails is `None`. The current day `now`/`today`, the clock `nowMs` in milliseconds and the current year are parameters.
- **`forEach` accumulators** (`Folds`) are left folds that visit the list in order. `SumOf` is a running sum. `Tally` is a dictionary filled with `d[k] = (d[k] || 0) + w`. `Fill` is a dictionary written with `d[k] = v`, where later writes win. Each loop in the source is a `method` with a `while` loop, proved equal to its fold. Lemmas then prove what the fold means against a reference definition (`KeySum`, `IncludedSum`, `MapSum`).
- **Missed matches** (`MatchesUtils`): a match counts for an episode when `injury < match <= end`. `end` is the recovery date, or `now` while the episode is open. The total runs over every dated row that carries the player's name, not only the row passed in.
- **Statistics** (`Statistics`): `StatsOf` is every figure `getStats` returns. `GetStats` computes them with the source's loops, including the twelve-cell month array.
- **Admin dashboard** (`AdminDashboard`): the component's state is the class `Dashboard`, and each handler is a method on it. A form record maps a column to a value. `Normalized` is the empty-string-to-null and default-status rewrite that runs before every insert and update.
- **Pagination** (`Pagination`): both lists cut pages of 10 with JavaScript's `slice` semantics, which includes negative bounds.
- **Recovered view** (`RecoveredPlayers`): the listing query, and the lookup of a player's latest recovered record. The lookup's `order('injury_date', { ascending: false })` puts rows without an injury date first, because a descending order in PostgreSQL puts nulls first. So one undated recovered row of a name makes that player's missed-matches entry 0 (`UndatedCandidateZeroesEntry`).

Three behaviours of the code that are easy to misread, and that the model keeps as written:

- `calculateMissedMatches` (`src/utils/matchesUtils.js:16-47`) is not a function of the one record passed in. It re-reads every row with the same `name_hebrew` and sums the missed fixtures of all the dated ones. The record passed in only decides the "no injury date" guard and the name.
- `playerInjuryDays` (`src/Statistics.js:68-77`) sums only this year's rows that have both dates. An open episode adds nothing to it.
- `getStats` returns no monthly recovery counts, no currently-injured count and no missed-matches figures, so the model of the statistics page has none of them.

## Model

| member | source | states |
|---|---|---|
| Calendar.YearOf | src/Statistics.js:31-33 | the year of a day is the one whose January 1 is on or before it and whose successor's January 1 is after it |
| Calendar.YearOfIff | src/RecoveredPlayers.js:14-16 | a day is in year `y` exactly when it lies between January 1 and December 31 of `y`, inclusive |
| Calendar.MonthOf | src/Statistics.js:104 | the month is 0 to 11, and the day lies between that month's first day and the next month's |
| Calendar.MonthsFillYear | src/Statistics.js:101-105 | the twelve month lengths add up to 365, or 366 in a leap year |
| Calendar.YearRunsJanuaryToDecember | src/Statistics.js:101-105 | January 1 of a year is in that year and in month 0, and December 31 is in that year and in month 11, so the twelve buckets cover the whole year |
| Records.DayDiff | src/Statistics.js:48-51 | the whole-day difference is a non-negative `n` that takes one date to the other |
| Records.DayDiffIsDistance | src/Statistics.js:50-51 | the difference is symmetric and is 0 only for the same day |
| Records.ClosedDuration | src/RecoveredPlayers.js:65-73 | a row without both dates has duration 0, and every duration is non-negative |
| Records.InjuredRecords | src/AdminDashboard.js:29 | the result holds exactly the rows whose status is `injured`, and no more rows than the input |
| Folds.SumPermutation | src/Statistics.js:45-54 | a `forEach` sum is the same for any reordering of its list |
| Folds.SumBound | src/utils/matchesUtils.js:32-47 | a sum of terms that are each at most `c` is at most `c` times the length |
| Folds.SumMonotone | src/utils/matchesUtils.js:34-46 | terms that are pointwise smaller give a smaller sum |
| Folds.TallyKeys | src/Statistics.js:57-62 | a dictionary-filling loop has a key exactly when some counted element carries it |
| Folds.TallyValue | src/Statistics.js:68-77 | each entry is the sum of the weights of the counted elements with that key |
| Folds.TallyTotal | src/Statistics.js:57-62 | the entries add up to the weights of all counted elements |
| Folds.TallyPositive | src/Statistics.js:90-94 | with positive weights every present entry is at least 1 |
| Folds.FillKeys | src/App.js:39-42 | an id-keyed fill loop has an entry for every visited key and for no other key |
| Folds.FillLastWriter | src/App.js:40-41 | an entry holds the value of the last element visited with that key |
| Folds.FillValueFrom | src/RecoveredPlayers.js:32-47 | every entry is the value of some visited element with that key |
| MatchesUtils.MatchesInWindow | src/utils/matchesUtils.js:41-44 | a fixture is kept exactly when `injury < date <= end` |
| MatchesUtils.MatchesInWindowMultiplicity | src/utils/matchesUtils.js:41-46 | each fixture inside the window is kept as often as the fixture list holds it, and no other fixture is kept, so the length added to the total is the number of fixtures in the window |
| MatchesUtils.DatedEpisodes | src/utils/matchesUtils.js:16-28 | the selection is exactly the rows with the player's name and an injury date |
| MatchesUtils.DatedEpisodesMultiplicity | src/utils/matchesUtils.js:16-28 | each dated row of the name is selected as often as the table holds it, and no other row |
| MatchesUtils.CalculateMissedMatches | src/utils/matchesUtils.js:3-50 | the early returns and the accumulator loop give `MissedMatches`: 0 on a guard, otherwise the sum of each dated same-name episode's missed fixtures |
| MatchesUtils.MissedMatchesGuards | src/utils/matchesUtils.js:5-24 | a player without an injury date, or a failed read of either table, gives 0 |
| MatchesUtils.WindowBoundaries | src/utils/matchesUtils.js:35-44 | a fixture on the injury day is never counted, and one on the recovery day is |
| MatchesUtils.InvertedWindowMissesNothing | src/utils/matchesUtils.js:43 | an episode that recovers on or before its injury day misses nothing |
| MatchesUtils.EmptyWindow | src/utils/matchesUtils.js:41-44 | a window whose end is not after the injury day holds no fixture |
| MatchesUtils.WindowGrows | src/utils/matchesUtils.js:36-38 | a later window end never loses a fixture |
| MatchesUtils.IgnoredRowsContributeNothing | src/utils/matchesUtils.js:27-28 | adding a row of another name, or a row without an injury date, leaves the count unchanged |
| MatchesUtils.EpisodesAdd | src/utils/matchesUtils.js:32-47 | each dated episode of the name adds its own count, so a fixture in two overlapping windows counts twice |
| MatchesUtils.MissedMatchesBounds | src/utils/matchesUtils.js:32-49 | the count is between 0 and the number of dated episodes times the number of fixtures |
| MatchesUtils.SumOverDatedIsSumOfShares | src/utils/matchesUtils.js:27-47 | summing over the dated selection equals summing every row's own share over the whole table |
| MatchesUtils.MissedMatchesOrderFree | src/utils/matchesUtils.js:27-47 | the count does not depend on the order of the rows, so the sort does not change it |
| MatchesUtils.MissedMatchesMonotoneInNow | src/utils/matchesUtils.js:36-38 | the count never decreases as `now` advances |
| MatchesUtils.MissedMatchesDependsOnNameOnly | src/utils/matchesUtils.js:5-19 | two dated records with the same name give the same count |
| MatchesUtils.TwoOfThreeFixturesMissed | src/utils/matchesUtils.js:34-46 | an injury from day `d` to `d + 9`, with fixtures on `d + 4`, `d + 9` and `d + 10`, misses 2 |
| Statistics.InjuredThisYear | src/Statistics.js:31-35 | the result holds exactly the rows whose injury date falls in the year |
| Statistics.InjuredThisYearMultiplicity | src/Statistics.js:31-35 | `playersThisYear` holds each row injured in the year as often as the table does and no other row, so `totalInjuriesThisYear` counts those rows |
| Statistics.RecoveredThisYear | src/Statistics.js:40-43 | the result holds exactly the recovered rows whose recovery date falls in the year |
| Statistics.RecoveredThisYearMultiplicity | src/Statistics.js:40-43 | `recoveredPlayersThisYear` holds each row recovered in the year as often as the table does and no other row, so `totalRecoveredPlayersThisYear` counts those rows |
| Statistics.NamesAtMostRows | src/Statistics.js:37-38 | there are never more distinct names than rows |
| Statistics.UniquePlayersAtMostInjuries | src/Statistics.js:35-38 | the year's distinct injured players never exceed the year's injuries |
| Statistics.RecoveredThisYearMeaning | src/Statistics.js:40-43 | a row counts as recovered this year exactly when it is recovered and its recovery date is in the year |
| Statistics.SumInjuredDays | src/Statistics.js:45-54 | the loop adds up the closed-episode durations of all rows, of any year |
| Statistics.TotalInjuredDaysOrderFree | src/Statistics.js:45-54 | the total of injured days is non-negative and the same for any order of the rows |
| Statistics.TallyLoop | src/Statistics.js:57-62 | the dictionary loop builds the tally of its counted elements |
| Statistics.InjuryTypeCountsMeaning | src/Statistics.js:57-65 | the histogram has a key for each non-empty type of the year, counts that type's rows, and its counts add up to the year's typed rows, which is at most the year's injuries |
| Statistics.YearDaysWithinTotal | src/Statistics.js:68-77 | the year's closed-episode days are part of the all-time total |
| Statistics.PlayerInjuryDaysMeaning | src/Statistics.js:68-80 | a name has an entry exactly when one of its year's rows is closed; the entry sums those durations; all entries together are at most `totalInjuredDays` |
| Statistics.RecoveryTimes | src/Statistics.js:83-96 | the `{sum, count}` loop builds the per-type sums and counts of typed, closed rows of any year |
| Statistics.RecoveryCountsPositive | src/Statistics.js:90-94 | every type in the recovery table has a count of at least 1, so no mean divides by 0 |
| Statistics.RoundedMeanIsNearest | src/Statistics.js:98 | the rounded mean `r` satisfies `r - 1/2 <= sum/count < r + 1/2` |
| Statistics.AverageRecoveryMeaning | src/Statistics.js:83-98 | a type has an average exactly when a typed, closed row carries it; the average is the rounded mean of that type's durations over a count of at least 1 |
| Statistics.AverageRecoveryIgnoresYear | src/Statistics.js:84 | the average table is the same whichever year is asked about |
| Statistics.SingleStrainAveragesNineDays | src/Statistics.js:83-98 | one strain lasting from day `d` to day `d + 9` averages 9 days |
| Statistics.Zeros | src/Statistics.js:101 | `Array(12).fill(0)` holds twelve zeros |
| Statistics.MonthlyLoop | src/Statistics.js:101-107 | the array loop gives the twelve month buckets |
| Statistics.MonthlyBucket | src/Statistics.js:102-106 | each month's bucket counts the dated rows injured in that month |
| Statistics.MonthlyBucketsTotal | src/Statistics.js:101-107 | the buckets add up to the dated rows |
| Statistics.ThisYearAllDated | src/Statistics.js:31-33 | every row of the year is dated, so the dated-row count is the number of the year's rows |
| Statistics.MonthlyInjuriesTotal | src/Statistics.js:101-107 | there are exactly twelve buckets, and they add up to `totalInjuriesThisYear` |
| Statistics.GetStats | src/Statistics.js:29-124 | the page's computation returns every figure of `StatsOf` |
| Statistics.StatsOfEmpty | src/Statistics.js:29-124 | with no rows, every count is 0, every map is empty and all twelve months are 0 |
| AdminDashboard.NormalizeForSave | src/AdminDashboard.js:45-64 | the field-by-field patching gives `Normalized` of the form |
| AdminDashboard.NormalizedCells | src/AdminDashboard.js:87-106 | the columns are kept; non-empty values are kept; an empty nullable cell becomes null; an empty status becomes `injured`; every other cell is unchanged |
| AdminDashboard.NormalizedHasNoEmptyCells | src/AdminDashboard.js:48-64 | a saved record never holds an empty date, link, estimation or status |
| AdminDashboard.NormalizedIdempotent | src/AdminDashboard.js:87-106 | normalising twice gives the same record as normalising once |
| AdminDashboard.BlankForm | src/AdminDashboard.js:71-80 | the reset form has the eight form columns, all empty except the given status |
| AdminDashboard.BlankFormSaves | src/AdminDashboard.js:7-16 | a blank form, whether its status is empty or `injured`, saves as injured with null dates, link and estimation |
| AdminDashboard.MarkedRecoveredTouchesTwoColumns | src/AdminDashboard.js:130-134 | the patch sets status `recovered` and the recovery date to today, keeps every other column, and is idempotent |
| AdminDashboard.MarkRecoveredIn | src/AdminDashboard.js:131-134 | the table keeps its length; rows with the id get the patch and all other rows are unchanged |
| AdminDashboard.DeleteFrom | src/AdminDashboard.js:121-122 | the table keeps exactly the rows with another id |
| AdminDashboard.DeleteFromMultiplicity | src/AdminDashboard.js:121-122 | the delete keeps every row of another id as often as the table holds it, and removes every row of the id |
| AdminDashboard.MarkRecoveredLowersInjuredCount | src/AdminDashboard.js:130-138 | marking an id recovered lowers the injured count by exactly that id's injured rows |
| AdminDashboard.InjuredRecordsMultiplicity | src/AdminDashboard.js:29-30 | the injured count includes each injured row as often as it occurs, and no other row |
| AdminDashboard.Dashboard.constructor | src/AdminDashboard.js:5-17 | the initial state has no rows, a count of 0, a blank form with status `''`, and nothing under edit |
| AdminDashboard.Dashboard.FetchPlayers | src/AdminDashboard.js:23-32 | a successful read replaces the rows and sets the count to their injured rows; a failed read changes nothing |
| AdminDashboard.Dashboard.HandleInputChange | src/AdminDashboard.js:34-41 | exactly one cell changes, in the record under edit if there is one and in the new-player form otherwise; the other record is untouched |
| AdminDashboard.Dashboard.StartEditing | src/AdminDashboard.js:317 | the chosen row goes under edit, and nothing else changes |
| AdminDashboard.Dashboard.CancelEditing | src/AdminDashboard.js:282 | edit mode ends, and nothing else changes |
| AdminDashboard.Dashboard.ClearRecoveryDate | src/AdminDashboard.js:237-243 | the recovery date becomes null in the record under edit, or `''` in the new-player form |
| AdminDashboard.Dashboard.AddPlayer | src/AdminDashboard.js:43-83 | sends the normalised form; only a non-empty insert result appends its first row, resets the form to status `injured` and re-reads the rows |
| AdminDashboard.Dashboard.UpdatePlayer | src/AdminDashboard.js:85-119 | does nothing without a record under edit; otherwise sends the normalised record, and on success leaves edit mode and re-reads the rows |
| AdminDashboard.Dashboard.DeletePlayer | src/AdminDashboard.js:121-128 | a successful delete removes the id's rows and re-reads; a failed one changes nothing |
| AdminDashboard.Dashboard.MarkAsRecovered | src/AdminDashboard.js:130-140 | a successful update patches the id's rows and re-reads; the form state never changes |
| AdminDashboard.Dashboard.GetStats | src/AdminDashboard.js:143-163 | counts the rows injured in the current year, and sums the closed-episode days of all rows |
| Pagination.SliceIndex | src/App.js:53 | a `slice` bound is clamped to `[0, n]`, and a non-negative bound is `min(i, n)` |
| Pagination.PageIsSlice | src/App.js:51-53 | page `p >= 1` holds rows `(p - 1) * 10` up to `min(p * 10, n)` |
| Pagination.PageAtMostTen | src/App.js:51-53 | no page, whatever its number, holds more than 10 rows, and page 0 is empty |
| Pagination.PageRowsFromList | src/RecoveredPlayers.js:57-59 | a page shows only rows of its list |
| Pagination.TotalPagesIsCeiling | src/App.js:54 | the page count is `ceil(n / 10)`: 0 exactly for an empty list, and otherwise `(pages - 1) * 10 < n <= pages * 10` |
| Pagination.PageNonEmptyIffNumbered | src/RecoveredPlayers.js:57-60 | a page from 1 on is non-empty exactly when its number is at most the page count |
| Pagination.PagesUpToIsPrefix | src/App.js:178-181 | pages 1 to `k`, read in order, are the first `min(10k, n)` rows |
| Pagination.PagesReassemble | src/RecoveredPlayers.js:150-153 | the numbered pages, read in order, give back the whole list |
| App.InjuryDuration | src/App.js:57-65 | the duration, `Math.ceil` of the milliseconds between the injury date's midnight and the clock, is never negative |
| App.InjuryDurationIsDistance | src/App.js:57-65 | without an injury date the duration is 0; for an injury on or before today it is the whole days since, plus 1 once today has begun (so 1 on the injury day); for a future date it is the whole days until it; 0 only at the midnight that starts the injury day |
| App.InjuryDurationGrowsDaily | src/App.js:58-62 | for an injury in the past, each further 24 hours add 1 |
| App.FillMissedMatches | src/App.js:39-43 | the loop stores `calculateMissedMatches(player)` under each injured player's id |
| App.MissedMapCoversInjured | src/App.js:39-43 | every injured player's id has an entry and no other key does; a player whose id is not repeated later gets its own count; no entry is negative |
| App.VisitorPagesShowInjured | src/App.js:32-36 | every row on any page of the visitor list is an injured row of the table |
| RecoveredPlayers.RecoveredList | src/RecoveredPlayers.js:18-23 | the listing holds exactly the recovered rows whose recovery date is from January 1 to December 31 of the year |
| RecoveredPlayers.RecoveredListMatchesStatistics | src/RecoveredPlayers.js:14-23 | this listing is exactly the statistics page's "recovered this year" rows |
| RecoveredPlayers.ClosedDurationIsDistance | src/RecoveredPlayers.js:65-73 | the duration is 0 unless both dates are present; otherwise it is the same with the dates swapped, and 0 only for equal dates |
| RecoveredPlayers.ClosedDurationAgainstVisitorView | src/RecoveredPlayers.js:65-73 | for an episode recovered on or after its injury day, the closed length equals the visitor view's duration at the midnight that starts the recovery day, and is 1 less than it at any later moment of that day |
| RecoveredPlayers.LatestRecovered | src/RecoveredPlayers.js:34-41 | the lookup is empty exactly when no recovered row has the name; otherwise it is such a row, and no other such row sorts before it |
| RecoveredPlayers.LatestRecoveredHasGreatestDate | src/RecoveredPlayers.js:39 | when every candidate is dated, the chosen record has the greatest injury date |
| RecoveredPlayers.FillRecoveredMissed | src/RecoveredPlayers.js:31-49 | the loop stores, under each listed player's id, the latest record's count, or 0 when the lookup finds nothing |
| RecoveredPlayers.UndatedCandidateZeroesEntry | src/RecoveredPlayers.js:39-44 | one recovered row of the name without an injury date makes the entry 0 |
| RecoveredPlayers.DatedCandidatesGiveNameCount | src/RecoveredPlayers.js:43-44 | when every candidate is dated, the entry is the missed-matches count of the player's name |
| RecoveredPlayers.RecoveredMapCoversListed | src/RecoveredPlayers.js:31-49 | every listed player's id has an entry, and no other key does |
| RecoveredPlayers.ListedPlayerHasRecord | src/RecoveredPlayers.js:34-43 | a listed player always finds a recovered record of its own name |
| RecoveredPlayers.RecoveredPagesShowListed | src/RecoveredPlayers.js:57-59 | every row on any page is recovered within the year |

## Left out

- `src/supabaseClient.js` and every query, insert, update and delete. Each is replaced by its outcome as an input: the rows read, or `None` on error. `DeleteFrom` and `MarkRecoveredIn` state what a successful write leaves in the table.
- React hooks, JSX, the chart data objects and the dynamic chart import. The label and value arrays of the charts are the keys and values of the modelled maps.
- The `localStorage` login flag and the logout redirect in `src/App.js`. These are browser state, not computation.
- The order of the `await`ed network calls. The model gives every `calculateMissedMatches` call in a fill loop the same snapshot of both tables.
- Time zones, and `toISOString().slice(0, 10)` moving January 1 and December 31 across a time-zone boundary. Date-only values are whole UTC days. Only `App.InjuryDuration` reads the clock to the millisecond, because its `Math.ceil` depends on the time of day.
- The wall clock. `now`, `today`, `nowMs` (the clock in milliseconds since 1970) and the current year are parameters.
- The unused destructured `totalInjuredPlayersThisYear` in `src/Statistics.js`, which `getStats` never returns.
- Statistics.AverageRecovery: uses exact integer arithmetic for `Math.round(sum / count)`, not floating point. The two agree for any sum a season of injuries can produce. Near 2^53 the floating-point division drops the low bit, and the results can differ.
- Statistics.StatsOf: models the histograms as maps, so the order of `Object.keys` (the chart label order) is not modelled.
- MatchesUtils.CalculateMissedMatches: keeps the rows in table order instead of sorting them by injury date. `MissedMatchesOrderFree` proves the order cannot change the result.
- MatchesUtils.MatchesInWindow: assumes every fixture has a date. A `match_date` that is null is not modelled.
- RecoveredPlayers.LatestRecovered: breaks ties between rows with equal injury dates (or two undated rows) by table order. The database leaves that order unspecified.
- Records.Episode: has only the columns the computations read. The photo, article link and club estimation appear only as form cells in `AdminDashboard.Row`.
- AdminDashboard.Dashboard.StartEditing: takes a form record. The model has no conversion from a table row (`Records.Episode`) to a form record, because `Episode` holds only the columns the computations read and holds dates as day numbers, not as the `YYYY-MM-DD` text the form holds. So the model does not state that the edit button puts a row of `players` under edit.
- Pagination: models only `paginate`'s effect, which is the page number passed to `CurrentPlayers`. The page number as component state is not modelled.
