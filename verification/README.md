# elevate-stats-gen in Dafny

This project models the report generator of elevate-stats-gen. The generator reads the
CSV export of the Elevate activity tracker and writes one HTML page. That page holds three
cross tables, for distance, elevation gain and duration in minutes. Each table has a row per
year plus a Total row, and a column per type group (Cycling, Walking), per activity type and
one for All. The page also holds a top-10 leaderboard for every type group and every type,
by distance, by elevation gain and by average climb. Each leaderboard has an all-time list
and one list per year.

The modules follow the structure of `ElevateStatsGen.kt`:

- `Results`: the exceptions the code can raise (NumberFormatException,
  IndexOutOfBoundsException, ArithmeticException, IllegalArgumentException) as an `Err`
  result.
- `Decimals`: `java.math.BigDecimal` as an unscaled integer and a scale. `equals` is
  structural equality, so `0` and `0.0` differ. `compareTo` compares the numbers the decimals
  stand for. `add` is exact. `divide(d, n, RoundingMode.UP)` rounds away from zero at scale
  `n` and fails on a zero divisor.
- `Text`: Kotlin `split`, `String.toInt` and 32-bit `Int` arithmetic, with wrap-around
  written out.
- `Sequences`: `groupBy`, `flatten` and the sorted key list of `toSortedSet`.
- `Activities`: the `Activity` record with its derived fields `year`, `durationMin` and
  `avgClimb`, the two enums, and `parseDuration`.
- `Groupings`: the lazily built groupings of the activities. Once built they never change,
  so they are functions of the activity list.
- `Aggregation`: the `sumBy` loop, as a method proved against a specification function.
- `AggregateTables`: every cell of `typeAndYearTable`.
- `Ranking`: `sortedByDescending(key).take(n)`, a stable insertion sort on a key.
- `Leaderboards`: the `top10Table` overloads and `writeStatsPage` without its HTML.

Three behaviours of the code are modelled as written:

- `durationMin` and `avgClimb` pass `RoundingMode.UP`, which rounds away from zero (not
  half up): 61 seconds give 2 minutes. The model follows that.
- `avgClimb` tests `distance == BigDecimal.ZERO` with `equals`. A distance of `0.0` therefore
  reaches the division and throws ArithmeticException. The model keeps this, and
  `Leaderboards.StatsPageFails` shows that the page fails exactly when some activity has
  such a distance.
- `parseDuration` parses every `:`-separated piece before it destructures the first three.
  A fourth piece that is not an Int still fails the parse, while extra Int pieces are
  ignored.

## Model

| member | source | states |
|---|---|---|
| Decimals.FromInt | src/main/kotlin/com/sifraser/elevate/statsgen/ElevateStatsGen.kt:38 | `BigDecimal(total)` has scale 0 and stands for exactly `total` |
| Decimals.Add | src/main/kotlin/com/sifraser/elevate/statsgen/ElevateStatsGen.kt:237 | the scale of a sum is the larger of the two scales |
| Decimals.AddIsExact | src/main/kotlin/com/sifraser/elevate/statsgen/ElevateStatsGen.kt:237 | BigDecimal addition never rounds: the sum stands for the exact sum of the two numbers |
| Decimals.AddZero | src/main/kotlin/com/sifraser/elevate/statsgen/ElevateStatsGen.kt:235-237 | adding a decimal to ZERO gives back that very decimal, scale included |
| Decimals.AddCommutes | src/main/kotlin/com/sifraser/elevate/statsgen/ElevateStatsGen.kt:237 | addition is commutative, scale included |
| Decimals.AddAssociates | src/main/kotlin/com/sifraser/elevate/statsgen/ElevateStatsGen.kt:237 | addition is associative, scale included, so sums may be regrouped freely |
| Decimals.RoundedAwayFromZeroIsUnique | src/main/kotlin/com/sifraser/elevate/statsgen/ElevateStatsGen.kt:266-267 | at most one integer is the quotient rounded away from zero |
| Decimals.DivideAwayFromZero | src/main/kotlin/com/sifraser/elevate/statsgen/ElevateStatsGen.kt:266-267 | the integer division is the exact quotient rounded away from zero: the smallest magnitude at least the quotient's, with the quotient's sign |
| Decimals.ScaledQuotientIsExact | src/main/kotlin/com/sifraser/elevate/statsgen/ElevateStatsGen.kt:266-267 | the integer fraction that is rounded equals the real quotient of the two decimals times 10^scale |
| Decimals.QuotientRoundedUpIsNearQuotient | src/main/kotlin/com/sifraser/elevate/statsgen/ElevateStatsGen.kt:266-267 | a result rounded UP at scale n lies less than 10^-n from the true quotient, on the side away from zero |
| Decimals.Divide | src/main/kotlin/com/sifraser/elevate/statsgen/ElevateStatsGen.kt:266-267 | `divide(d, n, UP)` throws ArithmeticException exactly when the divisor is zero (at any scale); otherwise it is the quotient rounded away from zero at scale n |
| Text.Split | src/main/kotlin/com/sifraser/elevate/statsgen/ElevateStatsGen.kt:36 | `split(":")` gives at least one piece, no piece holds ':', and joining the pieces with ':' rebuilds the text |
| Text.SplitJoin | src/main/kotlin/com/sifraser/elevate/statsgen/ElevateStatsGen.kt:36 | splitting undoes joining for pieces without the separator |
| Text.ParseInt | src/main/kotlin/com/sifraser/elevate/statsgen/ElevateStatsGen.kt:36 | `toInt` succeeds exactly when the text is an optional '+' or '-' followed by one or more digits and that signed value fits in an Int, and then gives that value; in every other case it throws NumberFormatException |
| Text.ParseIntOfDigits | src/main/kotlin/com/sifraser/elevate/statsgen/ElevateStatsGen.kt:36 | a run of digits (leading zeros allowed, as in "007") whose value fits in an Int parses to that value |
| Text.ParseIntOfSigned | src/main/kotlin/com/sifraser/elevate/statsgen/ElevateStatsGen.kt:36 | '+' before digits gives their value and '-' gives its negation, exactly when the result fits in an Int (down to -2^31); otherwise NumberFormatException |
| Text.ParseIntNeedsDigits | src/main/kotlin/com/sifraser/elevate/statsgen/ElevateStatsGen.kt:36 | "+", "-" and the empty text are not Ints: each throws NumberFormatException |
| Text.IntToStringParses | src/main/kotlin/com/sifraser/elevate/statsgen/ElevateStatsGen.kt:36 | `toInt` reads back every Int written in decimal |
| Text.ToInt32Congruent | src/main/kotlin/com/sifraser/elevate/statsgen/ElevateStatsGen.kt:37 | wrapping to 32 bits depends only on the value modulo 2^32 |
| Sequences.GroupBy | src/main/kotlin/com/sifraser/elevate/statsgen/ElevateStatsGen.kt:47-55 | `groupBy` has a key exactly for each key that occurs; each bucket is non-empty and holds that key's elements in input order |
| Sequences.GroupByPartitions | src/main/kotlin/com/sifraser/elevate/statsgen/ElevateStatsGen.kt:78 | `map[k] ?: emptyList()` is the elements with key k in input order, whether or not k occurs |
| Sequences.InsertSorted | src/main/kotlin/com/sifraser/elevate/statsgen/ElevateStatsGen.kt:41 | adding a key to a sorted set keeps it strictly ascending and adds exactly that key |
| Sequences.SortedKeys | src/main/kotlin/com/sifraser/elevate/statsgen/ElevateStatsGen.kt:41 | the sorted set of keys is strictly ascending and holds exactly the keys of the elements |
| Activities.AllTypesListsEachTypeOnce | src/main/kotlin/com/sifraser/elevate/statsgen/ElevateStatsGen.kt:270-278 | `ActivityType.values()` lists every type exactly once |
| Activities.Members | src/main/kotlin/com/sifraser/elevate/statsgen/ElevateStatsGen.kt:280-283 | each type group has two distinct member types |
| Activities.GroupsAreDisjoint | src/main/kotlin/com/sifraser/elevate/statsgen/ElevateStatsGen.kt:280-283 | no type belongs to both groups, and Run, Kayaking and Rowing belong to neither |
| Activities.ParseType | src/main/kotlin/com/sifraser/elevate/statsgen/ElevateStatsGen.kt:29 | `valueOf` returns the type whose name is exactly the text, or throws IllegalArgumentException when no name matches |
| Activities.Activity.DurationMin | src/main/kotlin/com/sifraser/elevate/statsgen/ElevateStatsGen.kt:266 | `durationMin` is the duration divided by 60 at scale 0, rounded away from zero |
| Activities.DurationMinIsCeiling | src/main/kotlin/com/sifraser/elevate/statsgen/ElevateStatsGen.kt:266 | for whole non-negative seconds, `durationMin` is the fewest whole minutes covering the duration |
| Activities.Activity.AvgClimb | src/main/kotlin/com/sifraser/elevate/statsgen/ElevateStatsGen.kt:267 | `avgClimb` is ZERO for a distance equal to ZERO; it throws ArithmeticException exactly for a zero distance at another scale; otherwise it is gain / distance rounded away from zero at scale 2 |
| Activities.ParseInts | src/main/kotlin/com/sifraser/elevate/statsgen/ElevateStatsGen.kt:36 | `map { it.toInt() }` succeeds exactly when every piece parses, and then holds each piece's value in order |
| Activities.ParseDuration | src/main/kotlin/com/sifraser/elevate/statsgen/ElevateStatsGen.kt:35-39 | `parseDuration` succeeds exactly when every piece is an Int and there are at least three pieces. A bad piece gives NumberFormatException, and too few pieces give IndexOutOfBoundsException. The result is a whole number that fits in an Int |
| Activities.WrappedTotal | src/main/kotlin/com/sifraser/elevate/statsgen/ElevateStatsGen.kt:37 | wrapping after every Int `+` and `*` equals wrapping the exact `s + 60m + 3600h` once |
| Activities.ParseDurationTotal | src/main/kotlin/com/sifraser/elevate/statsgen/ElevateStatsGen.kt:35-39 | a successful parse is the 32-bit total seconds of the first three pieces |
| Activities.ParseDurationNeedsThreeFields | src/main/kotlin/com/sifraser/elevate/statsgen/ElevateStatsGen.kt:36 | one or two Int pieces fail with IndexOutOfBoundsException |
| Activities.ParseDurationOfPieces | src/main/kotlin/com/sifraser/elevate/statsgen/ElevateStatsGen.kt:35-39 | three or more Int pieces joined by ':' parse to the wrapped total of the first three |
| Activities.ParseDurationIgnoresExtraFields | src/main/kotlin/com/sifraser/elevate/statsgen/ElevateStatsGen.kt:36 | Int pieces after the third do not change the result |
| Activities.ParseDurationOfFormatDuration | src/main/kotlin/com/sifraser/elevate/statsgen/ElevateStatsGen.kt:35-39 | any non-negative Int number of seconds written as H:MM:SS parses back to itself |
| Groupings.StatsGen.ByYear | src/main/kotlin/com/sifraser/elevate/statsgen/ElevateStatsGen.kt:47 | `activitiesByYear` has a key exactly for each year some activity falls in, and under it that year's activities, in input order, never none |
| Groupings.StatsGen.ByType | src/main/kotlin/com/sifraser/elevate/statsgen/ElevateStatsGen.kt:49 | `activitiesByType` has a key exactly for each type some activity has, and under it that type's activities, in input order, never none |
| Groupings.StatsGen.ByTypeAndYear | src/main/kotlin/com/sifraser/elevate/statsgen/ElevateStatsGen.kt:51-55 | `activitiesByTypeAndYear` has the types of `activitiesByType`; under a type and a year, the activities of both, in input order, never none |
| Groupings.StatsGen.Years | src/main/kotlin/com/sifraser/elevate/statsgen/ElevateStatsGen.kt:41 | `years` is strictly ascending, and holds exactly the keys of `activitiesByYear`, which are the years of the activities |
| Groupings.StatsGen.YearBucketIsFilter | src/main/kotlin/com/sifraser/elevate/statsgen/ElevateStatsGen.kt:47 | a year's bucket is exactly that year's activities, in order |
| Groupings.StatsGen.TypeBucketIsFilter | src/main/kotlin/com/sifraser/elevate/statsgen/ElevateStatsGen.kt:49 | a type's bucket is exactly that type's activities, in order |
| Groupings.StatsGen.TypeYearBucketIsFilter | src/main/kotlin/com/sifraser/elevate/statsgen/ElevateStatsGen.kt:51-55 | a (type, year) bucket is exactly the activities of that type and year, in order; an absent type gives none |
| Groupings.StatsGen.BucketsPartition | src/main/kotlin/com/sifraser/elevate/statsgen/ElevateStatsGen.kt:47-55 | no bucket of the three groupings is empty, and each activity is in exactly the buckets of its year, its type, and its type and year |
| Groupings.StatsGen.GroupActivities | src/main/kotlin/com/sifraser/elevate/statsgen/ElevateStatsGen.kt:112-113 | a type group's list is all activities of its first member type, then all of its second, each in input order |
| Aggregation.Sum | src/main/kotlin/com/sifraser/elevate/statsgen/ElevateStatsGen.kt:234-240 | `sumBy` stands for the exact sum of the selected numbers |
| Aggregation.SumBy | src/main/kotlin/com/sifraser/elevate/statsgen/ElevateStatsGen.kt:234-240 | the `sumBy` loop computes the specification sum: ZERO plus each selected value, in list order |
| Aggregation.SumAppend | src/main/kotlin/com/sifraser/elevate/statsgen/ElevateStatsGen.kt:234-240 | the sum over a concatenation is the sum of the two sums, scale included |
| Aggregation.SumPartition | src/main/kotlin/com/sifraser/elevate/statsgen/ElevateStatsGen.kt:234-240 | summing a list equals adding up its per-key sums, for any list of distinct keys covering it |
| AggregateTables.Rows | src/main/kotlin/com/sifraser/elevate/statsgen/ElevateStatsGen.kt:73-104 | one row per year in ascending order, then the Total row |
| AggregateTables.Cell | src/main/kotlin/com/sifraser/elevate/statsgen/ElevateStatsGen.kt:73-103 | every cell, of a year row or the Total row and of a group, type or All column, sums the field over its column's activities, restricted to its year in a year row |
| AggregateTables.GroupYearBucketsAreFilter | src/main/kotlin/com/sifraser/elevate/statsgen/ElevateStatsGen.kt:76-81 | a group's (type, year) buckets, flattened, are that year's part of the group's activities, in order |
| AggregateTables.Table | src/main/kotlin/com/sifraser/elevate/statsgen/ElevateStatsGen.kt:57-107 | the table has one row per year plus Total, each with ten cells, and the cell at row i and column j is the figure of that row and column |
| AggregateTables.TypeCellMeaning | src/main/kotlin/com/sifraser/elevate/statsgen/ElevateStatsGen.kt:82-85 | a type cell sums the field over its row's activities of that type |
| AggregateTables.GroupCellIsSumOfMemberCells | src/main/kotlin/com/sifraser/elevate/statsgen/ElevateStatsGen.kt:76-81 | in every row, a group cell is exactly its two member types' cells added |
| AggregateTables.AllCellIsTotalOfTypeCells | src/main/kotlin/com/sifraser/elevate/statsgen/ElevateStatsGen.kt:86-87 | in every row, the All cell equals the seven type cells added up |
| AggregateTables.TotalCellIsTotalOfYearCells | src/main/kotlin/com/sifraser/elevate/statsgen/ElevateStatsGen.kt:90-103 | in every column, the Total cell equals that column's year cells added up |
| AggregateTables.EmptyTable | src/main/kotlin/com/sifraser/elevate/statsgen/ElevateStatsGen.kt:57-107 | with no activities the table is the Total row alone, every cell ZERO |
| Ranking.Insert | src/main/kotlin/com/sifraser/elevate/statsgen/ElevateStatsGen.kt:117 | inserting into a list sorted by descending key keeps it sorted and adds exactly that element |
| Ranking.SortedByDescending | src/main/kotlin/com/sifraser/elevate/statsgen/ElevateStatsGen.kt:117 | `sortedByDescending` is sorted by descending key and a permutation of its input |
| Ranking.SortIsStable | src/main/kotlin/com/sifraser/elevate/statsgen/ElevateStatsGen.kt:117 | the sort is stable: the elements of each key keep their input order |
| Ranking.Top | src/main/kotlin/com/sifraser/elevate/statsgen/ElevateStatsGen.kt:117 | `sortedByDescending(key).take(n)` keeps min(n, size) elements, drawn from the input without repeats, in descending key order |
| Ranking.TopIsLargest | src/main/kotlin/com/sifraser/elevate/statsgen/ElevateStatsGen.kt:117 | no element left out of the top n has a larger key than one kept |
| Ranking.TopPrefersEarlierTies | src/main/kotlin/com/sifraser/elevate/statsgen/ElevateStatsGen.kt:117 | among equal keys, the elements kept are the earliest ones in the input |
| Leaderboards.Measured | src/main/kotlin/com/sifraser/elevate/statsgen/ElevateStatsGen.kt:207-222 | reading a measure fails, with ArithmeticException, only for the climb of an activity with a zero distance at nonzero scale |
| Leaderboards.MeasureAll | src/main/kotlin/com/sifraser/elevate/statsgen/ElevateStatsGen.kt:117-120 | reading every measure of a list fails exactly when one of them fails; otherwise it holds each activity's measure in order |
| Leaderboards.YearBoards | src/main/kotlin/com/sifraser/elevate/statsgen/ElevateStatsGen.kt:118-121 | there are at most as many per-year lists as listed years, and each is the top 10 of a non-empty year bucket |
| Leaderboards.Rank | src/main/kotlin/com/sifraser/elevate/statsgen/ElevateStatsGen.kt:115-122 | a leaderboard fails, with ArithmeticException, exactly when reading the measure of one of its activities fails |
| Leaderboards.RankFails | src/main/kotlin/com/sifraser/elevate/statsgen/ElevateStatsGen.kt:115-122 | only a climb leaderboard can fail, and it fails exactly when its list holds an activity with a zero distance at nonzero scale |
| Leaderboards.YearBoardsKeepYears | src/main/kotlin/com/sifraser/elevate/statsgen/ElevateStatsGen.kt:118-121 | with no empty bucket, the per-year lists are for exactly the years given, in that order |
| Leaderboards.YearBoardsPerYear | src/main/kotlin/com/sifraser/elevate/statsgen/ElevateStatsGen.kt:118-121 | with no empty bucket, there is one per-year list per year, in the order given, each the top 10 of that year's bucket |
| Leaderboards.ListYearBoards | src/main/kotlin/com/sifraser/elevate/statsgen/ElevateStatsGen.kt:118-121 | the per-year lists are for exactly the sorted years of the list, each the top 10 of that year's activities |
| Leaderboards.RankContents | src/main/kotlin/com/sifraser/elevate/statsgen/ElevateStatsGen.kt:115-122 | a leaderboard that succeeds holds the all-time top 10 and then one top 10 per year present, years strictly ascending |
| Leaderboards.GroupTiesKeepMemberOrder | src/main/kotlin/com/sifraser/elevate/statsgen/ElevateStatsGen.kt:112-117 | in a group leaderboard, tied activities follow the first member type's order, then the second's |
| Leaderboards.SubjectActivities | src/main/kotlin/com/sifraser/elevate/statsgen/ElevateStatsGen.kt:109-113 | a type's leaderboard ranks all activities of that type; a group's ranks all of its first member type's, then all of its second's; each in input order |
| Leaderboards.SubjectActivitiesAreActivities | src/main/kotlin/com/sifraser/elevate/statsgen/ElevateStatsGen.kt:109-113 | every list a leaderboard ranks holds only loaded activities |
| Leaderboards.RankAllFails | src/main/kotlin/com/sifraser/elevate/statsgen/ElevateStatsGen.kt:206-223 | one measure's leaderboards fail exactly when one of their lists holds a failing activity |
| Leaderboards.RankAll | src/main/kotlin/com/sifraser/elevate/statsgen/ElevateStatsGen.kt:206-223 | one measure's leaderboards are, in list order, each list's own leaderboard; any failure is an ArithmeticException |
| Leaderboards.AllBoards | src/main/kotlin/com/sifraser/elevate/statsgen/ElevateStatsGen.kt:206-223 | the boards are one block per measure, in the order given, each block that measure's leaderboards of all the lists; any failure is an ArithmeticException |
| Leaderboards.AllBoardsRank | src/main/kotlin/com/sifraser/elevate/statsgen/ElevateStatsGen.kt:206-223 | board i of block j is the leaderboard of list i under measure j |
| Leaderboards.AllBoardsFail | src/main/kotlin/com/sifraser/elevate/statsgen/ElevateStatsGen.kt:206-223 | the leaderboards fail exactly when some measure has a list with a failing activity |
| Leaderboards.SomeSubjectFails | src/main/kotlin/com/sifraser/elevate/statsgen/ElevateStatsGen.kt:206-223 | some activity's measure fails exactly when one of the page's lists holds such an activity |
| Leaderboards.StatsPage | src/main/kotlin/com/sifraser/elevate/statsgen/ElevateStatsGen.kt:194-226 | a written page holds the distance, elevation gain and duration tables, each the table of that field, then for distance, elevation gain and climb in turn, the leaderboard of each group and then each type; a failing page fails with ArithmeticException |
| Leaderboards.StatsPageFails | src/main/kotlin/com/sifraser/elevate/statsgen/ElevateStatsGen.kt:194-226 | writing the page fails, with ArithmeticException, exactly when some activity's distance is zero at a nonzero scale |

## Left out

- The CSV loader (`ElevateStatsGen.kt:18-33`): reading the file with opencsv, the header
  and column positions are I/O, and the model starts from the list of activities.
  Converting each row uses `ParseDuration` and `ParseType`. The other column parsers are
  listed below.
- `LocalDateTime.parse(…, ISO_OFFSET_DATE_TIME)`: date-time parsing is not modelled. An
  activity keeps the local date-time fields as a record, and only its year enters the figures.
- `BigDecimal(String)` for distance and elevation gain: decimal text parsing is not
  modelled. Exponent notation with a negative scale (such as `1E+3`) cannot be represented,
  because scales are natural numbers here.
- The HTML, the CSS, the headings and `DecimalFormat` rendering (`ElevateStatsGen.kt:57-72`,
  `124-192`, the `td` text): these are presentation only. The model keeps the figures and
  the lists in page order.
- `main` (`ElevateStatsGen.kt:242-255`) and `File.writeText`: argument checks, the file
  system and process exit are I/O.
- Lazy initialisation (`by lazy`): every lazy value is computed once and never changes, so
  each is modelled as a function of the activities.
- Text.ParseInt: `Integer.parseInt` also accepts non-ASCII Unicode digits. The model accepts
  only '0' to '9', because Unicode digit classes are not modelled.
- The order in which the sort consults keys: the model only records that a list of two or
  more reads every key, and that a single listed activity's key is read when its row is
  rendered.
- `src/main/kotlin/ElevateStatsGen.kt` (a second, simpler variant of the generator) and
  `build.gradle.kts` are not part of this model.
