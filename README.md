# OpenAQ Los Angeles extractors and daily NO2 aggregator

This Dafny project models three scripts of the OpenAQ data tooling.

1. The sub-daily extractor `OPENAQ/extract_1000_points_la_v2.py`. It pages
   through the measurements of the NO2, O3 and (optionally) HCHO sensors of
   one Los Angeles station. It keeps the usable records and converts ppm
   readings to µg/m³. Each series is sorted by instant and cut to its most
   recent points. The series are then aligned on the sorted union of their
   instants by successive left merges, and the combined table is cut to its
   last 10000 rows.
2. The daily extractor `OPENAQ/extract_1000_daily_la.py`. It runs the same
   loop against the daily-averages endpoint and keys every reading by its UTC
   calendar date. Its conversion has no HCHO branch. It aligns NO2 and O3 on
   the union of dates and keeps the last 1000 rows.
3. The aggregator `OPENAQ/no2/create_daily_no2.py`. It groups an hourly NO2
   table by UTC date and averages each date's readings, skipping absent ones.
   It emits one row per date, stamped at midnight, in date order.

Modules, one per concern:

- `Series` (series.dfy): the shared values.
  - A `Measurement` is a key and a value in µg/m³.
  - `DayOf` gives the calendar date of an instant.
  - The terminal sort `SortByKey` is a stable insertion sort.
  - `TailTrim` is the keep-the-last-n trim, as `tail(n)` does it.
  - `SortedKeys` lists a set of keys in ascending order, as
    `sorted(list(set))` does.
- `Units` (units.dfy): the ppm conversion tables of both extractors.
- `Fetch` (fetch.dfy): the paged loop the two extractors share.
  - It is parameterised by the variant, which decides whether the key is the
    instant or the date.
  - The remote service is a sequence of page answers. Each answer is a page
    of raw records or a failure.
  - `Fetched` is the specification function of the loop. `FetchMeasurements`
    is the loop itself, proved equal to it.
- `Align` (align.dfy): the union of keys, the left merge and the
  all-absent column, all as functions. `AlignTable` is the untrimmed combined
  table. The methods `AddKeys`, `MergeColumn` and `TrimRows` are the steps the
  extractors perform.
- `Points` (points.dfy) and `DailyPoints` (daily_points.dfy): the two
  extractor files, each with its sensor call and its combine step.
- `DailyNo2` (daily_no2.dfy): the aggregator.

On a failed request the `try` wraps the whole loop, and the outer `except`
returns a fresh empty frame (`extract_1000_points_la_v2.py:122-124`,
`extract_1000_daily_la.py:120-122`). Nothing accumulated on earlier pages is
kept, so `Fetched` is empty whenever the last request failed.

The code skips a record whose `parameter` object or `units` field is
null, because processing it raises. With a null `parameter`, the chained
`.get` raises (`extract_1000_points_la_v2.py:75`). With a null `units`,
`.lower()` raises (`:79`). Such a record is `Record.units == None`
in the model. A record with no `units` key carries `"unknown"` and passes
through unconverted.

The sub-daily extractor's HCHO sensor is the constant `None`
(`extract_1000_points_la_v2.py:158`), so its HCHO series is always empty. The
daily extractor has no HCHO column at all. The model takes the HCHO pages as an `Option` so that
both branches of `if HCHO_SENSOR:` are modelled.

## Model

| member | source | states |
|---|---|---|
| Series.SortByKey | OPENAQ/extract_1000_points_la_v2.py:108-109 | the sorted series is in ascending key order, is a permutation of the accumulation, and has its length |
| Series.TailTrim | OPENAQ/extract_1000_points_la_v2.py:112-113 | `tail(n)`: min(n, length) entries forming the trailing part of the input; its meaning on ascending series is TailTrimKeepsLatest |
| Series.TailTrimKeepsLatest | OPENAQ/extract_1000_points_la_v2.py:111-113 | trimming an ascending series keeps it ascending, keeps only entries it had, and drops only entries no later than every kept one |
| Series.SortedKeys | OPENAQ/extract_1000_points_la_v2.py:207 | the key column is strictly ascending, holds exactly the members of the set of keys, and has one entry per member |
| Series.StrictlyIncreasingUnique | OPENAQ/extract_1000_points_la_v2.py:207 | two strictly ascending lists with the same members are equal, so the sorted key column is determined by the set alone |
| Series.DayOfBounds | OPENAQ/extract_1000_daily_la.py:71 | an instant lies in the 86400 seconds that start at midnight of its date |
| Series.DayOfMidnight | OPENAQ/no2/create_daily_no2.py:33 | midnight of a date belongs to that date |
| Units.ConvertHourly | OPENAQ/extract_1000_points_la_v2.py:79-85 | the sub-daily conversion, the value times `HourlyFactor`; characterised by ConvertIsScaling, IsPpmLetters, NonPpmUnchanged and ConversionExamples |
| Units.ConvertDaily | OPENAQ/extract_1000_daily_la.py:79-83 | the daily conversion, the value times `DailyFactor`; characterised by ConvertIsScaling, NonPpmUnchanged, DailyNeverScalesHcho and VariantsAgreeExceptHcho |
| Units.ConvertIsScaling | OPENAQ/extract_1000_points_la_v2.py:77-87 | each factor is one of 1, 1880, 1960 and 1230 in the sub-daily extractor and one of 1, 1880 and 1960 in the daily one, so a recorded 0 stays 0 and no conversion changes a value's sign |
| Units.IsPpmLetters | OPENAQ/extract_1000_points_la_v2.py:79 | a unit counts as ppm exactly when it is the three letters p, p, m in any letter case |
| Units.NonPpmUnchanged | OPENAQ/extract_1000_daily_la.py:77-85 | a unit other than ppm leaves the value unchanged in both extractors |
| Units.DailyNeverScalesHcho | OPENAQ/extract_1000_daily_la.py:79-83 | the daily extractor never scales HCHO, while the sub-daily one scales ppm HCHO by 1230 |
| Units.VariantsAgreeExceptHcho | OPENAQ/extract_1000_daily_la.py:79-83 | for every pollutant other than HCHO the two extractors convert alike |
| Units.ConversionExamples | OPENAQ/extract_1000_points_la_v2.py:79-85 | worked cases: 1 ppm NO2 is 1880, 1 "PPM" of "O3" is 1960, 2 ppm HCHO is 2460, µg/m³ and unknown pollutants pass through, and the daily HCHO stays 2 |
| Fetch.Accept | OPENAQ/extract_1000_points_la_v2.py:63-90 | the record filter and conversion of one record; characterised by AcceptRule |
| Fetch.AcceptRule | OPENAQ/extract_1000_points_la_v2.py:63-90 | a record is kept exactly when its timestamp parses, its value is non-null and its units are readable; its key is the instant (or date) and its value the reading times the factor; a recorded 0 is kept as 0 |
| Fetch.Fetched | OPENAQ/extract_1000_points_la_v2.py:34-124 | the specification of one sensor fetch; characterised by FetchStopRule, FetchedShape, FetchedFromRecords and FetchedKeepsAllBelowTarget, and implemented by FetchMeasurements |
| Fetch.FirstStopIsFirst | OPENAQ/extract_1000_points_la_v2.py:42-101 | the loop's last page is a page at which a stop condition holds, no earlier page satisfies one, and it is at most 50 |
| Fetch.FetchStopRule | OPENAQ/extract_1000_points_la_v2.py:42-101 | with a positive target the loop makes 1 to 50 requests; it ends on a failure, an empty page, the target reached or page 50; every earlier page was non-empty and left the accumulation short of the target |
| Fetch.ZeroTargetFetchesNothing | OPENAQ/extract_1000_points_la_v2.py:42 | a target of zero makes no request and yields an empty series |
| Fetch.FetchedShape | OPENAQ/extract_1000_points_la_v2.py:105-124 | the series is ascending and at most target long; a failed last request yields nothing; otherwise it holds min(accumulated, target) entries, the trailing part of the sorted accumulation |
| Fetch.PageMeasurementsFrom | OPENAQ/extract_1000_points_la_v2.py:63-87 | every measurement a page contributes is the conversion of one of its accepted records |
| Fetch.PageMeasurementsComplete | OPENAQ/extract_1000_points_la_v2.py:63-87 | every accepted record of a page contributes its measurement |
| Fetch.FetchedFromRecords | OPENAQ/extract_1000_points_la_v2.py:63-113 | every measurement of the result is the conversion of an accepted record of a requested page |
| Fetch.FetchedKeepsAllBelowTarget | OPENAQ/extract_1000_points_la_v2.py:58-113 | when the loop ended without a failure and without passing the target, every accepted record of every requested page is in the result |
| Fetch.AppendPage | OPENAQ/extract_1000_points_la_v2.py:63-90 | the record loop appends exactly the page's accepted measurements, in record order, to the accumulation |
| Fetch.StopEnds | OPENAQ/extract_1000_points_la_v2.py:94-101 | a page that stops the loop, with no earlier stop, is the last request and fixes the result: empty after a failure, the sorted and trimmed accumulation otherwise |
| Fetch.FetchMeasurements | OPENAQ/extract_1000_points_la_v2.py:34-124 | the paged loop returns the specified series and makes the specified number of requests, at most 50, and the series is at most target long |
| Fetch.SortAndTrim | OPENAQ/extract_1000_points_la_v2.py:106-113 | the accumulation is sorted and cut to its last target entries; an empty accumulation stays empty |
| Align.MatchesSpec | OPENAQ/extract_1000_points_la_v2.py:211 | the values a series has at a key are exactly the values of its measurements at that key, and there are none exactly when the key is not in the series |
| Align.MatchesDistinct | OPENAQ/extract_1000_points_la_v2.py:211 | a series without repeated keys matches a key at most once |
| Align.LookupDistinct | OPENAQ/extract_1000_points_la_v2.py:211 | without repeated keys the merged cell is absent exactly when the series lacks the key, and is v exactly when the series holds (key, v) |
| Align.MergeEmptyIsAbsent | OPENAQ/extract_1000_points_la_v2.py:210-213 | left-merging an empty series gives the same table as the all-absent column the code adds instead |
| Align.Merge | OPENAQ/extract_1000_points_la_v2.py:211 | the left merge of a series onto the table; characterised by MergeSound, MergeKeySet, MergeSorted and MergeDistinct |
| Align.MergeDistinct | OPENAQ/extract_1000_points_la_v2.py:211 | without repeated keys a left merge keeps every row, in order, and appends that row's looked-up cell |
| Align.JoinRowSound | OPENAQ/extract_1000_points_la_v2.py:211 | every row a left merge makes of a row keeps its key and cells and adds one cell consistent with the series |
| Align.JoinRowKeys | OPENAQ/extract_1000_points_la_v2.py:211 | a left merge makes at least one row of each row, all with its key |
| Align.MergeSound | OPENAQ/extract_1000_points_la_v2.py:211 | every merged row extends some input row by one consistent cell |
| Align.MergeKeySet | OPENAQ/extract_1000_points_la_v2.py:211 | a left merge keeps the set of keys of the table |
| Align.MergeSorted | OPENAQ/extract_1000_points_la_v2.py:211 | a left merge keeps an ascending table ascending, repeated matches included |
| Align.AddAbsentKeys | OPENAQ/extract_1000_points_la_v2.py:212-213 | the all-absent column keeps the keys and the order of the table |
| Align.MergeOrAbsentSound | OPENAQ/extract_1000_points_la_v2.py:210-223 | adding a series' column to a table whose cells are consistent with the earlier series keeps every cell consistent, the new one included |
| Align.UnionKeysMember | OPENAQ/extract_1000_points_la_v2.py:196-204 | a key is in the union exactly when some series has it |
| Align.MergeAllKeys | OPENAQ/extract_1000_points_la_v2.py:209-223 | the merges keep the set of keys and the ascending order of the key column |
| Align.MergeAllSound | OPENAQ/extract_1000_points_la_v2.py:209-223 | after all merges every row has one cell per series, each absent exactly when that series lacks the key and otherwise one of its values there |
| Align.MergeAllDistinct | OPENAQ/extract_1000_points_la_v2.py:209-223 | without repeated keys the merges keep the rows and append each row's looked-up cells, one per series |
| Align.AlignTable | OPENAQ/extract_1000_points_la_v2.py:196-223 | the untrimmed combined table; characterised by AlignTableSound and AlignTableDistinct |
| Align.AlignTableSound | OPENAQ/extract_1000_points_la_v2.py:196-223 | the combined table's keys are exactly the union of the series' keys, in ascending order, and every cell is consistent with its series |
| Align.AlignTableDistinct | OPENAQ/extract_1000_points_la_v2.py:196-223 | without repeated keys the combined table has one row per key of the union, strictly ascending, holding each series' value at that key or absent |
| Align.AddKeys | OPENAQ/extract_1000_points_la_v2.py:199-204 | adding a series' keys to the running union; an empty series adds none |
| Align.MergeColumn | OPENAQ/extract_1000_points_la_v2.py:210-223 | a non-empty series is left-merged and an empty one gets an all-absent column |
| Align.TrimRows | OPENAQ/extract_1000_points_la_v2.py:225-227 | the table is cut to its last n rows when it is longer |
| Align.TrimTable | OPENAQ/extract_1000_points_la_v2.py:225-227 | the trimmed table stays ascending and consistent, is unchanged when short enough, and drops only rows no later than every kept one |
| Align.TrimDistinct | OPENAQ/extract_1000_points_la_v2.py:196-227 | without repeated keys the trimmed table's keys are the last n keys of the union, each with its looked-up cells |
| Align.KeysOfTrim | OPENAQ/extract_1000_points_la_v2.py:225-227 | the key column of the trimmed table is the trimmed key column |
| Align.AlignExample | OPENAQ/extract_1000_points_la_v2.py:196-223 | worked case: {t1: 5, t2: 6} and {t2: 7, t3: 8} align to the rows t1 (5, absent), t2 (6, 7), t3 (absent, 8) |
| Points.ExtractMeasurementsFromSensor | OPENAQ/extract_1000_points_la_v2.py:14-124 | one sensor's series is the specified fetch, ascending, at most target long, and each entry is keyed by the very instant of an accepted record |
| Points.FetchedReadAt | OPENAQ/extract_1000_points_la_v2.py:65-87 | every entry of a sub-daily series comes from a record on one of the first 50 pages stamped at that instant |
| Points.CombineHourly | OPENAQ/extract_1000_points_la_v2.py:196-227 | the combine step yields the last 10000 rows of the aligned table of NO2, O3 and HCHO |
| Points.CombineHourlySound | OPENAQ/extract_1000_points_la_v2.py:196-227 | the combined table is ascending, its three cells per row are consistent with their series, and when nothing is trimmed its keys are all instants of the three series |
| Points.CombineHourlyDistinct | OPENAQ/extract_1000_points_la_v2.py:196-227 | without repeated instants the table's keys are the last 10000 instants of the union and each row holds the three series' readings at its instant, or absent |
| Points.HchoSeries | OPENAQ/extract_1000_points_la_v2.py:180-187 | the fetched HCHO series when a sensor is given and an empty one otherwise; its consequence for the table is HchoAbsent |
| Points.ExtractPointsLosAngeles | OPENAQ/extract_1000_points_la_v2.py:154-227 | the whole sub-daily extractor: the trimmed aligned table of the three fetched series (NO2 and O3 with target 10000, HCHO with 1000), at most 10000 rows of three cells |
| Points.HchoAbsent | OPENAQ/extract_1000_points_la_v2.py:185-187 | without an HCHO sensor every row's HCHO cell is absent |
| DailyPoints.ExtractDailyMeasurementsFromSensor | OPENAQ/extract_1000_daily_la.py:12-122 | one sensor's daily series is the specified fetch, ascending by date, at most target long, and each entry is keyed by the date of an accepted record |
| DailyPoints.FetchedDatedAt | OPENAQ/extract_1000_daily_la.py:63-85 | every entry of a daily series comes from a record on one of the first 50 pages taken on that date |
| DailyPoints.SameDaySameKey | OPENAQ/extract_1000_daily_la.py:71 | two records of one date get the same key, whatever their time of day |
| DailyPoints.CombineDaily | OPENAQ/extract_1000_daily_la.py:175-199 | the combine step yields the last 1000 rows of the aligned table of NO2 and O3 |
| DailyPoints.CombineDailySound | OPENAQ/extract_1000_daily_la.py:175-199 | the combined daily table is ascending, its two cells per row are consistent with their series, and when nothing is trimmed its keys are all dates of the two series |
| DailyPoints.CombineDailyDistinct | OPENAQ/extract_1000_daily_la.py:175-199 | without repeated dates the table's keys are the last 1000 dates of the union and each row holds both series' readings of its date, or absent |
| DailyPoints.ExtractDailyPointsLosAngeles | OPENAQ/extract_1000_daily_la.py:146-199 | the whole daily extractor: the trimmed aligned table of the two fetched series, at most 1000 ascending rows of two cells |
| DailyNo2.DayReadingsSpec | OPENAQ/no2/create_daily_no2.py:29-30 | a value is among a date's readings exactly when some row of that date carries it |
| DailyNo2.MeanBetween | OPENAQ/no2/create_daily_no2.py:30 | the mean of a date's readings lies between their smallest and largest value, and times their count it is their sum |
| DailyNo2.MeanSingleton | OPENAQ/no2/create_daily_no2.py:30 | a single reading is its own mean |
| DailyNo2.MeanConstant | OPENAQ/no2/create_daily_no2.py:30 | readings that all agree average to that value |
| DailyNo2.AggregateDaily | OPENAQ/no2/create_daily_no2.py:29-34 | the group-by-date mean; characterised by AggregateRank, AggregateAscending, AggregateMidnight, AggregateAbsent and AlreadyDailyFixedPoint |
| DailyNo2.CreateDailyNo2 | OPENAQ/no2/create_daily_no2.py:18-34 | the aggregator on a possibly missing input; characterised by CreateDailyNo2Outcome |
| Series.SortedKeysRank | OPENAQ/no2/create_daily_no2.py:30 | entry i of the sorted key column has exactly i smaller keys in the set |
| DailyNo2.AggregateRank | OPENAQ/no2/create_daily_no2.py:30 | the date of row i has exactly i smaller dates among the dates the input covers, so row i is the (i+1)-th date |
| DailyNo2.AggregateAscending | OPENAQ/no2/create_daily_no2.py:30 | the daily timestamps are strictly ascending |
| DailyNo2.AggregateMidnight | OPENAQ/no2/create_daily_no2.py:29-34 | every row is stamped at midnight of a date the input covers and holds that date's mean, and every covered date has a row |
| DailyNo2.MeanAbsent | OPENAQ/no2/create_daily_no2.py:30 | a date's mean is absent exactly when no row of that date has a reading |
| DailyNo2.AggregateAbsent | OPENAQ/no2/create_daily_no2.py:30-34 | a daily row's mean is absent exactly when no input row of its date has a reading |
| DailyNo2.AggregateEmpty | OPENAQ/no2/create_daily_no2.py:29-34 | an empty table aggregates to an empty table |
| DailyNo2.CreateDailyNo2Outcome | OPENAQ/no2/create_daily_no2.py:18-20 | a missing input produces nothing, a present one produces a table, and an empty input an empty table |
| DailyNo2.AlreadyDailyFixedPoint | OPENAQ/no2/create_daily_no2.py:29-34 | rows already at midnight with strictly ascending timestamps aggregate to themselves |
| DailyNo2.AggregateExample | OPENAQ/no2/create_daily_no2.py:29-34 | worked case: readings 10 at 02:00 and 20 at 14:00 of one date give one midnight row with 15 |

## Left out

- HTTP sessions, headers, the API key, timeouts and JSON decoding are not modelled. Every request is one page answer, and a failed request, a non-success status or an undecodable body is `Failure`.
- The request windows built from `datetime.utcnow()` are not modelled: 730 days in the sub-daily extractor (`extract_1000_points_la_v2.py:39`) and 1100 days in the daily one (`extract_1000_daily_la.py:37`). The `limit` parameter is not modelled either. The page answers are whatever the service returns for them.
- The `time.sleep` between pages is not modelled.
- Console output and the printed statistics are not modelled.
- The empty-input exception in the aggregator is not modelled. On an empty input, `hours_per_day_avg` at `create_daily_no2.py:59` divides by zero. `create_daily_no2` then ends with an exception after it has already written its output file (`:41`), and the `__main__` block reports the error. The model returns the empty daily table and does not model that exception.
- Reading and writing CSV files, the `os.path.exists` check (modelled as an `Option` input) and the environment-variable check of the `__main__` blocks are not modelled.
- `create_daily_no2.py:16` names a `.py` file as its hourly input. The model takes the hourly table itself as input.
- DailyNo2.AggregateDaily: does not model `round(3)`. Rounding to three decimals is floating-point formatting; the model keeps exact means.
- NaN cells are modelled as absent (`None`). Floating point is modelled as exact reals.
- Timestamps that parse to `NaT` and are dropped by the grouping are not modelled.
- Units.LowerAscii: lower-cases ASCII letters only. That is exact for comparisons with "ppm", "no2", "o3" and "hcho", but it does not model Unicode case folding of other strings.
- Series.SortByKey: is a stable sort. The source's `sort_values` does not promise a stable order for equal timestamps. Every proved property (ascending, permutation, trailing part) holds for any sort, but the order among equal keys is not that of pandas.
- Fetch.FetchMeasurements: takes `target` as a natural number. A negative target behaves in the source like zero.
- A record value that is not a number (a string, say) is not modelled.
- `split_air_quality_data.py` is not part of this model.
