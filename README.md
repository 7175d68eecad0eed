# Web-server log analyzer, modelled in Dafny

This project models `LogAnalyzer`, the class that turns an access log into per-hour,
per-day-of-month and per-month access counts and answers the busiest and quietest
hour, day and month, the busiest two-hour window and the total number of accesses.

- `log_reader.dfy` (module `LogReader`): a `LogEntry` (hour, day, month). The
  `LogfileReader` is a single-pass cursor: a fixed sequence of entries plus a
  position `pos`. `HasNext()` holds iff `pos < |entries|`, and `Next()` hands out
  `entries[pos]` and moves past it.
- `counting.dfy` (module `Counting`): what the tables are meant to hold, stated
  over the log:
  - `Tally(es, f, v)` is the number of entries whose field `f` is `v`.
  - `Histogram` is the whole table and `Sum` adds it up.
  - `TallyIsMultiplicity` checks `Tally` against an independent definition, the
    multiplicity of `v` in the multiset of field values.
  - `IsFirstMax` and `IsFirstMin` say what a scan with a strict comparison
    returns: an extremum of the range, and the first index that holds it.
  - `TwoHourSums` gives the circular two-hour window sums.
- `log_analyzer.dfy` (module `Analysis`): the class `LogAnalyzer`.
  - It has three `array<nat>` tables of lengths 24, 32 and 13 and the reader.
  - Its three analysis passes are `while` loops that drain the reader and
    increment one cell per entry.
  - `NumberOfAccesses` drains the reader too.
  - The queries are `for` loops keeping a running best index. The plain
    extremum scans share `FirstMaxIndex` and `FirstMinIndex`.
  - `QuietestHour` and `BusiestTwoHour` have their own loops, as in the source.
- `scenarios.dfy` (module `Scenarios`): whole-analyzer runs, proved only from the
  class's contracts:
  - The hourly table adds up to the access count.
  - A second pass on a drained reader sees nothing.
  - Hours 0 and 5 tie and the earlier hour wins.
  - The two-hour window wraps from hour 23 to hour 0.
  - An empty log gives an all-zero hour table, zero accesses and hour 0 answers.

Three behaviours of the code are modelled AS WRITTEN:
- `quietestHour` starts its candidate at the count `hourCounts[0]`
  (LogAnalyzer.java:94). It is therefore only defined when that count is below 24.
  Only hours 1..23 are examined as challengers; hour 0 is the starting candidate
  only when its own count is 0.
- `busiestMonth` scans `dayCounts[1..12]` (LogAnalyzer.java:154).
- `busiestTwoHour` reads `hourCounts[busiest + 1]` without a modulo
  (LogAnalyzer.java:111). This is in bounds because the candidate is always an
  hour below the one being examined. The loop invariant `busiest < c` carries
  exactly that, and Dafny's array bounds checks confirm that index 24 is never read.

Two of these are evidently unintended: `busiestMonth` should scan `monthCounts`,
and `quietestHour` should start its candidate at hour 0, as `busiestHour` does.
The model follows the code. The intended behaviour is given as the separate
corrected members listed under Findings.

## Model

| member | source | states |
|---|---|---|
| `LogReader.LogfileReader.Next` | LogAnalyzer.java:50-51 | `next()` returns the entry at the cursor, advances the cursor by one, and drops exactly that entry from the unread suffix |
| `Counting.Tally` | LogAnalyzer.java:50-53 | the number of entries counted into one cell never exceeds the number of entries read |
| `Counting.TallyIsMultiplicity` | LogAnalyzer.java:50-53 | the count kept for value `v` equals the multiplicity of `v` among the entries' field values (independent reference definition) |
| `Counting.HistogramAt` | LogAnalyzer.java:48-55 | cell `v` of the table built from a log holds exactly the number of entries whose field is `v` |
| `Counting.HistogramSum` | LogAnalyzer.java:165-173 | when every entry's field indexes the table, the table's cells add up to the number of entries, which is what `numberOfAccesses` counts |
| `Counting.TallyUniform` | LogAnalyzer.java:53 | a log whose entries all have the same value puts every entry into that value's cell |
| `Counting.FirstMaxUnique` | LogAnalyzer.java:79-87 | the strict-`>` first-occurrence scan has only one possible answer, so repeated busiest queries on unchanged tables agree |
| `Counting.FirstMinUnique` | LogAnalyzer.java:118-126 | the same for the strict-`<` quietest scans |
| `Analysis.FirstMaxIndex` | LogAnalyzer.java:129-137 | scanning `a[lo..hi]` with a strict `>` from candidate `lo` returns an index in range whose count is maximal, and every earlier index has a strictly smaller count |
| `Analysis.FirstMinIndex` | LogAnalyzer.java:118-126 | scanning with a strict `<` from candidate `lo` returns an index in range whose count is minimal, and every earlier index has a strictly larger count |
| `Analysis.LogAnalyzer.constructor` | LogAnalyzer.java:21-43 | the three tables are fresh, of lengths 24, 32 and 13, and all zero; the reader is fresh and positioned before the first entry of the log |
| `Analysis.LogAnalyzer.AnalyzeHourlyData` | LogAnalyzer.java:48-55 | requires every unread entry's hour to lie in 0..23; each `hourCounts[h]` grows by the number of unread entries at hour `h` (so counters only increase); the reader ends exhausted; the day and month tables are unchanged |
| `Analysis.LogAnalyzer.AnalyzeDailyData` | LogAnalyzer.java:57-64 | the same over `dayCounts` and the entries' day in 0..31; hour and month tables unchanged |
| `Analysis.LogAnalyzer.AnalyzeMonthlyData` | LogAnalyzer.java:66-73 | the same over `monthCounts` and the entries' month in 0..12; hour and day tables unchanged |
| `Analysis.LogAnalyzer.NumberOfAccesses` | LogAnalyzer.java:165-173 | returns the number of unread entries and leaves the reader exhausted; it may modify only the reader, so no table changes |
| `Analysis.LogAnalyzer.BusiestHour` | LogAnalyzer.java:79-87 | returns `b` in 0..23 with `hourCounts[b] >= hourCounts[c]` for every hour `c` and `hourCounts[b] > hourCounts[c]` for every `c < b` |
| `Analysis.LogAnalyzer.QuietestHour` | LogAnalyzer.java:93-101 | requires `hourCounts[0] < 24`; returns the candidate `hourCounts[0]` unless some hour in 1..23 has a strictly smaller count, otherwise the first hour in 1..23 with the smallest count; its count is at most that of every hour in 1..23; returns 0 when hour 0 had no access |
| `Analysis.LogAnalyzer.QuietestHourCorrected` | LogAnalyzer.java:93-101 | the evidently intended quietest hour: the first hour in 0..23 with the smallest count, with no precondition |
| `Analysis.LogAnalyzer.BusiestTwoHour` | LogAnalyzer.java:107-116 | returns the first start hour in 0..23 whose window sum `hourCounts[b] + hourCounts[(b+1) % 24]` is maximal; the window at 23 wraps to hour 0; every earlier start has a strictly smaller sum |
| `Analysis.LogAnalyzer.QuietestDay` | LogAnalyzer.java:118-126 | returns the first day in 1..31 with the smallest count; cell 0 is outside the range compared |
| `Analysis.LogAnalyzer.BusiestDay` | LogAnalyzer.java:129-137 | returns the first day in 1..31 with the largest count |
| `Analysis.LogAnalyzer.QuietestMonth` | LogAnalyzer.java:140-148 | returns the first month in 1..12 with the smallest count |
| `Analysis.LogAnalyzer.BusiestMonth` | LogAnalyzer.java:151-159 | as written: returns the first index in 1..12 with the largest count in the DAY table |
| `Analysis.LogAnalyzer.BusiestMonthCorrected` | LogAnalyzer.java:151-159 | the evidently intended busiest month: the first month in 1..12 with the largest count in the month table |
| `Analysis.LogAnalyzer.PrintHourlyCounts` | LogAnalyzer.java:180-186 | the report's rows are the pairs (hour, count) for hours 0..23, in order |
| `Analysis.LogAnalyzer.TotalAccessesPerMonth` | LogAnalyzer.java:189-196 | the report's rows are the pairs (month, count) for months 1..12, in order |
| `Analysis.MidnightBurstOverflowsQuietestHour` | LogAnalyzer.java:94 | an analyzer that has run `analyzeHourlyData` over 24 accesses at hour 0 is in a reachable state with `hourCounts[0] == 24`, where `QuietestHour`'s precondition `hourCounts[0] < 24` fails, i.e. `quietestHour`'s first comparison would read past the table |
| `Analysis.QuietestHourMissesHourZero` | LogAnalyzer.java:93-101 | with 2 accesses at hour 0 and 4 at every other hour, `quietestHour` answers hour 2, which is busier than hour 0 |
| `Analysis.BusiestMonthIgnoresMonthCounts` | LogAnalyzer.java:151-159 | with an all-zero day table, `busiestMonth` answers 1 whatever the month table holds, even when month 5 is busier |
| `Scenarios.TotalsAgree` | LogAnalyzer.java:165-173 | over two analyzers reading one log, the hourly table filled by `analyzeHourlyData` adds up to the count returned by `numberOfAccesses`, both equal to the log's length |
| `Scenarios.SecondPassSeesNothing` | LogAnalyzer.java:57-64 | after an hourly pass, a daily pass on the same analyzer leaves every day counter at 0 and a later `numberOfAccesses` returns 0 |
| `Scenarios.BusiestHourTie` | LogAnalyzer.java:79-87 | hours 0, 0, 5, 5, 5, 23, 0 give counts 3, 3 and 1 at hours 0, 5 and 23, and the busiest hour is 0 (tie to the earlier hour) |
| `Scenarios.BusiestTwoHourWraps` | LogAnalyzer.java:107-116 | hours 22, 22, 23, 23, 23, 0, 0, 0, 0 make the wrapping window at 23 (3 + 4) the busiest |
| `Scenarios.EmptyLog` | LogAnalyzer.java:93-101 | an empty log leaves all 24 hour counters at 0, gives 0 accesses, and busiest and quietest hour 0 |

## Left out

- The `LogfileReader` and `LogEntry` internals are not part of this model. That
  covers parsing log lines, opening the default log or the file named by
  `filename` (LogAnalyzer.java:29, 42), and `printData` (LogAnalyzer.java:203-206),
  which only delegates to the reader's printing. Both constructors become one
  Dafny constructor that takes the entries the reader would produce.
- The console text of `printHourlyCounts` and `totalAccessesPerMonth` is not
  modelled: the header lines and the `": "` formatting. The methods return the
  (index, count) rows they print, in order.
- Java `int` overflow of the counters and of the access count is not modelled:
  counters are unbounded `nat`.
- No calendar or time-zone validity of day and month values is modelled; the
  code does no such checks either.
- The counter tables are `const` fields. The Java fields are assigned only in
  the constructors, so no behaviour is lost.
- AnalyzeHourlyData: an entry whose hour is outside 0..23 makes the Java pass
  throw `ArrayIndexOutOfBoundsException` partway through, after the earlier
  entries have been counted. The model instead requires every unread entry to
  fit, and does not model that partial update.
- AnalyzeDailyData: the same, for a day outside 0..31.
- AnalyzeMonthlyData: the same, for a month outside 0..12.
- QuietestHour: when `hourCounts[0] >= 24` the Java method throws
  `ArrayIndexOutOfBoundsException` at line 96. The model requires
  `hourCounts[0] < 24` instead of modelling the exception.
- Next: calling `next()` on an exhausted reader is a reader-contract violation
  that the analyzer never commits. The model makes it a precondition rather
  than an error result.

## Findings

| source | as written | input that shows it | evidently intended | confidence | as-written member | corrected member |
|---|---|---|---|---|---|---|
| LogAnalyzer.java:94 | the running candidate starts at the count `hourCounts[0]`, not at hour 0 | 24 log entries at hour 0, then `analyzeHourlyData`: `hourCounts[0] == 24` and line 96 reads `hourCounts[24]`; or 2 entries at hour 0 and 4 at every other hour: the answer is hour 2 | `quietest = 0`: the first hour in 0..23 with the smallest count | high; not executed | `Analysis.LogAnalyzer.QuietestHour`, `Analysis.MidnightBurstOverflowsQuietestHour`, `Analysis.QuietestHourMissesHourZero` | `Analysis.LogAnalyzer.QuietestHourCorrected` |
| LogAnalyzer.java:154 | the busiest-month scan compares `dayCounts[c]`, not `monthCounts[c]` | only `analyzeMonthlyData` run, all entries in May: the day table is all zero and the answer is month 1 | compare `monthCounts`: the first month in 1..12 with the largest count | high; not executed | `Analysis.LogAnalyzer.BusiestMonth`, `Analysis.BusiestMonthIgnoresMonthCounts` | `Analysis.LogAnalyzer.BusiestMonthCorrected` |
