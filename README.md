# ECB fetch service, modelled in Dafny

This project models `EcbFetchServiceImpl` of the brinvex-ecb library. The service fetches three
series from the data API of the European Central Bank:

- the daily reference rates of a currency against the euro (`fetch(FxRequest)`);
- the deposit facility rate by day, optionally with equal subsequent values merged
  (`fetch(DepositFacilityRateRequest)`);
- the monthly HICP index with month-on-month and year-on-year growth factors
  (`fetch(HICPInflationRequest)`).

Each fetch has four steps:

1. It checks its request.
2. It builds a query URL for the window asked for, fetches it through an `HttpClientFacade` and
   keeps the body only for a 2xx status (`fetchRaw`).
3. It scans the SDMX message for `ObsDimension value="…"/>`, whitespace,
   `<generic:ObsValue value="…"/>` and puts each (date, number) pair into a `LinkedHashMap`
   (`parseDayValues`, `parseMonthValues`).
4. It post-processes the map.

The modules follow that structure:

| file | module | what it holds |
|---|---|---|
| `options.dfy` | `Options` | `Option`, Java's null |
| `decimal_text.dfy` | `DecimalText` | digit strings and their values |
| `calendar.dfy` | `Calendar` | the `LocalDate` operations the service uses: `withDayOfMonth`, `plusMonths`, `minusMonths`, `minusDays(1)`, `isBefore`, `parse`, `toString` |
| `outcomes.dfy` | `Outcomes` | the exceptions a fetch ends with, `Result`, and `Collect` (a run of steps that stops at the first exception) |
| `doubles.dfy` | `Doubles` | `Double.valueOf` on decimal text, `BigDecimal.valueOf(double)`, `divide(…, 6, HALF_UP)` |
| `ordered_maps.dfy` | `OrderedMaps` | `LinkedHashMap` as the class `LinkedMap`, with the entry sequence it iterates over as its abstract value |
| `observation_scanner.dfy` | `ObservationScanner` | the two patterns, the left-to-right `Scanner.findAll`, and the parsers' `put` loop |
| `equal_runs.dfy` | `EqualRuns` | the in-place merge of equal subsequent values |
| `inflation.dfy` | `Inflation` | the HICP window start and the loop that computes the growth factors |
| `fetch_service.dfy` | `EcbFetch` | requests, URLs, the status check, the HTTP client and the service class with its three fetches |

The code works on mutable state in these places, and the model keeps that form:

- the parsers fill a map with `put`;
- the HICP loop puts responses into a new map;
- the merge removes entries through an iterator.

Each of these is a module-level method that takes a `LinkedMap` and changes it or fills a new one
(`PutMatches`, `ComputeInflation`, `MergeEqualSubsequentValues`). Each method is proved against a
function of the entries: `PutEntries`, `Responses`, `CollapseRuns`. The properties the code promises are
then lemmas about those functions. Date arithmetic, the status test, validation and the
growth-factor division are pure functions.

Numbers are exact rationals (`real`). A growth factor, a `BigDecimal` of scale 6, is an integer
count of millionths. The clock reading `LocalDate.now()` is the parameter `today` of each fetch.
The remote service is a fixed function `server` from URL to reply. The `HttpClient` object
records every URL it is asked for, so the contracts can state when no request is made.

Three facts about the code that the model keeps:

- The HICP loop skips only months before the start. Any month after the end month that the
  server sends is reported.
- The keys of the FX and deposit-rate series are not checked against the window asked for.
- `Doubles.GrowthFactorExamples` proves that 101 over 100 rounds to 1.010000.

## Model

| member | source | states |
|---|---|---|
| Calendar.WithFirstDay | src/main/java/com/brinvex/ecb/internal/EcbFetchServiceImpl.java:97 | `withDayOfMonth(1)` gives day 1 of the same month, never after the date it starts from |
| Calendar.PlusMonths | src/main/java/com/brinvex/ecb/internal/EcbFetchServiceImpl.java:98 | the month moves by exactly `n` months; the day is kept when the new month has it, else it is the last day of that month |
| Calendar.MinusMonths | src/main/java/com/brinvex/ecb/internal/EcbFetchServiceImpl.java:108-115 | the month moves back by exactly `n`; a first of the month stays a first of the month |
| Calendar.PreviousDay | src/main/java/com/brinvex/ecb/internal/EcbFetchServiceImpl.java:98 | `minusDays(1)` is strictly before its argument |
| Calendar.PreviousDayIsImmediate | src/main/java/com/brinvex/ecb/internal/EcbFetchServiceImpl.java:98 | no date lies strictly between the previous day and the day |
| Calendar.Before | src/main/java/com/brinvex/ecb/internal/EcbFetchServiceImpl.java:127 | `isBefore` compares year, then month, then day |
| Calendar.BeforeIsStrictTotalOrder | src/main/java/com/brinvex/ecb/internal/EcbFetchServiceImpl.java:127 | `isBefore` is a strict total order: never both ways, one way for any two different dates, and transitive |
| Calendar.EndOfMonth | src/main/java/com/brinvex/ecb/internal/EcbFetchServiceImpl.java:98 | the end day becomes the last day of its month (29 February in leap years), in the same year and month, never before it |
| Calendar.NotBeforeFirstOfMonth | src/main/java/com/brinvex/ecb/internal/EcbFetchServiceImpl.java:127 | against a first-of-month start, `!isBefore` holds exactly when the month is the start's month or later |
| Calendar.ParseYearMonth | src/main/java/com/brinvex/ecb/internal/EcbFetchServiceImpl.java:180 | `LocalDate.parse(t + "-01")` succeeds exactly when the month digits are 1 to 12, and gives day 1 of the year and month the key writes |
| Calendar.ParseIsoDate | src/main/java/com/brinvex/ecb/internal/EcbFetchServiceImpl.java:169 | strict `LocalDate.parse` of `YYYY-MM-DD`: succeeds exactly when the month is 1 to 12 and the day is one the month has, and gives the date the digits write |
| Calendar.FormatIsoDate | src/main/java/com/brinvex/ecb/internal/EcbFetchServiceImpl.java:68-69 | `LocalDate.toString` as the URL writes it: the year (four digits, signed beyond), then two-digit month and day; `FormatThenParse` and `ParseThenFormat` prove it inverse to `ParseIsoDate` for four-digit years |
| Calendar.FormatThenParse | src/main/java/com/brinvex/ecb/internal/EcbFetchServiceImpl.java:68-69 | the window dates the URL carries are `YYYY-MM-DD` text for four-digit years, and parse back to the same dates |
| Calendar.ParseThenFormat | src/main/java/com/brinvex/ecb/internal/EcbFetchServiceImpl.java:169 | a period that parses is exactly the text of the date it parses to |
| Doubles.ParseDouble | src/main/java/com/brinvex/ecb/internal/EcbFetchServiceImpl.java:170 | a finite number is only read from text that holds a digit |
| Doubles.EmptyIsNotANumber | src/main/java/com/brinvex/ecb/internal/EcbFetchServiceImpl.java:170 | `Double.valueOf("")` throws |
| Doubles.ParseDigits | src/main/java/com/brinvex/ecb/internal/EcbFetchServiceImpl.java:170 | a digit string reads as the natural number it writes |
| Doubles.ParseFixedPoint | src/main/java/com/brinvex/ecb/internal/EcbFetchServiceImpl.java:170 | `a.f` reads as the whole part plus the fraction digits over ten to the number of fraction digits |
| Doubles.ToDecimal | src/main/java/com/brinvex/ecb/internal/EcbFetchServiceImpl.java:130 | `BigDecimal.valueOf` succeeds exactly on finite values and keeps the value; NaN and the infinities throw |
| Doubles.RoundHalfUp | src/main/java/com/brinvex/ecb/internal/EcbFetchServiceImpl.java:135 | HALF_UP: the result lies within one half of the quotient, and a tie goes away from zero |
| Doubles.RoundHalfUpUnique | src/main/java/com/brinvex/ecb/internal/EcbFetchServiceImpl.java:135 | exactly one integer meets the HALF_UP bounds, so the rounding is determined |
| Doubles.DivideHalfUp | src/main/java/com/brinvex/ecb/internal/EcbFetchServiceImpl.java:135 | `divide(d, 6, HALF_UP)` throws exactly on a zero divisor; otherwise the millionths are the quotient rounded HALF_UP at six digits |
| Doubles.GrowthFactorExamples | src/main/java/com/brinvex/ecb/internal/EcbFetchServiceImpl.java:141 | 101 over 100 is 1.010000 and 101 over 98 is 1.030612 |
| OrderedMaps.Lookup | src/main/java/com/brinvex/ecb/internal/EcbFetchServiceImpl.java:134 | `get` finds a value exactly when the key is present, and it is that key's entry |
| OrderedMaps.PutEntry | src/main/java/com/brinvex/ecb/internal/EcbFetchServiceImpl.java:168-171 | `put` of a new key appends its entry; `put` of a present key keeps the size |
| OrderedMaps.PutEntryAt | src/main/java/com/brinvex/ecb/internal/EcbFetchServiceImpl.java:168-171 | `put` replaces the entry of its key in place, changes no other entry, and keeps keys distinct |
| OrderedMaps.PutThenLookup | src/main/java/com/brinvex/ecb/internal/EcbFetchServiceImpl.java:168-171 | after `put(k, v)`, `get(k)` is `v` and every other key's value is unchanged |
| OrderedMaps.PutKeys | src/main/java/com/brinvex/ecb/internal/EcbFetchServiceImpl.java:168-171 | `put` appends a new key to the iteration order and leaves the order alone for a present key |
| OrderedMaps.PutEntriesKeyOrder | src/main/java/com/brinvex/ecb/internal/EcbFetchServiceImpl.java:164-173 | a map filled by `put` iterates its keys in the order of their first occurrence |
| OrderedMaps.PutEntriesLastValue | src/main/java/com/brinvex/ecb/internal/EcbFetchServiceImpl.java:164-173 | a key put again takes the later value: each key maps to the value of its last pair |
| OrderedMaps.PutEntriesOfDistinct | src/main/java/com/brinvex/ecb/internal/EcbFetchServiceImpl.java:164-173 | pairs with distinct keys go into the map exactly as they come |
| OrderedMaps.PutEntries | src/main/java/com/brinvex/ecb/internal/EcbFetchServiceImpl.java:164-173 | the entries of a map after a run of `put` calls, one per pair in order; `PutEntriesKeyOrder`, `PutEntriesLastValue` and `PutEntriesOfDistinct` state what they are |
| OrderedMaps.RemoveEntry | src/main/java/com/brinvex/ecb/internal/EcbFetchServiceImpl.java:89 | after `remove(k)` the key is absent; removing an absent key changes nothing |
| OrderedMaps.RemoveEntryAt | src/main/java/com/brinvex/ecb/internal/EcbFetchServiceImpl.java:89 | removing the key of entry `j` cuts out exactly entry `j` and keeps the others in order |
| OrderedMaps.LookupDistinct | src/main/java/com/brinvex/ecb/internal/EcbFetchServiceImpl.java:134 | in a map, the key of each entry finds that entry's value |
| OrderedMaps.LinkedMap.Entries | src/main/java/com/brinvex/ecb/internal/EcbFetchServiceImpl.java:123 | a map's entries have distinct keys, in iteration order |
| OrderedMaps.LinkedMap.constructor | src/main/java/com/brinvex/ecb/internal/EcbFetchServiceImpl.java:123 | a new map is empty |
| OrderedMaps.LinkedMap.Put | src/main/java/com/brinvex/ecb/internal/EcbFetchServiceImpl.java:145 | the entries become those of `put` on the old entries |
| OrderedMaps.LinkedMap.Get | src/main/java/com/brinvex/ecb/internal/EcbFetchServiceImpl.java:134 | the result is the lookup of the key in the entries |
| OrderedMaps.LinkedMap.Remove | src/main/java/com/brinvex/ecb/internal/EcbFetchServiceImpl.java:89 | the entries become those of `remove` on the old entries |
| OrderedMaps.LinkedMap.IndexOf | src/main/java/com/brinvex/ecb/internal/EcbFetchServiceImpl.java:89 | the position of a present key in the iteration order |
| Outcomes.CollectOk | src/main/java/com/brinvex/ecb/internal/EcbFetchServiceImpl.java:168-171 | a run of steps succeeds exactly when every step does, and then yields each step's value in order |
| Outcomes.CollectFirstError | src/main/java/com/brinvex/ecb/internal/EcbFetchServiceImpl.java:168-171 | a run ends with the exception of its first failing step |
| Outcomes.Collect | src/main/java/com/brinvex/ecb/internal/EcbFetchServiceImpl.java:166-171 | the values of a run of steps in order, or the exception of the first step that throws; `CollectOk` and `CollectFirstError` state both cases |
| ObservationScanner.SkipSpaces | src/main/java/com/brinvex/ecb/internal/EcbFetchServiceImpl.java:49 | the greedy `\s*` covers only whitespace and stops at the first character that is not |
| ObservationScanner.FindQuote | src/main/java/com/brinvex/ecb/internal/EcbFetchServiceImpl.java:49 | the greedy `[^"]*` covers no quote and stops at the first quote or the end |
| ObservationScanner.MatchAt | src/main/java/com/brinvex/ecb/internal/EcbFetchServiceImpl.java:49-50 | a match found at `p` starts there, ends within the text, and captures a period of the pattern's shape |
| ObservationScanner.MatchAtSound | src/main/java/com/brinvex/ecb/internal/EcbFetchServiceImpl.java:49-50 | the text of a match is the pattern's text, with whitespace between the tags and a value without quotes |
| ObservationScanner.MatchAtComplete | src/main/java/com/brinvex/ecb/internal/EcbFetchServiceImpl.java:49-50 | wherever the pattern's text starts, the match there is found, with exactly those groups |
| ObservationScanner.Matches | src/main/java/com/brinvex/ecb/internal/EcbFetchServiceImpl.java:166-167 | `findAll` reports matches inside the text, in document order, without overlap |
| ObservationScanner.MatchesFound | src/main/java/com/brinvex/ecb/internal/EcbFetchServiceImpl.java:166-167 | each reported match is the pattern's match at its start |
| ObservationScanner.MatchesLeftmost | src/main/java/com/brinvex/ecb/internal/EcbFetchServiceImpl.java:166-167 | no match is skipped: every position where the pattern matches lies in a reported match |
| ObservationScanner.CoveringMatch | src/main/java/com/brinvex/ecb/internal/EcbFetchServiceImpl.java:166-167 | names the reported match that covers a position where the pattern matches |
| ObservationScanner.ObservationKey | src/main/java/com/brinvex/ecb/internal/EcbFetchServiceImpl.java:169-180 | a daily key parses exactly when its month is 1 to 12 and its day one the month has, and is then the date its digits write; a monthly key parses exactly when its month is 1 to 12, and is then day 1 of that year and month; a key that does not parse fails with its text (the monthly one with `-01` appended) |
| ObservationScanner.ConvertMatch | src/main/java/com/brinvex/ecb/internal/EcbFetchServiceImpl.java:168-171 | a converted monthly pair has a first-of-month key |
| ObservationScanner.ConvertDayMatch | src/main/java/com/brinvex/ecb/internal/EcbFetchServiceImpl.java:169-170 | a daily match whose period is the text of a date and whose value is a number converts to that date and number |
| ObservationScanner.ConvertMonthMatch | src/main/java/com/brinvex/ecb/internal/EcbFetchServiceImpl.java:180-181 | a monthly match whose period is the year and month of a first day, and whose value is a number, converts to that day and number |
| ObservationScanner.ConvertEach | src/main/java/com/brinvex/ecb/internal/EcbFetchServiceImpl.java:168-171 | the conversion of each match of a run, one per match; `ConvertEachAt` states the `i`-th |
| ObservationScanner.ConvertAll | src/main/java/com/brinvex/ecb/internal/EcbFetchServiceImpl.java:168-171 | a run of matches converts exactly when each match does, and then to their pairs in order |
| ObservationScanner.Observations | src/main/java/com/brinvex/ecb/internal/EcbFetchServiceImpl.java:164-184 | the pairs of a response text in document order, or the first exception; `ObservationsOfMatches` states both cases |
| ObservationScanner.ObservationsOfMatches | src/main/java/com/brinvex/ecb/internal/EcbFetchServiceImpl.java:164-184 | a response text parses exactly when every match `findAll` reports converts, and then to one pair per match, in document order |
| ObservationScanner.ParseValues | src/main/java/com/brinvex/ecb/internal/EcbFetchServiceImpl.java:164-184 | the parse fails exactly when some match, taken in order, fails to convert, with the first such exception; otherwise a new map holds the `put` of every pair in document order |
| ObservationScanner.PutMatches | src/main/java/com/brinvex/ecb/internal/EcbFetchServiceImpl.java:168-171 | the `forEach(put)` loop: the first conversion failure, or a new map holding the `put` of every converted pair |
| ObservationScanner.PutMatch | src/main/java/com/brinvex/ecb/internal/EcbFetchServiceImpl.java:168-171 | one `put`: the map grows by the next converted pair, or the parse ends with that match's exception |
| ObservationScanner.MonthKeysAreFirstDays | src/main/java/com/brinvex/ecb/internal/EcbFetchServiceImpl.java:175-184 | every key of the monthly parser's map is the first day of a month |
| ObservationScanner.ConvertedMonthsAreFirstDays | src/main/java/com/brinvex/ecb/internal/EcbFetchServiceImpl.java:180 | every pair converted from monthly matches is keyed by a first of the month |
| ObservationScanner.UnparsableValueFails | src/main/java/com/brinvex/ecb/internal/EcbFetchServiceImpl.java:170 | a value `Double.valueOf` rejects makes the parse fail; with every earlier match converting and its period parsing, the exception is that value's |
| ObservationScanner.EmptyValueFails | src/main/java/com/brinvex/ecb/internal/EcbFetchServiceImpl.java:50 | an empty value, which `[^"]*` admits, makes the parse fail |
| EqualRuns.CollapseRunsLast | src/main/java/com/brinvex/ecb/internal/EcbFetchServiceImpl.java:89 | the merged series ends with the value the series ends with |
| EqualRuns.CollapseRunsNoEqualNeighbours | src/main/java/com/brinvex/ecb/internal/EcbFetchServiceImpl.java:89 | no two neighbouring entries of the merged series have equal values |
| EqualRuns.CollapseRunsMembers | src/main/java/com/brinvex/ecb/internal/EcbFetchServiceImpl.java:89 | the merged series holds exactly the entries that start a run of equal values, the first key of each run |
| EqualRuns.CollapseRunsValues | src/main/java/com/brinvex/ecb/internal/EcbFetchServiceImpl.java:89 | merging keeps every value that occurs in the series, and adds none |
| EqualRuns.RunStart | src/main/java/com/brinvex/ecb/internal/EcbFetchServiceImpl.java:89 | every entry lies in a run whose first entry is kept with the same value |
| EqualRuns.CollapseRunsSubsequence | src/main/java/com/brinvex/ecb/internal/EcbFetchServiceImpl.java:89 | the merge only removes entries and keeps the order of the rest |
| EqualRuns.CollapseRunsOfMerged | src/main/java/com/brinvex/ecb/internal/EcbFetchServiceImpl.java:89 | a series without equal neighbours is left unchanged |
| EqualRuns.CollapseRunsIdempotent | src/main/java/com/brinvex/ecb/internal/EcbFetchServiceImpl.java:89 | merging twice is merging once |
| EqualRuns.CollapseRunsExample | src/main/java/com/brinvex/ecb/internal/EcbFetchServiceImpl.java:89 | values 1, 1, 2, 2, 2, 1 merge to 1, 2, 1 on the first, third and sixth keys |
| EqualRuns.CollapseRunsStep | src/main/java/com/brinvex/ecb/internal/EcbFetchServiceImpl.java:89 | each further entry is kept exactly when its value differs from the one before |
| EqualRuns.CollapseRuns | src/main/java/com/brinvex/ecb/internal/EcbFetchServiceImpl.java:89 | the series `removeAdjacentDuplicates` leaves: the entries that start a run of equal values, in order; the `CollapseRuns` lemmas above state what it keeps |
| EqualRuns.RemoveNext | src/main/java/com/brinvex/ecb/internal/EcbFetchServiceImpl.java:89 | the iterator's `remove` cuts out the entry after the kept prefix and nothing else |
| EqualRuns.MergeNext | src/main/java/com/brinvex/ecb/internal/EcbFetchServiceImpl.java:89 | one turn of the merge: the kept prefix grows to the merge of one more entry, and the rest is untouched |
| EqualRuns.MergeEqualSubsequentValues | src/main/java/com/brinvex/ecb/internal/EcbFetchServiceImpl.java:89 | the map's entries become the merge of its old entries |
| Inflation.ExtendedStart | src/main/java/com/brinvex/ecb/internal/EcbFetchServiceImpl.java:108-115 | the query starts 12 months back for year-on-year factors, otherwise 1 month back for month-on-month ones, otherwise at the start, on a first of the month |
| Inflation.ExtendedStartCoversBaselines | src/main/java/com/brinvex/ecb/internal/EcbFetchServiceImpl.java:108-115 | for every month reported, the baseline of each factor asked for lies inside the fetched window |
| Inflation.InflationEntryOk | src/main/java/com/brinvex/ecb/internal/EcbFetchServiceImpl.java:130-145 | a month's response succeeds exactly when its value is finite and each factor asked for has a usable baseline; it carries the value, and a factor exactly when it is asked for (null otherwise) |
| Inflation.InflationEntryGrowth | src/main/java/com/brinvex/ecb/internal/EcbFetchServiceImpl.java:133-144 | each factor is the value over the value 12 months or 1 month earlier, rounded HALF_UP to six digits |
| Inflation.MissingBaselineFails | src/main/java/com/brinvex/ecb/internal/EcbFetchServiceImpl.java:133-141 | a missing baseline month fails the response with a `NullPointerException` for that month, the year-on-year one first |
| Inflation.GrowthFactor | src/main/java/com/brinvex/ecb/internal/EcbFetchServiceImpl.java:133-135 | a growth factor: the `get` of the baseline month, `BigDecimal.valueOf` of it and the HALF_UP division, each with its exception; `InflationEntryGrowth` states the result |
| Inflation.InflationEntry | src/main/java/com/brinvex/ecb/internal/EcbFetchServiceImpl.java:130-145 | the response of one month, the year-on-year factor computed before the month-on-month one; `InflationEntryOk` and `InflationEntryGrowth` state the result |
| Inflation.SelectedMembers | src/main/java/com/brinvex/ecb/internal/EcbFetchServiceImpl.java:125-129 | the months kept are exactly the series entries not before the start |
| Inflation.SelectedSubsequence | src/main/java/com/brinvex/ecb/internal/EcbFetchServiceImpl.java:125-129 | the months kept stay in the order of the series |
| Inflation.SelectedKeys | src/main/java/com/brinvex/ecb/internal/EcbFetchServiceImpl.java:125-129 | every month kept is a month of the series, not before the start |
| Inflation.Selected | src/main/java/com/brinvex/ecb/internal/EcbFetchServiceImpl.java:125-129 | the entries the loop does not skip; `SelectedMembers`, `SelectedSubsequence` and `SelectedKeys` state which |
| Inflation.Respond | src/main/java/com/brinvex/ecb/internal/EcbFetchServiceImpl.java:145 | a response is keyed by its own month |
| Inflation.ResponsesShape | src/main/java/com/brinvex/ecb/internal/EcbFetchServiceImpl.java:125-146 | a computed series holds, in series order, one response for each month kept, built from that month's value |
| Inflation.ResponsesFail | src/main/java/com/brinvex/ecb/internal/EcbFetchServiceImpl.java:125-146 | the computation fails exactly when the response of some month kept fails |
| Inflation.ResponsesOkWhenComplete | src/main/java/com/brinvex/ecb/internal/EcbFetchServiceImpl.java:125-146 | with finite non-zero values and every needed baseline present, the computation succeeds |
| Inflation.ResponsesKeys | src/main/java/com/brinvex/ecb/internal/EcbFetchServiceImpl.java:125-146 | every month reported is a month of the parsed series and not before the start |
| Inflation.Responses | src/main/java/com/brinvex/ecb/internal/EcbFetchServiceImpl.java:123-147 | the computed series, or the exception of the first month kept that fails; `ResponsesShape`, `ResponsesFail` and `ResponsesOkWhenComplete` state both cases |
| Inflation.BaselineUsable | src/main/java/com/brinvex/ecb/internal/EcbFetchServiceImpl.java:134-135 | in a series of finite non-zero values, every month present is a usable baseline |
| Inflation.Growth | src/main/java/com/brinvex/ecb/internal/EcbFetchServiceImpl.java:134-135 | `get` of the baseline and the division give the growth factor of the series |
| Inflation.Entry | src/main/java/com/brinvex/ecb/internal/EcbFetchServiceImpl.java:130-145 | the loop body gives the response of the month |
| Inflation.PutResponse | src/main/java/com/brinvex/ecb/internal/EcbFetchServiceImpl.java:130-145 | a month kept either adds its response to the results or ends the computation with its exception |
| Inflation.RespondTo | src/main/java/com/brinvex/ecb/internal/EcbFetchServiceImpl.java:125-146 | one turn of the loop: a month before the start is skipped; any other adds its response or ends the computation with its exception |
| Inflation.ComputeInflation | src/main/java/com/brinvex/ecb/internal/EcbFetchServiceImpl.java:123-147 | the loop fails exactly when the computation does, with its exception; otherwise a new map holds the computed series |
| EcbFetch.PeriodQueryRoundTrip | src/main/java/com/brinvex/ecb/internal/EcbFetchServiceImpl.java:68-69 | the query carries the window: its two dates can be read back from fixed places |
| EcbFetch.PeriodQuery | src/main/java/com/brinvex/ecb/internal/EcbFetchServiceImpl.java:68-69 | the query string `startPeriod=…&endPeriod=…&detail=dataonly` with both window dates as `toString` writes them |
| EcbFetch.QueryUrl | src/main/java/com/brinvex/ecb/internal/EcbFetchServiceImpl.java:82-83 | the base URL, the series path and the query string |
| EcbFetch.CheckStatus | src/main/java/com/brinvex/ecb/internal/EcbFetchServiceImpl.java:153-160 | the body is returned exactly for a status from 200 to 299; other statuses and transport failures raise an error |
| EcbFetch.FetchedIsMap | src/main/java/com/brinvex/ecb/internal/EcbFetchServiceImpl.java:164-173 | a fetched series holds each date once, in order of first observation, with the value of its last observation |
| EcbFetch.Fetched | src/main/java/com/brinvex/ecb/internal/EcbFetchServiceImpl.java:150-173 | the series a reply gives: the status check, then the parse into a new map, each with its exception |
| EcbFetch.EndOrToday | src/main/java/com/brinvex/ecb/internal/EcbFetchServiceImpl.java:66 | the end day asked for, or today when none is given |
| EcbFetch.FxQuery | src/main/java/com/brinvex/ecb/internal/EcbFetchServiceImpl.java:61-69 | an FX request is accepted exactly when the currency is present and not EUR and the start is present; the checks fail in that order, with their messages; the URL asks for the currency's series from the start to the end given, or today |
| EcbFetch.DepositFacilityRateQuery | src/main/java/com/brinvex/ecb/internal/EcbFetchServiceImpl.java:79-83 | a deposit-rate request is accepted exactly when its start is present; the URL asks for the rate from the start to the end given, or today |
| EcbFetch.HicpQuery | src/main/java/com/brinvex/ecb/internal/EcbFetchServiceImpl.java:97-117 | an HICP request is accepted exactly when its start and both growth options are present |
| EcbFetch.HicpWindow | src/main/java/com/brinvex/ecb/internal/EcbFetchServiceImpl.java:97-117 | the start moves to day 1 of its month; the options are read as asked; the URL asks from the first of the month 12, 1 or 0 months before the start to the last day of the end month (today's month without an end); that window reaches every baseline a reported month needs |
| EcbFetch.HicpKeys | src/main/java/com/brinvex/ecb/internal/EcbFetchServiceImpl.java:121-146 | every month of a computed HICP series is a first of the month, not before the start |
| EcbFetch.HttpClient.DoGet | src/main/java/com/brinvex/ecb/api/HttpClientFacade.java:33 | a GET records its URL and returns the server's reply to it |
| EcbFetch.HttpClient.constructor | src/main/java/com/brinvex/ecb/api/HttpClientFacade.java:33 | a client answers with its server and has made no request yet |
| EcbFetch.EcbFetchService.constructor | src/main/java/com/brinvex/ecb/internal/EcbFetchServiceImpl.java:55-57 | the service uses the client it is given |
| EcbFetch.EcbFetchService.FetchRaw | src/main/java/com/brinvex/ecb/internal/EcbFetchServiceImpl.java:150-162 | one request for the URL; the body exactly for a 2xx reply |
| EcbFetch.EcbFetchService.FetchSeries | src/main/java/com/brinvex/ecb/internal/EcbFetchServiceImpl.java:71-73 | one request; the result is the parsed map of the reply or its exception |
| EcbFetch.EcbFetchService.FetchFx | src/main/java/com/brinvex/ecb/internal/EcbFetchServiceImpl.java:60-75 | an invalid request fails before any request is made; a valid one makes exactly one request, for its query URL, and returns the parsed daily series |
| EcbFetch.EcbFetchService.FetchDepositFacilityRate | src/main/java/com/brinvex/ecb/internal/EcbFetchServiceImpl.java:78-93 | no request without a start; otherwise one request, a null handling option failing only after the parse, and the merged or unchanged series |
| EcbFetch.EcbFetchService.FetchHicp | src/main/java/com/brinvex/ecb/internal/EcbFetchServiceImpl.java:96-148 | no request for an incomplete request; otherwise one request for the extended window, and the computed inflation series or the first exception |

## Left out

- Doubles.ParseDouble: numbers are exact rationals. Binary64 rounding, overflow to an infinity and the sign of zero are not modelled. So `Double::equals` in the merge does not tell `-0.0` from `0.0`, and `BigDecimal.valueOf` is the exact value of the text rather than that of the nearest double's shortest representation.
- Doubles.ParseDouble: hexadecimal floating-point text (`0x1.8p1`) is rejected, although `Double.valueOf` accepts it.
- `URI.create` is not modelled. A currency code with characters a URI refuses would fail there with an `IllegalArgumentException`; the model builds the URL text only.
- EcbFetch.CheckStatus: the `IOException` message, which quotes the response and the URL, is reduced to the status code.
- The request headers and the response charset are not modelled. Network I/O is reduced to the fixed function `server`.
- `LocalDate` is unbounded here. Java's year range of ±999,999,999 and the `DateTimeException` beyond it are not modelled.
- `Scanner` reads its input in buffered chunks. The model scans the whole content as one string, which is what `findAll` reports for a `String` source.
- `CollectionUtil.removeAdjacentDuplicates` is not part of this model. Its effect is modelled from its call site as one pass that removes, through the values' iterator, each value equal to the one before it.
- The scale of the `BigDecimal` index value in an `InflationResponse` is not kept, only its value.
- The `EcbFetchService` interface, its shared `INSTANCE`, and the lazy initialisation of the patterns are wiring and are not modelled.
- `LocalDate.now()` is not read: each fetch takes the day as the parameter `today`.
