# Deal windows and peak time, modelled in Dafny

This project models the core of the eatclub deals API: the time-of-day
parser and formatter, half-open time windows, the resolution of one deal's
effective window from its restaurant's hours, its own time fields and its
remaining quantity, the active-deal query, and the peak-time sweep.

The model works over an immutable snapshot of the restaurant feed: a
`seq<Option<Restaurant>>` in which any restaurant, deal list, deal or text
field may be null. A `LocalTime` at minute precision is a `Minute`
(0 to 1439). Every `IllegalArgumentException` the core raises becomes
`Failure(e)` of a `Result`. The error variants are told apart by the
exception's message.

Modules, one per source class, in dependency order:

- `Wrappers`: `Option` and `Result`.
- `Errors`: the exceptions the core raises.
- `TimeUtils` (`time_utils.dfy`): normalisation, the two accepted spellings, `isValidTime`, `parseTime(String)` and `parseTime(int)`.
- `TimeProperties` (`time_properties.dfy`): what the parser and formatter promise.
- `TimeWindows` (`time_window.dfy`): the window record, `isInWindow` and `windowIntersection`.
- `Domain`: the feed's `Restaurant` and `Deal` records.
- `DealUtils` (`deal_utils.dfy`): `safeTransInt`, `getActiveWindowOfDeal` and `isActiveDealContainsTime`.
  - The resolver is also stated independently as a decision table (`StartRule`, `EndRule`).
- `DealService` (`deal_service.dfy`): `queryActiveDealsByTime`, `toDealDto` and `setEmptyStringIfNull`.
- `PeakTimeService` (`peak_time_service.dfy`): `calculatePeakTime`.
  - The sweep is a method over a 1440-slot array with loop invariants.
  - Its partner is `Count`, the number of windows holding a minute, stated without any array.
- `Scenarios` (`scenarios.dfy`): the controller's test cases as lemmas, and two peak examples: one over hand-built windows and one over a snapshot with text times.

## Model

| member | source | states |
|---|---|---|
| TimeUtils.IsBlank | src/main/java/com/eatclub/api/util/TimeUtils.java:48 | micrometer's `isBlank`: null, or every character (none, for the empty text) is whitespace in the sense of `Character.isWhitespace` |
| TimeUtils.Normalize | src/main/java/com/eatclub/api/util/TimeUtils.java:53 | The text the validator matches: trimmed of characters up to U+0020 at both ends, ASCII letters lower-cased, every space removed |
| TimeUtils.Matches24H | src/main/java/com/eatclub/api/util/TimeUtils.java:18 | The 24-hour pattern: an hour of 0-23 with one or two digits, a colon, and a two-digit minute of 00-59 |
| TimeUtils.Matches12H | src/main/java/com/eatclub/api/util/TimeUtils.java:30 | The 12-hour pattern over lower-cased text: a clock hour of 1-12 with an optional leading zero, a colon, a two-digit minute, then `am` or `pm` |
| TimeUtils.IsValidTime | src/main/java/com/eatclub/api/util/TimeUtils.java:47-62 | Accepted exactly when the text is not blank and its normal form (trimmed, lower-cased, spaces removed) matches the 24-hour or the 12-hour pattern; the result is that normal form; blank input fails with the blank-time error |
| TimeUtils.ParseTime | src/main/java/com/eatclub/api/util/TimeUtils.java:69-78 | Succeeds exactly when validation does, and yields a minute of the day; blank input fails with the blank-time error |
| TimeUtils.Parse12H | src/main/java/com/eatclub/api/util/TimeUtils.java:74 | `h:mma` reading: clock hour 12 is hour 0 of its half day, and `pm` adds twelve hours |
| TimeUtils.Parse24H | src/main/java/com/eatclub/api/util/TimeUtils.java:76 | `H:mm` reading: hour times 60 plus minute |
| TimeUtils.FormatTime | src/main/java/com/eatclub/api/util/TimeUtils.java:85-92 | Succeeds exactly for 0..1439; anything else fails with the out-of-range error |
| TimeProperties.NormalizeIdempotent | src/main/java/com/eatclub/api/util/TimeUtils.java:53 | Normalising normalised text changes nothing |
| TimeProperties.ParseDependsOnlyOnNormalForm | src/main/java/com/eatclub/api/util/TimeUtils.java:53-77 | A text parses exactly as its normal form does, whenever that normal form is not blank |
| TimeProperties.AllWhitespaceMeaning | src/main/java/com/eatclub/api/util/TimeUtils.java:48 | A text is blank exactly when each of its characters is whitespace in the sense of `Character.isWhitespace` |
| TimeProperties.BlankStaysBlank | src/main/java/com/eatclub/api/util/TimeUtils.java:48-53 | Normalising a blank text leaves a blank text |
| TimeProperties.BlankRejected | src/main/java/com/eatclub/api/util/TimeUtils.java:48-50 | Null, empty and all-whitespace input fails with the blank-time error |
| TimeProperties.BlankNormalFormIsFormatError | src/main/java/com/eatclub/api/util/TimeUtils.java:48-60 | A text that is not blank but whose normal form is blank fails with the format error for that normal form, not with the blank-time error |
| TimeProperties.ControlCharacterIsFormatError | src/main/java/com/eatclub/api/util/TimeUtils.java:48-60 | The text U+0001 is not blank, yet `trim` removes it, so it fails with the format error for the empty text |
| TimeProperties.IdeographicSpaceIsBlank | src/main/java/com/eatclub/api/util/TimeUtils.java:48-50 | U+3000 survives `trim`, yet it is whitespace, so the text fails with the blank-time error |
| TimeProperties.Read24 | src/main/java/com/eatclub/api/util/TimeUtils.java:69-78 | Any 24-hour hour field (0-23, one or two digits) and minute field (00-59) parse to hour*60+minute |
| TimeProperties.Read12 | src/main/java/com/eatclub/api/util/TimeUtils.java:69-78 | Any 12-hour hour field (1-12, optional leading zero), minute field and am/pm parse to (hour mod 12)*60+minute, plus 720 for pm |
| TimeProperties.ParseTimeMeaning | src/main/java/com/eatclub/api/util/TimeUtils.java:69-78 | A parsed minute's hour and minute are the ones the text names; a 12-hour text gives a minute before noon exactly when it says am |
| TimeProperties.TwelveOClock | src/main/java/com/eatclub/api/util/TimeUtils.java:74 | `12:xxam` lands in 0..59 and `12:xxpm` in 720..779 |
| TimeProperties.SpellingsAgree | src/main/java/com/eatclub/api/util/TimeUtils.java:73-77 | The 12-hour and the 24-hour spelling of one instant parse to the same minute |
| TimeProperties.TwentyFourHourSpelling | src/main/java/com/eatclub/api/util/TimeUtils.java:69-78 | `HH:mm` parses to its minute for every hour and minute |
| TimeProperties.TwentyFourHourShortSpelling | src/main/java/com/eatclub/api/util/TimeUtils.java:69-78 | `H:mm` with a one-digit hour parses to the same minute |
| TimeProperties.TwelveHourSpelling | src/main/java/com/eatclub/api/util/TimeUtils.java:69-78 | `h:mmam`/`h:mmpm` parses to its minute for every instant of the day |
| TimeProperties.TwelveHourPaddedSpelling | src/main/java/com/eatclub/api/util/TimeUtils.java:69-78 | The 12-hour spelling with a leading zero on the hour parses to the same minute |
| TimeProperties.RejectsDigitsOnly | src/main/java/com/eatclub/api/util/TimeUtils.java:55-60 | `123456` is refused |
| TimeProperties.RejectsClockHourZero | src/main/java/com/eatclub/api/util/TimeUtils.java:47-60 | `0:30pm` is refused |
| TimeProperties.RejectsClockHourThirteen | src/main/java/com/eatclub/api/util/TimeUtils.java:47-60 | `13:00pm` is refused |
| TimeProperties.RejectsHourTwentyFour | src/main/java/com/eatclub/api/util/TimeUtils.java:47-60 | `24:00` is refused |
| TimeProperties.RejectsMinuteSixty | src/main/java/com/eatclub/api/util/TimeUtils.java:47-60 | `12:60` is refused |
| TimeProperties.FormatRejectsOutOfRange | src/main/java/com/eatclub/api/util/TimeUtils.java:86-88 | A negative minute or one past 1439 fails with the out-of-range error |
| TimeProperties.FormatTimeShape | src/main/java/com/eatclub/api/util/TimeUtils.java:89-91 | The output is a lower-case 12-hour text with no leading zero; it says pm exactly from noon on, and shows hour 12 exactly for minutes 0..59 and 720..779 |
| TimeProperties.FormatParseRoundTrip | src/main/java/com/eatclub/api/util/TimeUtils.java:69-92 | Every minute of the day formats to a text that passes validation and parses back to that minute |
| TimeProperties.ParseFormatRoundTrip | src/main/java/com/eatclub/api/util/TimeUtils.java:69-92 | A canonical 12-hour text parses to a minute that formats back to the same text |
| TimeWindows.NewWindow | src/main/java/com/eatclub/api/util/TimeWindow.java:16-23 | A window exists exactly when both bounds are present and start is before end; a missing bound and a reversed or empty range fail with their own errors |
| TimeWindows.IsInWindow | src/main/java/com/eatclub/api/util/TimeWindow.java:30-36 | Membership in `[start, end)`; a null time is in no window |
| TimeWindows.BoundaryRule | src/main/java/com/eatclub/api/util/TimeWindow.java:30-36 | The start minute is in the window, the end minute is not, and a null time is in no window |
| TimeWindows.Intersection | src/main/java/com/eatclub/api/util/TimeWindow.java:45-59 | A result exists only when both inputs do, and it lies inside each of them |
| TimeWindows.IntersectionPoints | src/main/java/com/eatclub/api/util/TimeWindow.java:45-59 | A minute is in the intersection exactly when it is in both windows |
| TimeWindows.IntersectionUnique | src/main/java/com/eatclub/api/util/TimeWindow.java:50-55 | Any window whose minutes are exactly those common to both inputs is the intersection |
| TimeWindows.NoCommonMinuteNoIntersection | src/main/java/com/eatclub/api/util/TimeWindow.java:54-58 | Windows that share no minute have no intersection |
| TimeWindows.IntersectionCommutes | src/main/java/com/eatclub/api/util/TimeWindow.java:50-51 | The intersection does not depend on argument order |
| TimeWindows.TouchingWindowsDoNotIntersect | src/main/java/com/eatclub/api/util/TimeWindow.java:54-58 | A window ending where the other starts gives no intersection |
| TimeWindows.IntersectionWithAbsent | src/main/java/com/eatclub/api/util/TimeWindow.java:46-48 | A null argument gives no intersection |
| TimeWindows.IntersectionIdempotent | src/main/java/com/eatclub/api/util/TimeWindow.java:50-55 | A window intersected with itself is itself |
| DealUtils.ParseInt | src/main/java/com/eatclub/api/util/DealUtils.java:93 | A parsed value always lies in the 32-bit range |
| DealUtils.SafeTransInt | src/main/java/com/eatclub/api/util/DealUtils.java:91-98 | The result is a 32-bit value: the parsed value whenever `Integer.parseInt` succeeds, and 0 whenever it throws |
| DealUtils.ParseIntRoundTrip | src/main/java/com/eatclub/api/util/DealUtils.java:91-98 | Every 32-bit integer, printed in decimal, reads back as itself |
| DealUtils.OutOfRangeIsZero | src/main/java/com/eatclub/api/util/DealUtils.java:91-98 | A numeral above the 32-bit maximum does not parse and counts as 0 |
| DealUtils.BelowRangeIsZero | src/main/java/com/eatclub/api/util/DealUtils.java:91-98 | A negative numeral below the 32-bit minimum does not parse and counts as 0 |
| DealUtils.NonNumericIsZero | src/main/java/com/eatclub/api/util/DealUtils.java:91-98 | Null text, empty text, a bare sign, and text with a non-digit anywhere after an optional leading sign do not parse and count as 0 |
| DealUtils.OptionalTime | src/main/java/com/eatclub/api/util/DealUtils.java:41-42 | A blank deal time counts as absent; a non-blank one must parse, or the resolution fails |
| DealUtils.LaterOf | src/main/java/com/eatclub/api/util/DealUtils.java:43-52 | The deal start is one of the given start times, or the restaurant's opening time when none is given, and is no earlier than any of them |
| DealUtils.EarlierOf | src/main/java/com/eatclub/api/util/DealUtils.java:60-69 | The deal end is one of the given end times, or the restaurant's closing time when none is given, and is no later than any of them |
| DealUtils.ActiveWindowOfDeal | src/main/java/com/eatclub/api/util/DealUtils.java:31-84 | Success needs valid restaurant hours and parseable deal times; a returned window needs a positive quantity and lies inside the restaurant's hours |
| DealUtils.IsActiveDealContainsTime | src/main/java/com/eatclub/api/util/DealUtils.java:19-24 | Fails exactly when resolution fails; otherwise true exactly when the resolved window exists and holds the time |
| DealUtils.ResolvedBounds | src/main/java/com/eatclub/api/util/DealUtils.java:41-69 | The resolver's start and end are those of the decision table: later of open/start, earlier of close/end, the restaurant's hours as fallback |
| DealUtils.ActiveWindowSucceeds | src/main/java/com/eatclub/api/util/DealUtils.java:33-72 | Resolution succeeds exactly when the restaurant's hours are valid, every non-blank deal time parses, and the decision table's start is before its end |
| DealUtils.EmptyDealWindowIsError | src/main/java/com/eatclub/api/util/DealUtils.java:72-83 | A deal whose own start is not before its end fails with the start-not-before-end error, sold out or not |
| DealUtils.MalformedDealTimeIsError | src/main/java/com/eatclub/api/util/DealUtils.java:41 | A non-blank deal open time that does not parse is an error, not "inactive" |
| DealUtils.ActiveWindowMinutes | src/main/java/com/eatclub/api/util/DealUtils.java:31-84 | A minute is in the resolved window exactly when the quantity is positive, the minute is within the restaurant's hours, and it is within the decision table's deal bounds |
| DealUtils.SoldOutIsInactive | src/main/java/com/eatclub/api/util/DealUtils.java:79-83 | A quantity of at most 0, or one that does not parse, never gives a window |
| DealUtils.NoDealTimesGivesRestaurantHours | src/main/java/com/eatclub/api/util/DealUtils.java:31-84 | A deal with stock and no time fields is active for exactly the restaurant's hours |
| DealUtils.ContainsTimeMeaning | src/main/java/com/eatclub/api/util/DealUtils.java:19-24 | `isActiveDealContainsTime` in terms of the inputs alone: stock, restaurant hours and deal bounds |
| DealService.EmptyIfAbsent | src/main/java/com/eatclub/api/service/impl/DealServiceImpl.java:85-87 | A present text is kept and a null one becomes empty |
| DealService.ToDealRecord | src/main/java/com/eatclub/api/service/impl/DealServiceImpl.java:66-80 | Each of the eleven output fields is the matching restaurant or deal field, or empty when that is null |
| DealService.RecordKeepsPresentFields | src/main/java/com/eatclub/api/service/impl/DealServiceImpl.java:66-87 | For each of the eleven fields, a present feed text is copied exactly into the record and a null one becomes empty text |
| DealService.DealPairs | src/main/java/com/eatclub/api/service/impl/DealServiceImpl.java:50-52 | The non-null deals of one restaurant's list, in list order, each paired with that restaurant; never more pairs than list entries |
| DealService.Pairs | src/main/java/com/eatclub/api/service/impl/DealServiceImpl.java:46-52 | The pairs the nested loops visit: null restaurants and null deal lists skipped, restaurant by restaurant and deal by deal |
| DealService.PairsWithinSlots | src/main/java/com/eatclub/api/service/impl/DealServiceImpl.java:46-52 | No more pairs are visited than there are deal slots |
| DealService.DealPairsAppend | src/main/java/com/eatclub/api/service/impl/DealServiceImpl.java:50-52 | A restaurant's deals are visited in list order |
| DealService.DealPairsSingle | src/main/java/com/eatclub/api/service/impl/DealServiceImpl.java:51-52 | A null deal contributes nothing; a present one contributes its own pair |
| DealService.PairsAppend | src/main/java/com/eatclub/api/service/impl/DealServiceImpl.java:46-47 | Restaurants are visited in snapshot order |
| DealService.PairsSingle | src/main/java/com/eatclub/api/service/impl/DealServiceImpl.java:47 | Null restaurants and restaurants without a deal list contribute no pair |
| DealService.DealPairsMembership | src/main/java/com/eatclub/api/service/impl/DealServiceImpl.java:50-52 | A deal is visited exactly when it is a non-null entry of its restaurant's list |
| DealService.PairsMembership | src/main/java/com/eatclub/api/service/impl/DealServiceImpl.java:46-52 | A pair is visited exactly when its restaurant is in the snapshot, has a deal list, and its deal is a non-null entry of that list |
| DealService.VerdictMeaning | src/main/java/com/eatclub/api/service/impl/DealServiceImpl.java:55 | The per-deal check fails exactly when resolution fails, with the same error, and is true exactly when the deal is active at the minute |
| DealService.Keep | src/main/java/com/eatclub/api/service/impl/DealServiceImpl.java:50-59 | The scan succeeds exactly when every check does, keeps at most all items, and otherwise fails with the first error |
| DealService.TrueIndices | src/main/java/com/eatclub/api/service/impl/DealServiceImpl.java:55-58 | The positions of the true checks, increasing, and no others |
| DealService.KeepSelects | src/main/java/com/eatclub/api/service/impl/DealServiceImpl.java:55-58 | A successful scan keeps exactly the items whose check is true, in their original order |
| DealService.KeepAppend | src/main/java/com/eatclub/api/service/impl/DealServiceImpl.java:46-60 | Scanning two runs is scanning the first and then the second |
| DealService.QueryActiveDeals | src/main/java/com/eatclub/api/service/impl/DealServiceImpl.java:36-64 | A time that does not parse fails the query with the parse error; a result never holds more records than there are deal slots |
| DealService.MalformedTimeFailsQuery | src/main/java/com/eatclub/api/service/impl/DealServiceImpl.java:39-42 | A malformed time fails the query, with the same outcome whatever the snapshot |
| DealService.AllNullNoPairs | src/main/java/com/eatclub/api/service/impl/DealServiceImpl.java:47 | A snapshot of null entries has no pair |
| DealService.NoRestaurantsNoDeals | src/main/java/com/eatclub/api/service/impl/DealServiceImpl.java:46-47 | An empty or all-null snapshot gives an empty list |
| DealService.FilterActive | src/main/java/com/eatclub/api/service/impl/DealServiceImpl.java:50-59 | The scan fails exactly when some pair's check fails, and never lists more records than there are pairs |
| DealService.FilterFails | src/main/java/com/eatclub/api/service/impl/DealServiceImpl.java:50-59 | The scan succeeds exactly when every pair resolves; otherwise it fails with the error of the first pair that does not |
| DealService.FilterMeaning | src/main/java/com/eatclub/api/service/impl/DealServiceImpl.java:46-60 | When every pair's deal window resolves, the scan succeeds and lists the record of every active pair once, in pair order, and nothing else |
| DealService.ActiveIndices | src/main/java/com/eatclub/api/service/impl/DealServiceImpl.java:55 | The kept positions are exactly those of the pairs active at the minute |
| DealService.QueryScansPairs | src/main/java/com/eatclub/api/service/impl/DealServiceImpl.java:36-60 | Once the time parses, the query is the scan of the snapshot's pairs at that minute |
| DealService.QueryFailsOnAnyBadDeal | src/main/java/com/eatclub/api/service/impl/DealServiceImpl.java:55 | The query succeeds exactly when every visited deal resolves; one bad deal fails it and no partial list is returned |
| DealService.QueryMeaning | src/main/java/com/eatclub/api/service/impl/DealServiceImpl.java:36-64 | When the time parses and every deal's window resolves, the query succeeds and lists exactly the deals active at that time, restaurant by restaurant and deal by deal |
| PeakTimeService.CollectWindows | src/main/java/com/eatclub/api/service/impl/PeakTimeServiceImpl.java:36-55 | Collection succeeds exactly when every pair resolves, keeps at most one window per pair, and otherwise fails with the first error |
| PeakTimeService.ActiveWindows | src/main/java/com/eatclub/api/service/impl/PeakTimeServiceImpl.java:36-55 | Collecting the pairs' windows succeeds exactly when every pair's deal window resolves, with at most one window per pair |
| PeakTimeService.CollectMembership | src/main/java/com/eatclub/api/service/impl/PeakTimeServiceImpl.java:45-48 | The collected windows are exactly the windows the pairs resolve to |
| PeakTimeService.CollectEmpty | src/main/java/com/eatclub/api/service/impl/PeakTimeServiceImpl.java:48 | Nothing is collected exactly when every pair resolves to "inactive" |
| PeakTimeService.CountStep | src/main/java/com/eatclub/api/service/impl/PeakTimeServiceImpl.java:50-68 | The count at a minute is the count at the minute before, plus the windows opening there, less those closing there |
| PeakTimeService.CountBeforeMidnight | src/main/java/com/eatclub/api/service/impl/PeakTimeServiceImpl.java:58 | The running count starts at 0 |
| PeakTimeService.CountAtLastMinute | src/main/java/com/eatclub/api/service/impl/PeakTimeServiceImpl.java:50-53 | No window holds 23:59, because a window's end is itself a minute of the day |
| PeakTimeService.CountAtStart | src/main/java/com/eatclub/api/service/impl/PeakTimeServiceImpl.java:52 | Every window holds its own start minute |
| PeakTimeService.CountIsCardinality | src/main/java/com/eatclub/api/service/impl/PeakTimeServiceImpl.java:63-68 | The count is the number of windows with start <= minute < end |
| PeakTimeService.PeakRunUnique | src/main/java/com/eatclub/api/service/impl/PeakTimeServiceImpl.java:75-87 | There is at most one first run at the maximum |
| PeakTimeService.BuildDelta | src/main/java/com/eatclub/api/service/impl/PeakTimeServiceImpl.java:33-55 | Every index written is in the 1440-slot array, and each slot ends as the windows opening there less those closing there |
| PeakTimeService.MaxCount | src/main/java/com/eatclub/api/service/impl/PeakTimeServiceImpl.java:58-68 | The maximum is at least every per-minute count, equals one of them unless it is 0, and is never negative |
| PeakTimeService.FirstPeakRun | src/main/java/com/eatclub/api/service/impl/PeakTimeServiceImpl.java:74-87 | The start is the first minute at the maximum; the end is the first later minute whose count differs; the count is the maximum in between and the run ends before 23:59 |
| PeakTimeService.PeakMinutes | src/main/java/com/eatclub/api/service/impl/PeakTimeServiceImpl.java:33-87 | The sweep finds a peak exactly when some window exists; the peak is then the first run at the largest count; otherwise both bounds stay -1 |
| PeakTimeService.CalculatePeakTime | src/main/java/com/eatclub/api/service/impl/PeakTimeServiceImpl.java:29-91 | Fails exactly when some pair fails to resolve, with its error; the response is empty exactly when no pair is active; otherwise it labels the first peak run |
| PeakTimeService.KeepCountsWindows | src/main/java/com/eatclub/api/service/impl/PeakTimeServiceImpl.java:45-53 | For any list of items checked against the same resolved windows, the kept items number as many as the collected windows holding the minute |
| PeakTimeService.CountMatchesQuery | src/main/java/com/eatclub/api/service/impl/PeakTimeServiceImpl.java:45-53 | When every deal's window resolves, both the sweep's windows and the scan succeed, and at every minute the scan lists as many deals as there are windows holding that minute |
| Scenarios.DealListedInsideItsWindow | src/test/java/com/eatclub/api/controller/DealControllerTest.java:68-113 | An 11:00am-2:00pm deal with five left, at a 10:00am-10:00pm restaurant, is listed at 12:00pm with every field copied |
| Scenarios.DealNotListedOutsideItsWindow | src/test/java/com/eatclub/api/controller/DealControllerTest.java:115-149 | The same kind of deal is not listed at 18:00 |
| Scenarios.EmptyFeedListsNothing | src/test/java/com/eatclub/api/controller/DealControllerTest.java:151-160 | No restaurants give an empty list |
| Scenarios.SoldOutDealNotListed | src/test/java/com/eatclub/api/controller/DealControllerTest.java:162-193 | A deal with quantity "0" is not listed inside its hours |
| Scenarios.MalformedTimeIsAnError | src/test/java/com/eatclub/api/controller/DealControllerTest.java:195-205 | The query for `123456` fails |
| Scenarios.QueryOfOneDeal | src/main/java/com/eatclub/api/service/impl/DealServiceImpl.java:36-64 | With one restaurant and one deal, the deal is listed exactly when it has stock and the time is within both the restaurant's and the deal's hours |
| Scenarios.OverlappingDealsPeak | src/main/java/com/eatclub/api/service/impl/PeakTimeServiceImpl.java:57-87 | Windows 10:00am-3:00pm and 12:00pm-2:00pm give the peak 12:00pm to 2:00pm |
| Scenarios.TwoDealsPeak | src/main/java/com/eatclub/api/service/impl/PeakTimeServiceImpl.java:29-91 | A restaurant open 10:00am to 10:00pm with deals running 11:00am to 1:00pm and 12:00pm to 3:00pm has the peak "12:00pm" to "1:00pm" |

## Left out

- Fetching the feed is not modelled: the HTTP call, JSON decoding, the scheduled refresh and the atomic snapshot swap are I/O and concurrency. The snapshot is an input.
- The Spring controllers and the mapping of exceptions to HTTP responses are framework code. Errors stop at the `Result`.
- The response holders (`DealResponse`, `PeakTimeResponse`, `DealDto`) are plain datatypes here. Logging and application bootstrap are left out.
- `java.time` internals are not modelled. A `LocalTime` is a minute of the day, and the two formatters are replaced by explicit field readers and a printer.
- The two regular expressions are replaced by explicit ASCII character predicates.
- TimeUtils.Normalize: `toLowerCase` is ASCII-only here. The JVM's locale-dependent lower-casing of other letters is not modelled. No such letter lowers to a digit, `:`, `a`, `m` or `p`, so which texts are accepted is unaffected.
- TimeUtils.IsBlank: micrometer's `StringUtils.isBlank` is not part of this model. It is taken to be "null, or every character is `Character.isWhitespace`", with the whitespace set of Java 9 and later (U+180E is not whitespace there). This differs from trimming to nothing. A deal time field made of a control character such as U+0001 is therefore present, fails to parse, and fails the whole query and peak computation. A field made of U+3000 counts as absent.
- DealUtils.ParseInt: `Integer.parseInt` also accepts non-ASCII Unicode digits. Only ASCII digits are modelled.
- PeakTimeService.BuildDelta: the `int` slots and running sums are unbounded integers here. Java's 32-bit overflow is not modelled, because it needs more than 2^31 deals.
- PeakTimeService.CalculatePeakTime: the source resolves each deal and writes the change array in one loop. The model resolves every deal first and then sweeps. Either way the first resolution error ends the call and no response is produced, so the outcomes agree.
- DealService.QueryActiveDeals: the source checks each deal and adds its record in one loop. The model computes each deal's verdict and record and then keeps the records whose verdict is true. The first error ends the call either way.
- A restaurant or deal closing at `12:00am` parses to minute 0. That gives an empty or reversed window, which fails with the start-not-before-end error. It is not read as midnight at the end of the day. The model keeps this behaviour.
