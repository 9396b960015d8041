# Safety-training console: a verified model

The console schedules safety-training events, tracks which employees are
enrolled in and have completed each event, and imports the employee roster
from a spreadsheet. This project models its computational core in Dafny and
proves what the pages and the client library promise:

- **Progress** (`progress.dfy`, the schedule viewer page): the fold that
  counts, per employee, enrolments and completions over every event
  (`BuildGlobalProgress`, an imperative loop over a counter table filled by
  create-if-absent updates), the overall and per-employee average
  percentages, an event's detail view (directory join with placeholder
  records, the in-progress/completed split, the event's percentage), one
  employee's progress, the title/location search, and the mock event lookup.
- **Schedule** (`schedule.dfy`, the education schedule page): `daysInMonth`
  through the ECMAScript day arithmetic of `new Date(y, m, 0)`, proved equal
  to the Gregorian month lengths; `clamp`; the year, month and day option
  lists; the wheel snap index; the date picker as a class whose year, month
  and day change step by step with the day re-clamp; and the event list as a
  class with save (blank titles refused) and delete by id.
- **Roster** (`roster.dfy`, the spreadsheet uploader): header alias
  normalisation, the column index, the missing-column check, blank-row
  dropping, per-field trimming, and the validation loop with its email and
  phone checks; the email check is proved to accept exactly the texts its
  regular expression matches.
- **Api** (`api.dfy`, the client library): the payload `createEvent` posts,
  proved to agree with the event the calendar saves locally; the period
  query's parameters; and the "a field that is not an array reads as `[]`"
  rule of the list readers.
- **Common** (`common.dfy`): JavaScript `trim` and its whitespace set,
  `includes`, `filter`, `Object.fromEntries` over positions, `Math.round`
  on exact values, and the percentage formula shared by the pages.

Percentages are computed on exact rationals and rounded half up, as
`Math.round` does. A problem's line number is the row's position among the
non-blank rows plus 2, as the uploader computes it, so it differs from the
sheet line when blank rows come first. Strings are sequences of characters; the empty string
stands for a value the source only tests for truthiness (`undefined`, `""`).

## Model

| member | source | states |
|---|---|---|
| Common.Trim | expoTest/src/components/ExcelUploader.jsx:29 | `trim` gives the empty text exactly for an all-whitespace input, never starts or ends with whitespace, and is the input less only leading and trailing whitespace |
| Common.ContainsAt | expoTest/src/pages/ScheduleViewer.jsx:88 | `includes` holds exactly when the query occurs at some position of the text |
| Common.LastIndex | expoTest/src/components/ExcelUploader.jsx:30 | the column index has exactly the normalised names as keys, each mapped to a position holding that name, and for a repeated name the last position wins |
| Common.Round | expoTest/src/pages/ScheduleViewer.jsx:60 | `Math.round` yields the integer within half of the value, halves rounded up |
| Common.Percent | expoTest/src/pages/ScheduleViewer.jsx:98 | the rounded percentage is within 0..100 when the part is at most the whole, 0 for a zero part and 100 for the whole |
| Progress.FindEvent | expoTest/src/pages/ScheduleViewer.jsx:33 | the lookup finds nothing exactly when no event has the id, and otherwise returns the first listed event with that id |
| Progress.MockEventDetail | expoTest/src/pages/ScheduleViewer.jsx:33 | the mock detail fails with "not found" exactly for an unknown id; otherwise it carries that event and its membership lists, or two empty lists when the event has none |
| Progress.Values | expoTest/src/pages/ScheduleViewer.jsx:58 | `Object.values` of the table lists one counter per key, the counter stored under that key, in key order |
| Progress.RatioSum | expoTest/src/pages/ScheduleViewer.jsx:58-59 | the sum of completion ratios is non-negative and at most the number of employees when no one completed more than they enrolled |
| Progress.AvgPercent | expoTest/src/pages/ScheduleViewer.jsx:58-59 | the average is 0 when no employee has an enrolment, never negative, and at most 100 when every employee's completions are within their enrolments |
| Progress.OverallPercent | expoTest/src/pages/ScheduleViewer.jsx:60 | the overall rate is 0 with no assignments, never negative, at most 100 when completions are within assignments, and 100 when all assignments are completed |
| Progress.KeysStep | expoTest/src/pages/ScheduleViewer.jsx:55-56 | one create-if-absent update keeps the table's keys equal to the ids met so far, in first-seen order |
| Progress.CountsStep | expoTest/src/pages/ScheduleViewer.jsx:55-56 | one update keeps every counter equal to the number of occurrences of its id among the enrolments and completions met so far |
| Progress.MeetAllKeys | expoTest/src/pages/ScheduleViewer.jsx:55-56 | a whole `forEach` over an id list keeps the keys in first-seen order of all ids met |
| Progress.MeetAllCounts | expoTest/src/pages/ScheduleViewer.jsx:55-56 | a whole `forEach` over an id list keeps the counters equal to occurrence counts, for the role it bumps |
| Progress.Tally | expoTest/src/pages/ScheduleViewer.jsx:55-56 | the `forEach` loop produces the table its specification function describes |
| Progress.BuildGlobalProgress | expoTest/src/pages/ScheduleViewer.jsx:48-62 | the table has a key exactly for every id in any list, in first-seen order, each counter equals the id's occurrences among enrolments and completions, the totals are the list lengths summed, the counters sum to the totals, and both percentages are the formulas applied to the result |
| Progress.StreamLengths | expoTest/src/pages/ScheduleViewer.jsx:53-54 | the totals equal the summed lengths of the enrolled and completed lists, a missing list counting as empty and duplicates counting separately |
| Progress.CountersSumToTotals | expoTest/src/pages/ScheduleViewer.jsx:51-57 | the per-employee enrolled counters sum to the assigned total and the completed counters to the completed total |
| Progress.CompletionOnlyTolerated | expoTest/src/pages/ScheduleViewer.jsx:56 | an id that appears only in completed lists gets a counter with zero enrolments and a positive completion count |
| Progress.ConsistentCounters | expoTest/src/pages/ScheduleViewer.jsx:51-57 | when each event's completed list is a sub-multiset of its enrolled list, so is the whole, every employee's completions are within their enrolments, and the completed total is within the assigned total |
| Progress.ConsistentPercentsInRange | expoTest/src/pages/ScheduleViewer.jsx:58-60 | for consistent events both summary percentages lie in 0..100 |
| Progress.AvgOverQualifyingOnly | expoTest/src/pages/ScheduleViewer.jsx:58 | the average depends only on employees with at least one enrolment |
| Progress.AvgIgnoresUnenrolled | expoTest/src/pages/ScheduleViewer.jsx:58 | adding an employee with no enrolments leaves the average unchanged |
| Progress.TwoEventsOneEmployee | expoTest/src/pages/ScheduleViewer.jsx:51-57 | an employee enrolled in two events and done with one is counted 2 enrolled, 1 completed, and the totals are 2 and 1 |
| Progress.HalfDoneIsFifty | expoTest/src/pages/ScheduleViewer.jsx:59-60 | one completion out of two assignments gives 50 for both the overall rate and the average |
| Progress.PersonProgressOf | expoTest/src/pages/ScheduleViewer.jsx:102-106 | an absent employee reads as zero enrolled, zero completed, 0 percent; otherwise the counters are copied and the percentage is 0 without enrolments and the rounded ratio with them |
| Progress.PersonProgressCounts | expoTest/src/pages/ScheduleViewer.jsx:102-103 | on the fold's table, an employee's progress counts equal their occurrences in all enrolled and completed lists, present or not |
| Progress.Directory | expoTest/src/pages/ScheduleViewer.jsx:93 | the directory has exactly the employees' numbers as keys, each mapped to an employee with that number, the last one listed when a number repeats |
| Progress.ResolvedIds | expoTest/src/pages/ScheduleViewer.jsx:95-96 | resolving a list of ids against the directory yields records with exactly those ids, in the same order and number |
| Progress.DetailView | expoTest/src/pages/ScheduleViewer.jsx:91-92 | there is no view exactly while no detail has arrived; once one has, the view is the detail view of that detail, carrying its raw id lists |
| Progress.ViewOf | expoTest/src/pages/ScheduleViewer.jsx:91-100 | the enrolled and completed records are the id lists resolved in order against the directory (an employee record, or the placeholder with name "-" for an unknown id), a record is in progress exactly when it is enrolled and its id is not among the completed ids, and the progress is 0 for no enrolment and the rounded ratio otherwise |
| Progress.ResolveAgainstDirectory | expoTest/src/pages/ScheduleViewer.jsx:95-96 | an id missing from the directory becomes the placeholder record with that id, name "-" and no department; a known id becomes a listed employee |
| Progress.FilterResolved | expoTest/src/pages/ScheduleViewer.jsx:97 | filtering resolved records by "not completed" equals resolving the ids that are not completed |
| Progress.InProgressByRawId | expoTest/src/pages/ScheduleViewer.jsx:97 | the in-progress list is the order-preserving subsequence of enrolled ids not among the completed ids, resolved |
| Progress.InProgressPartition | expoTest/src/pages/ScheduleViewer.jsx:97 | no id is both in progress and completed, and when every completed id is enrolled the two lists together cover exactly the enrolled ids |
| Progress.OneEventHalfDone | expoTest/src/pages/ScheduleViewer.jsx:93-99 | two enrolled, one completed, with an empty directory: progress 50, the other employee in progress and the first completed, both as placeholder records |
| Progress.Search | expoTest/src/pages/ScheduleViewer.jsx:86-89 | a blank query returns the list unchanged; otherwise an event is kept exactly when its title or location contains the trimmed query |
| Progress.SearchKeepsOrder | expoTest/src/pages/ScheduleViewer.jsx:88 | searching a concatenation searches each part, so the kept events stay in list order |
| Schedule.YearLength | expoTest/src/pages/EducationSchedule.jsx:12 | in the ECMAScript day count a year is 366 days exactly when it is a Gregorian leap year, else 365 |
| Schedule.MonthStartsApart | expoTest/src/pages/EducationSchedule.jsx:12 | the first days of consecutive months are the earlier month's Gregorian length apart, across year boundaries too |
| Schedule.DaysInMonth | expoTest/src/pages/EducationSchedule.jsx:11-13 | day 0 of the next month is the Gregorian length of the month asked for, with month overflow carried into the year, and lies in 28..31 |
| Schedule.DaysInMonthGregorian | expoTest/src/pages/EducationSchedule.jsx:11-13 | for months 1 to 12: 31 or 30 days by month, and February has 29 days exactly in leap years and 28 otherwise |
| Schedule.Clamp | expoTest/src/pages/EducationSchedule.jsx:14-16 | the result lies in the range when the range is non-empty, is the input when already in range, and is the nearer bound otherwise |
| Schedule.Range | expoTest/src/pages/EducationSchedule.jsx:43 | the list has the requested length (none for a negative length) and holds consecutive integers from the start |
| Schedule.RangeHolds | expoTest/src/pages/EducationSchedule.jsx:42-50 | a range holds exactly the integers in its span, strictly ascending |
| Schedule.OptionLists | expoTest/src/pages/EducationSchedule.jsx:42-50 | the years list is minYear..maxYear, the months list is 1..12, and the days list is 1..daysInMonth of the chosen year and month |
| Schedule.SnapIndex | expoTest/src/pages/EducationSchedule.jsx:71 | the snapped index is a valid position in any non-empty list |
| Schedule.SnapFindsRow | expoTest/src/pages/EducationSchedule.jsx:68-73 | a wheel scrolled less than half a row from a row's offset snaps to that row |
| Schedule.ReclampDay | expoTest/src/pages/EducationSchedule.jsx:62-66 | a day past the month's end becomes the last day and any other day is kept |
| Schedule.DatePicker.constructor | expoTest/src/pages/EducationSchedule.jsx:34-36 | the initial year is clamped into the range, the month is kept, and the day is re-clamped into that month, giving a valid date |
| Schedule.DatePicker.SnapYear | expoTest/src/pages/EducationSchedule.jsx:68-74 | the year becomes the list entry at the snapped index, the month is kept and the day is re-clamped, keeping a valid date |
| Schedule.DatePicker.SnapMonth | expoTest/src/pages/EducationSchedule.jsx:68-74 | the month becomes the list entry at the snapped index, the year is kept and the day is re-clamped, keeping a valid date |
| Schedule.DatePicker.SnapDay | expoTest/src/pages/EducationSchedule.jsx:68-74 | the day becomes the list entry at the snapped index and the year and month are kept |
| Schedule.NewEvent | expoTest/src/pages/EducationSchedule.jsx:181-191 | all-day exactly without times; the start is the date, or the date, "T" and the start time (default 00:00); an end only with an end time; " · " and the location appended to the title only for a non-empty location |
| Schedule.StartCarriesDate | expoTest/src/pages/EducationSchedule.jsx:181-182 | every start begins with the date, and it is the bare date exactly for an all-day event |
| Schedule.WithoutId | expoTest/src/pages/EducationSchedule.jsx:174 | deletion keeps exactly the events with another id |
| Schedule.WithoutIdKeepsOrder | expoTest/src/pages/EducationSchedule.jsx:174 | deletion distributes over concatenation, so the remaining events keep their order |
| Schedule.SaveThenDeleteRestores | expoTest/src/pages/EducationSchedule.jsx:174 | deleting an event just saved under a fresh id gives back the earlier list |
| Schedule.EventBoard.constructor | expoTest/src/pages/EducationSchedule.jsx:151 | the calendar starts with no events |
| Schedule.EventBoard.SaveEvent | expoTest/src/pages/EducationSchedule.jsx:178-194 | a title that trims to nothing saves nothing and leaves the list unchanged; otherwise exactly the new event is appended and the others are untouched |
| Schedule.EventBoard.HandleEventClick | expoTest/src/pages/EducationSchedule.jsx:171-176 | once confirmed every event with the clicked id is removed; unconfirmed, nothing changes |
| Roster.HeaderField | expoTest/src/components/ExcelUploader.jsx:5-11 | every alias stands for one of the five field names |
| Roster.NormalizeHeader | expoTest/src/components/ExcelUploader.jsx:29 | a header is trimmed, then replaced by the field its trimmed text is an alias of, or kept as the trimmed text |
| Roster.NormalizeIdempotent | expoTest/src/components/ExcelUploader.jsx:29 | normalising a normalised header changes nothing |
| Roster.RequiredColumnsRecognised | expoTest/src/components/ExcelUploader.jsx:5-12 | a column counts as the employee number exactly for the trimmed headers 사번, 사원번호, 번호 or empNo, and as the name exactly for 이름, 성명 or name |
| Roster.MissingColumns | expoTest/src/components/ExcelUploader.jsx:32 | the missing list is "empNo" then "name", each present exactly when that column is absent from the index, so it is empty exactly when both are present |
| Roster.KeptRows | expoTest/src/components/ExcelUploader.jsx:40 | a data row is kept exactly when one of its cells is not blank |
| Roster.KeptRowsInOrder | expoTest/src/components/ExcelUploader.jsx:40 | dropping blank rows distributes over concatenation, so kept rows stay in sheet order |
| Roster.FormatRow | expoTest/src/components/ExcelUploader.jsx:41-47 | each of the five fields is already trimmed, is the trimmed cell of its column when the row reaches that column, and is empty otherwise |
| Roster.FieldsTrimmed | expoTest/src/components/ExcelUploader.jsx:42-46 | every field is trimmed, a field without a column is empty, and a field whose column the row reaches is the trimmed cell |
| Roster.ValidEmail | expoTest/src/components/ExcelUploader.jsx:52 | the email check reads the text at its first "@": a non-empty run without whitespace or "@" before it, and after it a run of at least three such characters with a "." neither first nor last |
| Roster.ValidPhone | expoTest/src/components/ExcelUploader.jsx:53 | the phone check accepts at least eight characters, each a digit, "-", "+", a parenthesis or a space |
| Roster.ValidEmailMatchesPattern | expoTest/src/components/ExcelUploader.jsx:52 | the email check accepts exactly the texts of the shape run, "@", run, ".", run with every run non-empty and free of whitespace and "@" |
| Roster.ValidEmailSplits | expoTest/src/components/ExcelUploader.jsx:52 | an accepted address splits as the pattern requires |
| Roster.SplitIsValidEmail | expoTest/src/components/ExcelUploader.jsx:52 | an address that splits as the pattern requires is accepted |
| Roster.EmailAccepted | expoTest/src/components/ExcelUploader.jsx:52 | a plain address passes the email check |
| Roster.EmailNeedsDot | expoTest/src/components/ExcelUploader.jsx:52 | an address without a dot after the "@" fails |
| Roster.EmailNeedsLocalPart | expoTest/src/components/ExcelUploader.jsx:52 | an address with nothing before the "@" fails |
| Roster.EmailNeedsDomain | expoTest/src/components/ExcelUploader.jsx:52 | an address whose dot directly follows the "@" fails |
| Roster.PhoneSamples | expoTest/src/components/ExcelUploader.jsx:53 | numbers of eight or more digits, dashes, pluses, parentheses and spaces pass; seven characters or a letter fail |
| Roster.CheckRowAppends | expoTest/src/components/ExcelUploader.jsx:50-54 | the three pushes for one row append exactly that row's problems, in order |
| Roster.Validate | expoTest/src/components/ExcelUploader.jsx:49-54 | the validation loop produces the problem list its specification function describes |
| Roster.ValidationPerRow | expoTest/src/components/ExcelUploader.jsx:50-54 | a problem is reported exactly when it names the line of an existing row and that row has it |
| Roster.RowFlags | expoTest/src/components/ExcelUploader.jsx:51-53 | kept row i is reported at line i+2 for a missing number or name, a malformed non-empty email, or a malformed non-empty phone, each exactly when it has that fault |
| Roster.RowErrorsFlags | expoTest/src/components/ExcelUploader.jsx:51-53 | one row's problems are exactly its three faults, each tagged with its line |
| Roster.Import | expoTest/src/components/ExcelUploader.jsx:28 | loading fails before touching any state exactly when the sheet has no rows at all |
| Roster.ImportData | expoTest/src/components/ExcelUploader.jsx:32-57 | with a required column missing the result is exactly one problem listing the missing names and no rows |
| Roster.ImportKeepsRows | expoTest/src/components/ExcelUploader.jsx:39-57 | with both required columns present the imported rows are the non-blank sheet rows formatted one for one, in order, and the problems are the validation of exactly those rows |
| Roster.HeaderOnlyImportsNothing | expoTest/src/components/ExcelUploader.jsx:39-57 | with both required columns and only blank data rows, nothing is imported and nothing reported |
| Roster.Uploader.constructor | expoTest/src/components/ExcelUploader.jsx:15-16 | the uploader starts with no rows and no problems |
| Roster.Uploader.OnLoad | expoTest/src/components/ExcelUploader.jsx:23-58 | an empty sheet leaves rows and problems as they were; any other sheet sets both to the import's result |
| Api.CreatePayload | expoTest/src/lib/api.js:45-56 | all-day exactly when neither time is given; the start is the date, or the date, "T" and the start time (default 00:00); an end exactly with an end time; the other fields passed through |
| Api.PayloadAgreesWithSaveEvent | expoTest/src/lib/api.js:46-51 | the posted payload and the calendar's saved event agree on start, end and all-day for the same inputs, and their titles agree exactly when no location is given |
| Api.TimedPayloadOnDate | expoTest/src/lib/api.js:49-50 | a timed start, and an end when present, begin with the date and "T" |
| Api.QueryParams | expoTest/src/lib/api.js:5-7 | at most two parameters are sent, none of them empty |
| Api.Param | expoTest/src/lib/api.js:6-7 | a parameter reads as absent exactly when none has the name, and otherwise as the value of the first parameter with that name |
| Api.QueryReadsBack | expoTest/src/lib/api.js:6-7 | the start and end parameters read back as the given bounds, are absent exactly when their bound is empty, and no other parameter is sent |
| Api.Member | expoTest/src/lib/api.js:10 | a member is absent exactly when no member has the name, and otherwise is one of the object's members |
| Api.MemberLastWins | expoTest/src/lib/api.js:10 | when a name repeats in the body, the value read is the last one |
| Api.ReadList | expoTest/src/lib/api.js:9-11 | an error status fails with the operation's message, a null body fails, and every other body yields a list |
| Api.ReadListFallback | expoTest/src/lib/api.js:11 | a successful read yields the array under the key, and the empty list exactly when the key is missing or holds something else |
| Api.ReadListRoundTrip | expoTest/src/lib/api.js:10-11 | a list sent under the key reads back unchanged |
| Api.ReadListIgnoresOthers | expoTest/src/lib/api.js:10-11 | other members of the body do not change what is read |
| Api.GetEvents | expoTest/src/lib/api.js:4-12 | the query sent is exactly the period query, whose start and end parameters read back as the given bounds and are absent exactly for empty bounds; the result is the `events` read, so an error status fails with its message, a null body fails, and otherwise the array under `events` or the empty list is returned |
| Api.ListEvents | expoTest/src/lib/api.js:15-22 | the result is the `events` read with its own failure message: an error status fails with that message, a null body fails, and an ok response gives what `getEvents` reads, the array under `events` or the empty list |
| Api.ListEmployees | expoTest/src/lib/api.js:35-42 | the result is the `employees` read: an error status fails with its message, a null body fails, an array under `employees` is returned, and any other body, an array or an object without such an array, yields the empty list |

## Left out

- Rendering: JSX, Tailwind classes, column widths, the FullCalendar widget, the home page, routing and the employee management page.
- Network and browser I/O: `fetch`, `axios`, `sendToServer`, `FileReader`, `XLSX.read` and `sheet_to_json`, `localStorage`, `alert`. A response is an input already parsed as JSON; malformed JSON is not modelled. `confirm` is a boolean input of `HandleEventClick`.
- Async orchestration: `Promise.all`, the mock `sleep`, `useEffect` ordering and the scroll debounce timers.
- `getEventDetail` and `deleteEvent` of the client library only fetch and throw; they hold no rule beyond `ReadList`'s status check and are not modelled.
- Progress.AvgPercent: computed on exact rationals with round-half-up, not in doubles; double rounding and tie-breaking are not reproduced. The same holds for Progress.OverallPercent, Progress.PersonProgressOf and Progress.ViewOf.
- Progress.BuildGlobalProgress: the table's key order is first-seen order. `Object.values` lists integer-like keys first, in ascending order; this changes only the order of the values, and the mean over exact rationals does not depend on it.
- The mock `listEvents` sort by `new Date(start)`: it depends on date-string parsing.
- `fmtDateTime` and the other locale formatting.
- Schedule.SnapIndex: the scroll offset is an exact real; pixel scrolling and `scrollTo` are not modelled.
- Schedule.DatePicker.constructor: requires minYear ≤ maxYear (the component's defaults are 2020 and 2035) and a month and day as a `Date` yields them; with an inverted range the year list is empty.
- Schedule.DaysInMonth: the picker passes years from 2020 to 2035; the model follows `MakeFullYear` for years 0 to 99 but does not model the `Date` range limit of ±8.64e15 ms.
- Event ids made from `Date.now()` and `Math.random()`: the id is an input, assumed fresh where a lemma says so.
- `capacity: Number(capacity)`: the string-to-number conversion is not modelled and the field is left out of the payload.
- Api.CreatePayload: a field that is `undefined` in JavaScript (and dropped by `JSON.stringify`) is the empty string here, except `end`, which is an absent option.
- Progress.BuildGlobalProgress: the counter table `byEmp` is a plain object. For an id naming an inherited property (`constructor`, `toString`, `__proto__`), `??=` finds that property and creates no counter, and the increment lands on the inherited value, so the id is missing from `Object.values`. The model's table is a map with no inherited keys, and `CountersSumToTotals` holds only for ids that are not such names. Ids are strings; a number is coerced to its decimal text as a key. The same applies to Progress.PersonProgressOf, which reads `byEmp[empNo]`, and Progress.Directory, whose `empMap` lookup returns an inherited value for such an id instead of the placeholder.
- Roster.HeaderField: `headerMap` is a plain object, so a header such as `constructor` would find an inherited property; only the twelve listed aliases are modelled.
- Roster: cells are text; `String(v)` of numbers, dates and booleans produced by the spreadsheet parser is not modelled. Problems are constructors rather than the Korean message texts.
